/**
 The engine: `compile`, `step`, `advance` and `getrnge` with the globals they share.
 Reads of the subject go through `At`, so that every one is at or before the terminator.
 */
module Regexp {
  import opened Bits
  import opened Pattern
  import opened Code
  import opened Semantics
  import opened Search
  import opened Exec
  import opened Syntax
  import opened Overrun
  import opened BracketCode
  import opened Compiler

  /** `strncmp(s + a, s + b, n) == 0` on a NUL-terminated string. */
  predicate SamePrefix(s: cstring, a: nat, b: nat, n: nat)
    requires a <= |s| && b <= |s|
    decreases n
  {
    n == 0 || (At(s, a) == At(s, b) && (At(s, a) == 0 || SamePrefix(s, a + 1, b + 1, n - 1)))
  }

  /** Comparing with a capture never reads past the terminator and decides `Copy`. */
  lemma {:induction false} SamePrefixIsCopy(s: cstring, a: nat, b: nat, n: nat)
    requires a + n <= |s| && b <= |s|
    ensures SamePrefix(s, a, b, n) == Copy(s, Span(a, a + n), b)
    decreases n
  {
    if n == 0 {
    } else {
      CopyUnfolds(s, a, b, n);
      if At(s, a) == At(s, b) {
        SamePrefixIsCopy(s, a + 1, b + 1, n - 1);
      }
    }
  }

  lemma CopyUnfolds(s: cstring, a: nat, b: nat, n: nat)
    requires 0 < n && a + n <= |s| && b <= |s|
    ensures Copy(s, Span(a, a + n), b) <==> b < |s| && s[a] == s[b] && Copy(s, Span(a + 1, a + n), b + 1)
  {
    var x, y := s[a..a + n], s[a + 1..a + n];
    assert x[0] == s[a] && x[1..] == y;
    if b + n <= |s| {
      var x', y' := s[b..b + n], s[b + 1..b + n];
      assert x'[0] == s[b] && x'[1..] == y';
      if s[a] == s[b] && y == y' {
        assert x == [s[a]] + y && x' == [s[b]] + y';
      }
    }
  }

  /** `ecmp(s + a, s + b, n)` */
  method Ecmp(s: cstring, a: nat, b: nat, n: nat) returns (same: bool)
    requires a + n <= |s| && b <= |s|
    ensures same == Copy(s, Span(a, a + n), b)
  {
    SamePrefixIsCopy(s, a, b, n);
    same := SamePrefix(s, a, b, n);
  }

  /** What `Laps` answers once the loop has ended. */
  const ENDED := -1

  /** Where `while (ecmp(bbeg, lp, ct)) lp += ct;` stands after `n` turns, if it takes that many. */
  function Laps(s: cstring, bbeg: nat, ct: nat, lp: nat, n: nat): int
    requires bbeg + ct <= |s| && lp <= |s|
    decreases n
  {
    if n == 0 then lp
    else
      SamePrefixIsCopy(s, bbeg, lp, ct);
      if SamePrefix(s, bbeg, lp, ct) then Laps(s, bbeg, ct, lp + ct, n - 1) else ENDED
  }

  lemma {:induction false} EmptyLaps(s: cstring, bbeg: nat, lp: nat, n: nat)
    requires bbeg <= |s| && lp <= |s|
    ensures Laps(s, bbeg, 0, lp, n) == lp
    decreases n
  {
    if n == 0 {
    } else {
      EmptyLaps(s, bbeg, lp, n - 1);
    }
  }

  lemma {:induction false} LapsThenEnds(s: cstring, bbeg: nat, ct: nat, lp: nat)
    requires 0 < ct && bbeg + ct <= |s| && lp <= |s|
    ensures var n := CopyRun(s, Span(bbeg, bbeg + ct), lp);
            Laps(s, bbeg, ct, lp, n) == Land(lp, n, ct) && Laps(s, bbeg, ct, lp, n + 1) == ENDED
    decreases |s| - lp
  {
    var n := CopyRun(s, Span(bbeg, bbeg + ct), lp);
    SamePrefixIsCopy(s, bbeg, lp, ct);
    if n == 0 {
    } else {
      LapsThenEnds(s, bbeg, ct, lp + ct);
      LandShift(lp, n - 1, ct);
    }
  }

  /** The loop ends if and only if the capture is not empty; else it stays where it is. */
  lemma LoopEndsIff(s: cstring, bbeg: nat, ct: nat, lp: nat)
    requires bbeg + ct <= |s| && lp <= |s|
    ensures (exists n: nat :: Laps(s, bbeg, ct, lp, n) == ENDED) <==> ct > 0
    ensures ct == 0 ==> forall n: nat :: Laps(s, bbeg, ct, lp, n) == lp
  {
    if ct > 0 {
      LapsThenEnds(s, bbeg, ct, lp);
    } else {
      forall n: nat ensures Laps(s, bbeg, ct, lp, n) == lp {
        EmptyLaps(s, bbeg, lp, n);
      }
    }
  }

  /** The code-level test `t` decides acceptance by the atom `h`. */
  ghost predicate Decides(code: seq<byte>, t: Test, h: Head) {
    TestFits(code, t) && forall c: byte :: Passes(code, t, c) == Accepts(h, c)
  }

  lemma ItemDecides(code: seq<byte>, ep: nat, it: Item)
    requires Supported(it) && IsSingle(it.head)
    requires ep + Size(it) <= |code| && IsItem(code[ep..ep + Size(it)], it)
    ensures Decides(code, TestFor(it.head, ep + 1), it.head)
    ensures forall c: byte :: Misses(code, TestFor(it.head, ep + 1), c) <==> !Accepts(it.head, c)
  {
    forall c: byte
      ensures TestFits(code, TestFor(it.head, ep + 1))
      ensures Passes(code, TestFor(it.head, ep + 1), c) == Accepts(it.head, c)
    {
      PassesIsAccepts(code, ep, it, c);
    }
    PassesIsAccepts(code, ep, it, 0);
  }

  /** The starred loops `while (test(*lp++));`: they stop one past the maximal run. */
  method Sweep(s: cstring, code: seq<byte>, t: Test, lp0: nat, ghost h: Head) returns (lp: nat)
    requires lp0 <= |s| && Decides(code, t, h)
    ensures lp == lp0 + MaxRun(s, h, lp0) + 1
  {
    lp := lp0;
    var c := At(s, lp);
    lp := lp + 1;
    while Passes(code, t, c)
      invariant lp0 < lp <= |s| + 1 && c == At(s, lp - 1)
      invariant MaxRun(s, h, lp0) == lp - 1 - lp0 + MaxRun(s, h, lp - 1)
      decreases |s| + 1 - lp
    {
      c := At(s, lp);
      lp := lp + 1;
    }
  }

  lemma NothingLeft(env: Env, rest: seq<Item>, i: nat, low: nat, high: int, r: Regs)
    requires ValidRegs(r) && high < low
    ensures RunDown(env, rest, i, 1, low, high, r) == Result(No, r)
  {
  }

  /** The lowest position that the descent at `star:` tries. */
  function Floor(curlp: nat, lp: nat, locs: int): nat {
    if curlp <= locs < lp then locs + 1 else curlp
  }

  /** The item whose code lies first in a program for `items`. */
  ghost function Really(items: seq<Item>, nul: bool): Item
    requires items != []
  {
    if nul && |items| == 1 then NUL_LITERAL else items[0]
  }

  function PastFound(nul: bool, f: Found): Found {
    if nul && f.v == Yes then f.(regs := f.regs.(loc2 := f.regs.loc2 + 1)) else f
  }

  class Engine {
    const braslist: array<int>
    const braelist: array<int>
    var loc1: int
    var loc2: int
    var locs: int
    var circf: int
    var nbra: int
    var sed: bool
    var nodelim: bool
    var low: int
    var size: int

    ghost predicate Valid() {
      braslist.Length == NBRA && braelist.Length == NBRA && braslist != braelist
    }

    ghost function Registers(): (r: Regs)
      requires Valid()
      reads this, braslist, braelist
      ensures ValidRegs(r)
    {
      Regs(braslist[..], braelist[..], loc2)
    }

    /** The arrays hold what the path recorded, and the program uses nothing else. */
    ghost predicate Ready(s: cstring, i: nat, items: seq<Item>, caps: Caps)
      requires Valid()
      reads this, braslist, braelist
    {
      InScope(items, caps) && InOrder(Env(s, locs), caps, i) && Agrees(Registers(), caps)
    }

    constructor (sed: bool)
      ensures Valid() && fresh(braslist) && fresh(braelist)
      ensures this.sed == sed && locs == -1 && circf == 0
    {
      braslist := new int[NBRA];
      braelist := new int[NBRA];
      this.sed := sed;
      locs, circf, nodelim := -1, 0, false;
    }

    /**
     The compiler. The buffer ends up holding the program for the items that the text
     denotes, or the text is rejected with the error that reading it ends with. Nothing
     before `start` or after `endbuf` is written, at `endbuf` exactly what the text spills,
     and for a program nothing but the program, which ends before `endbuf`.
     */
    method Compile(text: seq<byte>, buf: array<byte>, start: nat, endbuf: nat, eof: byte) returns (turn: Turn)
      requires start < buf.Length && HasRoom(buf.Length, endbuf, TextSpill(text, eof, sed, endbuf - start))
      modifies `circf, `nbra, `nodelim, buf
      ensures match Parse(text, eof, sed, endbuf - start, old(buf[start]))
              case Rejected(code) => turn == Error(code)
              case Unchanged(pos, newline) =>
                && turn == Return(start, pos, newline) && buf[..] == old(buf[..])
                && circf == old(circf) && nbra == old(nbra)
              case Accepted(items, anchored, n, pos, newline) =>
                && turn == Return(start + TotalSize(items) + 1, pos, newline) && turn.ep <= endbuf
                && Program(buf[..], start, items)
                && circf == (if anchored then 1 else 0) && nbra == n
      ensures turn.Return? ==> nodelim == (old(nodelim) || turn.newline)
      ensures turn.Return? ==> OnlyWithin(old(buf[..]), buf[..], start, turn.ep)
      ensures Wrote(old(buf[..]), buf[..], start, endbuf, TextSpill(text, eof, sed, endbuf - start))
    {
      var c := Get(text, 0);
      if c == eof || c == NEWLINE {
        if c == NEWLINE {
          nodelim := true;
        }
        if buf[start] == 0 && !sed {
          return Error(41);
        }
        return Return(start, if c == NEWLINE then 0 else 1, c == NEWLINE);
      }
      circf, nbra := if c == CARET then 1 else 0, 0;
      var bracket := new byte[NBRA];
      var l := Locals(if c == CARET then 1 else 0, start, -1, 0, 0, 0);
      turn, nbra := Loop(text, buf, bracket, l, start, endbuf, eof, sed, c == CARET);
      if turn.Return? && turn.newline {
        nodelim := true;
      }
    }

    method GetRange(code: seq<byte>, at: nat)
      requires at + 1 < |code|
      modifies `low, `size
      ensures low == code[at]
      ensures if code[at + 1] == 255 then size == 20000 else low + size == code[at + 1]
    {
      low := code[at];
      size := if code[at + 1] == 255 then 20000 else code[at + 1] - low;
    }

    /**
     The interval loops: at least `low` characters, then up to `size` more. `lp` ends one
     past the last position that the descent is to try.
     */
    method Repeat(s: cstring, code: seq<byte>, t: Test, at: nat, lp0: nat, ghost h: Head)
      returns (ok: bool, curlp: nat, lp: nat)
      requires lp0 <= |s| && Decides(code, t, h)
      requires at + 1 < |code| && code[at] <= code[at + 1]
      modifies `low, `size
      ensures ok <==> code[at] <= MaxRun(s, h, lp0)
      ensures ok ==> curlp == lp0 + code[at]
      ensures ok && code[at + 1] == 255 ==> lp == lp0 + code[at] + Min(MaxRun(s, h, lp0) - code[at], 20000) + 1
      ensures ok && code[at + 1] < 255 ==> lp == lp0 + Min(MaxRun(s, h, lp0), code[at + 1]) + 1
    {
      GetRange(code, at);
      ghost var run := MaxRun(s, h, lp0);
      ok, curlp, lp := true, lp0, lp0;
      while low != 0
        invariant 0 <= low <= code[at]
        invariant if code[at + 1] == 255 then size == 20000 else code[at] + size == code[at + 1]
        invariant lp == lp0 + (code[at] - low) <= |s|
        invariant run == lp - lp0 + MaxRun(s, h, lp)
        decreases low
      {
        low := low - 1;
        var c := At(s, lp);
        lp := lp + 1;
        MissesIsNotPasses(code, t, c);
        if Misses(code, t, c) {
          ok := false;
          return;
        }
      }
      low := low - 1;
      curlp := lp;
      lp := More(s, code, t, lp, h);
    }

    /** The second loop, `while (size--) if (!test(*lp++)) break; if (size < 0) lp++;`. */
    method More(s: cstring, code: seq<byte>, t: Test, lp0: nat, ghost h: Head) returns (lp: nat)
      requires lp0 <= |s| && Decides(code, t, h) && size >= 0
      modifies `size
      ensures lp == lp0 + Min(old(size), MaxRun(s, h, lp0)) + 1
    {
      lp := lp0;
      ghost var run := MaxRun(s, h, lp0);
      var stopped := false;
      while size != 0
        invariant 0 <= size <= old(size) && lp == lp0 + (old(size) - size) <= |s|
        invariant run == lp - lp0 + MaxRun(s, h, lp)
        decreases size
      {
        size := size - 1;
        var c := At(s, lp);
        lp := lp + 1;
        MissesIsNotPasses(code, t, c);
        if Misses(code, t, c) {
          stopped := true;
          break;
        }
      }
      if !stopped {
        size := size - 1;
      }
      if size < 0 {
        lp := lp + 1;
      }
    }

    /**
     The cases that consume one opcode and go round the loop: CCHR, CDOT, CDOL, CXCL,
     NCCL, CCL, CBRA, CKET and CBACK. Their items offer a single count or none.
     */
    method MatchOne(s: cstring, code: seq<byte>, lp0: nat, ep0: nat, ghost items: seq<Item>, ghost caps: Caps,
                    ghost nul: bool)
      returns (ok: bool, lp: nat, ep: nat)
      requires Valid() && items != [] && Coded(code, ep0, items, nul)
      requires Ready(s, lp0, items, caps)
      requires !Repeated(items[0])
      modifies braslist, braelist
      ensures ep == ep0 + Size(Really(items, nul))
      ensures Registers() == Store(items[0].head, lp0, old(Registers()))
      ensures var c := ChoicesAt(Env(s, locs), items[0], lp0, RegSpan(Env(s, locs), old(Registers()), items[0].head));
              && c.Counts? && (ok <==> c.low == c.high) && (!ok ==> c.high < c.low)
              && (ok ==> lp == Land(lp0, c.low, c.stride) + if nul && |items| == 1 then 1 else 0)
    {
      ghost var it := Really(items, nul);
      OpcodeValue(it);
      assert code[ep0] == code[ep0..ep0 + Size(it)][0];
      lp, ep := lp0, ep0 + 1;
      var op := code[ep0];
      if op == CDOL {
        ok := At(s, lp) == 0;
      } else if op == CBRA {
        assert code[ep] == code[ep0..ep0 + Size(it)][1];
        braslist[code[ep]] := lp;
        ep := ep + 1;
        ok := true;
      } else if op == CKET {
        assert code[ep] == code[ep0..ep0 + Size(it)][1];
        braelist[code[ep]] := lp;
        ep := ep + 1;
        ok := true;
      } else if op == CBACK {
        assert code[ep] == code[ep0..ep0 + Size(it)][1];
        ok, lp := MatchBack(s, lp, code[ep], items, caps);
        ep := ep + 1;
      } else {
        ok, lp, ep := MatchChar(s, code, lp, ep0, it);
        if it == items[0] {
          PlainCounts(Env(s, locs), it, lp0);
        }
      }
    }

    /** CBACK: the text that group `g` captured, once more. */
    method MatchBack(s: cstring, lp0: nat, g: byte, ghost items: seq<Item>, ghost caps: Caps)
      returns (ok: bool, lp: nat)
      requires Valid() && items != [] && items[0].head == Ref(g) && !Repeated(items[0])
      requires Ready(s, lp0, items, caps)
      ensures var c := ChoicesAt(Env(s, locs), items[0], lp0, RegSpan(Env(s, locs), Registers(), items[0].head));
              && c.Counts? && (ok <==> c.low == c.high) && (!ok ==> c.high < c.low)
              && (ok ==> lp == Land(lp0, c.low, c.stride))
    {
      ReferencesReadThePath(Env(s, locs), items, lp0, Registers(), caps);
      var bbeg := braslist[g];
      var ct := braelist[g] - bbeg;
      lp := lp0;
      ok := Ecmp(s, bbeg, lp, ct);
      if ok {
        lp := lp + ct;
      }
    }

    /** CCHR, CDOT, CXCL, NCCL and CCL: one test of one byte. */
    method MatchChar(s: cstring, code: seq<byte>, lp0: nat, ep0: nat, ghost it: Item)
      returns (ok: bool, lp: nat, ep: nat)
      requires lp0 <= |s| && ep0 + Size(it) <= |code| && IsItem(code[ep0..ep0 + Size(it)], it)
      requires Executable(it) && IsSingle(it.head) && !Repeated(it)
      ensures ep == ep0 + Size(it)
      ensures ok <==> MaxRun(s, it.head, lp0) >= 1 || (it.head == Lit(0) && lp0 == |s|)
      ensures ok ==> lp == lp0 + 1
    {
      OpcodeValue(it);
      var c := At(s, lp0);
      PassesIsAccepts(code, ep0, it, c);
      assert code[ep0] == code[ep0..ep0 + Size(it)][0];
      ep := ep0 + 1;
      var op := code[ep0];
      lp := lp0 + 1;
      if op == CCHR {
        assert code[ep] == code[ep0..ep0 + Size(it)][1];
        ok := Passes(code, Equal(code[ep]), c);
        ep := ep + 1;
      } else if op == CDOT {
        ok := Passes(code, NonNul, c);
      } else if op == CXCL {
        ok := Passes(code, Wide(ep), c);
        ep := ep + 32;
      } else {
        ok := Passes(code, Narrow(ep, op == NCCL), c);
        ep := ep + 16;
      }
    }

    /**
     The eight labels that end in `goto star`. On success the descent is to try the
     positions from `lp - 1` down to `curlp`.
     */
    method Spread(s: cstring, code: seq<byte>, lp0: nat, ep0: nat, ghost it: Item)
      returns (ok: bool, curlp: nat, lp: nat, ep: nat)
      requires lp0 <= |s| && ep0 + Size(it) <= |code| && IsItem(code[ep0..ep0 + Size(it)], it)
      requires Supported(it) && IsSingle(it.head) && Repeated(it)
      modifies `low, `size
      ensures ok <==> MinCount(it) <= TopCount(it, MaxRun(s, it.head, lp0))
      ensures ok ==> ep == ep0 + Size(it) && curlp == lp0 + MinCount(it)
      ensures ok ==> lp == lp0 + TopCount(it, MaxRun(s, it.head, lp0)) + 1
    {
      OpcodeValue(it);
      ItemDecides(code, ep0, it);
      var op := code[ep0];
      assert op == code[ep0..ep0 + Size(it)][0];
      var t, operand := TestAt(code, ep0, it);
      ep := ep0 + 1;
      if op == CCHR + RNGE || op == CDOT + RNGE || op == CXCL + RNGE || op == NCCL + RNGE || op == CCL + RNGE {
        OneInterval(code, ep0, it);
        ok, curlp, lp := Repeat(s, code, t, ep + operand, lp0, it.head);
        ep := ep + operand + 2;
      } else {
        ok, curlp := true, lp0;
        lp := Sweep(s, code, t, lp0, it.head);
        ep := ep + operand;
      }
    }

    /** The test and operand size that go with an opcode. */
    static method TestAt(code: seq<byte>, ep: nat, ghost it: Item) returns (t: Test, operand: nat)
      requires ep + Size(it) <= |code| && IsItem(code[ep..ep + Size(it)], it)
      requires Supported(it) && IsSingle(it.head)
      ensures t == TestFor(it.head, ep + 1) && operand == OperandSize(it.head)
    {
      OpcodeValue(it);
      var op := code[ep];
      assert op == code[ep..ep + Size(it)][0];
      if op == CCHR || op == CCHR + STAR || op == CCHR + RNGE {
        assert code[ep + 1] == code[ep..ep + Size(it)][1];
        t, operand := Equal(code[ep + 1]), 1;
      } else if op == CDOT || op == CDOT + STAR || op == CDOT + RNGE {
        t, operand := NonNul, 0;
      } else if op == CXCL || op == CXCL + STAR || op == CXCL + RNGE {
        t, operand := Wide(ep + 1), 32;
      } else {
        t, operand := Narrow(ep + 1, op == NCCL || op == NCCL + STAR || op == NCCL + RNGE), 16;
      }
    }

    /** One attempt of a descent, at its highest position, leaves the descent below it. */
    method Try(s: cstring, code: seq<byte>, lp: nat, ep: nat, ghost i: nat, ghost stride: nat, ghost low: nat,
               ghost n: nat, ghost rest: seq<Item>, ghost caps: Caps, ghost nul: bool)
      returns (v: Verdict)
      requires Valid() && Coded(code, ep, rest, nul)
      requires Ready(s, i, rest, caps)
      requires lp == Land(i, n, stride) <= |s| && low <= n
      modifies `loc2, `low, `size, braslist, braelist
      ensures var x := RunDown(Env(s, locs), rest, i, stride, low, n, old(Registers()));
              if v == No then
                x == RunDown(Env(s, locs), rest, i, stride, low, n - 1, Registers()) && Ready(s, i, rest, caps)
              else
                Result(v, Registers()) == Past(nul, x)
      decreases |rest|, 1
    {
      RunRefinesFind(Env(s, locs), rest, lp, Registers(), caps);
      v := Advance(s, code, lp, ep, rest, caps, nul);
    }

    /**
     The code at `star:`. Step back, stop at `locs`, try the rest, down to `curlp`: the
     positions above `locs` from `lp0 - 1` down.
     */
    method Star(s: cstring, code: seq<byte>, curlp: nat, lp0: nat, ep: nat, ghost i: nat, ghost rest: seq<Item>,
                ghost caps: Caps, ghost nul: bool, ghost goal: Result)
      returns (v: Verdict)
      requires Valid() && Coded(code, ep, rest, nul)
      requires Ready(s, i, rest, caps)
      requires i <= curlp < lp0 <= |s| + 1
      requires goal == RunDown(Env(s, locs), rest, i, 1, Floor(curlp, lp0, locs) - i, lp0 - 1 - i, Registers())
      modifies `loc2, `low, `size, braslist, braelist
      ensures Result(v, Registers()) == Past(nul, goal)
      decreases |rest|, 2
    {
      ghost var env := Env(s, locs);
      ghost var bottom := Floor(curlp, lp0, locs) - i;
      ghost var n: int := lp0 - 1 - i;
      var lp := lp0;
      while true
        invariant curlp < lp <= lp0 && n == lp - 1 - i
        invariant locs == old(locs) && Ready(s, i, rest, caps)
        invariant goal == RunDown(env, rest, i, 1, bottom, n, Registers())
        invariant bottom <= n + 1
        decreases lp
      {
        lp := lp - 1;
        if lp == locs {
          NothingLeft(env, rest, i, bottom, n, Registers());
          return No;
        }
        v := Try(s, code, lp, ep, i, 1, bottom, n, rest, caps, nul);
        if v != No {
          return;
        }
        n := n - 1;
        if !(lp > curlp) {
          NothingLeft(env, rest, i, bottom, n, Registers());
          return No;
        }
      }
    }

    /**
     CBACK | STAR: as many copies of the capture as there are, then fewer. For an empty
     capture the first loop does not end, and the model answers `Stuck`.
     */
    method StarRef(s: cstring, code: seq<byte>, bbeg: nat, ct: nat, curlp: nat, ep: nat,
                   ghost rest: seq<Item>, ghost caps: Caps, ghost nul: bool, ghost goal: Result)
      returns (v: Verdict)
      requires Valid() && Coded(code, ep, rest, nul)
      requires Ready(s, curlp, rest, caps)
      requires bbeg + ct <= |s|
      requires goal == CopyDown(Env(s, locs), rest, curlp, bbeg, ct, Registers())
      modifies `loc2, `low, `size, braslist, braelist
      ensures Result(v, Registers()) == Past(nul, goal)
      decreases |rest|, 3
    {
      var ended, last := CopiesOf(s, bbeg, ct, curlp);
      if !ended {
        return Stuck;
      }
      v := Fewer(s, code, ct, curlp, last, ep, CopyRun(s, Span(bbeg, bbeg + ct), curlp), rest, caps, nul, goal);
    }

    /** `while (lp >= curlp) { ...; lp -= ct; }` */
    method Fewer(s: cstring, code: seq<byte>, ct: nat, curlp: nat, last: nat, ep: nat, ghost most: nat,
                 ghost rest: seq<Item>, ghost caps: Caps, ghost nul: bool, ghost goal: Result)
      returns (v: Verdict)
      requires Valid() && Coded(code, ep, rest, nul)
      requires Ready(s, curlp, rest, caps)
      requires ct > 0 && last == Land(curlp, most, ct) <= |s|
      requires goal == RunDown(Env(s, locs), rest, curlp, ct, 0, most, Registers())
      modifies `loc2, `low, `size, braslist, braelist
      ensures Result(v, Registers()) == Past(nul, goal)
      decreases |rest|, 2
    {
      ghost var env := Env(s, locs);
      var lp: int := last;
      ghost var n: int := most;
      while lp >= curlp
        invariant -1 <= n && lp == (if n < 0 then curlp - ct else Land(curlp, n, ct)) <= |s|
        invariant locs == old(locs) && Ready(s, curlp, rest, caps)
        invariant goal == RunDown(env, rest, curlp, ct, 0, n, Registers())
        decreases lp
      {
        v := Try(s, code, lp, ep, curlp, ct, 0, n, rest, caps, nul);
        if v != No {
          return;
        }
        lp, n := lp - ct, n - 1;
      }
      v := No;
    }

    /**
     `while (ecmp(bbeg, lp, ct)) lp += ct;`. It ends with the maximal number of copies, or
     not at all when there is nothing to copy.
     */
    static method CopiesOf(s: cstring, bbeg: nat, ct: nat, curlp: nat) returns (ended: bool, lp: nat)
      requires bbeg + ct <= |s| && curlp <= |s|
      ensures ended <==> exists k: nat :: Laps(s, bbeg, ct, curlp, k) == ENDED
      ensures ended <==> ct > 0
      ensures ended ==> lp == Land(curlp, CopyRun(s, Span(bbeg, bbeg + ct), curlp), ct) <= |s|
    {
      LoopEndsIff(s, bbeg, ct, curlp);
      ended, lp := ct > 0, curlp;
      if ended {
        lp := PastCopies(s, bbeg, ct, curlp);
      }
    }

    static method PastCopies(s: cstring, bbeg: nat, ct: nat, curlp: nat) returns (lp: nat)
      requires ct > 0 && bbeg + ct <= |s| && curlp <= |s|
      ensures lp == Land(curlp, CopyRun(s, Span(bbeg, bbeg + ct), curlp), ct) <= |s|
    {
      ghost var sp, n := Span(bbeg, bbeg + ct), 0;
      lp := curlp;
      var same := Ecmp(s, bbeg, lp, ct);
      while same
        invariant curlp <= lp <= |s| && lp == Land(curlp, n, ct)
        invariant same == Copy(s, sp, lp)
        invariant CopyRun(s, sp, curlp) == n + CopyRun(s, sp, lp)
        decreases |s| - lp, same
      {
        lp, n := lp + ct, n + 1;
        same := Ecmp(s, bbeg, lp, ct);
      }
    }

    /**
     The matcher. It leaves in the verdict, `loc2` and the capture arrays exactly what the
     run over `items0` leaves. The loop at CBACK | STAR does not end when the capture is
     empty; the model answers `Stuck` there.
     */
    method Advance(s: cstring, code: seq<byte>, lp0: nat, ep0: nat, ghost items0: seq<Item>, ghost caps0: Caps,
                   ghost nul: bool)
      returns (v: Verdict)
      requires Valid() && Coded(code, ep0, items0, nul)
      requires Ready(s, lp0, items0, caps0)
      modifies `loc2, `low, `size, braslist, braelist
      ensures Result(v, Registers()) == Past(nul, Run(Env(s, locs), items0, lp0, old(Registers())))
      decreases |items0|, 0
    {
      var lp: nat, ep: nat := lp0, ep0;
      ghost var items, caps, past := items0, caps0, false;
      ghost var env := Env(s, locs);
      ghost var goal := Run(env, items0, lp0, Registers());
      while true
        invariant locs == old(locs) && |items| <= |items0|
        invariant Stage(s, code, lp, ep, items, caps, nul, past, goal)
        decreases |items|
      {
        if items != [] {
          FirstOpcode(code, ep, items, nul);
        }
        var op := code[ep];
        if op == CCEOF {
          loc2 := lp;
          return Yes;
        }
        if !GoesRound(op) {
          v := Repetition(s, code, lp, ep, items, caps, nul);
          return;
        }
        var ok;
        ok, lp, ep, items, caps, past := GoRound(s, code, lp, ep, items, caps, nul, goal);
        if !ok {
          return No;
        }
      }
    }

    /**
     Where the matcher stands: before the program of `items`, with `goal` what running them
     leaves; or, once past the terminator, before the end of the program.
     */
    ghost predicate Stage(s: cstring, code: seq<byte>, lp: nat, ep: nat, items: seq<Item>, caps: Caps, nul: bool,
                           past: bool, goal: Result)
      requires Valid()
      reads this, braslist, braelist
    {
      if past then
        && nul && items == [] && ep < |code| && code[ep] == CCEOF && lp == |s| + 1
        && goal == Result(Yes, Registers().(loc2 := |s|))
      else
        && Coded(code, ep, items, nul) && Ready(s, lp, items, caps)
        && goal == Run(Env(s, locs), items, lp, Registers())
    }

    /** One opcode that goes round the loop. */
    method GoRound(s: cstring, code: seq<byte>, lp0: nat, ep0: nat, ghost items: seq<Item>, ghost caps: Caps,
                   ghost nul: bool, ghost goal: Result)
      returns (ok: bool, lp: nat, ep: nat, ghost items': seq<Item>, ghost caps': Caps, ghost past: bool)
      requires Valid() && items != [] && !Repeated(items[0])
      requires Stage(s, code, lp0, ep0, items, caps, nul, false, goal)
      modifies braslist, braelist
      ensures if ok then items' == items[1..] && Stage(s, code, lp, ep, items', caps', nul, past, goal)
              else goal == Result(No, Registers())
    {
      ghost var env, r := Env(s, locs), Registers();
      past := nul && |items| == 1;
      CodedStep(code, ep0, items, nul);
      ok, lp, ep := MatchOne(s, code, lp0, ep0, items, caps, nul);
      caps', items' := Note(items[0].head, lp0, caps), items[1..];
      if past {
        EndRuns(env, items, lp0, r);
      } else if ok {
        StepForward(env, items, lp0, lp, r, caps);
      } else {
        NoCount(env, items, lp0, r);
      }
    }

    /** The cases that try several positions and return: starred and interval opcodes. */
    method Repetition(s: cstring, code: seq<byte>, lp0: nat, ep0: nat, ghost items: seq<Item>, ghost caps: Caps,
                      ghost nul: bool)
      returns (v: Verdict)
      requires Valid() && items != [] && Coded(code, ep0, items, nul)
      requires Ready(s, lp0, items, caps)
      requires Repeated(items[0])
      modifies `loc2, `low, `size, braslist, braelist
      ensures Result(v, Registers()) == Past(nul, Run(Env(s, locs), items, lp0, old(Registers())))
      decreases |items| - 1, 5
    {
      OpcodeValue(items[0]);
      assert code[ep0] == code[ep0..ep0 + Size(items[0])][0];
      if code[ep0] == CBACK + STAR {
        v := RepeatRef(s, code, lp0, ep0, items, caps, nul);
      } else {
        v := RepeatAtom(s, code, lp0, ep0, items, caps, nul);
      }
    }

    method RepeatRef(s: cstring, code: seq<byte>, lp0: nat, ep0: nat, ghost items: seq<Item>, ghost caps: Caps,
                     ghost nul: bool)
      returns (v: Verdict)
      requires Valid() && items != [] && Coded(code, ep0, items, nul)
      requires Ready(s, lp0, items, caps)
      requires items[0].head.Ref? && Repeated(items[0])
      modifies `loc2, `low, `size, braslist, braelist
      ensures Result(v, Registers()) == Past(nul, Run(Env(s, locs), items, lp0, old(Registers())))
      decreases |items| - 1, 4
    {
      ghost var goal := Run(Env(s, locs), items, lp0, Registers());
      CodedUnfolds(code, ep0, items, nul);
      RefDescends(Env(s, locs), items, lp0, Registers(), caps);
      assert code[ep0 + 1] == code[ep0..ep0 + Size(items[0])][1];
      var bbeg, ket := braslist[code[ep0 + 1]], braelist[code[ep0 + 1]];
      var ct := ket - bbeg;
      v := StarRef(s, code, bbeg, ct, lp0, ep0 + 2, items[1..], caps, nul, goal);
    }

    method RepeatAtom(s: cstring, code: seq<byte>, lp0: nat, ep0: nat, ghost items: seq<Item>, ghost caps: Caps,
                      ghost nul: bool)
      returns (v: Verdict)
      requires Valid() && items != [] && Coded(code, ep0, items, nul)
      requires Ready(s, lp0, items, caps)
      requires IsSingle(items[0].head) && Repeated(items[0])
      modifies `loc2, `low, `size, braslist, braelist
      ensures Result(v, Registers()) == Past(nul, Run(Env(s, locs), items, lp0, old(Registers())))
      decreases |items| - 1, 4
    {
      ghost var env, r := Env(s, locs), Registers();
      ghost var goal := Run(env, items, lp0, r);
      var ok, curlp, lp, ep := SpreadFor(s, code, lp0, ep0, items, caps, nul, env, r);
      assert Registers() == r;
      if !ok {
        return No;
      }
      v := Star(s, code, curlp, lp, ep, lp0, items[1..], caps, nul, goal);
    }

    /** Where the descent is to go, and what it is to leave. */
    method SpreadFor(s: cstring, code: seq<byte>, lp0: nat, ep0: nat, ghost items: seq<Item>, ghost caps: Caps,
                     ghost nul: bool, ghost env: Env, ghost r: Regs)
      returns (ok: bool, curlp: nat, lp: nat, ep: nat)
      requires items != [] && Coded(code, ep0, items, nul) && IsSingle(items[0].head) && Repeated(items[0])
      requires env.s == s && ValidRegs(r) && InScope(items, caps) && InOrder(env, caps, lp0) && Agrees(r, caps)
      modifies `low, `size
      ensures InScope(items[1..], caps)
      ensures ok ==> Coded(code, ep, items[1..], nul) && lp0 <= curlp < lp <= |s| + 1
      ensures Run(env, items, lp0, r) ==
              if ok then RunDown(env, items[1..], lp0, 1, Floor(curlp, lp, env.locs) - lp0, lp - 1 - lp0, r)
              else Result(No, r)
    {
      CodedUnfolds(code, ep0, items, nul);
      ScopeKept(env, items, lp0, r, caps);
      ok, curlp, lp, ep := Spread(s, code, lp0, ep0, items[0]);
      if ok {
        AtomRun(env, items, lp0, curlp, lp, r);
      } else {
        AtomFails(env, items, lp0, r);
      }
    }

    /**
     The search for a start. Both loops, with and without the check of the first
     character, leave what the plain scan leaves.
     */
    method Step(s: cstring, code: seq<byte>, p1: nat, p2: nat, ghost items: seq<Item>, ghost nul: bool)
      returns (v: Verdict)
      requires Valid() && Coded(code, p2, items, nul) && InFragment(items) && p1 <= |s|
      modifies `loc1, `loc2, `low, `size, braslist, braelist
      ensures Found(v, loc1, Registers()) ==
              PastFound(nul, Start(Env(s, locs), items, circf != 0, p1, old(loc1), old(Registers())))
    {
      if circf != 0 {
        loc1 := p1;
        FreshStart(Env(s, locs), items, p1, Registers());
        v := Advance(s, code, p1, p2, items, NOTHING, nul);
      } else if code[p2] == CCHR {
        v := FirstChar(s, code, p1, p2, items, nul);
      } else {
        v := Regular(s, code, p1, p2, items, nul);
      }
    }

    method Regular(s: cstring, code: seq<byte>, p0: nat, p2: nat, ghost items: seq<Item>, ghost nul: bool)
      returns (v: Verdict)
      requires Valid() && Coded(code, p2, items, nul) && InFragment(items) && p0 <= |s|
      modifies `loc1, `loc2, `low, `size, braslist, braelist
      ensures Found(v, loc1, Registers()) ==
              PastFound(nul, Scan(Env(s, locs), items, p0, old(loc1), old(Registers())))
    {
      ghost var env := Env(s, locs);
      ghost var goal := Scan(env, items, p0, loc1, Registers());
      var p1 := p0;
      while true
        invariant p1 <= |s| && locs == old(locs) && loc1 == old(loc1)
        invariant goal == Scan(env, items, p1, loc1, Registers())
        decreases |s| - p1
      {
        FreshStart(Env(s, locs), items, p1, Registers());
        v := Advance(s, code, p1, p2, items, NOTHING, nul);
        if v == Yes {
          loc1 := p1;
        }
        if v != No || At(s, p1) == 0 {
          return;
        }
        p1 := p1 + 1;
      }
    }

    method FirstChar(s: cstring, code: seq<byte>, p0: nat, p2: nat, ghost items: seq<Item>, ghost nul: bool)
      returns (v: Verdict)
      requires Valid() && Coded(code, p2, items, nul) && InFragment(items) && p0 <= |s|
      requires code[p2] == CCHR
      modifies `loc1, `loc2, `low, `size, braslist, braelist
      ensures Found(v, loc1, Registers()) ==
              PastFound(nul, Scan(Env(s, locs), items, p0, old(loc1), old(Registers())))
    {
      ghost var env := Env(s, locs);
      ghost var goal := Scan(env, items, p0, loc1, Registers());
      StartsWithLiteral(code, p2, items, nul);
      var c := code[p2 + 1];
      var p1 := p0;
      while true
        invariant p1 <= |s| && locs == old(locs) && loc1 == old(loc1)
        invariant goal == Scan(env, items, p1, loc1, Registers())
        decreases |s| - p1
      {
        if At(s, p1) == c {
          FreshStart(Env(s, locs), items, p1, Registers());
          v := Advance(s, code, p1, p2, items, NOTHING, nul);
          if v == Yes {
            loc1 := p1;
          }
          if v != No {
            return;
          }
        } else {
          WrongFirstChar(env, items, nul, c, p1, Registers());
        }
        if At(s, p1) == 0 {
          return No;
        }
        p1 := p1 + 1;
      }
    }
  }

  /** The first opcode of a program tells the item, and whether it is repeated. */
  lemma FirstOpcode(code: seq<byte>, ep: nat, items: seq<Item>, nul: bool)
    requires items != [] && Coded(code, ep, items, nul) && AllSupported(items)
    ensures ep < |code| && code[ep] != CCEOF && (GoesRound(code[ep]) <==> !Repeated(items[0]))
  {
    var it := Really(items, nul);
    OpcodeValue(it);
    assert code[ep] == code[ep..ep + Size(it)][0];
  }

  lemma NoCount(env: Env, items: seq<Item>, i: nat, r: Regs)
    requires items != [] && ValidRegs(r)
    requires var c := ChoicesAt(env, items[0], i, RegSpan(env, r, items[0].head)); c.Counts? && c.high < c.low
    ensures Run(env, items, i, r) == Result(No, Store(items[0].head, i, r))
  {
  }

  lemma EndRuns(env: Env, items: seq<Item>, i: nat, r: Regs)
    requires items == [AT_END] && ValidRegs(r)
    ensures Run(env, items, i, r) == if i == |env.s| then Result(Yes, r.(loc2 := i)) else Result(No, r)
  {
    assert items[1..] == [];
  }

  lemma StartsWithLiteral(code: seq<byte>, ep: nat, items: seq<Item>, nul: bool)
    requires Coded(code, ep, items, nul) && AllSupported(items) && code[ep] == CCHR
    ensures ep + 1 < |code| && items != [] && Really(items, nul) == Item(Lit(code[ep + 1]), false, [])
  {
    var it := Really(items, nul);
    OpcodeValue(it);
    assert code[ep] == code[ep..ep + Size(it)][0];
    assert code[ep + 1] == code[ep..ep + Size(it)][1];
  }

  /** A start whose byte is not the leading literal fails at once and writes nothing. */
  lemma WrongFirstChar(env: Env, items: seq<Item>, nul: bool, c: byte, i: nat, r: Regs)
    requires items != [] && Really(items, nul) == Item(Lit(c), false, []) && ValidRegs(r)
    requires nul && |items| == 1 ==> items[0] == AT_END
    requires i <= |env.s| && At(env.s, i) != c
    ensures Run(env, items, i, r) == Result(No, r)
  {
    if nul && |items| == 1 {
      EndRuns(env, items, i, r);
    } else {
      AtomFails(env, items, i, r);
    }
  }

  /** What follows the first item of a program. */
  lemma CodedStep(code: seq<byte>, ep: nat, items: seq<Item>, nul: bool)
    requires items != [] && Coded(code, ep, items, nul)
    ensures var next := ep + Size(Really(items, nul));
            if nul && |items| == 1 then items == [AT_END] && items[1..] == [] && next < |code| && code[next] == CCEOF
            else Coded(code, next, items[1..], nul)
  {
  }

  /** A program whose first item is repeated does not begin with a NUL literal. */
  lemma CodedUnfolds(code: seq<byte>, ep: nat, items: seq<Item>, nul: bool)
    requires items != [] && Repeated(items[0]) && Coded(code, ep, items, nul)
    ensures ep + Size(items[0]) < |code| && IsItem(code[ep..ep + Size(items[0])], items[0])
    ensures Coded(code, ep + Size(items[0]), items[1..], nul)
  {
  }

  lemma RefDescends(env: Env, items: seq<Item>, i: nat, r: Regs, caps: Caps)
    requires items != [] && items[0].head.Ref? && Repeated(items[0]) && ValidRegs(r)
    requires InScope(items, caps) && InOrder(env, caps, i) && Agrees(r, caps)
    ensures InScope(items[1..], caps)
    ensures var g := items[0].head.g;
            && g < NBRA && 0 <= r.bra[g] <= r.ket[g] <= |env.s|
            && Run(env, items, i, r) == CopyDown(env, items[1..], i, r.bra[g], r.ket[g] - r.bra[g], r)
  {
    ScopeKept(env, items, i, r, caps);
    ReferencesReadThePath(env, items, i, r, caps);
  }

  /** The attempts of a starred reference to the `ct` bytes at `bbeg`. */
  function CopyDown(env: Env, rest: seq<Item>, i: nat, bbeg: nat, ct: nat, r: Regs): Result
    requires ValidRegs(r) && bbeg + ct <= |env.s|
  {
    if ct == 0 then Result(Stuck, r)
    else RunDown(env, rest, i, ct, 0, CopyRun(env.s, Span(bbeg, bbeg + ct), i), r)
  }

  lemma ScopeKept(env: Env, items: seq<Item>, i: nat, r: Regs, caps: Caps)
    requires items != [] && !items[0].head.Open? && !items[0].head.Close? && ValidRegs(r)
    requires InScope(items, caps) && InOrder(env, caps, i) && Agrees(r, caps)
    ensures InScope(items[1..], caps)
  {
    StepKeepsScope(env, items, i, i, r, caps);
  }

  /** The run over a repeated atom is the descent at `star:`. */
  lemma AtomRun(env: Env, items: seq<Item>, i: nat, curlp: nat, lp: nat, r: Regs)
    requires items != [] && IsSingle(items[0].head) && Repeated(items[0]) && ValidRegs(r) && i <= |env.s|
    requires curlp == i + MinCount(items[0]) < lp == i + TopCount(items[0], MaxRun(env.s, items[0].head, i)) + 1
    ensures Run(env, items, i, r) == RunDown(env, items[1..], i, 1, Floor(curlp, lp, env.locs) - i, lp - 1 - i, r)
    ensures lp <= |env.s| + 1
  {
    RunIsMaximal(env.s, items[0].head, i, MaxRun(env.s, items[0].head, i));
    assert BottomCount(env, items[0], i, lp - 1 - i) == Floor(curlp, lp, env.locs) - i;
  }

  lemma AtomFails(env: Env, items: seq<Item>, i: nat, r: Regs)
    requires items != [] && IsSingle(items[0].head) && ValidRegs(r)
    requires TopCount(items[0], MaxRun(env.s, items[0].head, i)) < MinCount(items[0])
    ensures Run(env, items, i, r) == Result(No, r)
  {
  }

  /** An unrepeated atom offers the count 1, or nothing. */
  lemma PlainCounts(env: Env, it: Item, i: nat)
    requires IsSingle(it.head) && !Repeated(it)
    ensures ChoicesAt(env, it, i, NoSpan) == Counts(1, 1, if MaxRun(env.s, it.head, i) >= 1 then 1 else 0)
  {
  }

  /** The opcodes whose case ends in `continue` or `return (0)`. */
  predicate GoesRound(op: byte) {
    || op == CCHR || op == CDOT || op == CDOL || op == CXCL || op == NCCL || op == CCL
    || op == CBRA || op == CKET || op == CBACK
  }

  /** An item with a single count moves the run on to the rest of the program. */
  lemma StepForward(env: Env, items: seq<Item>, i: nat, i': nat, r: Regs, caps: Caps)
    requires items != [] && ValidRegs(r) && InScope(items, caps) && InOrder(env, caps, i) && Agrees(r, caps)
    requires var c := ChoicesAt(env, items[0], i, RegSpan(env, r, items[0].head));
             c.Counts? && c.low == c.high && i' == Land(i, c.low, c.stride)
    ensures i <= i' <= |env.s|
    ensures InScope(items[1..], Note(items[0].head, i, caps))
    ensures InOrder(env, Note(items[0].head, i, caps), i')
    ensures Agrees(Store(items[0].head, i, r), Note(items[0].head, i, caps))
    ensures Run(env, items, i, r) == Run(env, items[1..], i', Store(items[0].head, i, r))
  {
    var it := items[0];
    var sp := RegSpan(env, r, it.head);
    var c := ChoicesAt(env, it, i, sp);
    ChoicesExact(env, it, i, sp, c.low);
    LandsInside(env, it, i, sp, c.low);
    StepKeepsScope(env, items, i, i', r, caps);
    var x := Run(env, items[1..], i', Store(it.head, i, r));
    if x.v == No {
      assert RunDown(env, items[1..], i, c.stride, c.low, c.high - 1, x.regs) == x;
    }
  }

  lemma OneInterval(code: seq<byte>, ep: nat, it: Item)
    requires Supported(it) && it.ranges != []
    requires ep + Size(it) <= |code| && IsItem(code[ep..ep + Size(it)], it)
    ensures var at := ep + 1 + OperandSize(it.head);
            at + 1 < |code| && code[at] == it.ranges[0].lo && code[at + 1] == it.ranges[0].hi
  {
    var x := code[ep..ep + Size(it)];
    var k := 1 + OperandSize(it.head);
    assert x[k] == code[ep + k] && x[k + 1] == code[ep + k + 1];
  }
}
