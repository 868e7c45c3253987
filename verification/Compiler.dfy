/**
 The body of the compiler's loop: one token of the pattern becomes one item in the
 buffer, or a patch to the item before it through `lastep`.
 */
module Compiler {
  import opened Bits
  import opened Pattern
  import opened Code
  import opened Syntax
  import opened Overrun
  import opened BracketCode

  /** The compiler's local variables. */
  datatype Locals = Locals(pos: nat, ep: nat, lastep: int, bracketp: nat, nbra: nat, ended: nat)

  /** How one turn of the loop ends: `continue`, RETURN(ep), or ERROR(code). */
  datatype Turn = Continue(l: Locals) | Return(ep: nat, pos: nat, newline: bool) | Error(code: int)

  /** Where the last item of a program that ends at `ep` starts; -1 stands for NULL. */
  function LastStart(ep: int, items: seq<Item>): int {
    if items == [] then -1 else ep - Size(Last(items))
  }

  /** The items lie from `start` to `ep`, and the last one starts at `lastep`. */
  ghost predicate Laid(b: seq<byte>, start: nat, lastep: int, ep: nat, items: seq<Item>) {
    && start <= ep <= |b| && Emitted(b, start, ep, items)
    && lastep == LastStart(ep, items) && (items == [] || start <= lastep)
  }

  lemma LaidSize(b: seq<byte>, start: nat, lastep: int, ep: nat, items: seq<Item>)
    requires Laid(b, start, lastep, ep, items)
    ensures ep == start + TotalSize(items)
  {
    EmittedSize(b, start, ep, items);
  }

  lemma LaidAppend(b: seq<byte>, b': seq<byte>, start: nat, lastep: int, ep: nat, ep': nat, items: seq<Item>, it: Item)
    requires Laid(b, start, lastep, ep, items)
    requires |b'| == |b| && forall k :: start <= k < ep ==> b'[k] == b[k]
    requires ep < ep' <= |b'| && IsItem(b'[ep..ep'], it)
    ensures Laid(b', start, ep, ep', items + [it])
  {
    EmittedStays(b, b', start, ep, items);
    EmittedAppend(b', start, ep, ep', items, it);
  }

  lemma LaidPatch(b: seq<byte>, b': seq<byte>, start: nat, lastep: int, ep: nat, ep': nat, items: seq<Item>, it: Item)
    requires items != [] && Laid(b, start, lastep, ep, items)
    requires |b'| == |b| && forall k :: start <= k < lastep ==> b'[k] == b[k]
    requires lastep < ep' <= |b'| && IsItem(b'[lastep..ep'], it)
    ensures Laid(b', start, lastep, ep', ReplaceLast(items, it))
  {
    EmittedStays(b, b', start, lastep, items[..|items| - 1]);
    EmittedAppend(b', start, lastep, ep', items[..|items| - 1], it);
  }

  /** `*lastep |= STAR` turns the item into its starred form; after an interval it is absorbed. */
  lemma StarPatch(x: seq<byte>, it: Item)
    requires IsItem(x, it)
    ensures Or(x[0], STAR) < 256 && IsItem([Or(x[0], STAR) as byte] + x[1..], it.(star := true))
  {
    OrByte(x[0], STAR);
    assert Or(0, 1) == 1 && Or(1, 1) == 1 && Or(3, 1) == 3;
    OrAssociates(Base(it.head), Flag(it), STAR);
    Rehead(x, Or(x[0], STAR), it, it.(star := true));
  }

  /** Bytes that differ only in the first have the same operand. */
  lemma SameOperand(x: seq<byte>, y: seq<byte>, h: Head)
    requires |x| > OperandSize(h) && |y| > OperandSize(h) && IsOperand(x, h)
    requires forall j :: 1 <= j <= OperandSize(h) ==> y[j] == x[j]
    ensures IsOperand(y, h)
  {
    if h.Bracket? {
      forall c: byte | c < 8 * OperandSize(h) ensures IsThere(y, 1, c) == Stored(h, c) {
        assert y[1 + c / 8] == x[1 + c / 8];
      }
    }
  }

  /** Changing the opcode leaves operand and intervals alone. */
  lemma {:induction false} Rehead(x: seq<byte>, op: byte, it: Item, it': Item)
    requires IsItem(x, it) && it'.head == it.head && it'.ranges == it.ranges && op == Opcode(it')
    ensures IsItem([op] + x[1..], it')
    decreases |it.ranges|
  {
    var y := [op] + x[1..];
    SameOperand(x, y, it.head);
    var n := |it.ranges| - 1;
    if n > 0 {
      var front, front' := it.(ranges := it.ranges[..n]), it'.(ranges := it'.ranges[..n]);
      ReheadFront(x, op);
      Rehead(x[..|x| - 2], op, front, front');
    }
  }

  lemma ReheadFront(x: seq<byte>, op: byte)
    requires |x| >= 3
    ensures ([op] + x[1..])[..|x| - 2] == [op] + x[..|x| - 2][1..]
  {
  }

  /** `*lastep |= RNGE` with two more bytes at the end adds the interval. */
  lemma RangePatch(x: seq<byte>, it: Item, r: Interval)
    requires IsItem(x, it)
    ensures Or(x[0], RNGE) < 256
    ensures IsItem([Or(x[0], RNGE) as byte] + x[1..] + [r.lo, r.hi], it.(ranges := it.ranges + [r]))
  {
    OrByte(x[0], RNGE);
    assert Or(0, 3) == 3 && Or(1, 3) == 3 && Or(3, 3) == 3;
    OrAssociates(Base(it.head), Flag(it), RNGE);
    IntervalAppends(x, Or(x[0], RNGE), it, r);
  }

  lemma IntervalAppends(x: seq<byte>, op: byte, it: Item, r: Interval)
    requires IsItem(x, it) && op == Opcode(it.(ranges := it.ranges + [r]))
    ensures IsItem([op] + x[1..] + [r.lo, r.hi], it.(ranges := it.ranges + [r]))
  {
    var y, it' := [op] + x[1..] + [r.lo, r.hi], it.(ranges := it.ranges + [r]);
    SameOperand(x, y, it.head);
    if it.ranges != [] {
      Rehead(x, op, it, it);
      assert y[..|y| - 2] == [op] + x[1..];
      assert it'.(ranges := it'.ranges[..|it.ranges|]) == it;
    }
  }

  lemma PlainBytes(h: Head)
    requires !h.Bracket?
    ensures IsItem(Bytes(h), Plain(h))
  {
    OrZero(Base(h));
  }

  /** The bytes of an item without a bitmap. */
  function Bytes(h: Head): seq<byte>
    requires !h.Bracket?
  {
    match h
    case Lit(c) => [CCHR, c]
    case Dot => [CDOT]
    case Open(g) => [CBRA, g]
    case Close(g) => [CKET, g]
    case Ref(g) => [CBACK, g]
    case Dollar => [CDOL]
  }

  /** Writes from `start` to `last`, and at `last` exactly what is spilled. */
  ghost predicate Wrote(b: seq<byte>, b': seq<byte>, start: nat, last: nat, spill: Spill) {
    && OnlyWithin(b, b', start, last + 1)
    && (last < |b| ==> b'[last] == if spill.Wet? then spill.b else b[last])
  }

  /**
   How far a turn writes: below the new end of the code, and when it is refused, below
   `endbuf` but for what it spills.
   */
  ghost predicate Bounded(b: seq<byte>, b': seq<byte>, start: nat, endbuf: nat, turn: Turn, spill: Spill) {
    match turn
    case Continue(l) => OnlyWithin(b, b', start, l.ep)
    case Return(ep, _, _) => OnlyWithin(b, b', start, ep)
    case Error(_) => Wrote(b, b', start, endbuf, spill)
  }

  /** A buffer of `len` bytes is large enough for a step, also if it ends at `endbuf`. */
  ghost predicate Roomy(len: nat, start: nat, endbuf: nat, step: Step, spill: Spill) {
    && endbuf <= len
    && (endbuf == len ==> spill == Dry && (step.Next? ==> start + TotalSize(step.st.items) <= len))
  }

  /** The loop over the digits of a bound. */
  method Digits(text: seq<byte>, pos0: nat) returns (ok: bool, i: nat, c: byte, pos: nat)
    ensures var n := ReadNumber(text, pos0, 0);
            (ok <==> n.Number?) && (ok ==> n == Number(i, c, pos))
  {
    ghost var goal := ReadNumber(text, pos0, 0);
    c, pos, i, ok := Get(text, pos0), pos0 + 1, 0, true;
    while true
      invariant 1 <= pos && c == Get(text, pos - 1)
      invariant goal == ReadNumber(text, pos - 1, i)
      decreases |text| - pos
    {
      if ZERO <= c <= NINE {
        i := 10 * i + c - ZERO;
      } else {
        ok := false;
        return;
      }
      c := Get(text, pos);
      pos := pos + 1;
      if !(c != BACKSLASH && c != COMMA) {
        return;
      }
    }
  }

  /** From `nlim:` to the closing brace: one or two bounds become two bytes. */
  method Bounds(text: seq<byte>, pos0: nat, buf: array<byte>, ep0: nat) returns (code: int, pos: nat, ep: nat)
    requires ep0 < buf.Length && (ep0 + 1 < buf.Length || SecondByte(text, pos0) == Dry)
    modifies buf
    ensures if code == 0 then
              && ep == ep0 + 2 <= buf.Length
              && ReadInterval(text, pos0) == IntervalText(Interval(buf[ep0], buf[ep0 + 1]), pos)
            else
              ReadInterval(text, pos0) == BadInterval(code)
    ensures Wrote(old(buf[..]), buf[..], ep0, ep0 + 1, SecondByte(text, pos0))
  {
    var cflg, i := 0, 0;
    code, pos, ep := 0, pos0, ep0;
    while true
      invariant cflg == 0 || cflg == 1
      invariant code == 0 && ep == ep0 + cflg
      invariant cflg == 0 ==> pos == pos0 && buf[..] == old(buf[..])
      invariant cflg == 1 ==> var m := ReadNumber(text, pos0, 0);
                              m == Number(buf[ep0], COMMA, pos) && m.value < 255 && Get(text, m.pos) != BACKSLASH
      invariant Wrote(old(buf[..]), buf[..], ep0, ep0 + 1, Dry)
      decreases 1 - cflg
    {
      var ok, c;
      ok, i, c, pos := Digits(text, pos);
      if !ok {
        return 16, pos, ep;
      }
      if i >= 255 {
        return 11, pos, ep;
      }
      buf[ep] := i;
      ep := ep + 1;
      if c != COMMA {
        break;
      }
      if cflg != 0 {
        return 44, pos, ep;
      }
      cflg := cflg + 1;
      if Get(text, pos) == BACKSLASH {
        pos := pos + 1;
        buf[ep] := 255;
        ep := ep + 1;
        break;
      }
    }
    if Get(text, pos) != RBRACE {
      return 45, pos, ep;
    }
    pos := pos + 1;
    if cflg == 0 {
      buf[ep] := i;
      ep := ep + 1;
    } else if buf[ep - 1] < buf[ep - 2] {
      code := 46;
    }
  }

  /** The locals and the two arrays represent the reader's state. */
  ghost predicate Tracks(b: seq<byte>, bracket: seq<byte>, start: nat, endbuf: nat, l: Locals, st: State) {
    && Laid(b, start, l.lastep, l.ep, st.items)
    && l.ep <= (if st.items == [] then |b| else endbuf + 1)
    && |bracket| == NBRA && l.bracketp == |st.stack| <= l.nbra <= NBRA
    && bracket[..l.bracketp] == st.stack
    && l.nbra == st.nbra && l.ended == st.ended
  }

  /** The turn that the code takes is the step that the reader takes. */
  ghost predicate Follows(turn: Turn, step: Step, b: seq<byte>, bracket: seq<byte>, start: nat, endbuf: nat,
                          l: Locals, st: State) {
    match step
    case Stop(code) => turn == Error(code)
    case Done(pos, newline) =>
      && turn == Return(start + TotalSize(st.items) + 1, pos, newline)
      && turn.ep <= endbuf
      && Program(b, start, st.items)
    case Next(st', pos) =>
      turn.Continue? && turn.l.pos == pos && Tracks(b, bracket, start, endbuf, turn.l, st')
  }

  /** Write an item without a bitmap at `ep`, and make it the last one. */
  method Put(buf: array<byte>, bracket: array<byte>, l: Locals, h: Head, ghost start: nat, ghost endbuf: nat,
             ghost st: State)
    returns (l': Locals)
    requires buf != bracket && !h.Bracket?
    requires start <= l.ep < endbuf && Roomy(buf.Length, start, endbuf, Next(Emit(st, h), l.pos), Dry)
    requires Tracks(buf[..], bracket[..], start, endbuf, l, st)
    modifies buf
    ensures l' == l.(ep := l.ep + |Bytes(h)|, lastep := l.ep)
    ensures Tracks(buf[..], bracket[..], start, endbuf, l', Emit(st, h))
    ensures OnlyWithin(old(buf[..]), buf[..], start, l'.ep)
  {
    ghost var b := buf[..];
    var bytes := Bytes(h);
    LaidSize(b, start, l.lastep, l.ep, st.items);
    TotalSizeAppend(st.items, Plain(h));
    buf[l.ep] := bytes[0];
    if |bytes| == 2 {
      buf[l.ep + 1] := bytes[1];
    }
    l' := l.(ep := l.ep + |bytes|, lastep := l.ep);
    PlainBytes(h);
    assert buf[l.ep..l'.ep] == bytes;
    AppendTracks(b, buf[..], bracket[..], start, endbuf, l, l', st, h);
  }

  /** Writing an item at `ep`, and nothing before it, appends it. */
  lemma AppendTracks(b: seq<byte>, b': seq<byte>, bracket: seq<byte>, start: nat, endbuf: nat, l: Locals, l': Locals,
                     st: State, h: Head)
    requires Tracks(b, bracket, start, endbuf, l, st) && l.ep < l'.ep <= endbuf + 1 && l'.ep <= |b|
    requires OnlyWithin(b, b', l.ep, l'.ep) && IsItem(b'[l.ep..l'.ep], Plain(h))
    requires l' == l.(pos := l'.pos, ep := l'.ep, lastep := l.ep)
    ensures Tracks(b', bracket, start, endbuf, l', Emit(st, h)) && OnlyWithin(b, b', start, l'.ep)
  {
    LaidAppend(b, b', start, l.lastep, l.ep, l'.ep, st.items, Plain(h));
  }

  /** Emit an item and go round the loop. */
  method PutNext(buf: array<byte>, bracket: array<byte>, l: Locals, h: Head, ghost start: nat, ghost endbuf: nat,
                 ghost st: State)
    returns (turn: Turn)
    requires buf != bracket && !h.Bracket?
    requires start <= l.ep < endbuf && Roomy(buf.Length, start, endbuf, Next(Emit(st, h), l.pos), Dry)
    requires Tracks(buf[..], bracket[..], start, endbuf, l, st)
    modifies buf
    ensures Follows(turn, Next(Emit(st, h), l.pos), buf[..], bracket[..], start, endbuf, l, st)
    ensures Bounded(old(buf[..]), buf[..], start, endbuf, turn, Dry)
  {
    var l' := Put(buf, bracket, l, h, start, endbuf, st);
    turn := Continue(l');
  }

  method Finished(buf: array<byte>, bracket: array<byte>, l: Locals, pos: nat, newline: bool, ghost start: nat,
                  ghost endbuf: nat, ghost st: State)
    returns (turn: Turn)
    requires buf != bracket && start <= l.ep < endbuf <= buf.Length
    requires Tracks(buf[..], bracket[..], start, endbuf, l, st)
    modifies buf
    ensures Follows(turn, Finish(st, pos, newline), buf[..], bracket[..], start, endbuf, l, st)
    ensures Bounded(old(buf[..]), buf[..], start, endbuf, turn, Dry)
  {
    ghost var b := buf[..];
    buf[l.ep] := CCEOF;
    LaidSize(b, start, l.lastep, l.ep, st.items);
    EmittedStays(b, buf[..], start, l.ep, st.items);
    EmittedIsProgram(buf[..], start, l.ep, st.items);
    if l.bracketp != 0 {
      turn := Error(42);
    } else {
      turn := Return(l.ep + 1, pos, newline);
    }
  }

  /** `case '*'` when there is an item to patch. */
  method PatchStar(buf: array<byte>, bracket: array<byte>, l: Locals, ghost start: nat, ghost endbuf: nat,
                   ghost st: State)
    requires buf != bracket && start <= l.ep < endbuf <= buf.Length && st.items != []
    requires Tracks(buf[..], bracket[..], start, endbuf, l, st)
    modifies buf
    ensures Tracks(buf[..], bracket[..], start, endbuf, l,
                   st.(items := ReplaceLast(st.items, Last(st.items).(star := true))))
    ensures OnlyWithin(old(buf[..]), buf[..], start, l.ep)
  {
    ghost var b := buf[..];
    ghost var it := Last(st.items);
    StarPatch(b[l.lastep..l.ep], it);
    Merge(buf, l.lastep, STAR);
    assert buf[l.lastep..l.ep] == [Or(b[l.lastep], STAR) as byte] + b[l.lastep..l.ep][1..];
    LaidPatch(b, buf[..], start, l.lastep, l.ep, l.ep, st.items, it.(star := true));
  }

  /** `case '{'` when there is an item to patch. */
  method PatchRange(text: seq<byte>, buf: array<byte>, bracket: array<byte>, l: Locals, ghost start: nat,
                    ghost endbuf: nat, ghost st: State)
    returns (turn: Turn)
    requires buf != bracket && start <= l.ep < endbuf <= buf.Length && st.items != []
    requires l.ep + 1 < buf.Length || SecondByte(text, l.pos) == Dry
    requires Tracks(buf[..], bracket[..], start, endbuf, l, st)
    modifies buf
    ensures Follows(turn, AddInterval(text, l.pos, st), buf[..], bracket[..], start, endbuf, l, st)
    ensures Bounded(old(buf[..]), buf[..], start, endbuf, turn,
                    if l.ep + 1 == endbuf then SecondByte(text, l.pos) else Dry)
  {
    ghost var b := buf[..];
    var code, pos, ep := PatchBytes(text, buf, l, start, endbuf);
    if code != 0 {
      return Error(code);
    }
    turn := Continue(l.(pos := pos, ep := ep));
    ghost var r := Interval(buf[l.ep], buf[l.ep + 1]);
    AddIntervalIs(text, l.pos, st, r, pos);
    RangeAdded(b, buf[..], bracket[..], start, endbuf, l, st, r, pos);
  }

  /** The opcode and the two bytes of the interval. */
  method PatchBytes(text: seq<byte>, buf: array<byte>, l: Locals, ghost start: nat, ghost endbuf: nat)
    returns (code: int, pos: nat, ep: nat)
    requires start <= l.lastep < l.ep < endbuf <= buf.Length
    requires l.ep + 1 < buf.Length || SecondByte(text, l.pos) == Dry
    modifies buf
    ensures if code == 0 then
              && ep == l.ep + 2 <= buf.Length && OnlyWithin(old(buf[..]), buf[..], start, ep)
              && ReadInterval(text, l.pos) == IntervalText(Interval(buf[l.ep], buf[l.ep + 1]), pos)
            else
              ReadInterval(text, l.pos) == BadInterval(code)
    ensures Or(old(buf[l.lastep]), RNGE) < 256
    ensures OnlyWithin(old(buf[..])[l.lastep := Or(old(buf[l.lastep]), RNGE)], buf[..], l.ep, l.ep + 2)
    ensures Wrote(old(buf[..]), buf[..], start, endbuf, if l.ep + 1 == endbuf then SecondByte(text, l.pos) else Dry)
  {
    ghost var b := buf[..];
    Merge(buf, l.lastep, RNGE);
    code, pos, ep := Bounds(text, l.pos, buf, l.ep);
    PatchBounded(b, buf[..], start, endbuf, l.lastep, l.ep, Or(b[l.lastep], RNGE), SecondByte(text, l.pos));
  }

  lemma PatchBounded(b: seq<byte>, b': seq<byte>, start: nat, endbuf: nat, lastep: nat, ep: nat, op: byte, spill: Spill)
    requires start <= lastep < ep < endbuf <= |b| && Wrote(b[lastep := op], b', ep, ep + 1, spill)
    ensures OnlyWithin(b, b', start, ep + 2) && OnlyWithin(b[lastep := op], b', ep, ep + 2)
    ensures Wrote(b, b', start, endbuf, if ep + 1 == endbuf then spill else Dry)
  {
  }

  lemma AddIntervalIs(text: seq<byte>, pos: nat, st: State, r: Interval, pos': nat)
    requires st.items != [] && ReadInterval(text, pos) == IntervalText(r, pos')
    ensures AddInterval(text, pos, st) == Next(WithRange(st, r), pos')
  {
  }

  ghost function WithRange(st: State, r: Interval): State
    requires st.items != []
  {
    var last := Last(st.items);
    st.(items := ReplaceLast(st.items, last.(ranges := last.ranges + [r])))
  }

  lemma RangeAdded(b: seq<byte>, b': seq<byte>, bracket: seq<byte>, start: nat, endbuf: nat, l: Locals, st: State,
                   r: Interval, pos: nat)
    requires start <= l.lastep < l.ep < endbuf <= |b| && st.items != [] && Tracks(b, bracket, start, endbuf, l, st)
    requires l.ep + 2 <= |b|
    requires Or(b[l.lastep], RNGE) < 256 && OnlyWithin(b[l.lastep := Or(b[l.lastep], RNGE)], b', l.ep, l.ep + 2)
    requires b'[l.ep] == r.lo && b'[l.ep + 1] == r.hi
    ensures Tracks(b', bracket, start, endbuf, l.(pos := pos, ep := l.ep + 2), WithRange(st, r))
  {
    RangeLaid(b, b', start, l.lastep, l.ep, st, r);
    RangeTracks(b, b', bracket, start, endbuf, l, st, r, pos);
  }

  lemma RangeTracks(b: seq<byte>, b': seq<byte>, bracket: seq<byte>, start: nat, endbuf: nat, l: Locals, st: State,
                    r: Interval, pos: nat)
    requires start <= l.ep < endbuf <= |b| && st.items != [] && Tracks(b, bracket, start, endbuf, l, st)
    requires Laid(b', start, l.lastep, l.ep + 2, WithRange(st, r).items)
    ensures Tracks(b', bracket, start, endbuf, l.(pos := pos, ep := l.ep + 2), WithRange(st, r))
  {
  }

  /** `*at |= flag` */
  method Merge(buf: array<byte>, at: nat, flag: byte)
    requires at < buf.Length
    modifies buf
    ensures Or(old(buf[at]), flag) < 256 && buf[..] == old(buf[..])[at := Or(old(buf[at]), flag)]
  {
    OrByte(buf[at], flag);
    buf[at] := Or(buf[at], flag);
  }

  lemma RangeLaid(b: seq<byte>, b': seq<byte>, start: nat, lastep: int, ep: nat, st: State, r: Interval)
    requires st.items != [] && Laid(b, start, lastep, ep, st.items) && start <= lastep < ep
    requires ep + 2 <= |b| && Or(b[lastep], RNGE) < 256
    requires OnlyWithin(b[lastep := Or(b[lastep], RNGE)], b', ep, ep + 2)
    requires b'[ep] == r.lo && b'[ep + 1] == r.hi
    ensures Laid(b', start, lastep, ep + 2, WithRange(st, r).items)
  {
    var it := Last(st.items);
    RangeBytes(b, b', lastep, ep, it, r);
    LaidPatch(b, b', start, lastep, ep, ep + 2, st.items, it.(ranges := it.ranges + [r]));
  }

  lemma RangeBytes(b: seq<byte>, b': seq<byte>, lastep: nat, ep: nat, it: Item, r: Interval)
    requires |b'| == |b| && lastep < ep && ep + 2 <= |b| && IsItem(b[lastep..ep], it)
    requires b'[lastep] == Or(b[lastep], RNGE) && forall k :: lastep < k < ep ==> b'[k] == b[k]
    requires b'[ep] == r.lo && b'[ep + 1] == r.hi
    ensures IsItem(b'[lastep..ep + 2], it.(ranges := it.ranges + [r]))
  {
    RangePatch(b[lastep..ep], it, r);
    RangeSlice(b, b', lastep, ep, r);
  }

  lemma RangeSlice(b: seq<byte>, b': seq<byte>, lastep: nat, ep: nat, r: Interval)
    requires |b'| == |b| && lastep < ep && ep + 2 <= |b|
    requires forall k :: lastep < k < ep ==> b'[k] == b[k]
    requires b'[ep] == r.lo && b'[ep + 1] == r.hi
    ensures b'[lastep..ep + 2] == [b'[lastep]] + b[lastep..ep][1..] + [r.lo, r.hi]
  {
    assert b'[lastep + 1..ep] == b[lastep + 1..ep] == b[lastep..ep][1..];
  }

  /** The cases after a backslash; `l.pos` is the character that follows it. */
  method Escape(text: seq<byte>, buf: array<byte>, bracket: array<byte>, l: Locals, ghost start: nat,
                ghost endbuf: nat, ghost st: State)
    returns (turn: Turn)
    requires buf != bracket && start <= l.ep < endbuf
    requires Roomy(buf.Length, start, endbuf, ReadEscape(text, l.pos, st),
                   IntervalSpill(text, l.pos, endbuf - start, st))
    requires Tracks(buf[..], bracket[..], start, endbuf, l, st)
    modifies buf, bracket
    ensures Follows(turn, ReadEscape(text, l.pos, st), buf[..], bracket[..], start, endbuf, l, st)
    ensures Bounded(old(buf[..]), buf[..], start, endbuf, turn, IntervalSpill(text, l.pos, endbuf - start, st))
  {
    LaidSize(buf[..], start, l.lastep, l.ep, st.items);
    var c := Get(text, l.pos);
    var l1 := l.(pos := l.pos + 1);
    if c == LPAREN {
      turn := OpenGroup(buf, bracket, l1, start, endbuf, st);
    } else if c == RPAREN {
      turn := CloseGroup(buf, bracket, l1, start, endbuf, st);
    } else if c == LBRACE && l.lastep != -1 {
      turn := PatchRange(text, buf, bracket, l1, start, endbuf, st);
    } else {
      turn := Escaped(c, buf, bracket, l1, start, endbuf, st);
    }
  }

  /** A backslash before a newline, an `n`, a digit, or a character to be taken literally. */
  method Escaped(c: byte, buf: array<byte>, bracket: array<byte>, l: Locals, ghost start: nat, ghost endbuf: nat,
                 ghost st: State)
    returns (turn: Turn)
    requires buf != bracket && start <= l.ep < endbuf
             && Roomy(buf.Length, start, endbuf, ReadEscaped(c, l.pos, st), Dry)
    requires Tracks(buf[..], bracket[..], start, endbuf, l, st)
    modifies buf
    ensures Follows(turn, ReadEscaped(c, l.pos, st), buf[..], bracket[..], start, endbuf, l, st)
    ensures Bounded(old(buf[..]), buf[..], start, endbuf, turn, Dry)
  {
    if c == NEWLINE {
      turn := Error(36);
    } else if ONE <= c <= NINE && c - ONE >= l.ended {
      turn := Error(25);
    } else {
      var h := if c == LOWER_N then Lit(NEWLINE) else if ONE <= c <= NINE then Ref(c - ONE) else Lit(c);
      turn := PutNext(buf, bracket, l, h, start, endbuf, st);
    }
  }

  method OpenGroup(buf: array<byte>, bracket: array<byte>, l: Locals, ghost start: nat, ghost endbuf: nat,
                   ghost st: State)
    returns (turn: Turn)
    requires buf != bracket && start <= l.ep < endbuf && Roomy(buf.Length, start, endbuf, BeginGroup(st, l.pos), Dry)
    requires Tracks(buf[..], bracket[..], start, endbuf, l, st)
    modifies buf, bracket
    ensures Follows(turn, BeginGroup(st, l.pos), buf[..], bracket[..], start, endbuf, l, st)
    ensures Bounded(old(buf[..]), buf[..], start, endbuf, turn, Dry)
  {
    if l.nbra >= NBRA {
      return Error(43);
    }
    var l1 := Put(buf, bracket, l, Open(l.nbra), start, endbuf, st);
    ghost var was := bracket[..];
    bracket[l.bracketp] := l.nbra;
    assert bracket[..l.bracketp + 1] == was[..l.bracketp] + [l.nbra as byte];
    turn := Continue(l1.(bracketp := l.bracketp + 1, nbra := l.nbra + 1));
  }

  method CloseGroup(buf: array<byte>, bracket: array<byte>, l: Locals, ghost start: nat, ghost endbuf: nat,
                    ghost st: State)
    returns (turn: Turn)
    requires buf != bracket && start <= l.ep < endbuf && Roomy(buf.Length, start, endbuf, EndGroup(st, l.pos), Dry)
    requires Tracks(buf[..], bracket[..], start, endbuf, l, st)
    modifies buf
    ensures Follows(turn, EndGroup(st, l.pos), buf[..], bracket[..], start, endbuf, l, st)
    ensures Bounded(old(buf[..]), buf[..], start, endbuf, turn, Dry)
  {
    if l.bracketp <= 0 {
      return Error(42);
    }
    var top := l.bracketp - 1;
    assert bracket[top] == bracket[..l.bracketp][top];
    var l1 := Put(buf, bracket, l, Close(bracket[top]), start, endbuf, st);
    assert bracket[..top] == bracket[..l.bracketp][..top];
    turn := Continue(l1.(bracketp := top, ended := l.ended + 1));
  }

  method Bracketed(text: seq<byte>, buf: array<byte>, bracket: array<byte>, l: Locals, start: nat, endbuf: nat,
                   ghost st: State)
    returns (turn: Turn)
    requires buf != bracket && start <= l.ep < endbuf <= buf.Length
    requires Tracks(buf[..], bracket[..], start, endbuf, l, st)
    modifies buf
    ensures Follows(turn, ReadBracket(text, l.pos, endbuf - start, st), buf[..], bracket[..], start, endbuf, l, st)
    ensures Bounded(old(buf[..]), buf[..], start, endbuf, turn, Dry)
  {
    ghost var b := buf[..];
    LaidSize(b, start, l.lastep, l.ep, st.items);
    var code, pos, ep;
    ghost var h;
    code, pos, ep, h := BracketExpr(text, l.pos, buf, l.ep, endbuf);
    if code != 0 {
      return Error(code);
    }
    turn := Continue(l.(pos := pos, ep := ep, lastep := l.ep));
    AppendTracks(b, buf[..], bracket[..], start, endbuf, l, turn.l, st, h);
  }

  /** `step` is the reader's next step; quantified so that the reader unfolds only on demand. */
  ghost predicate StepOf(step: Step, text: seq<byte>, pos: nat, eof: byte, sed: bool, room: int, st: State) {
    forall n {:trigger ReadToken(text, pos, eof, sed, n, st)} ::
      n == room ==> step == ReadToken(text, pos, eof, sed, n, st)
  }

  /** One turn of `while (1)`. */
  method Token(text: seq<byte>, buf: array<byte>, bracket: array<byte>, l: Locals, start: nat, endbuf: nat, eof: byte,
               sed: bool, ghost st: State, ghost step: Step)
    returns (turn: Turn)
    requires StepOf(step, text, l.pos, eof, sed, endbuf - start, st)
    requires buf != bracket && Roomy(buf.Length, start, endbuf, step,
                                     RefusedSpill(text, l.pos, eof, endbuf - start, st))
    requires Tracks(buf[..], bracket[..], start, endbuf, l, st)
    modifies buf, bracket
    ensures Follows(turn, step, buf[..], bracket[..], start, endbuf, l, st)
    ensures Bounded(old(buf[..]), buf[..], start, endbuf, turn, RefusedSpill(text, l.pos, eof, endbuf - start, st))
  {
    assert step == ReadToken(text, l.pos, eof, sed, endbuf - start, st);
    LaidSize(buf[..], start, l.lastep, l.ep, st.items);
    if l.ep >= endbuf {
      return Error(50);
    }
    var c := Get(text, l.pos);
    if c == eof {
      turn := Finished(buf, bracket, l, l.pos + 1, false, start, endbuf, st);
    } else if c == NEWLINE {
      if sed {
        return Error(36);
      }
      turn := Finished(buf, bracket, l, l.pos, true, start, endbuf, st);
    } else {
      turn := Character(text, buf, bracket, l, start, endbuf, eof, st);
    }
  }

  /** The cases of the switch that emit or patch an item. */
  method Character(text: seq<byte>, buf: array<byte>, bracket: array<byte>, l: Locals, start: nat, endbuf: nat,
                   eof: byte, ghost st: State)
    returns (turn: Turn)
    requires buf != bracket && start <= l.ep < endbuf
    requires Roomy(buf.Length, start, endbuf, ReadChar(text, l.pos, eof, endbuf - start, st),
                   CharSpill(text, l.pos, endbuf - start, st))
    requires Tracks(buf[..], bracket[..], start, endbuf, l, st)
    modifies buf, bracket
    ensures Follows(turn, ReadChar(text, l.pos, eof, endbuf - start, st), buf[..], bracket[..], start, endbuf, l, st)
    ensures Bounded(old(buf[..]), buf[..], start, endbuf, turn, CharSpill(text, l.pos, endbuf - start, st))
  {
    var c := Get(text, l.pos);
    var l1 := l.(pos := l.pos + 1);
    if c == ASTERISK {
      turn := Asterisk(buf, bracket, l1, start, endbuf, st);
    } else if c == LSQUARE {
      turn := Bracketed(text, buf, bracket, l1, start, endbuf, st);
    } else if c == BACKSLASH {
      turn := Escape(text, buf, bracket, l1, start, endbuf, st);
    } else {
      var atEnd := !(Get(text, l1.pos) != eof && Get(text, l1.pos) != NEWLINE);
      var h := if c == PERIOD then Dot else if c == DOLLAR && atEnd then Dollar else Lit(c);
      turn := PutNext(buf, bracket, l1, h, start, endbuf, st);
    }
  }

  method Asterisk(buf: array<byte>, bracket: array<byte>, l: Locals, ghost start: nat, ghost endbuf: nat,
                  ghost st: State)
    returns (turn: Turn)
    requires buf != bracket && start <= l.ep < endbuf && Roomy(buf.Length, start, endbuf, AddStar(st, l.pos), Dry)
    requires Tracks(buf[..], bracket[..], start, endbuf, l, st)
    modifies buf
    ensures Follows(turn, AddStar(st, l.pos), buf[..], bracket[..], start, endbuf, l, st)
    ensures Bounded(old(buf[..]), buf[..], start, endbuf, turn, Dry)
  {
    if l.lastep != -1 {
      assert buf[l.lastep] == buf[l.lastep..l.ep][0];
      MarkerOpcode(Last(st.items));
    }
    if l.lastep == -1 || buf[l.lastep] == CBRA || buf[l.lastep] == CKET {
      turn := PutNext(buf, bracket, l, Lit(ASTERISK), start, endbuf, st);
    } else {
      PatchStar(buf, bracket, l, start, endbuf, st);
      turn := Continue(l);
    }
  }

  /** CBRA and CKET are the opcodes of unpatched group markers and of nothing else. */
  lemma MarkerOpcode(it: Item)
    ensures Opcode(it) == CBRA || Opcode(it) == CKET <==> IsMarker(it)
  {
    if it.head.Open? {
      OrZero(2);
      assert Or(2, 1) == 3 && Or(2, 3) == 3;
    } else {
      OrLow(Base(it.head), Flag(it));
    }
  }

  function ReadOn(step: Step, text: seq<byte>, eof: byte, sed: bool, room: int, anchored: bool, st: State): Parsed {
    match step
    case Stop(code) => Rejected(code)
    case Done(pos, newline) => Accepted(st.items, anchored, st.nbra, pos, newline)
    case Next(st', pos) => ReadItems(text, pos, eof, sed, room, anchored, st')
  }

  /** What `step` makes of reading on, and that it makes progress. */
  ghost predicate Means(step: Step, text: seq<byte>, pos: nat, eof: byte, sed: bool, room: int, st: State) {
    && (forall anchored: bool ::
          ReadItems(text, pos, eof, sed, room, anchored, st) == ReadOn(step, text, eof, sed, room, anchored, st))
    && (step.Next? ==> pos < step.pos && TotalSize(st.items) < room
                       && (pos >= |text| ==> TotalSize(step.st.items) > TotalSize(st.items)))
  }

  lemma TheStep(text: seq<byte>, pos: nat, eof: byte, sed: bool, room: int, st: State) returns (step: Step)
    ensures StepOf(step, text, pos, eof, sed, room, st) && Means(step, text, pos, eof, sed, room, st)
  {
    step := ReadToken(text, pos, eof, sed, room, st);
    TokenProgress(text, pos, eof, sed, room, st);
  }

  /** The buffer has index `endbuf`, or ends there and nothing is spilled. */
  ghost predicate HasRoom(len: nat, endbuf: nat, spill: Spill) {
    endbuf < len || (endbuf == len && spill == Dry)
  }

  /** A buffer with room for the rest of the text has room for the next step. */
  lemma RoomForStep(len: nat, text: seq<byte>, pos: nat, eof: byte, sed: bool, start: nat, endbuf: nat, st: State,
                    step: Step)
    requires StepOf(step, text, pos, eof, sed, endbuf - start, st)
    requires HasRoom(len, endbuf, ItemsSpill(text, pos, eof, sed, endbuf - start, st))
    ensures Roomy(len, start, endbuf, step, RefusedSpill(text, pos, eof, endbuf - start, st))
  {
    assert step == ReadToken(text, pos, eof, sed, endbuf - start, st);
    RefusedSpillIsSpilled(text, pos, eof, sed, endbuf - start, st);
  }

  /** The last byte of an item that lies below `ep`. */
  lemma LaidFinal(b: seq<byte>, start: nat, lastep: int, ep: nat, items: seq<Item>)
    requires items != [] && Laid(b, start, lastep, ep, items)
    requires Last(items).ranges != [] || OperandSize(Last(items).head) == 1
    ensures 0 < ep <= |b| && b[ep - 1] == FinalByte(Last(items))
  {
    var at := EmittedLast(b, start, ep, items);
    ItemFinal(b[at..ep], Last(items));
  }

  lemma ItemFinal(x: seq<byte>, it: Item)
    requires IsItem(x, it) && (it.ranges != [] || OperandSize(it.head) == 1)
    ensures x[|x| - 1] == FinalByte(it)
  {
  }

  /** Code that exceeds the room by one byte has left its last byte at `endbuf`. */
  lemma LaidSpills(b: seq<byte>, b': seq<byte>, start: nat, endbuf: nat, lastep: int, ep: nat, items: seq<Item>)
    requires items != [] && Laid(b', start, lastep, ep, items) && OnlyWithin(b, b', start, ep)
    requires TotalSize(items) <= endbuf - start + 1
    requires TotalSize(items) > endbuf - start ==> Last(items).ranges != [] || OperandSize(Last(items).head) == 1
    ensures Wrote(b, b', start, endbuf, if TotalSize(items) > endbuf - start then Wet(FinalByte(Last(items))) else Dry)
  {
    LaidSize(b', start, lastep, ep, items);
    if TotalSize(items) > endbuf - start {
      LaidFinal(b', start, lastep, ep, items);
    }
  }

  /** What a turn leaves at `endbuf` is what its token spills. */
  lemma TurnSpills(text: seq<byte>, eof: byte, sed: bool, b: seq<byte>, b': seq<byte>, bracket: seq<byte>, start: nat,
                   endbuf: nat, l: Locals, st: State, turn: Turn, step: Step)
    requires StepOf(step, text, l.pos, eof, sed, endbuf - start, st)
    requires Follows(turn, step, b', bracket, start, endbuf, l, st)
    requires Bounded(b, b', start, endbuf, turn, RefusedSpill(text, l.pos, eof, endbuf - start, st))
    ensures Wrote(b, b', start, endbuf, TokenSpill(text, l.pos, eof, sed, endbuf - start, st))
  {
    assert step == ReadToken(text, l.pos, eof, sed, endbuf - start, st);
    if step.Next? {
      EitherGrows(text, l.pos, eof, sed, endbuf - start, st);
      TokenGrows(text, l.pos, eof, sed, endbuf - start, st);
      SpillingItem(text, l.pos, eof, sed, endbuf - start, st);
      LaidSpills(b, b', start, endbuf, turn.l.lastep, turn.l.ep, step.st.items);
    } else if step.Done? {
      RefusedSpillIsSpilled(text, l.pos, eof, sed, endbuf - start, st);
    }
  }

  /**
   `w` is what the step spills of what is to be spilled from here on; nothing is left
   once something is spilled.
   */
  ghost predicate SpillOf(w: Spill, text: seq<byte>, pos: nat, eof: byte, sed: bool, room: int, st: State, step: Step) {
    var all := ItemsSpill(text, pos, eof, sed, room, st);
    if step.Next? then
      var rest := ItemsSpill(text, step.pos, eof, sed, room, step.st);
      all == (if w.Wet? then w else rest) && (w.Wet? ==> rest == Dry)
    else
      all == w
  }

  lemma StepSpills(text: seq<byte>, pos: nat, eof: byte, sed: bool, room: int, st: State, step: Step)
    requires StepOf(step, text, pos, eof, sed, room, st)
    ensures SpillOf(TokenSpill(text, pos, eof, sed, room, st), text, pos, eof, sed, room, st, step)
    ensures step.Next? ==> TotalSize(st.items) <= TotalSize(step.st.items)
  {
    assert step == ReadToken(text, pos, eof, sed, room, st);
    TokenGrows(text, pos, eof, sed, room, st);
    if step.Next? && TokenSpill(text, pos, eof, sed, room, st).Wet? {
      NoMoreSpills(text, step.pos, eof, sed, room, step.st);
    }
  }

  /** What a turn leaves behind: what it spilled, and an end of the code that never moves back. */
  lemma TurnLeaves(text: seq<byte>, eof: byte, sed: bool, b: seq<byte>, b': seq<byte>, bracket: seq<byte>, start: nat,
                   endbuf: nat, l: Locals, st: State, turn: Turn, step: Step)
    returns (w: Spill)
    requires StepOf(step, text, l.pos, eof, sed, endbuf - start, st)
    requires Laid(b, start, l.lastep, l.ep, st.items) && Follows(turn, step, b', bracket, start, endbuf, l, st)
    requires Bounded(b, b', start, endbuf, turn, RefusedSpill(text, l.pos, eof, endbuf - start, st))
    ensures Wrote(b, b', start, endbuf, w) && SpillOf(w, text, l.pos, eof, sed, endbuf - start, st, step)
    ensures turn.Continue? ==> l.ep <= turn.l.ep && OnlyWithin(b, b', start, turn.l.ep)
    ensures turn.Return? ==> l.ep + 1 == turn.ep && OnlyWithin(b, b', start, turn.ep)
  {
    w := TokenSpill(text, l.pos, eof, sed, endbuf - start, st);
    TurnSpills(text, eof, sed, b, b', bracket, start, endbuf, l, st, turn, step);
    StepSpills(text, l.pos, eof, sed, endbuf - start, st, step);
    EndGrows(b, b', bracket, start, endbuf, l, st, turn, step);
  }

  /** What a turn means for the reading of the rest of the text. */
  method TurnOf(text: seq<byte>, buf: array<byte>, bracket: array<byte>, l: Locals, start: nat, endbuf: nat,
                eof: byte, sed: bool, ghost anchored: bool, ghost st: State)
    returns (turn: Turn, ghost st': State, ghost w: Spill)
    requires buf != bracket && HasRoom(buf.Length, endbuf, ItemsSpill(text, l.pos, eof, sed, endbuf - start, st))
    requires Tracks(buf[..], bracket[..], start, endbuf, l, st)
    modifies buf, bracket
    ensures var p := ReadItems(text, l.pos, eof, sed, endbuf - start, anchored, st);
            match turn
            case Error(code) => p == Rejected(code)
            case Return(ep, pos, newline) =>
              && p == Accepted(st.items, anchored, st.nbra, pos, newline)
              && l.ep + 1 == ep == start + TotalSize(st.items) + 1 <= endbuf && Program(buf[..], start, st.items)
            case Continue(l') =>
              && Tracks(buf[..], bracket[..], start, endbuf, l', st')
              && p == ReadItems(text, l'.pos, eof, sed, endbuf - start, anchored, st')
              && l.pos < l'.pos && TotalSize(st.items) < endbuf - start
              && (l.pos >= |text| ==> TotalSize(st'.items) > TotalSize(st.items))
              && l.ep <= l'.ep && OnlyWithin(old(buf[..]), buf[..], start, l'.ep)
    ensures turn.Return? ==> OnlyWithin(old(buf[..]), buf[..], start, turn.ep)
    ensures Wrote(old(buf[..]), buf[..], start, endbuf, w)
    ensures SpillOf(w, text, l.pos, eof, sed, endbuf - start, st,
                    if turn.Continue? then Next(st', turn.l.pos) else Stop(0))
  {
    ghost var b := buf[..];
    ghost var step := TheStep(text, l.pos, eof, sed, endbuf - start, st);
    st' := if step.Next? then step.st else st;
    RoomForStep(buf.Length, text, l.pos, eof, sed, start, endbuf, st, step);
    turn := Token(text, buf, bracket, l, start, endbuf, eof, sed, st, step);
    w := TurnLeaves(text, eof, sed, b, buf[..], bracket[..], start, endbuf, l, st, turn, step);
  }

  lemma EndGrows(b: seq<byte>, b': seq<byte>, bracket: seq<byte>, start: nat, endbuf: nat, l: Locals, st: State,
                 turn: Turn, step: Step)
    requires Laid(b, start, l.lastep, l.ep, st.items) && Follows(turn, step, b', bracket, start, endbuf, l, st)
    requires step.Next? ==> TotalSize(st.items) <= TotalSize(step.st.items)
    ensures turn.Continue? ==> l.ep <= turn.l.ep
    ensures turn.Return? ==> l.ep + 1 == turn.ep
  {
    LaidSize(b, start, l.lastep, l.ep, st.items);
    if step.Next? {
      LaidSize(b', start, turn.l.lastep, turn.l.ep, step.st.items);
    }
  }

  /** Two stretches of writing, of which at most one spills. */
  lemma WroteOn(b: seq<byte>, b1: seq<byte>, b2: seq<byte>, start: nat, endbuf: nat, seen: Spill, w: Spill)
    requires Wrote(b, b1, start, endbuf, seen) && Wrote(b1, b2, start, endbuf, w)
    ensures Wrote(b, b2, start, endbuf, if w.Wet? then w else seen)
  {
  }

  lemma OnlyWithinOn(b: seq<byte>, b1: seq<byte>, b2: seq<byte>, start: nat, ep: nat, ep': nat)
    requires OnlyWithin(b, b1, start, ep) && OnlyWithin(b1, b2, start, ep') && ep <= ep'
    ensures OnlyWithin(b, b2, start, ep')
  {
  }

  /** `while (1)`, from an empty program to RETURN or ERROR. */
  method Loop(text: seq<byte>, buf: array<byte>, bracket: array<byte>, l0: Locals, start: nat, endbuf: nat, eof: byte,
              sed: bool, ghost anchored: bool)
    returns (turn: Turn, nbra: nat)
    requires start < buf.Length && bracket != buf
    requires HasRoom(buf.Length, endbuf, ItemsSpill(text, l0.pos, eof, sed, endbuf - start, EMPTY))
    requires Tracks(buf[..], bracket[..], start, endbuf, l0, EMPTY)
    modifies buf, bracket
    ensures match ReadItems(text, l0.pos, eof, sed, endbuf - start, anchored, EMPTY)
            case Rejected(code) => turn == Error(code)
            case Accepted(items, _, n, pos, newline) =>
              && turn == Return(start + TotalSize(items) + 1, pos, newline) && turn.ep <= endbuf
              && Program(buf[..], start, items) && nbra == n
            case Unchanged(_, _) => false
    ensures turn.Return? ==> OnlyWithin(old(buf[..]), buf[..], start, turn.ep)
    ensures Wrote(old(buf[..]), buf[..], start, endbuf, ItemsSpill(text, l0.pos, eof, sed, endbuf - start, EMPTY))
  {
    ghost var goal := ReadItems(text, l0.pos, eof, sed, endbuf - start, anchored, EMPTY);
    ghost var spill := ItemsSpill(text, l0.pos, eof, sed, endbuf - start, EMPTY);
    ghost var seen, st := Dry, EMPTY;
    var l := l0;
    while true
      invariant Tracks(buf[..], bracket[..], start, endbuf, l, st)
      invariant goal == ReadItems(text, l.pos, eof, sed, endbuf - start, anchored, st)
      invariant OnlyWithin(old(buf[..]), buf[..], start, l.ep)
      invariant Wrote(old(buf[..]), buf[..], start, endbuf, seen)
      invariant spill == if seen.Wet? then seen else ItemsSpill(text, l.pos, eof, sed, endbuf - start, st)
      invariant seen.Wet? ==> ItemsSpill(text, l.pos, eof, sed, endbuf - start, st) == Dry
      decreases if l.pos < |text| then |text| - l.pos else 0, endbuf - start - TotalSize(st.items)
    {
      ghost var b := buf[..];
      ghost var w;
      turn, st, w := TurnOf(text, buf, bracket, l, start, endbuf, eof, sed, anchored, st);
      WroteOn(old(buf[..]), b, buf[..], start, endbuf, seen, w);
      seen := if w.Wet? then w else seen;
      if !turn.Continue? {
        if turn.Return? {
          OnlyWithinOn(old(buf[..]), b, buf[..], start, l.ep, turn.ep);
        }
        return turn, l.nbra;
      }
      OnlyWithinOn(old(buf[..]), b, buf[..], start, l.ep, turn.l.ep);
      l := turn.l;
    }
  }
}
