/**
 Compiling a bracket expression: the bitmap is built in place, widened in mid-course
 when a byte above 127 turns up, and inverted at the end for `[^...]`.
 */
module BracketCode {
  import opened Bits
  import opened Pattern
  import opened Code
  import opened Syntax

  /** The `n`-byte bitmap at `b[e]` holds exactly `members`. */
  ghost predicate Holds(b: seq<byte>, e: nat, n: nat, members: set<byte>) {
    && e + n <= |b|
    && (forall c :: c in members ==> c < 8 * n)
    && forall c: byte :: c < 8 * n ==> (Bit(b[e + c / 8], c % 8) <==> c in members)
  }

  /** The bitmap at `b[e]` has the bit of `c`. */
  predicate InMap(b: seq<byte>, e: nat, c: byte) {
    e + c / 8 < |b| && Bit(b[e + c / 8], c % 8)
  }

  /** The two buffers differ at most from index `lo` up to but not including `hi`. */
  ghost predicate OnlyWithin(b: seq<byte>, b': seq<byte>, lo: int, hi: int) {
    |b| == |b'| && forall k :: 0 <= k < |b| && (k < lo || hi <= k) ==> b'[k] == b[k]
  }

  function Width(wide: bool): nat {
    if wide then 32 else 16
  }

  lemma PlaceHolds(b: seq<byte>, e: nat, n: nat, members: set<byte>, c: byte)
    requires Holds(b, e, n, members) && c < 8 * n
    ensures Holds(b[e + c / 8 := Placed(b[e + c / 8], c)], e, n, members + {c})
  {
    var b' := b[e + c / 8 := Placed(b[e + c / 8], c)];
    forall d: byte | d < 8 * n
      ensures Bit(b'[e + d / 8], d % 8) <==> d in members + {c}
    {
      if d / 8 == c / 8 {
        assert Bit(b'[e + d / 8], d % 8) == (Bit(b[e + d / 8], d % 8) || d % 8 == c % 8);
      }
    }
  }

  /** PLACE(c) */
  method Place(buf: array<byte>, e: nat, c: byte, ghost n: nat, ghost members: set<byte>)
    requires Holds(buf[..], e, n, members) && c < 8 * n
    modifies buf
    ensures Holds(buf[..], e, n, members + {c})
    ensures OnlyWithin(old(buf[..]), buf[..], e, e + n)
  {
    PlaceHolds(buf[..], e, n, members, c);
    buf[e + c / 8] := Placed(buf[e + c / 8], c);
  }

  method Zero(buf: array<byte>, e: nat, from: nat, to: nat)
    requires from <= to && e + to <= buf.Length
    modifies buf
    ensures OnlyWithin(old(buf[..]), buf[..], e + from, e + to)
    ensures forall k :: e + from <= k < e + to ==> buf[k] == 0
  {
    var i := from;
    while i < to
      invariant from <= i <= to
      invariant OnlyWithin(old(buf[..]), buf[..], e + from, e + to)
      invariant forall k :: e + from <= k < e + i ==> buf[k] == 0
    {
      buf[e + i] := 0;
      i := i + 1;
    }
  }

  lemma ZeroHolds(b: seq<byte>, e: nat, n: nat, members: set<byte>)
    requires e + n <= |b| && 16 <= n <= 32
    requires if n == 16 then members == {} && forall k :: e <= k < e + 16 ==> b[k] == 0
             else Holds(b, e, 16, members) && forall k :: e + 16 <= k < e + n ==> b[k] == 0
    ensures Holds(b, e, n, members)
  {
    forall c: byte | c < 8 * n ensures Bit(b[e + c / 8], c % 8) <==> c in members {
      if n == 16 || c >= 128 {
        assert b[e + c / 8] == 0;
        BitOfZero(c % 8);
      }
    }
  }

  /** The switch to 32 bytes at the first byte above 127. */
  method Widen(buf: array<byte>, e: nat, endbuf: nat, c: byte, wide0: bool, ghost members: set<byte>)
    returns (ok: bool, wide: bool)
    requires 1 <= e && endbuf <= buf.Length && e + 16 < endbuf
    requires wide0 ==> e + 32 < endbuf
    requires Holds(buf[..], e, Width(wide0), members)
    requires buf[e - 1] == if wide0 then CXCL else CCL
    modifies buf
    ensures ok <==> !(c >= 128 && !wide0 && e + 32 >= endbuf)
    ensures ok ==> wide == (wide0 || c >= 128) && (wide ==> e + 32 < endbuf)
    ensures ok ==> Holds(buf[..], e, Width(wide), members)
    ensures ok ==> buf[e - 1] == if wide then CXCL else CCL
    ensures OnlyWithin(old(buf[..]), buf[..], e - 1, if ok then e + Width(wide) else e - 1)
  {
    ok, wide := true, wide0;
    if c >= 128 && !wide0 {
      wide := true;
      if e + 32 >= endbuf {
        ok := false;
        return;
      }
      buf[e - 1] := CXCL;
      assert Holds(buf[..], e, 16, members);
      Zero(buf, e, 16, 32);
      assert Holds(buf[..], e, 16, members);
      ZeroHolds(buf[..], e, 32, members);
    }
  }

  /** `while (lc < c) { PLACE(lc); lc++; }` */
  method PlaceRange(buf: array<byte>, e: nat, lo: byte, hi: byte, ghost n: nat, ghost members: set<byte>)
    requires Holds(buf[..], e, n, members) && hi <= 8 * n
    modifies buf
    ensures forall c: byte :: c < 8 * n ==> (InMap(buf[..], e, c) <==> c in members || lo <= c < hi)
    ensures OnlyWithin(old(buf[..]), buf[..], e, e + n)
  {
    var lc: int := lo;
    assert members + Below(lo, lo) == members;
    while lc < hi
      invariant lo <= lc && (lc <= hi || lc == lo)
      invariant Holds(buf[..], e, n, members + Below(lo, lc))
      invariant OnlyWithin(old(buf[..]), buf[..], e, e + n)
    {
      Place(buf, e, lc, n, members + Below(lo, lc));
      assert members + Below(lo, lc) + {lc as byte} == members + Below(lo, lc + 1);
      lc := lc + 1;
    }
    assert Below(lo, lc) == Below(lo, hi);
    HoldsRange(buf[..], e, n, members, lo, hi);
  }

  lemma HoldsRange(b: seq<byte>, e: nat, n: nat, members: set<byte>, lo: byte, hi: byte)
    requires Holds(b, e, n, members + Below(lo, hi))
    ensures forall c: byte :: c < 8 * n ==> (InMap(b, e, c) <==> c in members || lo <= c < hi)
  {
    forall c: byte | c < 8 * n ensures InMap(b, e, c) <==> c in members || lo <= c < hi {
      assert c in members + Below(lo, hi) <==> c in members || lo <= c < hi;
    }
  }

  lemma RangeHolds(b: seq<byte>, e: nat, n: nat, members: set<byte>, lo: byte, hi: byte)
    requires e + n <= |b| && hi <= 8 * n && forall c :: c in members ==> c < 8 * n
    requires forall c: byte :: c < 8 * n ==> (InMap(b, e, c) <==> c in members || lo <= c < hi)
    ensures Holds(b, e, n, members + Below(lo, hi))
  {
    forall c: byte | c < 8 * n ensures Bit(b[e + c / 8], c % 8) <==> c in members + Below(lo, hi) {
      assert InMap(b, e, c) <==> c in members + Below(lo, hi);
    }
  }

  /** The range from `lc` to `c`, after its end has been read. */
  method RangeTo(buf: array<byte>, e: nat, endbuf: nat, lc: byte, c: byte, wide0: bool, ghost members: set<byte>)
    returns (ok: bool, wide: bool)
    requires 1 <= e && endbuf <= buf.Length && e + 16 < endbuf
    requires wide0 ==> e + 32 < endbuf
    requires Holds(buf[..], e, Width(wide0), members)
    requires buf[e - 1] == if wide0 then CXCL else CCL
    modifies buf
    ensures ok <==> !(c >= 128 && !wide0 && e + 32 >= endbuf)
    ensures ok ==> wide == (wide0 || c >= 128) && (wide ==> e + 32 < endbuf)
    ensures ok ==> Holds(buf[..], e, Width(wide), members + Below(lc, c))
    ensures ok ==> buf[e - 1] == if wide then CXCL else CCL
    ensures OnlyWithin(old(buf[..]), buf[..], e - 1, if ok then e + Width(wide) else e - 1)
  {
    ok, wide := Widen(buf, e, endbuf, c, wide0, members);
    if ok {
      PlaceRange(buf, e, lc, c, Width(wide), members);
      RangeHolds(buf[..], e, Width(wide), members, lc, c);
    }
  }

  /** The do-while loop over the list. `code` is 0 or the error it ends with. */
  method List(text: seq<byte>, pos0: nat, buf: array<byte>, e: nat, endbuf: nat)
    returns (code: int, pos: nat, wide: bool, ghost members: set<byte>)
    requires 1 <= e && endbuf <= buf.Length && e + 16 < endbuf
    requires Holds(buf[..], e, 16, {}) && buf[e - 1] == CCL
    modifies buf
    ensures match ReadList(text, pos0, 0, {}, false, e + 32 < endbuf)
            case BadBracket(err) => code == err
            case BracketText(m, w, p) =>
              && code == 0 && members == m && wide == w && pos == p
              && (wide ==> e + 32 < endbuf)
              && Holds(buf[..], e, Width(wide), members)
              && buf[e - 1] == if wide then CXCL else CCL
    ensures code == 0 || code == 49 || code == 50
    ensures OnlyWithin(old(buf[..]), buf[..], e - 1, if code == 0 then e + Width(wide) else endbuf)
  {
    ghost var roomy := e + 32 < endbuf;
    ghost var goal := ReadList(text, pos0, 0, {}, false, roomy);
    code, pos, wide, members := 0, pos0 + 1, false, {};
    var c, lc: byte, more := Get(text, pos0), 0, true;
    while more
      invariant code == 0 ==> Holds(buf[..], e, Width(wide), members) && buf[e - 1] == if wide then CXCL else CCL
      invariant code == 0 && wide ==> e + 32 < endbuf
      invariant more ==> 1 <= pos && c == Get(text, pos - 1) && code == 0
      invariant goal == if more then ReadList(text, pos - 1, lc, members, wide, roomy)
                        else if code == 0 then BracketText(members, wide, pos) else BadBracket(code)
      invariant OnlyWithin(old(buf[..]), buf[..], e - 1, if code == 0 then e + Width(wide) else endbuf)
      decreases more, |text| - pos
    {
      code, more, pos, c, lc, wide, members := Member(text, pos, buf, e, endbuf, c, lc, wide, members);
    }
  }

  /** One turn of the do-while loop: a byte, a range, or the hyphen at the end. */
  method Member(text: seq<byte>, pos0: nat, buf: array<byte>, e: nat, endbuf: nat, c0: byte, lc0: byte, wide0: bool,
                ghost members0: set<byte>)
    returns (code: int, more: bool, pos: nat, c: byte, lc: byte, wide: bool, ghost members: set<byte>)
    requires 1 <= e && endbuf <= buf.Length && e + 16 < endbuf && (wide0 ==> e + 32 < endbuf)
    requires 1 <= pos0 && c0 == Get(text, pos0 - 1)
    requires Holds(buf[..], e, Width(wide0), members0) && buf[e - 1] == if wide0 then CXCL else CCL
    modifies buf
    ensures more ==> code == 0 && pos0 < pos && c == Get(text, pos - 1) && c0 != 0
    ensures ReadList(text, pos0 - 1, lc0, members0, wide0, e + 32 < endbuf) ==
            if more then ReadList(text, pos - 1, lc, members, wide, e + 32 < endbuf)
            else if code == 0 then BracketText(members, wide, pos) else BadBracket(code)
    ensures code == 0 ==> Holds(buf[..], e, Width(wide), members) && buf[e - 1] == if wide then CXCL else CCL
    ensures code == 0 ==> (wide0 ==> wide) && (wide ==> e + 32 < endbuf)
    ensures OnlyWithin(old(buf[..]), buf[..], e - 1, if code == 0 then e + Width(wide) else endbuf)
  {
    code, more, pos, c, lc, members := 0, false, pos0, c0, lc0, members0;
    if c == 0 || c == NEWLINE {
      wide := wide0;
      code := 49;
      return;
    }
    var ok;
    ok, wide := Widen(buf, e, endbuf, c, wide0, members);
    if !ok {
      code := 50;
      return;
    }
    if c == HYPHEN && lc != 0 {
      c := Get(text, pos);
      pos := pos + 1;
      if c == RSQUARE {
        Place(buf, e, HYPHEN, Width(wide), members);
        members := members + {HYPHEN};
        return;
      }
      ok, wide := RangeTo(buf, e, endbuf, lc, c, wide, members);
      if !ok {
        code := 50;
        return;
      }
      members := members + Below(lc, c);
    }
    lc := c;
    Place(buf, e, c, Width(wide), members);
    members := members + {c};
    c := Get(text, pos);
    pos := pos + 1;
    more := c != RSQUARE;
  }

  lemma InvertByte(b: byte, k: nat)
    requires k < 8
    ensures Xor(b, 255) < 256 && Bit(Xor(b, 255), k) == !Bit(b, k)
  {
    assert Pow2(8) == 256;
    StaysBelow(b, 255, 8);
    BitXor(b, 255, k);
    assert Bit(255, k) by {
      assert k in {0, 1, 2, 3, 4, 5, 6, 7};
      assert Bit(255, 0) && Bit(255, 1) && Bit(255, 2) && Bit(255, 3);
      assert Bit(255, 4) && Bit(255, 5) && Bit(255, 6) && Bit(255, 7);
    }
  }

  lemma ClearNul(b: byte, k: nat)
    requires k < 8
    ensures And(b, 254) < 256 && Bit(And(b, 254), k) == (Bit(b, k) && k != 0)
  {
    assert Pow2(8) == 256;
    StaysBelow(b, 254, 8);
    BitAnd(b, 254, k);
    assert Bit(254, k) == (k != 0) by {
      assert k in {0, 1, 2, 3, 4, 5, 6, 7};
      assert !Bit(254, 0) && Bit(254, 1) && Bit(254, 2) && Bit(254, 3);
      assert Bit(254, 4) && Bit(254, 5) && Bit(254, 6) && Bit(254, 7);
    }
  }

  /** `ep[cclcnt] ^= 0377` for the 32 bytes. */
  method Invert(buf: array<byte>, e: nat)
    requires e + 32 <= buf.Length
    modifies buf
    ensures OnlyWithin(old(buf[..]), buf[..], e, e + 32)
    ensures forall k :: e <= k < e + 32 ==> buf[k] == Xor(old(buf[k]), 255)
  {
    var cclcnt := 0;
    while cclcnt < 32
      invariant 0 <= cclcnt <= 32
      invariant OnlyWithin(old(buf[..]), buf[..], e, e + 32)
      invariant forall k :: e <= k < e + cclcnt ==> buf[k] == Xor(old(buf[k]), 255)
      invariant forall k :: e + cclcnt <= k < e + 32 ==> buf[k] == old(buf[k])
    {
      InvertByte(buf[e + cclcnt], 0);
      buf[e + cclcnt] := Xor(buf[e + cclcnt], 255);
      cclcnt := cclcnt + 1;
    }
  }

  /** The bitmap at `b[e]` is the operand of bracket `h`. */
  ghost predicate HoldsFor(b: seq<byte>, e: nat, h: Head)
    requires h.Bracket?
  {
    && e + OperandSize(h) <= |b|
    && forall c: byte :: c < 8 * OperandSize(h) ==> (Bit(b[e + c / 8], c % 8) <==> Stored(h, c))
  }

  method Negate(buf: array<byte>, e: nat, wide: bool, ghost members: set<byte>)
    requires 1 <= e && e + Width(wide) <= buf.Length
    requires Holds(buf[..], e, Width(wide), members)
    requires buf[e - 1] == if wide then CXCL else CCL
    modifies buf
    ensures HoldsFor(buf[..], e, Bracket(true, members, wide))
    ensures buf[e - 1] == if wide then CXCL else NCCL
    ensures OnlyWithin(old(buf[..]), buf[..], e - 1, e + Width(wide))
  {
    if wide {
      Invert(buf, e);
      ClearNul(buf[e], 0);
      ghost var b := buf[e];
      buf[e] := And(buf[e], 254);
      forall c: byte ensures Bit(buf[e + c / 8], c % 8) <==> Stored(Bracket(true, members, wide), c) {
        InvertByte(old(buf[e + c / 8]), c % 8);
        assert c / 8 == 0 ==> c % 8 == c;
        if c / 8 == 0 {
          ClearNul(b, c % 8);
        } else {
          assert buf[e + c / 8] == Xor(old(buf[e + c / 8]), 255);
        }
      }
    } else {
      buf[e - 1] := NCCL;
      assert BITTAB[0] == 1;
      ghost var b := buf[e];
      buf[e] := Placed(buf[e], 0);
      forall c: byte | c < 128 ensures Bit(buf[e + c / 8], c % 8) <==> Stored(Bracket(true, members, wide), c) {
        if c / 8 == 0 {
          assert Bit(buf[e], c % 8) == (Bit(b, c % 8) || c % 8 == 0);
        }
      }
    }
  }

  lemma OperandBytes(b: seq<byte>, ep: nat, ep': nat, h: Head)
    requires h.Bracket? && ep' == ep + 1 + OperandSize(h) <= |b|
    requires b[ep] == Base(h) && HoldsFor(b, ep + 1, h)
    ensures IsItem(b[ep..ep'], Plain(h))
  {
    var x := b[ep..ep'];
    OrZero(Base(h));
    forall c: byte | c < 8 * OperandSize(h) ensures IsThere(x, 1, c) == Stored(h, c) {
      IsThereIsBit(x, 1, c);
      assert x[1 + c / 8] == b[ep + 1 + c / 8];
    }
  }

  /** The whole of `case '['`, after the bracket has been read. */
  method BracketExpr(text: seq<byte>, pos0: nat, buf: array<byte>, ep0: nat, endbuf: nat)
    returns (code: int, pos: nat, ep: nat, ghost h: Head)
    requires ep0 < endbuf <= buf.Length
    modifies buf
    ensures if ep0 + 17 >= endbuf then code == 50
            else
              var neg := Get(text, pos0) == CARET;
              match ReadList(text, if neg then pos0 + 1 else pos0, 0, {}, false, ep0 + 33 < endbuf)
              case BadBracket(err) => code == err
              case BracketText(members, wide, p) =>
                && code == 0 && pos == p && h == Bracket(neg, members, wide)
                && ep == ep0 + Size(Plain(h)) <= endbuf
                && IsItem(buf[ep0..ep], Plain(h))
    ensures code == 0 || code == 49 || code == 50
    ensures OnlyWithin(old(buf[..]), buf[..], ep0, if code == 0 then ep else endbuf)
  {
    pos, ep, h := pos0, ep0, Dot;
    if ep0 + 17 >= endbuf {
      code := 50;
      return;
    }
    buf[ep] := CCL;
    ep := ep + 1;
    Zero(buf, ep, 0, 16);
    ZeroHolds(buf[..], ep, 16, {});
    var neg := false;
    if Get(text, pos) == CARET {
      neg := true;
      pos := pos + 1;
    }
    var wide;
    ghost var members;
    code, pos, wide, members := List(text, pos, buf, ep, endbuf);
    if code != 0 {
      return;
    }
    h := Bracket(neg, members, wide);
    if neg {
      Negate(buf, ep, wide, members);
    } else {
      assert HoldsFor(buf[..], ep, h);
    }
    ep := ep + if wide then 32 else 16;
    OperandBytes(buf[..], ep0, ep, h);
  }
}
