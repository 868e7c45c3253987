/**
 The XTI option buffer: records of a header and data, aligned and laid end to end, and
 the macros that walk them. Addresses are natural numbers and 0 is the null pointer.
 The scalar type in a header has `2^k` bytes; a header is four scalars.
 */
module OptionWalk {
  import opened Bits

  function HeaderAlign(k: nat): nat { Pow2(k) }
  function HeaderSize(k: nat): nat { 4 * Pow2(k) }
  const DATA_ALIGN := 4

  /** Align `x` to the next boundary: `(x + (asize - 1)) & ~(asize - 1)`. */
  function OptAlign(x: nat, asize: nat): nat
    requires asize >= 1
  {
    AndNot(x + (asize - 1), asize - 1)
  }

  function HdrAlign(k: nat, x: nat): nat { OptAlign(x, HeaderAlign(k)) }

  datatype Header = Header(len: nat, level: nat, name: nat, status: nat)
  datatype Netbuf = Netbuf(buf: nat, len: nat)

  /** Bytes by address. */
  type Memory = map<nat, byte>

  function ByteAt(m: Memory, i: nat): byte {
    if i in m then m[i] else 0
  }

  function ReadBytes(m: Memory, a: nat, n: nat): (r: seq<byte>)
    ensures |r| == n
    decreases n
  {
    if n == 0 then [] else [ByteAt(m, a)] + ReadBytes(m, a + 1, n - 1)
  }

  /** The number that `n` bytes from `a` on stand for, least significant first. */
  function ScalarAt(m: Memory, a: nat, n: nat): nat
    decreases n
  {
    if n == 0 then 0 else ByteAt(m, a) + 256 * ScalarAt(m, a + 1, n - 1)
  }

  /** The header that the bytes from `h` on make up. */
  function At(k: nat, m: Memory, h: nat): Header {
    var p := Pow2(k);
    Header(ScalarAt(m, h, p), ScalarAt(m, h + p, p), ScalarAt(m, h + 2 * p, p), ScalarAt(m, h + 3 * p, p))
  }

  function FirstHdr(k: nat, nb: Netbuf): nat {
    if nb.len >= HeaderSize(k) then nb.buf else 0
  }

  function OptData(k: nat, h: nat): nat {
    OptAlign(h + HeaderSize(k), DATA_ALIGN)
  }

  function NextHdr(k: nat, nb: Netbuf, m: Memory, h: nat): nat {
    var a := HdrAlign(k, h + At(k, m, h).len);
    if a + HeaderSize(k) <= nb.buf + nb.len then a else 0
  }

  /** The `n`-th header of the walk, or null once it has ended. */
  function Visit(k: nat, nb: Netbuf, m: Memory, n: nat): nat {
    if n == 0 then FirstHdr(k, nb)
    else
      var h := Visit(k, nb, m, n - 1);
      if h == 0 then 0 else NextHdr(k, nb, m, h)
  }

  /** Four bytes as a number, least significant first. */
  function LittleEndian(m: Memory, a: nat): nat {
    ByteAt(m, a) + 256 * ByteAt(m, a + 1) + 65536 * ByteAt(m, a + 2) + 16777216 * ByteAt(m, a + 3)
  }

  lemma FourBytes(m: Memory, a: nat)
    ensures ScalarAt(m, a, 4) == LittleEndian(m, a)
  {
    assert ScalarAt(m, a + 3, 1) == ByteAt(m, a + 3);
    assert ScalarAt(m, a + 2, 2) == ByteAt(m, a + 2) + 256 * ByteAt(m, a + 3);
    assert ScalarAt(m, a + 1, 3) == ByteAt(m, a + 1) + 256 * ScalarAt(m, a + 2, 2);
  }

  /** With scalars of four bytes: the length at 0, the level at 4, the name at 8 and the status at 12. */
  lemma HeaderLayout(m: Memory, h: nat)
    ensures HeaderSize(2) == 16
    ensures At(2, m, h) ==
            Header(LittleEndian(m, h), LittleEndian(m, h + 4), LittleEndian(m, h + 8), LittleEndian(m, h + 12))
  {
    assert Pow2(2) == 4;
    FourBytes(m, h);
    FourBytes(m, h + 4);
    FourBytes(m, h + 8);
    FourBytes(m, h + 12);
  }

  // ----- Alignment -----

  /** Alignment rounds up to the least multiple. */
  lemma AlignRoundsUp(x: nat, k: nat)
    ensures var p := Pow2(k);
            var r := OptAlign(x, p);
            r % p == 0 && x <= r < x + p && (x % p == 0 ==> r == x)
  {
    var p := Pow2(k);
    RoundUp(x, p);
    AlignClears(x, k, p);
  }

  /** Data begin at the least multiple of four past the header. */
  lemma DataIsAligned(k: nat, h: nat)
    ensures var d := OptData(k, h); d % 4 == 0 && h + HeaderSize(k) <= d < h + HeaderSize(k) + 4
  {
    assert Pow2(2) == 4;
    AlignRoundsUp(h + HeaderSize(k), 2);
  }

  lemma AlignClears(x: nat, k: nat, p: nat)
    requires p == Pow2(k)
    ensures var y := x + (p - 1); OptAlign(x, p) == y - y % p
  {
    AndNotLow(x + (p - 1), k);
  }

  lemma RoundUp(x: nat, p: nat)
    requires p >= 1
    ensures var y := x + (p - 1);
            var r := y - y % p;
            r % p == 0 && x <= r < x + p && (x % p == 0 ==> r == x)
  {
    var y := x + (p - 1);
    var q := y / p;
    assert y - y % p == q * p;
    MultipleMod(q, p);
    if x % p == 0 {
      var u := x / p;
      assert x == u * p;
      DivModUnique(y, p, u, p - 1);
    }
  }

  lemma MultipleMod(q: nat, p: nat)
    requires p >= 1
    ensures (q * p) % p == 0
  {
    DivModUnique(q * p, p, q, 0);
  }

  /** Multiples of `p` that differ, differ by at least `p`. */
  lemma AlignedGap(a: nat, b: nat, p: nat)
    requires p >= 1 && a % p == 0 && b % p == 0 && a < b
    ensures a + p <= b
  {
    assert a == (a / p) * p && b == (b / p) * p;
    if b / p <= a / p {
      MulOrder(b / p, a / p, p);
    } else {
      StepUp(p, a / p, b / p);
    }
  }

  lemma {:induction false} MulOrder(q: nat, q': nat, p: nat)
    requires q <= q'
    ensures q * p <= q' * p
    decreases q'
  {
    if q < q' {
      MulOrder(q, q' - 1, p);
      assert q' * p == (q' - 1) * p + p;
    }
  }

  // ----- Safety -----

  ghost predicate Inside(k: nat, nb: Netbuf, h: nat) {
    nb.buf <= h && h + HeaderSize(k) <= nb.buf + nb.len && h % HeaderAlign(k) == 0
  }

  lemma NextIsInside(k: nat, nb: Netbuf, m: Memory, h: nat)
    requires Inside(k, nb, h)
    ensures var h' := NextHdr(k, nb, m, h); h' != 0 ==> Inside(k, nb, h') && h + At(k, m, h).len <= h'
  {
    AlignRoundsUp(h + At(k, m, h).len, k);
  }

  /** Every header visited is aligned and lies wholly inside the buffer. */
  lemma {:induction false} VisitsStayInside(k: nat, nb: Netbuf, m: Memory, n: nat)
    requires nb.buf % HeaderAlign(k) == 0
    ensures var h := Visit(k, nb, m, n); h != 0 ==> Inside(k, nb, h)
  {
    if n == 0 {
    } else {
      VisitsStayInside(k, nb, m, n - 1);
      var h := Visit(k, nb, m, n - 1);
      if h != 0 { NextIsInside(k, nb, m, h); }
    }
  }

  /**
   Successive headers: the next one is past the previous one exactly when its length is
   not zero, and clear of it exactly when the length reaches into its last scalar.
   */
  lemma NextIsBeyond(k: nat, nb: Netbuf, m: Memory, h: nat)
    requires Inside(k, nb, h) && NextHdr(k, nb, m, h) != 0
    ensures var h' := NextHdr(k, nb, m, h);
            && (h < h' <==> At(k, m, h).len != 0)
            && (h + HeaderSize(k) <= h' <==> At(k, m, h).len > HeaderSize(k) - HeaderAlign(k))
  {
    var p := Pow2(k);
    var len := At(k, m, h).len;
    var h' := NextHdr(k, nb, m, h);
    AlignRoundsUp(h + len, k);
    if len > 3 * p && h' < h + 4 * p {
      AddMultiple(h, 4, p);
      AlignedGap(h', h + 4 * p, p);
      assert false;
    }
  }

  lemma AddMultiple(x: nat, q: nat, p: nat)
    requires p >= 1 && x % p == 0
    ensures (x + q * p) % p == 0
  {
    assert x + q * p == (x / p + q) * p;
    MultipleMod(x / p + q, p);
  }

  /** With every length at least a header, visited headers increase and never overlap. */
  lemma {:induction false} VisitsAreDisjoint(k: nat, nb: Netbuf, m: Memory, i: nat, j: nat)
    requires nb.buf % HeaderAlign(k) == 0 && i < j && Visit(k, nb, m, j) != 0
    requires forall n: nat :: Visit(k, nb, m, n) != 0 ==> At(k, m, Visit(k, nb, m, n)).len >= HeaderSize(k)
    ensures Visit(k, nb, m, i) != 0 && Visit(k, nb, m, i) + HeaderSize(k) <= Visit(k, nb, m, j)
    decreases j
  {
    var h := Visit(k, nb, m, j - 1);
    VisitsStayInside(k, nb, m, j - 1);
    NextIsBeyond(k, nb, m, h);
    if i < j - 1 { VisitsAreDisjoint(k, nb, m, i, j - 1); }
  }

  // ----- The walk ends -----

  lemma {:induction false} ZeroLengthStays(k: nat, nb: Netbuf, m: Memory, n: nat, d: nat)
    requires nb.buf % HeaderAlign(k) == 0
    requires Visit(k, nb, m, n) != 0 && At(k, m, Visit(k, nb, m, n)).len == 0
    ensures Visit(k, nb, m, n + d) == Visit(k, nb, m, n)
    decreases d
  {
    if d == 0 {
    } else {
      ZeroLengthStays(k, nb, m, n, d - 1);
      VisitsStayInside(k, nb, m, n);
      StaysPut(k, nb, m, Visit(k, nb, m, n));
      VisitNext(k, nb, m, n + d - 1);
    }
  }

  lemma StaysPut(k: nat, nb: Netbuf, m: Memory, h: nat)
    requires Inside(k, nb, h) && At(k, m, h).len == 0
    ensures NextHdr(k, nb, m, h) == h
  {
    AlignRoundsUp(h, k);
    NextAfter(k, nb, m, h, 0);
  }

  lemma NextAfter(k: nat, nb: Netbuf, m: Memory, h: nat, len: nat)
    requires At(k, m, h).len == len
    ensures NextHdr(k, nb, m, h) ==
            if HdrAlign(k, h + len) + HeaderSize(k) <= nb.buf + nb.len then HdrAlign(k, h + len) else 0
  {
  }

  lemma VisitNext(k: nat, nb: Netbuf, m: Memory, n: nat)
    ensures Visit(k, nb, m, n + 1) ==
            if Visit(k, nb, m, n) == 0 then 0 else NextHdr(k, nb, m, Visit(k, nb, m, n))
  {
  }

  lemma {:induction false} EndedStays(k: nat, nb: Netbuf, m: Memory, n: nat, d: nat)
    requires Visit(k, nb, m, n) == 0
    ensures Visit(k, nb, m, n + d) == 0
    decreases d
  {
    if d == 0 {
    } else {
      EndedStays(k, nb, m, n, d - 1);
    }
  }

  /** With no zero length on the way, the walk advances by at least one scalar a step. */
  lemma {:induction false} WalkAdvances(k: nat, nb: Netbuf, m: Memory, n: nat)
    requires nb.buf % HeaderAlign(k) == 0
    requires NoZeroLength(k, nb, m)
    ensures Visit(k, nb, m, n) != 0 ==> Visit(k, nb, m, n) >= nb.buf + n
    decreases n
  {
    if n > 0 && Visit(k, nb, m, n) != 0 {
      WalkAdvances(k, nb, m, n - 1);
      VisitsStayInside(k, nb, m, n - 1);
      NextIsBeyond(k, nb, m, Visit(k, nb, m, n - 1));
    }
  }

  ghost predicate NoZeroLength(k: nat, nb: Netbuf, m: Memory) {
    forall n: nat :: Visit(k, nb, m, n) != 0 ==> At(k, m, Visit(k, nb, m, n)).len != 0
  }

  ghost predicate Ends(k: nat, nb: Netbuf, m: Memory) {
    exists n: nat :: Visit(k, nb, m, n) == 0
  }

  /** The walk ends if and only if it meets no header of length zero. */
  lemma EndsIffNoZeroLength(k: nat, nb: Netbuf, m: Memory)
    requires nb.buf % HeaderAlign(k) == 0
    ensures Ends(k, nb, m) <==> NoZeroLength(k, nb, m)
  {
    if Ends(k, nb, m) {
      var e: nat :| Visit(k, nb, m, e) == 0;
      forall n: nat | Visit(k, nb, m, n) != 0 ensures At(k, m, Visit(k, nb, m, n)).len != 0 {
        if At(k, m, Visit(k, nb, m, n)).len == 0 {
          ZeroLengthStays(k, nb, m, n, e);
          EndedStays(k, nb, m, e, n);
        }
      }
    }
    if NoZeroLength(k, nb, m) {
      var n := nb.len + 1;
      WalkAdvances(k, nb, m, n);
      VisitsStayInside(k, nb, m, n);
      assert Visit(k, nb, m, n) == 0;
    }
  }

  // ----- Packing and reading back -----

  datatype Option = Option(level: nat, name: nat, status: nat, data: seq<byte>)

  function HeaderOf(k: nat, o: Option): Header {
    Header(HeaderSize(k) + |o.data|, o.level, o.name, o.status)
  }

  /** The bytes of a scalar, least significant first. */
  function Bytes(v: nat, n: nat): (bs: seq<byte>)
    ensures |bs| == n
    decreases n
  {
    if n == 0 then [] else [v % 256] + Bytes(v / 256, n - 1)
  }

  function Capacity(n: nat): nat {
    if n == 0 then 1 else 256 * Capacity(n - 1)
  }

  function HeaderBytes(k: nat, hdr: Header): (bs: seq<byte>)
    ensures |bs| == HeaderSize(k)
  {
    var p := Pow2(k);
    (Bytes(hdr.len, p) + Bytes(hdr.level, p)) + (Bytes(hdr.name, p) + Bytes(hdr.status, p))
  }

  /** The header's values fit in scalars of `2^k` bytes. */
  predicate Fits(k: nat, o: Option) {
    var hdr, c := HeaderOf(k, o), Capacity(Pow2(k));
    hdr.len < c && hdr.level < c && hdr.name < c && hdr.status < c
  }

  predicate AllFit(k: nat, opts: seq<Option>) {
    forall n :: 0 <= n < |opts| ==> Fits(k, opts[n])
  }

  /** The address of the option after one packed at `a`. */
  function After(k: nat, a: nat, o: Option): nat {
    HdrAlign(k, a + HeaderSize(k) + |o.data|)
  }

  function WriteBytes(bytes: Memory, a: nat, data: seq<byte>): Memory
    decreases |data|
  {
    if data == [] then bytes else WriteBytes(bytes, a + 1, data[1..])[a := data[0]]
  }

  /** Lay the options out from `a` on. */
  function Pack(k: nat, a: nat, opts: seq<Option>): Memory
    decreases |opts|
  {
    if opts == [] then map[]
    else
      var o := opts[0];
      var rest := Pack(k, After(k, a, o), opts[1..]);
      WriteBytes(WriteBytes(rest, OptData(k, a), o.data), a, HeaderBytes(k, HeaderOf(k, o)))
  }

  /** Where option `n` of the list lies. */
  function Place(k: nat, a: nat, opts: seq<Option>, n: nat): nat
    requires n <= |opts|
    decreases n
  {
    if n == 0 then a else Place(k, After(k, a, opts[0]), opts[1..], n - 1)
  }

  /** Where the data of the last option end. */
  function PackedEnd(k: nat, a: nat, opts: seq<Option>): nat
    decreases |opts|
  {
    if opts == [] then a
    else if |opts| == 1 then a + HeaderSize(k) + |opts[0].data| else PackedEnd(k, After(k, a, opts[0]), opts[1..])
  }

  /** The option that a header and the bytes at its data address make up. */
  function ReadOption(k: nat, m: Memory, h: nat): Option {
    var hdr := At(k, m, h);
    var n := if hdr.len >= HeaderSize(k) then hdr.len - HeaderSize(k) else 0;
    Option(hdr.level, hdr.name, hdr.status, ReadBytes(m, OptData(k, h), n))
  }

  /** With scalars of four bytes or more, data follow the header at once. */
  lemma DataFollowsHeader(k: nat, a: nat)
    requires k >= 2 && a % HeaderAlign(k) == 0
    ensures OptData(k, a) == a + HeaderSize(k)
  {
    FourDivides(a, k);
    assert Pow2(2) == 4;
    AlignRoundsUp(a + HeaderSize(k), 2);
  }

  lemma FourDivides(a: nat, k: nat)
    requires k >= 2 && a % Pow2(k) == 0
    ensures (a + 4 * Pow2(k)) % 4 == 0
  {
    var q, d := Pow2(k - 2), a / Pow2(k);
    assert Pow2(k) == 4 * q;
    Times4(d, q);
    assert a + 4 * Pow2(k) == (d * q + Pow2(k)) * 4;
    MultipleMod(d * q + Pow2(k), 4);
  }

  lemma {:induction false} Times4(d: nat, q: nat)
    ensures d * (4 * q) == 4 * (d * q)
    decreases d
  {
    if d == 0 {
    } else {
      Times4(d - 1, q);
      assert d * (4 * q) == (d - 1) * (4 * q) + 4 * q && d * q == (d - 1) * q + q;
    }
  }

  /** The next option lies beyond this one's data. */
  lemma AfterIsBeyond(k: nat, a: nat, o: Option)
    ensures a + HeaderSize(k) + |o.data| <= After(k, a, o) && After(k, a, o) % HeaderAlign(k) == 0
  {
    AlignRoundsUp(a + HeaderSize(k) + |o.data|, k);
  }

  lemma {:induction false} WritesThere(bytes: Memory, a: nat, data: seq<byte>, i: nat)
    ensures var w := WriteBytes(bytes, a, data);
            if a <= i < a + |data| then i in w && w[i] == data[i - a]
            else (i in w <==> i in bytes) && (i in w ==> w[i] == bytes[i])
    decreases |data|
  {
    if data == [] {
    } else {
      WritesThere(bytes, a + 1, data[1..], i);
    }
  }

  /** The bytes `bs` lie from `a` on. */
  ghost predicate Lies(m: Memory, a: nat, bs: seq<byte>) {
    forall i: nat :: a <= i < a + |bs| ==> ByteAt(m, i) == bs[i - a]
  }

  lemma {:induction false} ReadsBack(m: Memory, a: nat, data: seq<byte>)
    requires Lies(m, a, data)
    ensures ReadBytes(m, a, |data|) == data
    decreases |data|
  {
    if data == [] {
    } else {
      assert ByteAt(m, a) == data[0];
      ReadsBack(m, a + 1, data[1..]);
    }
  }

  lemma {:induction false} ReadsSame(m: Memory, m': Memory, a: nat, n: nat)
    requires forall i: nat :: i >= a ==> ByteAt(m, i) == ByteAt(m', i)
    ensures ReadBytes(m, a, n) == ReadBytes(m', a, n)
    decreases n
  {
    if n == 0 {
    } else {
      ReadsSame(m, m', a + 1, n - 1);
    }
  }

  /** Two memories that hold the same from `a` on. */
  ghost predicate SameFrom(m: Memory, m': Memory, a: nat) {
    forall i: nat :: i >= a ==> ByteAt(m, i) == ByteAt(m', i)
  }

  lemma {:induction false} ScalarReads(m: Memory, a: nat, v: nat, n: nat)
    requires v < Capacity(n) && Lies(m, a, Bytes(v, n))
    ensures ScalarAt(m, a, n) == v
    decreases n
  {
    if n == 0 {
    } else {
      LieApart(m, a, [v % 256], Bytes(v / 256, n - 1));
      assert ByteAt(m, a) == v % 256;
      ScalarReads(m, a + 1, v / 256, n - 1);
    }
  }

  lemma LieApart(m: Memory, a: nat, x: seq<byte>, y: seq<byte>)
    requires Lies(m, a, x + y)
    ensures Lies(m, a, x) && Lies(m, a + |x|, y)
  {
    forall i: nat | a <= i < a + |x| ensures ByteAt(m, i) == x[i - a] {
      assert (x + y)[i - a] == x[i - a];
    }
    forall i: nat | a + |x| <= i < a + |x| + |y| ensures ByteAt(m, i) == y[i - (a + |x|)] {
      assert (x + y)[i - a] == y[i - (a + |x|)];
    }
  }

  lemma TwoScalarsRead(m: Memory, a: nat, v: nat, w: nat, n: nat)
    requires v < Capacity(n) && w < Capacity(n) && Lies(m, a, Bytes(v, n) + Bytes(w, n))
    ensures ScalarAt(m, a, n) == v && ScalarAt(m, a + n, n) == w
  {
    LieApart(m, a, Bytes(v, n), Bytes(w, n));
    ScalarReads(m, a, v, n);
    ScalarReads(m, a + n, w, n);
  }

  lemma HeaderReads(k: nat, m: Memory, a: nat, o: Option)
    requires Fits(k, o) && Lies(m, a, HeaderBytes(k, HeaderOf(k, o)))
    ensures At(k, m, a) == HeaderOf(k, o)
  {
    var p, hdr := Pow2(k), HeaderOf(k, o);
    LieApart(m, a, Bytes(hdr.len, p) + Bytes(hdr.level, p), Bytes(hdr.name, p) + Bytes(hdr.status, p));
    TwoScalarsRead(m, a, hdr.len, hdr.level, p);
    TwoScalarsRead(m, a + 2 * p, hdr.name, hdr.status, p);
  }

  lemma FirstReads(k: nat, a: nat, opts: seq<Option>)
    requires k >= 2 && a % HeaderAlign(k) == 0 && opts != [] && Fits(k, opts[0])
    ensures var m := Pack(k, a, opts); At(k, m, a) == HeaderOf(k, opts[0]) && ReadOption(k, m, a) == opts[0]
  {
    var o, d, m := opts[0], OptData(k, a), Pack(k, a, opts);
    var rest := Pack(k, After(k, a, o), opts[1..]);
    DataFollowsHeader(k, a);
    forall i: nat | a <= i < a + HeaderSize(k) ensures ByteAt(m, i) == HeaderBytes(k, HeaderOf(k, o))[i - a] {
      WritesThere(WriteBytes(rest, d, o.data), a, HeaderBytes(k, HeaderOf(k, o)), i);
    }
    HeaderReads(k, m, a, o);
    forall i: nat | d <= i < d + |o.data| ensures ByteAt(m, i) == o.data[i - d] {
      WritesThere(WriteBytes(rest, d, o.data), a, HeaderBytes(k, HeaderOf(k, o)), i);
      WritesThere(rest, d, o.data, i);
    }
    ReadsBack(m, d, o.data);
  }

  lemma RestIsKept(k: nat, a: nat, opts: seq<Option>)
    requires k >= 2 && a % HeaderAlign(k) == 0 && opts != []
    ensures SameFrom(Pack(k, a, opts), Pack(k, After(k, a, opts[0]), opts[1..]), After(k, a, opts[0]))
  {
    var o, m := opts[0], Pack(k, a, opts);
    var rest := Pack(k, After(k, a, o), opts[1..]);
    AfterIsBeyond(k, a, o);
    DataFollowsHeader(k, a);
    forall i: nat | i >= After(k, a, o) ensures ByteAt(m, i) == ByteAt(rest, i) {
      WritesThere(WriteBytes(rest, OptData(k, a), o.data), a, HeaderBytes(k, HeaderOf(k, o)), i);
      WritesThere(rest, OptData(k, a), o.data, i);
    }
  }

  lemma {:induction false} ScalarsSame(m: Memory, m': Memory, a: nat, n: nat)
    requires SameFrom(m, m', a)
    ensures ScalarAt(m, a, n) == ScalarAt(m', a, n)
    decreases n
  {
    if n == 0 {
    } else {
      ScalarsSame(m, m', a + 1, n - 1);
    }
  }

  lemma HeadersSame(k: nat, m: Memory, m': Memory, a: nat, h: nat)
    requires SameFrom(m, m', a) && a <= h
    ensures At(k, m, h) == At(k, m', h)
  {
    var p := Pow2(k);
    ScalarsSame(m, m', h, p);
    ScalarsSame(m, m', h + p, p);
    ScalarsSame(m, m', h + 2 * p, p);
    ScalarsSame(m, m', h + 3 * p, p);
  }

  /** Reading at or after `a` depends only on memory from `a` on. */
  lemma ReadsFrom(k: nat, m: Memory, m': Memory, a: nat, h: nat)
    requires SameFrom(m, m', a) && a <= h
    ensures At(k, m, h) == At(k, m', h) && ReadOption(k, m, h) == ReadOption(k, m', h)
  {
    assert Pow2(2) == 4;
    AlignRoundsUp(h + HeaderSize(k), 2);
    HeadersSame(k, m, m', a, h);
    var hdr := At(k, m, h);
    ReadsSame(m, m', OptData(k, h), if hdr.len >= HeaderSize(k) then hdr.len - HeaderSize(k) else 0);
  }

  /** Packed options read back, and lie one after the other. */
  lemma {:induction false} PlacedReads(k: nat, a: nat, opts: seq<Option>, n: nat)
    requires k >= 2 && a % HeaderAlign(k) == 0 && n < |opts| && AllFit(k, opts)
    ensures var m, h := Pack(k, a, opts), Place(k, a, opts, n);
            && a <= h && At(k, m, h) == HeaderOf(k, opts[n]) && ReadOption(k, m, h) == opts[n]
            && Place(k, a, opts, n + 1) == After(k, h, opts[n])
    decreases n
  {
    if n == 0 {
      FirstReads(k, a, opts);
    } else {
      RestIsKept(k, a, opts);
      var a', rest := After(k, a, opts[0]), opts[1..];
      AfterIsBeyond(k, a, opts[0]);
      PlacedReads(k, a', rest, n - 1);
      ReadsFrom(k, Pack(k, a, opts), Pack(k, a', rest), a', Place(k, a', rest, n - 1));
    }
  }

  lemma {:induction false} PlacesGrow(k: nat, a: nat, opts: seq<Option>, n: nat)
    requires opts != [] && n < |opts|
    ensures Place(k, a, opts, n) + HeaderSize(k) + |opts[n].data| <= PackedEnd(k, a, opts)
    ensures n == |opts| - 1 ==> Place(k, a, opts, n) + HeaderSize(k) + |opts[n].data| == PackedEnd(k, a, opts)
    decreases |opts|
  {
    if |opts| > 1 {
      var a', rest := After(k, a, opts[0]), opts[1..];
      AfterIsBeyond(k, a, opts[0]);
      PlacesGrow(k, a', rest, if n > 0 then n - 1 else 0);
    }
  }

  /**
   Walking a packed buffer visits exactly the packed options, in order: the `n`-th header
   visited is the `n`-th option and reads back as it, and after the last the walk ends.
   */
  lemma {:induction false} WalkReadsPacked(k: nat, a: nat, opts: seq<Option>, len: nat, n: nat)
    requires k >= 2 && a > 0 && a % HeaderAlign(k) == 0 && n <= |opts| && AllFit(k, opts)
    requires PackedEnd(k, a, opts) <= a + len < HdrAlign(k, PackedEnd(k, a, opts)) + HeaderSize(k)
    ensures var m := Pack(k, a, opts);
            var h := Visit(k, Netbuf(a, len), m, n);
            if n == |opts| then h == 0 else h == Place(k, a, opts, n) && h != 0 && ReadOption(k, m, h) == opts[n]
    decreases n
  {
    if opts == [] {
      AlignRoundsUp(a, k);
    } else if n == 0 {
      PlacesGrow(k, a, opts, 0);
      PlacedReads(k, a, opts, 0);
    } else {
      WalkReadsPacked(k, a, opts, len, n - 1);
      StepsToNext(k, a, opts, len, n - 1);
      if n < |opts| { PlacedReads(k, a, opts, n); }
    }
  }

  lemma StepsToNext(k: nat, a: nat, opts: seq<Option>, len: nat, n: nat)
    requires k >= 2 && a % HeaderAlign(k) == 0 && n < |opts| && AllFit(k, opts)
    requires PackedEnd(k, a, opts) <= a + len < HdrAlign(k, PackedEnd(k, a, opts)) + HeaderSize(k)
    ensures NextHdr(k, Netbuf(a, len), Pack(k, a, opts), Place(k, a, opts, n)) ==
            if n + 1 < |opts| then Place(k, a, opts, n + 1) else 0
  {
    var next := if n + 1 < |opts| then Place(k, a, opts, n + 1) else 0;
    PlacedLength(k, a, opts, n);
    NextFits(k, a, opts, len, n, next);
    StepFrom(k, Netbuf(a, len), Pack(k, a, opts), Place(k, a, opts, n), HeaderSize(k) + |opts[n].data|, next);
  }

  lemma NextFits(k: nat, a: nat, opts: seq<Option>, len: nat, n: nat, next: nat)
    requires n < |opts| && Place(k, a, opts, n + 1) == After(k, Place(k, a, opts, n), opts[n])
    requires PackedEnd(k, a, opts) <= a + len < HdrAlign(k, PackedEnd(k, a, opts)) + HeaderSize(k)
    requires next == if n + 1 < |opts| then Place(k, a, opts, n + 1) else 0
    ensures var h := HdrAlign(k, Place(k, a, opts, n) + (HeaderSize(k) + |opts[n].data|));
            next == if h + HeaderSize(k) <= a + len then h else 0
  {
    StepsOver(k, a, opts, len, n);
  }

  lemma StepFrom(k: nat, nb: Netbuf, m: Memory, h: nat, len: nat, next: nat)
    requires At(k, m, h).len == len
    requires next == if HdrAlign(k, h + len) + HeaderSize(k) <= nb.buf + nb.len then HdrAlign(k, h + len) else 0
    ensures NextHdr(k, nb, m, h) == next
  {
    NextAfter(k, nb, m, h, len);
  }

  lemma PlacedLength(k: nat, a: nat, opts: seq<Option>, n: nat)
    requires k >= 2 && a % HeaderAlign(k) == 0 && n < |opts| && AllFit(k, opts)
    ensures At(k, Pack(k, a, opts), Place(k, a, opts, n)).len == HeaderSize(k) + |opts[n].data|
    ensures Place(k, a, opts, n + 1) == After(k, Place(k, a, opts, n), opts[n])
  {
    PlacedReads(k, a, opts, n);
  }

  /** The alignment arithmetic of one step. */
  lemma StepsOver(k: nat, a: nat, opts: seq<Option>, len: nat, n: nat)
    requires n < |opts| && Place(k, a, opts, n + 1) == After(k, Place(k, a, opts, n), opts[n])
    requires PackedEnd(k, a, opts) <= a + len < HdrAlign(k, PackedEnd(k, a, opts)) + HeaderSize(k)
    ensures var next := HdrAlign(k, Place(k, a, opts, n) + (HeaderSize(k) + |opts[n].data|));
            && (n + 1 < |opts| ==> next == Place(k, a, opts, n + 1) && next + HeaderSize(k) <= a + len)
            && (n + 1 == |opts| ==> next + HeaderSize(k) > a + len)
  {
    if n + 1 < |opts| {
      PlacesGrow(k, a, opts, n + 1);
    } else {
      PlacesGrow(k, a, opts, n);
    }
  }
}
