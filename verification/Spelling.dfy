/**
 How patterns are written, independently of how they are read: a spelling for every item,
 and the proof that reading a spelled pattern gives the pattern back.
 */
module Spelling {
  import opened Bits
  import opened Pattern
  import opened Syntax

  /** `x` is what the cursor reads from `pos` on. */
  predicate Starts(text: seq<byte>, pos: nat, x: seq<byte>) {
    forall k :: 0 <= k < |x| ==> Get(text, pos + k) == x[k]
  }

  lemma StartsSplit(text: seq<byte>, pos: nat, x: seq<byte>, y: seq<byte>)
    ensures Starts(text, pos, x + y) <==> Starts(text, pos, x) && Starts(text, pos + |x|, y)
  {
    var z := x + y;
    if Starts(text, pos, z) {
      forall k | 0 <= k < |x| ensures Get(text, pos + k) == x[k] {
        assert z[k] == x[k];
      }
      forall k | 0 <= k < |y| ensures Get(text, pos + |x| + k) == y[k] {
        assert z[|x| + k] == y[k];
      }
    }
    if Starts(text, pos, x) && Starts(text, pos + |x|, y) {
      forall k | 0 <= k < |z| ensures Get(text, pos + k) == z[k] {
        if k >= |x| {
          assert z[k] == y[k - |x|];
        }
      }
    }
  }

  lemma StartsJoin(text: seq<byte>, pos: nat, x: seq<byte>, y: seq<byte>, z: seq<byte>)
    requires z == x + y && Starts(text, pos, x) && Starts(text, pos + |x|, y)
    ensures Starts(text, pos, z)
  {
    StartsSplit(text, pos, x, y);
  }

  lemma StartsThree(text: seq<byte>, pos: nat, x: seq<byte>, y: seq<byte>, z: seq<byte>)
    requires Starts(text, pos, x + (y + z))
    ensures Starts(text, pos, x) && Starts(text, pos + |x|, y) && Starts(text, pos + |x| + |y|, z)
  {
    StartsSplit(text, pos, x, y + z);
    StartsSplit(text, pos + |x|, y, z);
  }

  lemma StartsAt(text: seq<byte>, pos: nat, x: seq<byte>, k: nat)
    requires Starts(text, pos, x) && k < |x|
    ensures Get(text, pos + k) == x[k]
  {
  }

  // ----- Bracket lists -----

  /** A list element: one byte, or `-hi`, a range from the member before it. */
  datatype Elem = One(c: byte) | To(hi: byte)

  /** The member that a following hyphen would start a range from. */
  function Trail(e: Elem): byte {
    match e case One(c) => c case To(hi) => hi
  }

  function SpellElem(e: Elem): seq<byte> {
    match e case One(c) => [c] case To(hi) => [HYPHEN, hi]
  }

  /** The elements and the closing bracket. */
  function SpellList(elems: seq<Elem>): seq<byte> {
    if elems == [] then [RSQUARE] else SpellElem(elems[0]) + SpellList(elems[1..])
  }

  /** What an element stands for after member `lc`: a range includes its end even if that is lower. */
  predicate Covers(lc: byte, e: Elem, x: byte) {
    match e case One(c) => x == c case To(hi) => x == hi || lc <= x <= hi
  }

  function DenoteElem(lc: byte, e: Elem): set<byte> {
    set x: byte | Covers(lc, e, x)
  }

  function Denote(lc: byte, elems: seq<Elem>): set<byte>
    decreases |elems|
  {
    if elems == [] then {} else DenoteElem(lc, elems[0]) + Denote(Trail(elems[0]), elems[1..])
  }

  predicate AnyHigh(elems: seq<Elem>) {
    if elems == [] then false else Trail(elems[0]) >= 128 || AnyHigh(elems[1..])
  }

  /** Element `k` of a list that follows member `lc` stands for `x`. */
  ghost predicate CoveredAt(lc: byte, elems: seq<Elem>, k: nat, x: byte) {
    k < |elems| && Covers(if k == 0 then lc else Trail(elems[k - 1]), elems[k], x)
  }

  /** A list has the members that its elements stand for, each after the trail of the one before. */
  lemma {:induction false} DenoteIff(lc: byte, elems: seq<Elem>, x: byte)
    ensures x in Denote(lc, elems) <==> exists k: nat :: CoveredAt(lc, elems, k, x)
    decreases |elems|
  {
    if elems == [] {
    } else {
      var lc', rest := Trail(elems[0]), elems[1..];
      DenoteIff(lc', rest, x);
      if k: nat :| CoveredAt(lc', rest, k, x) {
        assert CoveredAt(lc, elems, k + 1, x);
      }
      if k: nat :| CoveredAt(lc, elems, k, x) && k > 0 {
        assert CoveredAt(lc', rest, k - 1, x);
      }
      if Covers(lc, elems[0], x) {
        assert CoveredAt(lc, elems, 0, x);
      }
    }
  }

  /** No byte that would end the list, and a hyphen on its own only where it starts no range. */
  predicate WritableElem(lc: byte, e: Elem, last: bool) {
    match e
    case One(c) => c != 0 && c != NEWLINE && (c == HYPHEN ==> lc == 0 || last)
    case To(_) => lc != 0
  }

  /** After the first element. */
  predicate WritableRest(lc: byte, elems: seq<Elem>)
    decreases |elems|
  {
    if elems == [] then true
    else
      && WritableElem(lc, elems[0], |elems| == 1) && Trail(elems[0]) != RSQUARE
      && WritableRest(Trail(elems[0]), elems[1..])
  }

  predicate WritableList(neg: bool, elems: seq<Elem>) {
    && elems != [] && WritableElem(0, elems[0], false) && (elems[0] == One(CARET) ==> neg)
    && WritableRest(Trail(elems[0]), elems[1..])
  }

  lemma DenoteUnfolds(members: set<byte>, lc: byte, elems: seq<Elem>)
    requires elems != []
    ensures members + DenoteElem(lc, elems[0]) + Denote(Trail(elems[0]), elems[1..]) == members + Denote(lc, elems)
  {
  }

  /** What the reader adds for an element is what it stands for. */
  lemma ElemDenotes(members: set<byte>, lc: byte, e: Elem)
    ensures match e
            case One(c) => members + DenoteElem(lc, e) == members + {c}
            case To(hi) => members + DenoteElem(lc, e) == members + Below(lc, hi) + {hi}
  {
  }

  /** Reading one more element after member `lc`. */
  lemma ElemReads(text: seq<byte>, pos: nat, e: Elem, lc: byte, members: set<byte>, wide: bool, roomy: bool)
    requires WritableElem(lc, e, false) && Trail(e) != RSQUARE && Starts(text, pos, SpellElem(e))
    requires roomy || Trail(e) < 128
    ensures ReadMore(text, pos, lc, members, wide, roomy) ==
            ReadMore(text, pos + |SpellElem(e)|, Trail(e), members + DenoteElem(lc, e), wide || Trail(e) >= 128, roomy)
  {
    var x := SpellElem(e);
    StartsAt(text, pos, x, 0);
    ElemDenotes(members, lc, e);
    if e.To? {
      StartsAt(text, pos, x, 1);
    }
  }

  /** A hyphen just before the closing bracket is a member. */
  lemma HyphenReads(text: seq<byte>, pos: nat, elems: seq<Elem>, lc: byte, members: set<byte>, wide: bool, roomy: bool)
    requires elems == [One(HYPHEN)] && Starts(text, pos, SpellList(elems)) && lc != 0
    ensures ReadMore(text, pos, lc, members, wide, roomy) ==
            BracketText(members + Denote(lc, elems), wide || AnyHigh(elems), pos + |SpellList(elems)|)
  {
    var x := SpellList(elems);
    LoneHyphen(lc, members, elems);
    StartsAt(text, pos, x, 0);
    StartsAt(text, pos, x, 1);
  }

  lemma LoneHyphen(lc: byte, members: set<byte>, elems: seq<Elem>)
    requires elems == [One(HYPHEN)]
    ensures SpellList(elems) == [HYPHEN, RSQUARE] && !AnyHigh(elems)
    ensures members + Denote(lc, elems) == members + {HYPHEN}
  {
    assert elems[1..] == [];
    assert SpellList(elems) == SpellElem(elems[0]) + SpellList([]);
    ElemDenotes(members, lc, elems[0]);
    DenoteUnfolds(members, lc, elems);
  }

  lemma {:induction false} RestReads(text: seq<byte>, pos: nat, elems: seq<Elem>, lc: byte, members: set<byte>,
                                     wide: bool, roomy: bool)
    requires WritableRest(lc, elems) && Starts(text, pos, SpellList(elems))
    requires roomy || !AnyHigh(elems)
    ensures ReadMore(text, pos, lc, members, wide, roomy) ==
            BracketText(members + Denote(lc, elems), wide || AnyHigh(elems), pos + |SpellList(elems)|)
    decreases |elems|
  {
    if elems == [] {
      StartsAt(text, pos, SpellList(elems), 0);
      assert members + Denote(lc, elems) == members;
    } else if elems[0] == One(HYPHEN) && lc != 0 {
      HyphenReads(text, pos, elems, lc, members, wide, roomy);
    } else {
      var at, lc', members', wide' := RestStep(text, pos, elems, lc, members, wide, roomy);
      RestReads(text, at, elems[1..], lc', members', wide', roomy);
    }
  }

  /** One element of the rest of a list, with what remains to be read and denoted. */
  lemma RestStep(text: seq<byte>, pos: nat, elems: seq<Elem>, lc: byte, members: set<byte>, wide: bool, roomy: bool)
    returns (at: nat, lc': byte, members': set<byte>, wide': bool)
    requires elems != [] && (elems[0] == One(HYPHEN) ==> lc == 0) && WritableRest(lc, elems)
    requires Starts(text, pos, SpellList(elems)) && (roomy || !AnyHigh(elems))
    ensures ReadMore(text, pos, lc, members, wide, roomy) == ReadMore(text, at, lc', members', wide', roomy)
    ensures WritableRest(lc', elems[1..]) && (roomy || !AnyHigh(elems[1..]))
    ensures Starts(text, at, SpellList(elems[1..])) && at + |SpellList(elems[1..])| == pos + |SpellList(elems)|
    ensures members' + Denote(lc', elems[1..]) == members + Denote(lc, elems)
    ensures (wide' || AnyHigh(elems[1..])) == (wide || AnyHigh(elems))
  {
    var e := elems[0];
    at, lc', members', wide' := pos + |SpellElem(e)|, Trail(e), members + DenoteElem(lc, e), wide || Trail(e) >= 128;
    StartsSplit(text, pos, SpellElem(e), SpellList(elems[1..]));
    ElemReads(text, pos, e, lc, members, wide, roomy);
    DenoteUnfolds(members, lc, elems);
  }

  /**
   A bracket list denotes the union of its elements, and needs the wide map exactly when
   some element reaches above 127.
   */
  lemma ListReads(text: seq<byte>, pos: nat, neg: bool, elems: seq<Elem>, roomy: bool)
    requires WritableList(neg, elems) && Starts(text, pos, SpellList(elems))
    requires roomy || !AnyHigh(elems)
    ensures ReadList(text, pos, 0, {}, false, roomy) ==
            BracketText(Denote(0, elems), AnyHigh(elems), pos + |SpellList(elems)|)
  {
    var c, rest := elems[0].c, elems[1..];
    StartsSplit(text, pos, [c], SpellList(rest));
    StartsAt(text, pos, [c], 0);
    RestReads(text, pos + 1, rest, c, {} + {c}, c >= 128, roomy);
    ElemDenotes({}, 0, elems[0]);
    DenoteUnfolds({}, 0, elems);
    assert {} + Denote(0, elems) == Denote(0, elems);
  }

  // ----- Every list that is read is the spelling of its elements -----

  /** Text from `pos` on that is read as `b` is the spelling of `elems`. */
  ghost predicate Spells(text: seq<byte>, pos: nat, lc: byte, members: set<byte>, wide: bool, elems: seq<Elem>,
                         b: BracketText)
  {
    && WritableRest(lc, elems) && b.BracketText? && Starts(text, pos, SpellList(elems))
    && b.pos == pos + |SpellList(elems)|
    && b.members == members + Denote(lc, elems) && b.wide == (wide || AnyHigh(elems))
  }

  lemma {:induction false} RestIsSpelled(text: seq<byte>, pos: nat, lc: byte, members: set<byte>, wide: bool,
                                         roomy: bool)
    returns (elems: seq<Elem>)
    requires ReadMore(text, pos, lc, members, wide, roomy).BracketText?
    ensures Spells(text, pos, lc, members, wide, elems, ReadMore(text, pos, lc, members, wide, roomy))
    decreases |text| - pos
  {
    var c, d := Get(text, pos), Get(text, pos + 1);
    if c == RSQUARE || (c == HYPHEN && d == RSQUARE && lc != 0) {
      elems := ListStops(text, pos, lc, members, wide, roomy);
    } else {
      var e := if c == HYPHEN && lc != 0 then To(d) else One(c);
      var at, lc', members', wide' := MoreStep(text, pos, lc, members, wide, roomy, e);
      var rest := RestIsSpelled(text, at, lc', members', wide', roomy);
      elems := [e] + rest;
      ElemBefore(text, pos, at, lc, members, wide, e, rest, ReadMore(text, at, lc', members', wide', roomy));
    }
  }

  lemma ListStops(text: seq<byte>, pos: nat, lc: byte, members: set<byte>, wide: bool, roomy: bool)
    returns (elems: seq<Elem>)
    requires Get(text, pos) == RSQUARE || (Get(text, pos) == HYPHEN && Get(text, pos + 1) == RSQUARE && lc != 0)
    ensures Spells(text, pos, lc, members, wide, elems, ReadMore(text, pos, lc, members, wide, roomy))
  {
    if Get(text, pos) == RSQUARE {
      elems := [];
      assert members + Denote(lc, elems) == members;
    } else {
      elems := [One(HYPHEN)];
      LoneHyphen(lc, members, elems);
    }
  }

  /** A list that is read to its end goes on with element `e`. */
  lemma MoreStep(text: seq<byte>, pos: nat, lc: byte, members: set<byte>, wide: bool, roomy: bool, e: Elem)
    returns (at: nat, lc': byte, members': set<byte>, wide': bool)
    requires ReadMore(text, pos, lc, members, wide, roomy).BracketText?
    requires var c, d := Get(text, pos), Get(text, pos + 1);
             c != RSQUARE && !(c == HYPHEN && d == RSQUARE && lc != 0)
             && e == (if c == HYPHEN && lc != 0 then To(d) else One(c))
    ensures WritableElem(lc, e, false) && Trail(e) != RSQUARE && Starts(text, pos, SpellElem(e)) && pos < |text|
    ensures at == pos + |SpellElem(e)| && lc' == Trail(e) && members' == members + DenoteElem(lc, e)
    ensures wide' == (wide || Trail(e) >= 128)
    ensures ReadMore(text, pos, lc, members, wide, roomy) == ReadMore(text, at, lc', members', wide', roomy)
  {
    ElemDenotes(members, lc, e);
    at, lc', members', wide' := pos + |SpellElem(e)|, Trail(e), members + DenoteElem(lc, e), wide || Trail(e) >= 128;
  }

  lemma ElemBefore(text: seq<byte>, pos: nat, at: nat, lc: byte, members: set<byte>, wide: bool, e: Elem,
                   rest: seq<Elem>, b: BracketText)
    requires Starts(text, pos, SpellElem(e)) && at == pos + |SpellElem(e)|
    requires WritableElem(lc, e, false) && Trail(e) != RSQUARE
    requires Spells(text, at, Trail(e), members + DenoteElem(lc, e), wide || Trail(e) >= 128, rest, b)
    ensures Spells(text, pos, lc, members, wide, [e] + rest, b)
  {
    var elems := [e] + rest;
    assert elems[1..] == rest;
    StartsSplit(text, pos, SpellElem(e), SpellList(rest));
    DenoteUnfolds(members, lc, elems);
  }

  /** A bracket expression that is read is the spelling of some list. */
  lemma ListIsSpelled(text: seq<byte>, pos: nat, neg: bool, roomy: bool) returns (elems: seq<Elem>)
    requires ReadList(text, pos, 0, {}, false, roomy).BracketText? && (!neg ==> Get(text, pos) != CARET)
    ensures var b := ReadList(text, pos, 0, {}, false, roomy);
            && WritableList(neg, elems) && Starts(text, pos, SpellList(elems)) && b.pos == pos + |SpellList(elems)|
            && b.members == Denote(0, elems) && b.wide == AnyHigh(elems)
  {
    var c := Get(text, pos);
    var b := ReadList(text, pos, 0, {}, false, roomy);
    var rest := RestIsSpelled(text, pos + 1, c, {} + {c}, c >= 128, roomy);
    elems := [One(c)] + rest;
    assert elems[1..] == rest;
    StartsSplit(text, pos, [c], SpellList(rest));
    ElemDenotes({}, 0, One(c));
    DenoteUnfolds({}, 0, elems);
    assert {} + Denote(0, elems) == Denote(0, elems);
  }

  // ----- Intervals -----

  predicate AllDigits(ds: seq<byte>) {
    forall k :: 0 <= k < |ds| ==> ZERO <= ds[k] <= NINE
  }

  /** The number that the digits `ds` stand for after digits that stand for `v`. */
  function Value(v: nat, ds: seq<byte>): nat
    requires AllDigits(ds)
    decreases |ds|
  {
    if ds == [] then v else Value(10 * v + (ds[0] - ZERO), ds[1..])
  }

  lemma {:induction false} DigitsRead(text: seq<byte>, pos: nat, v: nat, ds: seq<byte>, stop: byte)
    requires AllDigits(ds) && ds != [] && (stop == BACKSLASH || stop == COMMA)
    requires Starts(text, pos, ds) && Get(text, pos + |ds|) == stop
    ensures ReadNumber(text, pos, v) == Number(Value(v, ds), stop, pos + |ds| + 1)
    decreases |ds|
  {
    var rest := ds[1..];
    assert ds == [ds[0]] + rest;
    StartsSplit(text, pos, [ds[0]], rest);
    StartsAt(text, pos, ds, 0);
    if rest == [] {
    } else {
      StartsAt(text, pos + 1, rest, 0);
      DigitsRead(text, pos + 1, 10 * v + (ds[0] - ZERO), rest, stop);
    }
  }

  lemma {:induction false} NumberIsSpelled(text: seq<byte>, pos: nat, v: nat) returns (ds: seq<byte>)
    requires ReadNumber(text, pos, v).Number?
    ensures var n := ReadNumber(text, pos, v);
            && AllDigits(ds) && ds != [] && Starts(text, pos, ds) && Get(text, pos + |ds|) == n.stop
            && n == Number(Value(v, ds), n.stop, pos + |ds| + 1)
    decreases |text| - pos
  {
    var c, d := Get(text, pos), Get(text, pos + 1);
    if d == BACKSLASH || d == COMMA {
      ds := [c];
      assert ds[1..] == [];
    } else {
      var rest := NumberIsSpelled(text, pos + 1, 10 * v + (c - ZERO));
      ds := [c] + rest;
      assert ds[1..] == rest;
      StartsSplit(text, pos, [c], rest);
    }
  }

  /** The three ways to write an interval, each with any digits: `m`, `m,` and `m,n`. */
  datatype Bounds = Exactly(m: seq<byte>) | AtLeast(m: seq<byte>) | Closed(m: seq<byte>, n: seq<byte>)

  predicate GoodNumber(ds: seq<byte>) {
    ds != [] && AllDigits(ds) && Value(0, ds) < 255
  }

  predicate GoodBounds(b: Bounds) {
    GoodNumber(b.m) && (b.Closed? ==> GoodNumber(b.n) && Value(0, b.m) <= Value(0, b.n))
  }

  function IntervalOf(b: Bounds): Interval
    requires GoodBounds(b)
  {
    match b
    case Exactly(m) => Interval(Value(0, m), Value(0, m))
    case AtLeast(m) => Interval(Value(0, m), UNBOUNDED)
    case Closed(m, n) => Interval(Value(0, m), Value(0, n))
  }

  /** What follows `\\{`, from the lower bound to the closing brace. */
  function SpellBounds(b: Bounds): seq<byte> {
    match b
    case Exactly(m) => m + [BACKSLASH, RBRACE]
    case AtLeast(m) => m + [COMMA, BACKSLASH, RBRACE]
    case Closed(m, n) => m + ([COMMA] + (n + [BACKSLASH, RBRACE]))
  }

  /** Each of the three ways reads back as the interval it expresses. */
  lemma BoundsRead(text: seq<byte>, pos: nat, b: Bounds)
    requires GoodBounds(b) && Starts(text, pos, SpellBounds(b))
    ensures ReadInterval(text, pos) == IntervalText(IntervalOf(b), pos + |SpellBounds(b)|)
  {
    match b
    case Exactly(m) => ExactlyRead(text, pos, m);
    case AtLeast(m) => AtLeastRead(text, pos, m);
    case Closed(m, n) => ClosedRead(text, pos, m, n, pos + |m| + 1);
  }

  lemma ExactlyRead(text: seq<byte>, pos: nat, m: seq<byte>)
    requires GoodNumber(m) && Starts(text, pos, m + [BACKSLASH, RBRACE])
    ensures ReadInterval(text, pos) == IntervalText(Interval(Value(0, m), Value(0, m)), pos + |m| + 2)
  {
    StartsSplit(text, pos, m, [BACKSLASH, RBRACE]);
    StartsAt(text, pos + |m|, [BACKSLASH, RBRACE], 0);
    StartsAt(text, pos + |m|, [BACKSLASH, RBRACE], 1);
    DigitsRead(text, pos, 0, m, BACKSLASH);
  }

  lemma AtLeastRead(text: seq<byte>, pos: nat, m: seq<byte>)
    requires GoodNumber(m) && Starts(text, pos, m + [COMMA, BACKSLASH, RBRACE])
    ensures ReadInterval(text, pos) == IntervalText(Interval(Value(0, m), UNBOUNDED), pos + |m| + 3)
  {
    var x := [COMMA, BACKSLASH, RBRACE];
    StartsSplit(text, pos, m, x);
    StartsAt(text, pos + |m|, x, 0);
    StartsAt(text, pos + |m|, x, 1);
    StartsAt(text, pos + |m|, x, 2);
    DigitsRead(text, pos, 0, m, COMMA);
  }

  lemma ClosedRead(text: seq<byte>, pos: nat, m: seq<byte>, n: seq<byte>, at: nat)
    requires GoodNumber(m) && GoodNumber(n) && Value(0, m) <= Value(0, n) && at == pos + |m| + 1
    requires Starts(text, pos, m + ([COMMA] + (n + [BACKSLASH, RBRACE])))
    ensures ReadInterval(text, pos) == IntervalText(Interval(Value(0, m), Value(0, n)), at + |n| + 2)
  {
    ClosedText(text, pos, m, n, at);
    DigitsRead(text, pos, 0, m, COMMA);
    DigitsRead(text, at, 0, n, BACKSLASH);
    StartsAt(text, at, n, 0);
    TwoNumbers(text, pos, Value(0, m), at, Value(0, n), at + |n| + 1);
  }

  lemma TwoNumbers(text: seq<byte>, pos: nat, lo: byte, p: nat, hi: byte, q: nat)
    requires lo <= hi < UNBOUNDED
    requires ReadNumber(text, pos, 0) == Number(lo, COMMA, p) && ReadNumber(text, p, 0) == Number(hi, BACKSLASH, q)
    requires Get(text, p) != BACKSLASH && Get(text, q) == RBRACE
    ensures ReadInterval(text, pos) == IntervalText(Interval(lo, hi), q + 1)
  {
  }

  lemma ClosedText(text: seq<byte>, pos: nat, m: seq<byte>, n: seq<byte>, at: nat)
    requires at == pos + |m| + 1 && Starts(text, pos, m + ([COMMA] + (n + [BACKSLASH, RBRACE])))
    ensures Starts(text, pos, m) && Get(text, pos + |m|) == COMMA && Starts(text, at, n)
    ensures Get(text, at + |n|) == BACKSLASH && Get(text, at + |n| + 1) == RBRACE
  {
    StartsThree(text, pos, m, [COMMA], n + [BACKSLASH, RBRACE]);
    StartsAt(text, pos + |m|, [COMMA], 0);
    StartsSplit(text, at, n, [BACKSLASH, RBRACE]);
    StartsAt(text, at + |n|, [BACKSLASH, RBRACE], 0);
    StartsAt(text, at + |n|, [BACKSLASH, RBRACE], 1);
  }

  /** Conversely, every interval that is read is written in one of the three ways. */
  lemma IntervalIsSpelled(text: seq<byte>, pos: nat) returns (b: Bounds)
    requires ReadInterval(text, pos).IntervalText?
    ensures GoodBounds(b) && Starts(text, pos, SpellBounds(b))
    ensures ReadInterval(text, pos) == IntervalText(IntervalOf(b), pos + |SpellBounds(b)|)
  {
    b := BoundsOf(text, pos);
    BoundsRead(text, pos, b);
  }

  lemma BoundsOf(text: seq<byte>, pos: nat) returns (b: Bounds)
    requires ReadInterval(text, pos).IntervalText?
    ensures GoodBounds(b) && Starts(text, pos, SpellBounds(b))
  {
    var m := NumberIsSpelled(text, pos, 0);
    var first := ReadNumber(text, pos, 0);
    if first.stop == BACKSLASH {
      b := Exactly(m);
      ExactlyIsSpelled(text, pos, m);
    } else if Get(text, first.pos) == BACKSLASH {
      b := AtLeast(m);
      AtLeastIsSpelled(text, pos, m);
    } else {
      var n := NumberIsSpelled(text, first.pos, 0);
      b := Closed(m, n);
      ClosedIsSpelled(text, pos, m, n, first.pos);
    }
  }

  lemma ExactlyIsSpelled(text: seq<byte>, pos: nat, m: seq<byte>)
    requires Starts(text, pos, m) && Get(text, pos + |m|) == BACKSLASH && Get(text, pos + |m| + 1) == RBRACE
    ensures Starts(text, pos, SpellBounds(Exactly(m)))
  {
    StartsJoin(text, pos, m, [BACKSLASH, RBRACE], SpellBounds(Exactly(m)));
  }

  lemma AtLeastIsSpelled(text: seq<byte>, pos: nat, m: seq<byte>)
    requires Starts(text, pos, m) && Get(text, pos + |m|) == COMMA
    requires Get(text, pos + |m| + 1) == BACKSLASH && Get(text, pos + |m| + 2) == RBRACE
    ensures Starts(text, pos, SpellBounds(AtLeast(m)))
  {
    StartsJoin(text, pos, m, [COMMA, BACKSLASH, RBRACE], SpellBounds(AtLeast(m)));
  }

  lemma ClosedIsSpelled(text: seq<byte>, pos: nat, m: seq<byte>, n: seq<byte>, at: nat)
    requires at == pos + |m| + 1 && Starts(text, pos, m) && Get(text, pos + |m|) == COMMA
    requires Starts(text, at, n) && Get(text, at + |n|) == BACKSLASH && Get(text, at + |n| + 1) == RBRACE
    ensures Starts(text, pos, SpellBounds(Closed(m, n)))
  {
    var y := n + [BACKSLASH, RBRACE];
    StartsJoin(text, at, n, [BACKSLASH, RBRACE], y);
    StartsJoin(text, pos + |m|, [COMMA], y, [COMMA] + y);
    StartsJoin(text, pos, m, [COMMA] + y, SpellBounds(Closed(m, n)));
  }

  function Decimal(n: byte): seq<byte> {
    if n < 10 then [ZERO + n] else Decimal(n / 10) + [ZERO + n % 10]
  }

  lemma {:induction false} ValueAppend(v: nat, ds: seq<byte>, d: byte)
    requires AllDigits(ds) && ZERO <= d <= NINE
    ensures AllDigits(ds + [d]) && Value(v, ds + [d]) == 10 * Value(v, ds) + (d - ZERO)
    decreases |ds|
  {
    var all := ds + [d];
    if ds == [] {
      assert all[1..] == [];
    } else {
      assert all[1..] == ds[1..] + [d];
      ValueAppend(10 * v + (ds[0] - ZERO), ds[1..], d);
    }
  }

  lemma {:induction false} DecimalValue(n: byte)
    ensures Decimal(n) != [] && AllDigits(Decimal(n)) && Value(0, Decimal(n)) == n
  {
    if n < 10 {
      assert Decimal(n)[1..] == [];
    } else {
      DecimalValue(n / 10);
      ValueAppend(0, Decimal(n / 10), ZERO + n % 10);
    }
  }

  /** The shortest way to write `r`. */
  function Shortest(r: Interval): Bounds {
    if r.lo == r.hi then Exactly(Decimal(r.lo))
    else if r.hi == UNBOUNDED then AtLeast(Decimal(r.lo))
    else Closed(Decimal(r.lo), Decimal(r.hi))
  }

  predicate WritableInterval(r: Interval) {
    SoundInterval(r) && r.lo < UNBOUNDED
  }

  lemma ShortestExpresses(r: Interval)
    requires WritableInterval(r)
    ensures GoodBounds(Shortest(r)) && IntervalOf(Shortest(r)) == r
  {
    DecimalValue(r.lo);
    DecimalValue(r.hi);
  }
}
