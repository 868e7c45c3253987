/**
 What patterns match, said about the subject's text alone: a way through a pattern is a
 list of positions, one before each item and one at the end, such that the text between
 two of them is what the item between them stands for. The counts of a replay and the
 positions of a way determine each other, in the same order.
 */
module Language {
  import opened Bits
  import opened Pattern
  import opened Semantics
  import opened Exec
  import opened Matching

  // ----- One piece -----

  predicate ByteFits(h: Head, c: byte) {
    match h
    case Lit(d) => c == d
    case Dot => true
    case Bracket(neg, members, _) => (c in members) != neg
    case _ => false
  }

  /** How often a character atom may be repeated: as its interval or its star says, or once. */
  predicate Allows(it: Item, n: int) {
    if it.ranges != [] then
      var r := it.ranges[0];
      r.lo <= n && if r.hi == 255 then n <= 20000 + r.lo else n <= r.hi
    else if it.star then n >= 0
    else n == 1
  }

  /** The text from `p` to `q` is a run of bytes that fit, of an allowed length. */
  predicate RunFits(s: cstring, it: Item, p: nat, q: int) {
    p <= q <= |s| && Allows(it, q - p) && forall j :: p <= j < q ==> ByteFits(it.head, s[j])
  }

  /** `n` times `x`. */
  function Power(x: seq<byte>, n: nat): seq<byte> {
    if n == 0 then [] else x + Power(x, n - 1)
  }

  ghost predicate IsPower(y: seq<byte>, x: seq<byte>) {
    exists n: nat :: y == Power(x, n)
  }

  predicate Marks(items: seq<Item>, g: byte, o: nat, c: nat, k: nat)
    requires k <= |items|
  {
    o < c < k && items[o].head == Open(g) && items[c].head == Close(g)
  }

  /** Group `g` closed before item `k`, and `x` lies between its markers' positions. */
  ghost predicate Captures(s: cstring, items: seq<Item>, ps: seq<nat>, k: nat, g: byte, x: seq<byte>)
    requires k < |ps| && k <= |items|
  {
    exists o: nat, c: nat :: Marks(items, g, o, c, k) && ps[o] <= ps[c] <= |s| && s[ps[o]..ps[c]] == x
  }

  ghost predicate CopyFits(s: cstring, items: seq<Item>, ps: seq<nat>, k: nat, it: Item, p: nat, q: nat)
    requires k < |ps| && k <= |items| && p <= q <= |s| && it.head.Ref?
  {
    exists x :: Captures(s, items, ps, k, it.head.g, x) && if it.star then x != []
           && IsPower(s[p..q], x) else s[p..q] == x
  }

  /** The text between positions `k` and `k + 1` is what item `k` stands for. */
  ghost predicate PieceFits(env: Env, items: seq<Item>, ps: seq<nat>, k: nat)
    requires k < |items| && k + 1 < |ps|
  {
    var s, it, p, q := env.s, items[k], ps[k], ps[k + 1];
    && p <= q <= |s|
    && match it.head
       case Dollar => p == q == |s|
       case Open(_) => p == q
       case Close(_) => p == q
       case Ref(_) => CopyFits(s, items, ps, k, it, p, q)
       case _ => RunFits(s, it, p, q) && (Repeated(it) ==> !(q <= env.locs && RunFits(s, it, p, env.locs)))
  }

  // ----- One step of a replay is one piece -----

  lemma AcceptsIsFits(h: Head, c: byte)
    requires IsSingle(h) && c != 0
    ensures Accepts(h, c) <==> ByteFits(h, c)
  {
  }

  lemma FitsIsRun(s: cstring, it: Item, p: nat, n: nat)
    requires Supported(it) && IsSingle(it.head)
    ensures Fits(s, it, p, n) <==> RunFits(s, it, p, p + n)
  {
    if it.ranges != [] { assert SoundInterval(it.ranges[0]); }
    if p + n <= |s| {
      forall j | p <= j < p + n ensures Accepts(it.head, s[j]) <==> ByteFits(it.head, s[j]) {
        assert s[j] in s;
        AcceptsIsFits(it.head, s[j]);
      }
    }
  }

  /** An atom admits a count if and only if the run of that length fits and need not go on to `locs`. */
  lemma AtomAdmitsIff(env: Env, it: Item, p: nat, sp: Span, n: nat)
    requires Supported(it) && IsSingle(it.head)
    ensures Admits(env, it, p, sp, n) <==>
            && RunFits(env.s, it, p, p + n)
            && (Repeated(it) ==> !(p + n <= env.locs && RunFits(env.s, it, p, env.locs)))
  {
    FitsIsRun(env.s, it, p, n);
    if p + n <= env.locs {
      FitsIsRun(env.s, it, p, env.locs - p);
    }
  }

  /** A closed interval allows every count between its bounds, and an open one 20000 beyond the lower. */
  lemma IntervalAdmits(env: Env, it: Item, i: nat, sp: Span, r: Interval, n: nat)
    requires Supported(it) && IsSingle(it.head) && it.ranges == [r] && !(i <= env.locs <= |env.s|)
    ensures r.hi < UNBOUNDED ==>
              (Admits(env, it, i, sp, n) <==> r.lo <= n <= r.hi && AllAccepted(env.s, it.head, i, n))
    ensures r.hi == UNBOUNDED ==>
              (Admits(env, it, i, sp, n) <==> r.lo <= n <= 20000 + r.lo as int && AllAccepted(env.s, it.head, i, n))
  {
    LocsOutside(env, it, i, sp, n);
  }

  lemma {:induction false} PowerLands(x: seq<byte>, n: nat, p: nat)
    ensures Land(p, n, |x|) == p + |Power(x, n)|
    decreases n
  {
    if n == 0 {
    } else {
      PowerLands(x, n - 1, p);
    }
  }

  /** `n` copies of the captured text are its `n`-th power. */
  lemma {:induction false} CopiesArePower(s: cstring, sp: Span, p: nat, n: nat, x: seq<byte>)
    requires sp.Span? && sp.from <= sp.to <= |s| && x == s[sp.from..sp.to] && p <= |s|
    ensures Copies(s, sp, p, n) <==> p + |Power(x, n)| <= |s| && s[p..p + |Power(x, n)|] == Power(x, n)
    decreases n
  {
    if n == 0 {
    } else {
      var y := Power(x, n - 1);
      if p + |x| <= |s| {
        CopiesArePower(s, sp, p + |x|, n - 1, x);
        PowerSplits(s, p, x, y);
      }
    }
  }

  lemma PowerSplits(s: cstring, p: nat, x: seq<byte>, y: seq<byte>)
    requires p + |x| <= |s|
    ensures p + |x + y| <= |s| && s[p..p + |x + y|] == x + y <==>
            s[p..p + |x|] == x && p + |x| + |y| <= |s| && s[p + |x|..p + |x| + |y|] == y
  {
    var q, r := p + |x|, p + |x| + |y|;
    if r <= |s| {
      assert s[p..r] == s[p..q] + s[q..r];
      if s[p..r] == x + y {
        assert s[p..q] == s[p..r][..|x|] && s[q..r] == s[p..r][|x|..];
      }
    }
  }

  // ----- Captures on the way -----

  /** The captures after the first `k` items. */
  function CapsAt(items: seq<Item>, ps: seq<nat>, k: nat): Caps
    requires k <= |items| && k <= |ps|
  {
    if k == 0 then NOTHING else Note(items[k - 1].head, ps[k - 1], CapsAt(items, ps, k - 1))
  }

  ghost predicate ScopedAt(items: seq<Item>, ps: seq<nat>, k: nat)
    requires k <= |items| && k <= |ps|
  {
    WellScoped(items[k..], CapsAt(items, ps, k).start.Keys, CapsAt(items, ps, k).end.Keys)
  }

  lemma {:induction false} ScopeAt(items: seq<Item>, ps: seq<nat>, k: nat)
    requires WellScoped(items, {}, {}) && k <= |items| && k <= |ps|
    ensures ScopedAt(items, ps, k)
    decreases k
  {
    if k == 0 {
      assert items[0..] == items && NOTHING.start.Keys == {} && NOTHING.end.Keys == {};
    } else {
      ScopeAt(items, ps, k - 1);
      NoteKeepsScope(items[k - 1..], ps[k - 1], CapsAt(items, ps, k - 1));
      assert items[k - 1..][1..] == items[k..];
    }
  }

  /** A marker before item `k` is the one that is recorded: groups open once and close once. */
  lemma {:induction false} MarkerRecorded(items: seq<Item>, ps: seq<nat>, k: nat, o: nat)
    requires WellScoped(items, {}, {}) && o < k <= |items| && k <= |ps|
    ensures RecordedAt(CapsAt(items, ps, k), items[o].head, ps[o])
    decreases k
  {
    if o < k - 1 {
      MarkerRecorded(items, ps, k - 1, o);
      ScopeAt(items, ps, k - 1);
    }
  }

  lemma {:induction false} RecordedStart(items: seq<Item>, ps: seq<nat>, k: nat, g: byte) returns (o: nat)
    requires k <= |items| && k <= |ps| && g in CapsAt(items, ps, k).start
    ensures o < k && items[o].head == Open(g)
    decreases k
  {
    if items[k - 1].head == Open(g) {
      o := k - 1;
    } else {
      o := RecordedStart(items, ps, k - 1, g);
    }
  }

  lemma {:induction false} RecordedEnd(items: seq<Item>, ps: seq<nat>, k: nat, g: byte) returns (c: nat)
    requires k <= |items| && k <= |ps| && g in CapsAt(items, ps, k).end
    ensures c < k && items[c].head == Close(g)
    decreases k
  {
    if items[k - 1].head == Close(g) {
      c := k - 1;
    } else {
      c := RecordedEnd(items, ps, k - 1, g);
    }
  }

  /** The first `k` pieces fit. */
  ghost predicate FitsTo(env: Env, items: seq<Item>, ps: seq<nat>, k: nat) {
    k <= |items| && k < |ps| && ps[0] <= |env.s| && forall j: nat :: j < k ==> PieceFits(env, items, ps, j)
  }

  lemma {:induction false} InOrderTo(env: Env, items: seq<Item>, ps: seq<nat>, k: nat, a: nat, b: nat)
    requires FitsTo(env, items, ps, k) && a <= b <= k
    ensures ps[a] <= ps[b] <= |env.s|
    decreases b
  {
    if b > 0 {
      assert PieceFits(env, items, ps, b - 1);
      if a < b { InOrderTo(env, items, ps, k, a, b - 1); }
    }
  }

  /** Where a reference stands, its group has markers before it. */
  lemma HasMarks(items: seq<Item>, ps: seq<nat>, k: nat) returns (o: nat, c: nat)
    requires WellScoped(items, {}, {}) && k < |items| && k < |ps| && items[k].head.Ref?
    ensures Marks(items, items[k].head.g, o, c, k)
  {
    var g := items[k].head.g;
    ScopeAt(items, ps, k);
    assert items[k..][0] == items[k];
    c := RecordedEnd(items, ps, k, g);
    ScopeAt(items, ps, c);
    assert items[c..][0] == items[c];
    o := RecordedStart(items, ps, c, g);
  }

  /** What a reference reads is the text between the markers of its group. */
  lemma CaptureIsSpan(env: Env, items: seq<Item>, ps: seq<nat>, k: nat) returns (x: seq<byte>)
    requires WellScoped(items, {}, {}) && k < |items| && FitsTo(env, items, ps, k) && items[k].head.Ref?
    ensures var sp := CapSpan(env, CapsAt(items, ps, k), items[k].head);
            sp.Span? && sp.from <= sp.to <= |env.s| && x == env.s[sp.from..sp.to]
    ensures forall y :: Captures(env.s, items, ps, k, items[k].head.g, y) <==> y == x
  {
    var g := items[k].head.g;
    var o, c := HasMarks(items, ps, k);
    MarkerRecorded(items, ps, k, o);
    MarkerRecorded(items, ps, k, c);
    InOrderTo(env, items, ps, k, o, c);
    x := env.s[ps[o]..ps[c]];
    forall y | Captures(env.s, items, ps, k, g, y) ensures y == x {
      var o': nat, c': nat :| Marks(items, g, o', c', k) && ps[o'] <= ps[c'] <= |env.s| && env.s[ps[o']..ps[c']] == y;
      MarkerRecorded(items, ps, k, o');
      MarkerRecorded(items, ps, k, c');
    }
  }

  // ----- One step is one piece -----

  /** From `p`, with captures `caps`, item `it` taken `n` times leads to `q`. */
  ghost predicate Leads(env: Env, it: Item, p: nat, caps: Caps, n: nat, q: nat) {
    var sp := CapSpan(env, caps, it.head);
    !Endless(it, sp) && Admits(env, it, p, sp, n) && q == Land(p, n, Stride(it.head, sp))
  }

  ghost predicate LeadsTo(env: Env, it: Item, p: nat, caps: Caps, q: nat) {
    exists n: nat :: Leads(env, it, p, caps, n, q)
  }

  /** Item `k` can be taken from position `k` to position `k + 1`. */
  ghost predicate LeadsOn(env: Env, items: seq<Item>, ps: seq<nat>, k: nat)
    requires k < |items| && k + 1 < |ps|
  {
    LeadsTo(env, items[k], ps[k], CapsAt(items, ps, k), ps[k + 1])
  }

  lemma AtomLeads(env: Env, items: seq<Item>, ps: seq<nat>, k: nat)
    requires k < |items| && k + 1 < |ps| && Supported(items[k]) && IsSingle(items[k].head)
    ensures PieceFits(env, items, ps, k) <==> LeadsOn(env, items, ps, k)
  {
    var it, p, q, caps := items[k], ps[k], ps[k + 1], CapsAt(items, ps, k);
    var sp := CapSpan(env, caps, it.head);
    if LeadsOn(env, items, ps, k) {
      var n: nat :| Leads(env, it, p, caps, n, q);
      AtomAdmitsIff(env, it, p, sp, n);
    }
    if p <= q {
      AtomAdmitsIff(env, it, p, sp, q - p);
      if PieceFits(env, items, ps, k) {
        assert Leads(env, it, p, caps, q - p, q);
      }
    }
  }

  /** A reference takes `n` copies if the text up to `q` is the `n`-th power of the capture. */
  lemma CopiesLead(env: Env, it: Item, p: nat, caps: Caps, n: nat, q: nat, x: seq<byte>)
    requires it.head.Ref? && p <= |env.s|
    requires var sp := CapSpan(env, caps, it.head);
             sp.Span? && sp.from <= sp.to <= |env.s| && x == env.s[sp.from..sp.to]
    ensures Leads(env, it, p, caps, n, q) <==>
            && p <= q <= |env.s| && env.s[p..q] == Power(x, n) && (if it.star then x != [] else n == 1)
  {
    var sp := CapSpan(env, caps, it.head);
    CopiesArePower(env.s, sp, p, n, x);
    PowerLands(x, n, p);
  }

  lemma RefLeads(env: Env, items: seq<Item>, ps: seq<nat>, k: nat)
    requires WellScoped(items, {}, {}) && k < |items| && k + 1 < |ps| && FitsTo(env, items, ps, k) && items[k].head.Ref?
    ensures PieceFits(env, items, ps, k) <==> LeadsOn(env, items, ps, k)
  {
    var it, p, q, caps := items[k], ps[k], ps[k + 1], CapsAt(items, ps, k);
    var x := CaptureIsSpan(env, items, ps, k);
    InOrderTo(env, items, ps, k, k, k);
    assert Power(x, 1) == x;
    if PieceFits(env, items, ps, k) {
      var n: nat := 1;
      if it.star { n :| env.s[p..q] == Power(x, n); }
      CopiesLead(env, it, p, caps, n, q, x);
    }
    if n: nat :| Leads(env, it, p, caps, n, q) {
      CopiesLead(env, it, p, caps, n, q, x);
      assert Captures(env.s, items, ps, k, it.head.g, x);
    }
  }

  /** The next piece fits if and only if a replay can take the next item so far. */
  lemma PieceLeads(env: Env, items: seq<Item>, ps: seq<nat>, k: nat)
    requires InFragment(items) && k < |items| && k + 1 < |ps| && FitsTo(env, items, ps, k)
    ensures PieceFits(env, items, ps, k) <==> LeadsOn(env, items, ps, k)
  {
    assert Supported(items[k]);
    if items[k].head.Ref? {
      RefLeads(env, items, ps, k);
    } else if IsSingle(items[k].head) {
      AtomLeads(env, items, ps, k);
    } else {
      InOrderTo(env, items, ps, k, k, k);
      MarkerLeads(env, items, ps, k);
    }
  }

  lemma MarkerLeads(env: Env, items: seq<Item>, ps: seq<nat>, k: nat)
    requires k < |items| && k + 1 < |ps| && ps[k] <= |env.s|
    requires !items[k].head.Ref? && !IsSingle(items[k].head)
    ensures PieceFits(env, items, ps, k) <==> LeadsOn(env, items, ps, k)
  {
    var it, p, q, caps := items[k], ps[k], ps[k + 1], CapsAt(items, ps, k);
    if PieceFits(env, items, ps, k) {
      assert Leads(env, it, p, caps, 0, q);
    }
  }

  // ----- Ways through a pattern -----

  /** Item `k` is a starred reference to a group that captured nothing. */
  ghost predicate StuckAt(s: cstring, items: seq<Item>, ps: seq<nat>, k: nat)
    requires k < |ps| && k < |items|
  {
    items[k].head.Ref? && items[k].star && Captures(s, items, ps, k, items[k].head.g, [])
  }

  lemma StuckIsEndless(env: Env, items: seq<Item>, ps: seq<nat>, k: nat)
    requires WellScoped(items, {}, {}) && k < |items| && FitsTo(env, items, ps, k)
    ensures StuckAt(env.s, items, ps, k) <==> Endless(items[k], CapSpan(env, CapsAt(items, ps, k), items[k].head))
  {
    if items[k].head.Ref? {
      var x := CaptureIsSpan(env, items, ps, k);
    }
  }

  /** A way from `i`: all pieces fit, up to the end of the pattern or to where it gets stuck. */
  ghost predicate Way(env: Env, items: seq<Item>, i: nat, ps: seq<nat>) {
    && ps != [] && ps[0] == i && FitsTo(env, items, ps, |ps| - 1)
    && (|ps| - 1 < |items| ==> StuckAt(env.s, items, ps, |ps| - 1))
  }

  /** What a replay along the way comes to. */
  ghost function OutcomeOf(items: seq<Item>, ps: seq<nat>): Outcome
    requires 0 < |ps| <= |items| + 1
  {
    if |ps| - 1 == |items| then Match(ps[|items|], CapsAt(items, ps, |items|)) else Hang
  }

  /** The counts `ns` lead from position `k` along the way to its end. */
  ghost predicate CountsAlong(env: Env, items: seq<Item>, ps: seq<nat>, k: nat, ns: seq<nat>) {
    && k < |ps| <= |items| + 1 && |ns| == |ps| - 1 - k
    && forall j: nat :: j < |ns| ==> CountFits(env, items, ps, k + j, ns[j])
  }

  ghost predicate CountFits(env: Env, items: seq<Item>, ps: seq<nat>, j: nat, n: nat) {
    j < |items| && j + 1 < |ps| && Leads(env, items[j], ps[j], CapsAt(items, ps, j), n, ps[j + 1])
  }

  /** What lies on the way up to position `k` does not depend on the rest of it. */
  lemma {:induction false} CapsStay(items: seq<Item>, ps: seq<nat>, qs: seq<nat>, k: nat)
    requires k <= |items| && k < |ps| && ps <= qs
    ensures CapsAt(items, qs, k) == CapsAt(items, ps, k) && qs[k] == ps[k]
    decreases k
  {
    if k > 0 {
      CapsStay(items, ps, qs, k - 1);
    }
  }

  lemma PieceStays(env: Env, items: seq<Item>, ps: seq<nat>, q: nat, k: nat)
    requires k < |items| && k + 1 < |ps| && PieceFits(env, items, ps, k)
    ensures PieceFits(env, items, ps + [q], k)
  {
    var qs := ps + [q];
    assert qs[k] == ps[k] && qs[k + 1] == ps[k + 1];
    if items[k].head.Ref? {
      var it, g := items[k], items[k].head.g;
      var x :| Captures(env.s, items, ps, k, g, x)
               && if it.star then x != [] && IsPower(env.s[ps[k]..ps[k + 1]], x) else env.s[ps[k]..ps[k + 1]] == x;
      CaptureStays(env.s, items, ps, q, k, g, x);
    }
  }

  lemma CaptureStays(s: cstring, items: seq<Item>, ps: seq<nat>, q: nat, k: nat, g: byte, x: seq<byte>)
    requires k <= |items| && k < |ps| && Captures(s, items, ps, k, g, x)
    ensures Captures(s, items, ps + [q], k, g, x)
  {
    var qs := ps + [q];
    var o: nat, c: nat :| Marks(items, g, o, c, k) && ps[o] <= ps[c] <= |s| && s[ps[o]..ps[c]] == x;
    assert qs[o] == ps[o] && qs[c] == ps[c];
  }

  lemma FitsStays(env: Env, items: seq<Item>, ps: seq<nat>, q: nat, k: nat)
    requires FitsTo(env, items, ps, k)
    ensures FitsTo(env, items, ps + [q], k)
  {
    var qs := ps + [q];
    assert qs[0] == ps[0];
    forall j: nat | j < k ensures PieceFits(env, items, qs, j) {
      assert PieceFits(env, items, ps, j);
      PieceStays(env, items, ps, q, j);
    }
  }

  lemma CountStays(env: Env, items: seq<Item>, ps: seq<nat>, qs: seq<nat>, j: nat, n: nat)
    requires CountFits(env, items, ps, j, n) && ps <= qs
    ensures CountFits(env, items, qs, j, n)
  {
    CapsStay(items, ps, qs, j);
  }

  /** One more item along the way. */
  lemma StepOn(env: Env, items: seq<Item>, ps: seq<nat>, n: nat, q: nat)
    requires InFragment(items) && 0 < |ps| <= |items| && FitsTo(env, items, ps, |ps| - 1)
    requires var k := |ps| - 1; Leads(env, items[k], ps[k], CapsAt(items, ps, k), n, q)
    ensures FitsTo(env, items, ps + [q], |ps|) && CountFits(env, items, ps + [q], |ps| - 1, n)
  {
    var k := |ps| - 1;
    FitsStays(env, items, ps, q, k);
    NewPieceFits(env, items, ps, k, n, q, ps + [q]);
    OneMoreFits(env, items, ps + [q], k);
  }

  lemma NewPieceFits(env: Env, items: seq<Item>, ps: seq<nat>, k: nat, n: nat, q: nat, qs: seq<nat>)
    requires InFragment(items) && k < |items| && |ps| == k + 1 && qs == ps + [q] && FitsTo(env, items, qs, k)
    requires Leads(env, items[k], ps[k], CapsAt(items, ps, k), n, q)
    ensures PieceFits(env, items, qs, k) && CountFits(env, items, qs, k, n)
  {
    CapsStay(items, ps, qs, k);
    assert qs[k + 1] == q;
    PieceLeads(env, items, qs, k);
  }

  lemma OneMoreFits(env: Env, items: seq<Item>, ps: seq<nat>, k: nat)
    requires k < |items| && k + 1 < |ps| && FitsTo(env, items, ps, k) && PieceFits(env, items, ps, k)
    ensures FitsTo(env, items, ps, k + 1)
  {
  }

  /** The replay of the items from position `k` on. */
  ghost function ReplayAt(env: Env, items: seq<Item>, ps: seq<nat>, k: nat, ns: seq<nat>): Outcome
    requires k <= |items| && k < |ps|
  {
    Replay(env, items[k..], ps[k], CapsAt(items, ps, k), ns)
  }

  /** A replay takes the next item, and goes on from where that leads. */
  lemma ReplaySteps(env: Env, items: seq<Item>, ps: seq<nat>, k: nat, n: nat, ns: seq<nat>, q: nat)
    requires k < |items| && k + 1 < |ps| && ps[k + 1] == q
    requires Leads(env, items[k], ps[k], CapsAt(items, ps, k), n, q)
    ensures ReplayAt(env, items, ps, k, [n] + ns) == ReplayAt(env, items, ps, k + 1, ns)
  {
    assert items[k..][0] == items[k] && items[k..][1..] == items[k + 1..];
    assert ([n] + ns)[1..] == ns;
  }

  lemma ReplayBegins(env: Env, items: seq<Item>, ps: seq<nat>, k: nat, ns: seq<nat>)
    requires k < |items| && k < |ps| && ReplayAt(env, items, ps, k, ns) != Fail
    ensures var sp := CapSpan(env, CapsAt(items, ps, k), items[k].head);
            if ns == [] then Endless(items[k], sp) && ReplayAt(env, items, ps, k, ns) == Hang
            else Leads(env, items[k], ps[k], CapsAt(items, ps, k), ns[0], Land(ps[k], ns[0], Stride(items[k].head, sp)))
  {
    assert items[k..][0] == items[k];
  }

  lemma CountsFrom(env: Env, items: seq<Item>, ps: seq<nat>, k: nat, n: nat, ns: seq<nat>)
    requires CountFits(env, items, ps, k, n) && CountsAlong(env, items, ps, k + 1, ns)
    ensures CountsAlong(env, items, ps, k, [n] + ns)
  {
    forall j: nat | j < |ns| + 1 ensures CountFits(env, items, ps, k + j, ([n] + ns)[j]) {
      if j > 0 {
        assert CountFits(env, items, ps, k + 1 + (j - 1), ns[j - 1]);
      }
    }
  }

  /** The way `qs` goes on from `ps` as the counts `ns` say, and a replay of them has its outcome. */
  ghost predicate GoesOn(env: Env, items: seq<Item>, ps: seq<nat>, ns: seq<nat>, qs: seq<nat>, o: Outcome)
    requires ps != []
  {
    && Way(env, items, ps[0], qs) && ps <= qs && CountsAlong(env, items, qs, |ps| - 1, ns)
    && o == OutcomeOf(items, qs)
  }

  /** Every replay that gets through goes along a way. */
  lemma {:induction false} ReplayIsWay(env: Env, items: seq<Item>, ps: seq<nat>, ns: seq<nat>)
    returns (qs: seq<nat>)
    requires InFragment(items) && 0 < |ps| <= |items| + 1 && FitsTo(env, items, ps, |ps| - 1)
    requires ReplayAt(env, items, ps, |ps| - 1, ns) != Fail
    ensures GoesOn(env, items, ps, ns, qs, ReplayAt(env, items, ps, |ps| - 1, ns))
    decreases |ns|
  {
    if |ps| - 1 == |items| || ns == [] {
      qs := ps;
      WayEnds(env, items, ps, ns, |ps| - 1);
    } else {
      var q := StepAlong(env, items, ps, ns, |ps| - 1);
      qs := ReplayIsWay(env, items, ps + [q], ns[1..]);
      OneEarlier(env, items, ps, q, ns[0], ns[1..], ns, qs, ReplayAt(env, items, ps, |ps| - 1, ns));
    }
  }

  lemma WayEnds(env: Env, items: seq<Item>, ps: seq<nat>, ns: seq<nat>, k: nat)
    requires InFragment(items) && |ps| == k + 1 && FitsTo(env, items, ps, k) && (k == |items| || ns == [])
    requires ReplayAt(env, items, ps, k, ns) != Fail
    ensures GoesOn(env, items, ps, ns, ps, ReplayAt(env, items, ps, k, ns))
  {
    if k < |items| {
      ReplayBegins(env, items, ps, k, ns);
      StuckIsEndless(env, items, ps, k);
    }
  }

  lemma StepAlong(env: Env, items: seq<Item>, ps: seq<nat>, ns: seq<nat>, k: nat) returns (q: nat)
    requires InFragment(items) && |ps| == k + 1 <= |items| && FitsTo(env, items, ps, k) && ns != []
    requires ReplayAt(env, items, ps, k, ns) != Fail
    ensures FitsTo(env, items, ps + [q], k + 1) && CountFits(env, items, ps + [q], k, ns[0])
    ensures ReplayAt(env, items, ps, k, ns) == ReplayAt(env, items, ps + [q], k + 1, ns[1..])
  {
    ReplayBegins(env, items, ps, k, ns);
    q := Land(ps[k], ns[0], Stride(items[k].head, CapSpan(env, CapsAt(items, ps, k), items[k].head)));
    StepOn(env, items, ps, ns[0], q);
    ReplayOn(env, items, ps, ns[0], ns[1..], ns, q, ps + [q], k);
  }

  lemma ReplayOn(env: Env, items: seq<Item>, ps: seq<nat>, n: nat, rest: seq<nat>, ns: seq<nat>, q: nat, qs: seq<nat>,
                 k: nat)
    requires |ps| == k + 1 <= |items| && qs == ps + [q] && ns != [] && n == ns[0] && rest == ns[1..]
    requires Leads(env, items[k], ps[k], CapsAt(items, ps, k), n, q)
    ensures ReplayAt(env, items, ps, k, ns) == ReplayAt(env, items, qs, k + 1, rest)
  {
    CapsStay(items, ps, qs, k);
    assert ns == [n] + rest && qs[k + 1] == q;
    ReplaySteps(env, items, qs, k, n, rest, q);
  }

  lemma OneEarlier(env: Env, items: seq<Item>, ps: seq<nat>, q: nat, n: nat, rest: seq<nat>, ns: seq<nat>,
                   qs: seq<nat>, o: Outcome)
    requires ps != [] && GoesOn(env, items, ps + [q], rest, qs, o) && CountFits(env, items, ps + [q], |ps| - 1, n)
    requires ns != [] && n == ns[0] && rest == ns[1..]
    ensures GoesOn(env, items, ps, ns, qs, o)
  {
    CountStays(env, items, ps + [q], qs, |ps| - 1, n);
    CountsFrom(env, items, qs, |ps| - 1, n, rest);
    assert ns == [n] + rest;
    assert ps <= ps + [q] && (ps + [q])[0] == ps[0];
  }

  /** Every way is gone along by a replay. */
  lemma {:induction false} WayIsReplay(env: Env, items: seq<Item>, i: nat, ps: seq<nat>, k: nat) returns (ns: seq<nat>)
    requires InFragment(items) && Way(env, items, i, ps) && k < |ps|
    ensures CountsAlong(env, items, ps, k, ns) && ReplayAt(env, items, ps, k, ns) == OutcomeOf(items, ps)
    decreases |ps| - k
  {
    if k == |ps| - 1 {
      ns := [];
      ReplayStops(env, items, ps, k);
    } else {
      var rest := WayIsReplay(env, items, i, ps, k + 1);
      var n := CountFor(env, items, ps, k);
      ns := [n] + rest;
      ReplaySteps(env, items, ps, k, n, rest, ps[k + 1]);
      CountsFrom(env, items, ps, k, n, rest);
    }
  }

  lemma ReplayStops(env: Env, items: seq<Item>, ps: seq<nat>, k: nat)
    requires InFragment(items) && k == |ps| - 1 && FitsTo(env, items, ps, k)
    requires k < |items| ==> StuckAt(env.s, items, ps, k)
    ensures ReplayAt(env, items, ps, k, []) == OutcomeOf(items, ps)
  {
    if k < |items| {
      StuckIsEndless(env, items, ps, k);
      assert items[k..][0] == items[k];
    }
  }

  lemma CountFor(env: Env, items: seq<Item>, ps: seq<nat>, k: nat) returns (n: nat)
    requires InFragment(items) && k + 1 < |ps| && k < |items| && FitsTo(env, items, ps, |ps| - 1)
    ensures CountFits(env, items, ps, k, n)
  {
    assert PieceFits(env, items, ps, k);
    PieceLeads(env, items, ps, k);
    n :| Leads(env, items[k], ps[k], CapsAt(items, ps, k), n, ps[k + 1]);
  }

  // ----- The same order -----

  /** From the same position, more repetitions lead further, and only they do. */
  lemma LeadsFurther(env: Env, it: Item, p: nat, caps: Caps, m: nat, n: nat, q: nat, r: nat)
    requires Leads(env, it, p, caps, m, q) && Leads(env, it, p, caps, n, r)
    ensures (m < n <==> q < r) && (m == n <==> q == r)
  {
    var sp := CapSpan(env, caps, it.head);
    var stride := Stride(it.head, sp);
    if stride > 0 {
      if m < n { LandGrows(p, m, n, stride); }
      if n < m { LandGrows(p, n, m, stride); }
    }
  }

  lemma {:induction false} LandGrows(p: nat, m: nat, n: nat, stride: nat)
    requires m < n && stride > 0
    ensures Land(p, m, stride) < Land(p, n, stride)
    decreases n
  {
    if m < n - 1 {
      LandGrows(p, m, n - 1, stride);
    }
  }

  /** Two ways that are the same up to position `k` compare as their counts do. */
  lemma {:induction false} SameOrder(env: Env, items: seq<Item>, ps: seq<nat>, qs: seq<nat>, k: nat, ms: seq<nat>,
                                     ns: seq<nat>)
    requires CountsAlong(env, items, ps, k, ms) && CountsAlong(env, items, qs, k, ns) && ps[..k + 1] == qs[..k + 1]
    ensures Lex(ms, ns) <==> Lex(ps[k + 1..], qs[k + 1..])
    ensures ms == ns <==> ps == qs
    decreases |ms|
  {
    if ms == [] || ns == [] {
      EndedOrder(ps, qs, k, ms, ns);
    } else {
      FirstStep(env, items, ps, qs, k, ms, ns);
      if ms[0] == ns[0] {
        CountsLater(env, items, ps, k, ms);
        CountsLater(env, items, qs, k, ns);
        OneLonger(ps, qs, k);
        SameOrder(env, items, ps, qs, k + 1, ms[1..], ns[1..]);
        LaterOrder(ps, qs, k, ms, ns);
      } else {
        FirstOrder(ps, qs, k, ms, ns);
      }
    }
  }

  lemma EndedOrder(ps: seq<nat>, qs: seq<nat>, k: nat, ms: seq<nat>, ns: seq<nat>)
    requires k < |ps| && k < |qs| && |ms| == |ps| - 1 - k && |ns| == |qs| - 1 - k && ps[..k + 1] == qs[..k + 1]
    requires ms == [] || ns == []
    ensures (Lex(ms, ns) <==> Lex(ps[k + 1..], qs[k + 1..])) && (ms == ns <==> ps == qs)
  {
    assert ms == [] ==> ps[..k + 1] == ps;
    assert ns == [] ==> qs[..k + 1] == qs;
  }

  lemma FirstOrder(ps: seq<nat>, qs: seq<nat>, k: nat, ms: seq<nat>, ns: seq<nat>)
    requires k + 1 < |ps| && k + 1 < |qs| && ms != [] && ns != [] && ms[0] != ns[0]
    requires (ms[0] < ns[0] <==> ps[k + 1] < qs[k + 1]) && ps[k + 1] != qs[k + 1]
    ensures (Lex(ms, ns) <==> Lex(ps[k + 1..], qs[k + 1..])) && ms != ns && ps != qs
  {
  }

  lemma LaterOrder(ps: seq<nat>, qs: seq<nat>, k: nat, ms: seq<nat>, ns: seq<nat>)
    requires k + 1 < |ps| && k + 1 < |qs| && ms != [] && ns != [] && ms[0] == ns[0] && ps[k + 1] == qs[k + 1]
    requires ps[k + 1..][1..] == ps[k + 2..] && qs[k + 1..][1..] == qs[k + 2..]
    requires (Lex(ms[1..], ns[1..]) <==> Lex(ps[k + 2..], qs[k + 2..])) && (ms[1..] == ns[1..] <==> ps == qs)
    ensures (Lex(ms, ns) <==> Lex(ps[k + 1..], qs[k + 1..])) && (ms == ns <==> ps == qs)
  {
    assert ms == [ms[0]] + ms[1..] && ns == [ns[0]] + ns[1..];
  }

  lemma OneLonger(ps: seq<nat>, qs: seq<nat>, k: nat)
    requires k + 1 < |ps| && k + 1 < |qs| && ps[..k + 1] == qs[..k + 1] && ps[k + 1] == qs[k + 1]
    ensures ps[..k + 2] == qs[..k + 2]
    ensures ps[k + 1..][1..] == ps[k + 2..] && qs[k + 1..][1..] == qs[k + 2..]
  {
    assert ps[..k + 2] == ps[..k + 1] + [ps[k + 1]] && qs[..k + 2] == qs[..k + 1] + [qs[k + 1]];
  }

  lemma FirstStep(env: Env, items: seq<Item>, ps: seq<nat>, qs: seq<nat>, k: nat, ms: seq<nat>, ns: seq<nat>)
    requires CountsAlong(env, items, ps, k, ms) && CountsAlong(env, items, qs, k, ns) && ps[..k + 1] == qs[..k + 1]
    requires ms != [] && ns != []
    ensures (ms[0] < ns[0] <==> ps[k + 1] < qs[k + 1]) && (ms[0] == ns[0] <==> ps[k + 1] == qs[k + 1])
  {
    var past := ps[..k + 1];
    assert past <= ps && past <= qs;
    assert CountFits(env, items, ps, k + 0, ms[0]) && CountFits(env, items, qs, k + 0, ns[0]);
    CapsStay(items, past, ps, k);
    CapsStay(items, past, qs, k);
    LeadsFurther(env, items[k], ps[k], CapsAt(items, ps, k), ms[0], ns[0], ps[k + 1], qs[k + 1]);
  }

  lemma CountsLater(env: Env, items: seq<Item>, ps: seq<nat>, k: nat, ns: seq<nat>)
    requires CountsAlong(env, items, ps, k, ns) && ns != []
    ensures CountsAlong(env, items, ps, k + 1, ns[1..])
  {
    forall j: nat | j < |ns[1..]| ensures CountFits(env, items, ps, k + 1 + j, ns[1..][j]) {
      assert CountFits(env, items, ps, k + (1 + j), ns[1 + j]);
    }
  }

  // ----- The matcher finds the greatest way -----

  lemma WayOf(env: Env, items: seq<Item>, i: nat, ns: seq<nat>) returns (ps: seq<nat>)
    requires InFragment(items) && i <= |env.s| && Replay(env, items, i, NOTHING, ns) != Fail
    ensures Way(env, items, i, ps) && CountsAlong(env, items, ps, 0, ns)
    ensures Replay(env, items, i, NOTHING, ns) == OutcomeOf(items, ps)
  {
    assert items[0..] == items;
    ps := ReplayIsWay(env, items, [i], ns);
  }

  lemma CountsOf(env: Env, items: seq<Item>, i: nat, ps: seq<nat>) returns (ns: seq<nat>)
    requires InFragment(items) && Way(env, items, i, ps)
    ensures CountsAlong(env, items, ps, 0, ns) && Replay(env, items, i, NOTHING, ns) == OutcomeOf(items, ps)
  {
    assert items[0..] == items;
    ns := WayIsReplay(env, items, i, ps, 0);
  }

  /** No path gets through if and only if there is no way. */
  lemma QuietIff(env: Env, items: seq<Item>, i: nat)
    requires InFragment(items) && i <= |env.s|
    ensures Quiet(env, items, i) <==> forall ps :: !Way(env, items, i, ps)
  {
    if ps :| Way(env, items, i, ps) {
      var ns := CountsOf(env, items, i, ps);
    }
    if ns :| Replay(env, items, i, NOTHING, ns) != Fail {
      var ps := WayOf(env, items, i, ns);
    }
  }

  /** A way, and every other way has a smaller position where they first differ. */
  ghost predicate Greatest(env: Env, items: seq<Item>, i: nat, ps: seq<nat>) {
    Way(env, items, i, ps) && forall qs :: Way(env, items, i, qs) ==> qs == ps || Lex(qs, ps)
  }

  lemma GreediestIsGreatest(env: Env, items: seq<Item>, i: nat, ns: seq<nat>) returns (ps: seq<nat>)
    requires InFragment(items) && i <= |env.s| && Greediest(env, items, i, NOTHING, ns)
    ensures Greatest(env, items, i, ps) && Replay(env, items, i, NOTHING, ns) == OutcomeOf(items, ps)
  {
    ps := WayOf(env, items, i, ns);
    forall qs | Way(env, items, i, qs) ensures qs == ps || Lex(qs, ps) {
      var ms := CountsOf(env, items, i, qs);
      assert qs[..1] == [i] && ps[..1] == [i];
      SameOrder(env, items, qs, ps, 0, ms, ns);
    }
  }

  /** The arrays hold the positions of the markers on the way. */
  ghost predicate HoldsMarkers(items: seq<Item>, ps: seq<nat>, bra: seq<int>, ket: seq<int>) {
    && |bra| == NBRA && |ket| == NBRA && |ps| > |items|
    && forall k :: 0 <= k < |items| ==> MarkerHeld(items[k].head, ps[k], bra, ket)
  }

  ghost predicate MarkerHeld(h: Head, p: nat, bra: seq<int>, ket: seq<int>)
    requires |bra| == NBRA && |ket| == NBRA
  {
    && (h.Open? ==> h.g < NBRA && bra[h.g] == p)
    && (h.Close? ==> h.g < NBRA && ket[h.g] == p)
  }

  lemma AgreementHolds(items: seq<Item>, ps: seq<nat>, r: Regs)
    requires WellScoped(items, {}, {}) && |ps| == |items| + 1 && ValidRegs(r) && Agrees(r, CapsAt(items, ps, |items|))
    ensures HoldsMarkers(items, ps, r.bra, r.ket)
  {
    forall k | 0 <= k < |items| ensures MarkerHeld(items[k].head, ps[k], r.bra, r.ket) {
      MarkerRecorded(items, ps, |items|, k);
    }
  }

  /** The run reports the way `ps`: its end and its captures, or that it gets stuck. */
  ghost predicate ReportsWay(x: Result, items: seq<Item>, ps: seq<nat>) {
    if |ps| == |items| + 1 then
      x.v == Yes && x.regs.loc2 == ps[|items|] && HoldsMarkers(items, ps, x.regs.bra, x.regs.ket)
    else x.v == Stuck
  }

  /**
   The matcher says no exactly when there is no way through the pattern, and else reports
   the greatest: each item in turn takes as much of the subject as still lets the rest
   through, or lets it get stuck.
   */
  lemma RunFindsGreatest(env: Env, items: seq<Item>, i: nat, r: Regs)
    requires InFragment(items) && i <= |env.s| && ValidRegs(r)
    ensures var x := Run(env, items, i, r);
            if x.v == No then forall ps :: !Way(env, items, i, ps)
            else exists ps :: Greatest(env, items, i, ps) && ReportsWay(x, items, ps)
  {
    var x := Run(env, items, i, r);
    RunIsGreedy(env, items, i, r);
    if x.v == No {
      QuietIff(env, items, i);
    } else {
      var ns :| Greediest(env, items, i, NOTHING, ns) && Reports(x, Replay(env, items, i, NOTHING, ns), r);
      var ps := GreediestIsGreatest(env, items, i, ns);
      if |ps| == |items| + 1 {
        AgreementHolds(items, ps, x.regs);
      }
      assert ReportsWay(x, items, ps);
    }
  }
}
