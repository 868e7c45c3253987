/**
 The matcher as a backtracking search with captures that belong to the path, and the
 proof that it finds the greediest replay of the pattern.
 */
module Search {
  import opened Pattern
  import opened Semantics

  /** Length of the run of bytes from `i` that the atom accepts. */
  function MaxRun(s: cstring, h: Head, i: nat): nat
    decreases |s| - i
  {
    if i < |s| && Accepts(h, s[i]) then 1 + MaxRun(s, h, i + 1) else 0
  }

  /** How many copies of the captured text follow each other from `i`. */
  function CopyRun(s: cstring, sp: Span, i: nat): nat
    requires sp.Span? && sp.from < sp.to <= |s|
    decreases |s| - i
  {
    if Copy(s, sp, i) then 1 + CopyRun(s, sp, i + (sp.to - sp.from)) else 0
  }

  function Min(a: int, b: int): int {
    if a < b then a else b
  }

  /** The counts an item offers, tried from `high` down to `low`; or an endless loop. */
  datatype Choices = Forever | Counts(stride: nat, low: nat, high: int)

  /** The largest count for a run of length `run`. */
  function TopCount(it: Item, run: nat): int {
    if it.ranges != [] then Min(run, it.ranges[0].lo + Slack(it.ranges[0]))
    else if it.star then run
    else Min(run, 1)
  }

  /** Where the descent from `top` stops: at the item's minimum, or just above `locs`. */
  function BottomCount(env: Env, it: Item, i: nat, top: int): nat {
    if Repeated(it) && i + MinCount(it) <= env.locs <= i + top then env.locs - i + 1
    else MinCount(it)
  }

  function ChoicesAt(env: Env, it: Item, i: nat, sp: Span): Choices {
    match it.head
    case Dollar => Counts(1, 0, if i == |env.s| then 0 else -1)
    case Open(_) => Counts(1, 0, 0)
    case Close(_) => Counts(1, 0, 0)
    case Ref(_) =>
      if !(sp.Span? && sp.from <= sp.to <= |env.s|) then Counts(1, 1, 0)
      else if !it.star then Counts(sp.to - sp.from, 1, if Copy(env.s, sp, i) then 1 else 0)
      else if sp.from == sp.to then Forever
      else Counts(sp.to - sp.from, 0, CopyRun(env.s, sp, i))
    case _ =>
      var top := TopCount(it, MaxRun(env.s, it.head, i));
      Counts(1, BottomCount(env, it, i, top), top)
  }

  function Find(env: Env, items: seq<Item>, i: nat, caps: Caps): Outcome
    decreases |items|, 0, 0
  {
    if items == [] then Match(i, caps)
    else
      match ChoicesAt(env, items[0], i, CapSpan(env, caps, items[0].head))
      case Forever => Hang
      case Counts(stride, low, high) =>
        Descend(env, items[1..], i, stride, low, high, Note(items[0].head, i, caps))
  }

  function Descend(env: Env, rest: seq<Item>, i: nat, stride: nat, low: nat, high: int, caps: Caps): Outcome
    decreases |rest|, 1, high - low + 1
  {
    if high < low then Fail
    else
      match Find(env, rest, Land(i, high, stride), caps)
      case Fail => Descend(env, rest, i, stride, low, high - 1, caps)
      case o => o
  }

  // ----- The counts offered are exactly the counts admitted -----

  lemma {:induction false} RunIsMaximal(s: cstring, h: Head, i: nat, n: nat)
    requires i <= |s|
    ensures AllAccepted(s, h, i, n) <==> n <= MaxRun(s, h, i)
    decreases |s| - i
  {
    if i < |s| && Accepts(h, s[i]) {
      if n > 0 {
        RunIsMaximal(s, h, i + 1, n - 1);
        assert AllAccepted(s, h, i, n) <==> AllAccepted(s, h, i + 1, n - 1);
      }
    } else if n > 0 && i + n <= |s| {
      assert i <= i < i + n;
    }
  }

  lemma {:induction false} CopyRunIsMaximal(s: cstring, sp: Span, i: nat, n: nat)
    requires sp.Span? && sp.from < sp.to <= |s|
    ensures Copies(s, sp, i, n) <==> n <= CopyRun(s, sp, i)
    decreases |s| - i
  {
    if n > 0 && Copy(s, sp, i) {
      CopyRunIsMaximal(s, sp, i + (sp.to - sp.from), n - 1);
    }
  }

  lemma {:induction false} EmptyCopies(s: cstring, sp: Span, i: nat, n: nat)
    requires sp.Span? && sp.from == sp.to <= |s| && i <= |s|
    ensures Copies(s, sp, i, n) && Land(i, n, 0) == i
    decreases n
  {
    if n == 0 {
    } else {
      EmptyCopies(s, sp, i, n - 1);
    }
  }

  /** There is no highest number of copies if and only if the capture is empty. */
  lemma EndlessIff(s: cstring, sp: Span, i: nat)
    requires sp.Span? && sp.from <= sp.to <= |s| && i <= |s|
    ensures (forall n: nat :: Copies(s, sp, i, n)) <==> sp.from == sp.to
  {
    if sp.from == sp.to {
      forall n: nat ensures Copies(s, sp, i, n) {
        EmptyCopies(s, sp, i, n);
      }
    } else {
      CopyRunIsMaximal(s, sp, i, CopyRun(s, sp, i) + 1);
    }
  }

  lemma AtomCountsExact(env: Env, it: Item, i: nat, sp: Span, n: nat)
    requires Supported(it) && IsSingle(it.head) && i <= |env.s|
    ensures var c := ChoicesAt(env, it, i, sp);
            c.Counts? && (Admits(env, it, i, sp, n) <==> c.low <= n <= c.high)
  {
    var run := MaxRun(env.s, it.head, i);
    var top := TopCount(it, run);
    forall m: nat
      ensures Fits(env.s, it, i, m) <==> MinCount(it) <= m <= top
    {
      RunIsMaximal(env.s, it.head, i, m);
      if it.ranges != [] { assert SoundInterval(it.ranges[0]); }
    }
    if Repeated(it) {
      if i + MinCount(it) <= env.locs <= i + top {
        var m: nat := env.locs - i;
        assert Fits(env.s, it, i, m);
      }
    }
  }

  lemma ChoicesExact(env: Env, it: Item, i: nat, sp: Span, n: nat)
    requires Supported(it) && i <= |env.s|
    requires sp.Span? ==> sp.from <= sp.to <= |env.s|
    ensures var c := ChoicesAt(env, it, i, sp);
            && (c.Forever? <==> Endless(it, sp))
            && (c.Counts? ==> (Admits(env, it, i, sp, n) <==> c.low <= n <= c.high))
            && (c.Counts? && c.low <= n <= c.high ==> c.stride == Stride(it.head, sp))
  {
    if IsSingle(it.head) {
      AtomCountsExact(env, it, i, sp, n);
    } else if it.head.Ref? && sp.Span? {
      if it.star {
        if sp.from < sp.to { CopyRunIsMaximal(env.s, sp, i, n); }
      } else if n == 1 {
        assert Copies(env.s, sp, i, 1) <==> Copy(env.s, sp, i);
      }
    }
  }

  /** Every admitted count lands inside the subject. */
  lemma LandsInside(env: Env, it: Item, i: nat, sp: Span, n: nat)
    requires Supported(it) && i <= |env.s|
    requires sp.Span? ==> sp.from <= sp.to <= |env.s|
    requires Admits(env, it, i, sp, n)
    ensures Land(i, n, Stride(it.head, sp)) <= |env.s|
  {
    if it.head.Ref? {
      CopiesLand(env.s, sp, i, n);
    }
  }

  lemma {:induction false} CopiesLand(s: cstring, sp: Span, i: nat, n: nat)
    requires sp.Span? && sp.from <= sp.to <= |s| && i <= |s|
    requires Copies(s, sp, i, n)
    ensures Land(i, n, sp.to - sp.from) <= |s|
    decreases n
  {
    var ct := sp.to - sp.from;
    if n == 0 {
    } else {
      CopiesLand(s, sp, i + ct, n - 1);
      LandShift(i, n - 1, ct);
    }
  }

  // ----- The search is sound, complete and greedy -----

  /** The replays that continue a path whose next count lies between `low` and `high`. */
  ghost function ReplayFrom(env: Env, rest: seq<Item>, i: nat, stride: nat, low: nat, high: int, caps: Caps,
                            ns: seq<nat>): Outcome {
    if ns == [] || !(low <= ns[0] <= high) then Fail
    else Replay(env, rest, Land(i, ns[0], stride), caps, ns[1..])
  }

  ghost predicate DescendsGreedily(env: Env, rest: seq<Item>, i: nat, stride: nat, low: nat, high: int, caps: Caps) {
    var o := Descend(env, rest, i, stride, low, high, caps);
    if o == Fail then
      forall ms :: ReplayFrom(env, rest, i, stride, low, high, caps, ms) == Fail
    else
      exists ns :: ReplayFrom(env, rest, i, stride, low, high, caps, ns) == o &&
        forall ms :: ReplayFrom(env, rest, i, stride, low, high, caps, ms) != Fail ==> ms == ns || Lex(ms, ns)
  }

  ghost predicate FindsGreedily(env: Env, items: seq<Item>, i: nat, caps: Caps) {
    var o := Find(env, items, i, caps);
    if o == Fail then
      forall ms :: Replay(env, items, i, caps, ms) == Fail
    else
      exists ns :: Replay(env, items, i, caps, ns) == o && Greediest(env, items, i, caps, ns)
  }

  /**
   The search returns the outcome of the lexicographically greatest count vector that can
   be replayed, and fails exactly when none can.
   */
  lemma {:induction false} FindIsGreedy(env: Env, items: seq<Item>, i: nat, caps: Caps)
    requires AllSupported(items) && i <= |env.s|
    ensures FindsGreedily(env, items, i, caps)
    decreases |items|, 0, 0
  {
    var o := Find(env, items, i, caps);
    if items == [] {
      assert Replay(env, items, i, caps, []) == o;
      assert Greediest(env, items, i, caps, []);
    } else {
      var it, rest := items[0], items[1..];
      var sp := CapSpan(env, caps, it.head);
      var c := ChoicesAt(env, it, i, sp);
      ChoicesExact(env, it, i, sp, 0);
      if c.Forever? {
        assert Replay(env, items, i, caps, []) == Hang;
        assert Greediest(env, items, i, caps, []);
      } else {
        var caps' := Note(it.head, i, caps);
        forall n: nat | c.low <= n <= c.high
          ensures Land(i, n, c.stride) <= |env.s|
        {
          ChoicesExact(env, it, i, sp, n);
          LandsInside(env, it, i, sp, n);
        }
        DescendIsGreedy(env, rest, i, c.stride, c.low, c.high, caps');
        forall ms
          ensures Replay(env, items, i, caps, ms) == ReplayFrom(env, rest, i, c.stride, c.low, c.high, caps', ms)
        {
          if ms != [] { ChoicesExact(env, it, i, sp, ms[0]); }
        }
        if o != Fail {
          var ns :| ReplayFrom(env, rest, i, c.stride, c.low, c.high, caps', ns) == o &&
            forall ms :: ReplayFrom(env, rest, i, c.stride, c.low, c.high, caps', ms) != Fail ==>
              ms == ns || Lex(ms, ns);
          assert Replay(env, items, i, caps, ns) == o;
          assert Greediest(env, items, i, caps, ns);
        }
      }
    }
  }

  lemma {:induction false} DescendIsGreedy(env: Env, rest: seq<Item>, i: nat, stride: nat, low: nat, high: int,
                                           caps: Caps)
    requires AllSupported(rest)
    requires forall n: nat :: low <= n <= high ==> Land(i, n, stride) <= |env.s|
    ensures DescendsGreedily(env, rest, i, stride, low, high, caps)
    decreases |rest|, 1, high - low + 1
  {
    if low <= high {
      var at := Land(i, high, stride);
      var o := Find(env, rest, at, caps);
      FindIsGreedy(env, rest, at, caps);
      if o == Fail {
        DescendIsGreedy(env, rest, i, stride, low, high - 1, caps);
        forall ms
          ensures ReplayFrom(env, rest, i, stride, low, high, caps, ms) ==
                  ReplayFrom(env, rest, i, stride, low, high - 1, caps, ms)
        {
        }
        var o' := Descend(env, rest, i, stride, low, high - 1, caps);
        if o' != Fail {
          var ns :| ReplayFrom(env, rest, i, stride, low, high - 1, caps, ns) == o' &&
            forall ms :: ReplayFrom(env, rest, i, stride, low, high - 1, caps, ms) != Fail ==> ms == ns || Lex(ms, ns);
          assert ReplayFrom(env, rest, i, stride, low, high, caps, ns) == o';
        }
      } else {
        var tail :| Replay(env, rest, at, caps, tail) == o && Greediest(env, rest, at, caps, tail);
        var ns := [high as nat] + tail;
        assert ns[1..] == tail;
        assert ReplayFrom(env, rest, i, stride, low, high, caps, ns) == o;
        forall ms | ReplayFrom(env, rest, i, stride, low, high, caps, ms) != Fail
          ensures ms == ns || Lex(ms, ns)
        {
          if ms[0] == high {
            assert ms == [ms[0]] + ms[1..];
          }
        }
      }
    }
  }
}
