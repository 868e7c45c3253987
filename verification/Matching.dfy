/**
 What a caller of the matcher may rely on, stated about the declarative replays.
 */
module Matching {
  import opened Bits
  import opened Pattern
  import opened Semantics
  import opened Search
  import opened Exec

  /** The run's verdict, `loc2` and captures are those of outcome `o`. */
  ghost predicate Reports(x: Result, o: Outcome, r: Regs) {
    && ValidRegs(x.regs)
    && (o.Fail? <==> x.v == No)
    && (o.Hang? <==> x.v == Stuck)
    && (x.v != Yes ==> x.regs.loc2 == r.loc2)
    && (o.Match? ==> x.regs.loc2 == o.end && Agrees(x.regs, o.caps))
  }

  /**
   The matcher is sound, complete and greedy: it answers no exactly when no count vector
   can be replayed, and otherwise reports the outcome of the greatest one, whatever the
   capture arrays held before.
   */
  lemma RunIsGreedy(env: Env, items: seq<Item>, i: nat, r: Regs)
    requires InFragment(items) && i <= |env.s| && ValidRegs(r)
    ensures var x := Run(env, items, i, r);
            if x.v == No then
              (forall ms :: Replay(env, items, i, NOTHING, ms) == Fail) && Reports(x, Fail, r)
            else
              exists ns :: Greediest(env, items, i, NOTHING, ns) && Reports(x, Replay(env, items, i, NOTHING, ns), r)
  {
    FreshStart(env, items, i, r);
    RunRefinesFind(env, items, i, r, NOTHING);
    FindIsGreedy(env, items, i, NOTHING);
    var o := Find(env, items, i, NOTHING);
    if o != Fail {
      var ns :| Replay(env, items, i, NOTHING, ns) == o && Greediest(env, items, i, NOTHING, ns);
    }
  }

  /** Two runs that start from different arrays agree on the verdict and on `loc2`. */
  lemma InitialArraysDoNotMatter(env: Env, items: seq<Item>, i: nat, r: Regs, r': Regs)
    requires InFragment(items) && i <= |env.s| && ValidRegs(r) && ValidRegs(r')
    ensures var x, x' := Run(env, items, i, r), Run(env, items, i, r');
            x.v == x'.v && (x.v == Yes ==> x.regs.loc2 == x'.regs.loc2)
  {
    FreshStart(env, items, i, r);
    FreshStart(env, items, i, r');
    RunRefinesFind(env, items, i, r, NOTHING);
    RunRefinesFind(env, items, i, r', NOTHING);
  }

  // ----- When the matcher returns at all -----

  /**
   `open` are the groups begun and not ended; `grown` are groups sure to have consumed a
   byte. Does every starred reference, up to an item that cannot match, name a group that
   is sure to be non-empty?
   */
  ghost predicate HangFree(items: seq<Item>, open: set<byte>, grown: set<byte>) {
    if items == [] || Dead(items[0]) then true
    else
      && (items[0].head.Ref? && items[0].star ==> items[0].head.g in grown)
      && HangFree(items[1..], NextOpen(items[0].head, open), if Consumes(items[0], grown) then grown + open else grown)
  }

  /** A character atom that must match at least once, and accepts no byte. */
  ghost predicate Dead(it: Item) {
    IsSingle(it.head) && MinCount(it) >= 1 && forall c: byte :: !Accepts(it.head, c)
  }

  lemma DeadAdmitsNothing(env: Env, it: Item, i: nat, sp: Span, n: nat)
    requires Dead(it)
    ensures !Admits(env, it, i, sp, n)
  {
    if n >= 1 && i + n <= |env.s| {
      assert !Accepts(it.head, env.s[i]);
    }
  }

  function NextOpen(h: Head, open: set<byte>): set<byte> {
    match h
    case Open(g) => open + {g}
    case Close(g) => open - {g}
    case _ => open
  }

  /** Is `it` sure to consume at least one byte? */
  predicate Consumes(it: Item, grown: set<byte>) {
    if it.head.Ref? then !it.star && it.head.g in grown
    else IsSingle(it.head) && MinCount(it) >= 1
  }

  ghost predicate Growing(caps: Caps, i: nat, open: set<byte>, grown: set<byte>) {
    && (forall g :: g in open ==> g in caps.start && g !in caps.end && caps.start[g] <= i)
    && (forall g :: g in grown ==> g in caps.start && caps.start[g] < (if g in caps.end then caps.end[g] else i))
    && caps.end.Keys <= caps.start.Keys
  }

  lemma GrowingStep(env: Env, it: Item, i: nat, caps: Caps, n: nat, open: set<byte>, grown: set<byte>)
    requires Growing(caps, i, open, grown)
    requires it.head.Open? ==> it.head.g !in caps.start
    requires it.head.Close? ==> it.head.g in caps.start && it.head.g !in caps.end
    requires Admits(env, it, i, CapSpan(env, caps, it.head), n)
    ensures var i' := Land(i, n, Stride(it.head, CapSpan(env, caps, it.head)));
            && i <= i' && (Consumes(it, grown) ==> i < i')
            && Growing(Note(it.head, i, caps), i', NextOpen(it.head, open),
                       if Consumes(it, grown) then grown + open else grown)
  {
    var i' := Land(i, n, Stride(it.head, CapSpan(env, caps, it.head)));
    if Consumes(it, grown) {
      assert n >= 1 && Stride(it.head, CapSpan(env, caps, it.head)) >= 1;
      assert i < i';
    }
  }

  lemma {:induction false} NoReplayHangs(env: Env, items: seq<Item>, i: nat, caps: Caps, ns: seq<nat>,
                                         open: set<byte>, grown: set<byte>)
    requires WellScoped(items, caps.start.Keys, caps.end.Keys)
    requires Growing(caps, i, open, grown) && HangFree(items, open, grown)
    ensures Replay(env, items, i, caps, ns) != Hang
    decreases |items|
  {
    if items != [] && ns != [] {
      var it, rest := items[0], items[1..];
      var sp := CapSpan(env, caps, it.head);
      if Dead(it) {
        DeadAdmitsNothing(env, it, i, sp, ns[0]);
      } else if !Endless(it, sp) && Admits(env, it, i, sp, ns[0]) {
        GrowingStep(env, it, i, caps, ns[0], open, grown);
        NoteKeepsScope(items, i, caps);
        NoReplayHangs(env, rest, Land(i, ns[0], Stride(it.head, sp)), Note(it.head, i, caps), ns[1..],
                      NextOpen(it.head, open), if Consumes(it, grown) then grown + open else grown);
      }
    }
  }

  /** No path from `i` runs into an endless repetition. */
  ghost predicate Safe(env: Env, items: seq<Item>, i: nat) {
    forall ns :: Replay(env, items, i, NOTHING, ns) != Hang
  }

  lemma NeverHangs(env: Env, items: seq<Item>, i: nat)
    requires WellScoped(items, {}, {}) && HangFree(items, {}, {})
    ensures Safe(env, items, i)
  {
    assert NOTHING.start.Keys == {} && NOTHING.end.Keys == {};
    forall ns ensures Replay(env, items, i, NOTHING, ns) != Hang {
      NoReplayHangs(env, items, i, NOTHING, ns, {}, {});
    }
  }

  /** No path from `i` gets through: none matches and none hangs. */
  ghost predicate Quiet(env: Env, items: seq<Item>, i: nat) {
    forall ns :: Replay(env, items, i, NOTHING, ns) == Fail
  }

  /**
   The matcher says no exactly when no path gets through, and yes only if the pattern
   matches. Where no path hangs it returns, and says yes exactly when the pattern matches.
   */
  lemma RunDecidesMatching(env: Env, items: seq<Item>, i: nat, r: Regs)
    requires InFragment(items) && i <= |env.s| && ValidRegs(r)
    ensures var x := Run(env, items, i, r);
            && (x.v == No <==> Quiet(env, items, i))
            && (x.v == Yes ==> Matches(env, items, i, NOTHING))
            && (Safe(env, items, i) ==> x.v != Stuck && (x.v == Yes <==> Matches(env, items, i, NOTHING)))
  {
    RunIsGreedy(env, items, i, r);
  }

  // ----- Leftmost -----

  /** `f` is what the matcher reports at `j`, the first start that is not quiet. */
  ghost predicate StopsAt(env: Env, items: seq<Item>, i: nat, loc1: int, r: Regs, f: Found, j: nat) {
    && i <= j <= |env.s| && !Quiet(env, items, j)
    && (forall k: nat :: i <= k < j ==> Quiet(env, items, k))
    && f.loc1 == (if f.v == Yes then j else loc1)
    && exists ns ::
         Greediest(env, items, j, NOTHING, ns) && Reports(Result(f.v, f.regs), Replay(env, items, j, NOTHING, ns), r)
  }

  lemma StopsLater(env: Env, items: seq<Item>, i: nat, loc1: int, r: Regs, r': Regs, f: Found, j: nat)
    requires StopsAt(env, items, i + 1, loc1, r', f, j) && Quiet(env, items, i) && r'.loc2 == r.loc2
    ensures StopsAt(env, items, i, loc1, r, f, j)
  {
    var ns :| Greediest(env, items, j, NOTHING, ns)
        && Reports(Result(f.v, f.regs), Replay(env, items, j, NOTHING, ns), r');
    assert Reports(Result(f.v, f.regs), Replay(env, items, j, NOTHING, ns), r);
  }

  /**
   The scan stops at the first start where any path gets through, reports what the matcher
   reports there, and says no exactly when there is no such start.
   */
  lemma {:induction false} ScanIsLeftmost(env: Env, items: seq<Item>, i: nat, loc1: int, r: Regs)
    requires InFragment(items) && i <= |env.s| && ValidRegs(r)
    ensures var f := Scan(env, items, i, loc1, r);
            && (f.v == No <==> forall j: nat :: i <= j <= |env.s| ==> Quiet(env, items, j))
            && (f.v == No ==> f.loc1 == loc1 && f.regs.loc2 == r.loc2)
            && (f.v != No ==> exists j: nat :: StopsAt(env, items, i, loc1, r, f, j))
    decreases |env.s| - i
  {
    var f := Scan(env, items, i, loc1, r);
    var x := Run(env, items, i, r);
    RunIsGreedy(env, items, i, r);
    if x.v == No {
      assert Quiet(env, items, i);
      if i < |env.s| {
        ScanIsLeftmost(env, items, i + 1, loc1, x.regs);
        if f.v != No {
          var j: nat :| StopsAt(env, items, i + 1, loc1, x.regs, f, j);
          StopsLater(env, items, i, loc1, r, x.regs, f, j);
        }
      }
    } else {
      assert !Quiet(env, items, i);
      assert StopsAt(env, items, i, loc1, r, f, i);
    }
  }

  /** Where no path hangs, a start is found exactly when one matches, and it is the least. */
  lemma ScanFindsLeastMatch(env: Env, items: seq<Item>, i: nat, loc1: int, r: Regs)
    requires InFragment(items) && i <= |env.s| && ValidRegs(r)
    requires forall j: nat :: i <= j <= |env.s| ==> Safe(env, items, j)
    ensures var f := Scan(env, items, i, loc1, r);
            && f.v != Stuck
            && (f.v == Yes <==> exists j: nat :: i <= j <= |env.s| && Matches(env, items, j, NOTHING))
            && (f.v == Yes ==> i <= f.loc1 <= |env.s| && Matches(env, items, f.loc1, NOTHING)
                               && forall k: nat :: i <= k < f.loc1 ==> !Matches(env, items, k, NOTHING))
  {
    ScanIsLeftmost(env, items, i, loc1, r);
    forall j: nat | i <= j <= |env.s| ensures Quiet(env, items, j) <==> !Matches(env, items, j, NOTHING) {
      assert Safe(env, items, j);
    }
    var f := Scan(env, items, i, loc1, r);
    if f.v != No {
      var j: nat :| StopsAt(env, items, i, loc1, r, f, j);
      assert Safe(env, items, j);
    }
  }

  /**
   An anchored search, from whatever position, is about that position alone: it says no
   exactly when no path from there gets through, and else reports the greediest one.
   */
  lemma AnchoredIsGreedy(env: Env, items: seq<Item>, i: nat, loc1: int, r: Regs)
    requires InFragment(items) && i <= |env.s| && ValidRegs(r)
    ensures var f := Start(env, items, true, i, loc1, r);
            && f.loc1 == i
            && (f.v == No <==> Quiet(env, items, i))
            && (f.v == No ==> f.regs.loc2 == r.loc2)
            && (f.v != No ==>
                  exists ns :: && Greediest(env, items, i, NOTHING, ns)
                               && Reports(Result(f.v, f.regs), Replay(env, items, i, NOTHING, ns), r))
  {
    RunIsGreedy(env, items, i, r);
    RunDecidesMatching(env, items, i, r);
  }

  // ----- Matches end inside the subject -----

  /** Every match ends at or before the terminator; at it, if the pattern ends in `$`. */
  lemma {:induction false} MatchEndsInside(env: Env, items: seq<Item>, i: nat, caps: Caps, ns: seq<nat>)
    requires AllSupported(items) && i <= |env.s| && Replay(env, items, i, caps, ns).Match?
    ensures i <= Replay(env, items, i, caps, ns).end <= |env.s|
    ensures items != [] && items[|items| - 1].head.Dollar? ==> Replay(env, items, i, caps, ns).end == |env.s|
    decreases |items|
  {
    if items == [] {
    } else {
      var h, rest := items[0].head, items[1..];
      var sp := CapSpan(env, caps, h);
      LandsInside(env, items[0], i, sp, ns[0]);
      MatchEndsInside(env, rest, Land(i, ns[0], Stride(h, sp)), Note(h, i, caps), ns[1..]);
    }
  }

  // ----- Captures follow the pattern -----

  /** The position at which a replay reaches item `k`. */
  ghost function PositionAt(env: Env, items: seq<Item>, i: nat, caps: Caps, ns: seq<nat>, k: nat): nat
    requires k <= |items| && k <= |ns|
    decreases k
  {
    if k == 0 then i
    else
      var h := items[0].head;
      PositionAt(env, items[1..], Land(i, ns[0], Stride(h, CapSpan(env, caps, h))), Note(h, i, caps), ns[1..], k - 1)
  }

  lemma {:induction false} PositionsGrow(env: Env, items: seq<Item>, i: nat, caps: Caps, ns: seq<nat>, k: nat)
    requires k <= |items| && k <= |ns|
    ensures i <= PositionAt(env, items, i, caps, ns, k)
    ensures k < |items| && k < |ns| ==>
              PositionAt(env, items, i, caps, ns, k) <= PositionAt(env, items, i, caps, ns, k + 1)
    decreases k
  {
    var h := if items == [] then Dollar else items[0].head;
    if k == 0 {
    } else {
      PositionsGrow(env, items[1..], Land(i, ns[0], Stride(h, CapSpan(env, caps, h))), Note(h, i, caps), ns[1..],
                    k - 1);
    }
  }

  lemma {:induction false} PositionsOrdered(env: Env, items: seq<Item>, i: nat, caps: Caps, ns: seq<nat>, k: nat,
                                            l: nat)
    requires k <= l <= |items| && l <= |ns|
    ensures i <= PositionAt(env, items, i, caps, ns, k) <= PositionAt(env, items, i, caps, ns, l)
    decreases l - k
  {
    PositionsGrow(env, items, i, caps, ns, k);
    if k < l {
      PositionsOrdered(env, items, i, caps, ns, k + 1, l);
    }
  }

  /** What a finished replay recorded for the marker at index `k`. */
  ghost predicate RecordedAt(caps: Caps, h: Head, p: nat) {
    && (h.Open? ==> h.g in caps.start && caps.start[h.g] == p)
    && (h.Close? ==> h.g in caps.end && caps.end[h.g] == p)
  }

  /** Later items leave earlier captures alone. */
  lemma {:induction false} CapturesLast(env: Env, items: seq<Item>, i: nat, caps: Caps, ns: seq<nat>)
    requires WellScoped(items, caps.start.Keys, caps.end.Keys)
    requires Replay(env, items, i, caps, ns).Match?
    ensures var caps' := Replay(env, items, i, caps, ns).caps;
            && (forall g :: g in caps.start ==> g in caps'.start && caps'.start[g] == caps.start[g])
            && (forall g :: g in caps.end ==> g in caps'.end && caps'.end[g] == caps.end[g])
    decreases |items|
  {
    if items == [] {
    } else {
      var h := items[0].head;
      var caps1 := Note(h, i, caps);
      NoteKeepsScope(items, i, caps);
      CapturesLast(env, items[1..], Land(i, ns[0], Stride(h, CapSpan(env, caps, h))), caps1, ns[1..]);
      var caps' := Replay(env, items, i, caps, ns).caps;
      forall g | g in caps.start ensures g in caps'.start && caps'.start[g] == caps.start[g] {
        assert g in caps1.start;
      }
      forall g | g in caps.end ensures g in caps'.end && caps'.end[g] == caps.end[g] { assert g in caps1.end; }
    }
  }

  lemma {:induction false} MarkersRecordPositions(env: Env, items: seq<Item>, i: nat, caps: Caps, ns: seq<nat>, k: nat)
    requires WellScoped(items, caps.start.Keys, caps.end.Keys)
    requires Replay(env, items, i, caps, ns).Match? && k < |items|
    ensures |ns| == |items|
    ensures RecordedAt(Replay(env, items, i, caps, ns).caps, items[k].head, PositionAt(env, items, i, caps, ns, k))
    ensures Replay(env, items, i, caps, ns).end == PositionAt(env, items, i, caps, ns, |items|)
    decreases |items|
  {
    var h := items[0].head;
    var i', caps1 := Land(i, ns[0], Stride(h, CapSpan(env, caps, h))), Note(h, i, caps);
    NoteKeepsScope(items, i, caps);
    CapturesLast(env, items[1..], i', caps1, ns[1..]);
    if items[1..] != [] {
      MarkersRecordPositions(env, items[1..], i', caps1, ns[1..], if k > 0 then k - 1 else 0);
    }
  }

  /**
   In every match, the recorded ends of the groups stand in the order in which their
   markers stand in the pattern, between the start and the end of the match. So nested
   groups capture nested spans, and successive groups capture successive spans.
   */
  lemma CapturesFollowPattern(env: Env, items: seq<Item>, i: nat, ns: seq<nat>, k: nat, l: nat)
    requires InFragment(items) && Replay(env, items, i, NOTHING, ns).Match?
    requires k <= l < |items|
    ensures |ns| == |items|
    ensures var o := Replay(env, items, i, NOTHING, ns);
            var p, q := PositionAt(env, items, i, NOTHING, ns, k), PositionAt(env, items, i, NOTHING, ns, l);
            RecordedAt(o.caps, items[k].head, p) && RecordedAt(o.caps, items[l].head, q) && i <= p <= q <= o.end
  {
    assert NOTHING.start.Keys == {} && NOTHING.end.Keys == {};
    MarkersRecordPositions(env, items, i, NOTHING, ns, k);
    MarkersRecordPositions(env, items, i, NOTHING, ns, l);
    PositionsOrdered(env, items, i, NOTHING, ns, k, l);
    PositionsOrdered(env, items, i, NOTHING, ns, l, |items|);
  }

  /** What the matcher records for group `g`, whose markers stand at `o` and `c`. */
  lemma GroupSpan(env: Env, items: seq<Item>, i: nat, ns: seq<nat>, g: byte, o: nat, c: nat)
    requires InFragment(items) && Replay(env, items, i, NOTHING, ns).Match?
    requires o < c < |items| && items[o].head == Open(g) && items[c].head == Close(g)
    ensures var m := Replay(env, items, i, NOTHING, ns);
            && |ns| == |items| && g in m.caps.start && g in m.caps.end
            && m.caps.start[g] == PositionAt(env, items, i, NOTHING, ns, o)
            && m.caps.end[g] == PositionAt(env, items, i, NOTHING, ns, c)
            && i <= m.caps.start[g] <= m.caps.end[g] <= m.end
  {
    CapturesFollowPattern(env, items, i, ns, o, c);
  }

  /** Nested groups capture nested spans; of successive groups the first ends first. */
  lemma SpansNestAsGroups(env: Env, items: seq<Item>, i: nat, ns: seq<nat>, g: byte, o: nat, c: nat, h: byte, o': nat,
                          c': nat)
    requires InFragment(items) && Replay(env, items, i, NOTHING, ns).Match?
    requires o < c < |items| && items[o].head == Open(g) && items[c].head == Close(g)
    requires o' < c' < |items| && items[o'].head == Open(h) && items[c'].head == Close(h)
    requires o < o' && (c < o' || c' < c)
    ensures var caps := Replay(env, items, i, NOTHING, ns).caps;
            && g in caps.start && g in caps.end && h in caps.start && h in caps.end
            && if c < o' then caps.end[g] <= caps.start[h]
               else caps.start[g] <= caps.start[h] && caps.end[h] <= caps.end[g]
  {
    GroupSpan(env, items, i, ns, g, o, c);
    GroupSpan(env, items, i, ns, h, o', c');
    PositionsOrdered(env, items, i, NOTHING, ns, o, o');
    if c < o' {
      PositionsOrdered(env, items, i, NOTHING, ns, c, o');
    } else {
      PositionsOrdered(env, items, i, NOTHING, ns, c', c);
    }
  }

  /** With `locs` outside the subject, repetitions are limited by bounds and text alone. */
  lemma LocsOutside(env: Env, it: Item, i: nat, sp: Span, n: nat)
    requires IsSingle(it.head) && !(i <= env.locs <= |env.s|)
    ensures Admits(env, it, i, sp, n) <==> Fits(env.s, it, i, n)
  {
  }
}
