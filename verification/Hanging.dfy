/**
 When the matcher returns. `HangFree` is not only sufficient: for every pattern that fails
 it, a subject is constructed on which the search runs into the endless loop.
 */
module Hanging {
  import opened Bits
  import opened Pattern
  import opened Semantics
  import opened Search
  import opened Exec
  import opened Groups
  import opened Matching

  /** The least text an item consumes at the end of `t`, on the path that always takes least. */
  ghost function Piece(it: Item, t: cstring, sp: Span): (p: cstring) {
    if IsSingle(it.head) then
      if exists c: byte :: Accepts(it.head, c) then
        var c: byte :| Accepts(it.head, c);
        seq(MinCount(it), _ => c)
      else
        []
    else if it.head.Ref? && !it.star && sp.Span? && sp.from <= sp.to <= |t| then
      t[sp.from..sp.to]
    else
      []
  }

  /** Extend `t` by the least text of each item, up to the first endless reference. */
  ghost function Least(items: seq<Item>, t: cstring, caps: Caps): cstring
    decreases |items|
  {
    if items == [] then t
    else
      var it := items[0];
      var sp := CapSpan(Env(t, -1), caps, it.head);
      if Endless(it, sp) then t
      else Least(items[1..], t + Piece(it, t, sp), Note(it.head, |t|, caps))
  }

  lemma {:induction false} LeastExtends(items: seq<Item>, t: cstring, caps: Caps)
    ensures t <= Least(items, t, caps)
    decreases |items|
  {
    if items == [] {
    } else {
      var it := items[0];
      var sp := CapSpan(Env(t, -1), caps, it.head);
      if !Endless(it, sp) {
        LeastExtends(items[1..], t + Piece(it, t, sp), Note(it.head, |t|, caps));
      }
    }
  }

  lemma LeastUnfolds(items: seq<Item>, t: cstring, caps: Caps)
    requires items != []
    ensures var it, sp := items[0], CapSpan(Env(t, -1), caps, items[0].head);
            Least(items, t, caps) ==
            if Endless(it, sp) then t else Least(items[1..], t + Piece(it, t, sp), Note(it.head, |t|, caps))
  {
  }

  /** On the least path, a group not sure to have grown has not grown. */
  ghost predicate Tight(caps: Caps, i: nat, open: set<byte>, grown: set<byte>) {
    && open == caps.start.Keys - caps.end.Keys
    && caps.end.Keys <= caps.start.Keys
    && (forall g :: g in caps.start ==> caps.start[g] <= i)
    && (forall g :: g in caps.end ==> caps.start[g] <= caps.end[g] <= i)
    && (forall g :: g in caps.start && g !in grown ==> caps.start[g] == if g in caps.end then caps.end[g] else i)
  }

  lemma TightStep(items: seq<Item>, t: cstring, caps: Caps, open: set<byte>, grown: set<byte>)
    requires items != [] && !Dead(items[0]) && AllSupported(items)
    requires WellScoped(items, caps.start.Keys, caps.end.Keys) && Tight(caps, |t|, open, grown)
    requires !Endless(items[0], CapSpan(Env(t, -1), caps, items[0].head))
    ensures var it := items[0];
            var t' := t + Piece(it, t, CapSpan(Env(t, -1), caps, it.head));
            Tight(Note(it.head, |t|, caps), |t'|, NextOpen(it.head, open),
                  if Consumes(it, grown) then grown + open else grown)
  {
    var it := items[0];
    var sp := CapSpan(Env(t, -1), caps, it.head);
    var t', caps' := t + Piece(it, t, sp), Note(it.head, |t|, caps);
    assert !Consumes(it, grown) ==> Piece(it, t, sp) == [];
    match it.head
    case Open(g) => assert caps'.start.Keys == caps.start.Keys + {g};
    case Close(g) => assert caps'.end.Keys == caps.end.Keys + {g};
    case _ =>
  }

  /** The pattern fails `HangFree` from here on, and the least path has come to here. */
  ghost predicate Doomed(items: seq<Item>, t: cstring, caps: Caps, open: set<byte>, grown: set<byte>) {
    && AllSupported(items) && DollarLast(items)
    && WellScoped(items, caps.start.Keys, caps.end.Keys) && Tight(caps, |t|, open, grown)
    && !HangFree(items, open, grown)
  }

  lemma LoneDollar(items: seq<Item>, open: set<byte>, grown: set<byte>)
    ensures |items| == 1 && items[0].head.Dollar? ==> HangFree(items, open, grown)
  {
    if |items| == 1 { assert items[1..] == []; }
  }

  lemma DoomedStep(items: seq<Item>, t: cstring, caps: Caps, open: set<byte>, grown: set<byte>)
    requires Doomed(items, t, caps, open, grown)
    requires items != [] ==> !Endless(items[0], CapSpan(Env(t, -1), caps, items[0].head))
    ensures items != [] && !items[0].head.Dollar? && !Dead(items[0])
    ensures items[0].head.Ref? ==> CapSpan(Env(t, -1), caps, items[0].head).Span?
    ensures var it := items[0];
            var t' := t + Piece(it, t, CapSpan(Env(t, -1), caps, it.head));
            Doomed(items[1..], t', Note(it.head, |t|, caps), NextOpen(it.head, open),
                   if Consumes(it, grown) then grown + open else grown)
  {
    LoneDollar(items, open, grown);
    TightStep(items, t, caps, open, grown);
    NoteKeepsScope(items, |t|, caps);
  }

  /** The count the least path takes, and that the constructed subject admits it. */
  function LeastCount(it: Item): nat {
    if IsSingle(it.head) then MinCount(it) else if it.head.Ref? && !it.star then 1 else 0
  }

  lemma LeastAdmitted(it: Item, t: cstring, w: cstring, caps: Caps)
    requires Supported(it) && !it.head.Dollar? && !Dead(it)
    requires it.head.Ref? ==> CapSpan(Env(t, -1), caps, it.head).Span?
    requires t + Piece(it, t, CapSpan(Env(t, -1), caps, it.head)) <= w
    ensures var sp := CapSpan(Env(t, -1), caps, it.head);
            && CapSpan(Env(w, -1), caps, it.head) == sp
            && Admits(Env(w, -1), it, |t|, sp, LeastCount(it))
            && Land(|t|, LeastCount(it), Stride(it.head, sp)) == |t + Piece(it, t, sp)|
  {
    var sp := CapSpan(Env(t, -1), caps, it.head);
    var p := Piece(it, t, sp);
    assert w[|t|..|t| + |p|] == p;
    if IsSingle(it.head) {
      if it.ranges != [] { assert SoundInterval(it.ranges[0]); }
      forall d | |t| <= d < |t| + MinCount(it) ensures Accepts(it.head, w[d]) {
        assert w[d] == p[d - |t|];
      }
      assert Fits(w, it, |t|, MinCount(it));
    } else if it.head.Ref? && !it.star {
      assert w[sp.from..sp.to] == t[sp.from..sp.to];
      assert Copies(w, sp, |t|, 1);
    }
  }

  lemma {:induction false} LeastPathHangs(items: seq<Item>, t: cstring, caps: Caps, open: set<byte>, grown: set<byte>)
    requires Doomed(items, t, caps, open, grown)
    ensures exists ns :: Replay(Env(Least(items, t, caps), -1), items, |t|, caps, ns) == Hang
    decreases |items|
  {
    var w := Least(items, t, caps);
    var it, rest := items[0], items[1..];
    var sp := CapSpan(Env(t, -1), caps, it.head);
    LeastExtends(items, t, caps);
    if Endless(it, sp) {
      assert Replay(Env(w, -1), items, |t|, caps, []) == Hang;
    } else {
      var t', caps' := t + Piece(it, t, sp), Note(it.head, |t|, caps);
      DoomedStep(items, t, caps, open, grown);
      LeastPathHangs(rest, t', caps', NextOpen(it.head, open), if Consumes(it, grown) then grown + open else grown);
      LeastExtends(rest, t', caps');
      LeastAdmitted(it, t, w, caps);
      var tail :| Replay(Env(w, -1), rest, |t'|, caps', tail) == Hang;
      var ns := [LeastCount(it)] + tail;
      assert ns[0] == LeastCount(it) && ns[1..] == tail;
      assert Replay(Env(w, -1), items, |t|, caps, ns) == Hang;
    }
  }

  /**
   Any other path, at position `p` with captures `other`, is ahead of the least path, at
   `i` with captures `caps`, by some excess; and each group is longer by at most that.
   */
  ghost predicate Ahead(caps: Caps, i: nat, other: Caps, p: nat) {
    && i <= p
    && other.start.Keys == caps.start.Keys && other.end.Keys == caps.end.Keys
    && (forall g :: g in caps.start && g !in caps.end ==> 0 <= (p - other.start[g]) - (i - caps.start[g]) <= p - i)
    && (forall g :: g in caps.end && g in caps.start ==>
        0 <= (other.end[g] - other.start[g]) - (caps.end[g] - caps.start[g]) <= p - i)
  }

  lemma AheadNote(h: Head, caps: Caps, i: nat, i': nat, other: Caps, p: nat, p': nat)
    requires Ahead(caps, i, other, p) && 0 <= i' - i <= p' - p
    requires h.Open? ==> h.g !in caps.start && h.g !in caps.end
    requires h.Close? ==> h.g in caps.start && h.g !in caps.end
    ensures Ahead(Note(h, i, caps), i', Note(h, p, other), p')
  {
    var caps', other' := Note(h, i, caps), Note(h, p, other);
    assert other'.start.Keys == caps'.start.Keys && other'.end.Keys == caps'.end.Keys;
  }

  /** No admitted count consumes less than the least text. */
  lemma ConsumesAtLeast(it: Item, t: cstring, w: cstring, caps: Caps, other: Caps, p: nat, n: nat)
    requires Supported(it) && !Dead(it)
    requires it.head.Ref? ==> it.head.g in caps.start && it.head.g in caps.end
    requires Ahead(caps, |t|, other, p)
    requires Admits(Env(w, -1), it, p, CapSpan(Env(w, -1), other, it.head), n)
    ensures p + |Piece(it, t, CapSpan(Env(t, -1), caps, it.head))| <=
            Land(p, n, Stride(it.head, CapSpan(Env(w, -1), other, it.head)))
  {
  }

  lemma StaysAhead(items: seq<Item>, t: cstring, w: cstring, caps: Caps, open: set<byte>, grown: set<byte>,
                   other: Caps, p: nat, n: nat)
    requires items != [] && Doomed(items, t, caps, open, grown)
    requires Ahead(caps, |t|, other, p) && p <= |w|
    requires Admits(Env(w, -1), items[0], p, CapSpan(Env(w, -1), other, items[0].head), n)
    ensures var it := items[0];
            var t' := t + Piece(it, t, CapSpan(Env(t, -1), caps, it.head));
            var p' := Land(p, n, Stride(it.head, CapSpan(Env(w, -1), other, it.head)));
            p' <= |w| && Ahead(Note(it.head, |t|, caps), |t'|, Note(it.head, p, other), p')
  {
    var it := items[0];
    var sp, sp' := CapSpan(Env(t, -1), caps, it.head), CapSpan(Env(w, -1), other, it.head);
    ConsumesAtLeast(it, t, w, caps, other, p, n);
    LandsInside(Env(w, -1), it, p, sp', n);
    AheadNote(it.head, caps, |t|, |t + Piece(it, t, sp)|, other, p, Land(p, n, Stride(it.head, sp')));
  }

  /** Where the least path ends, no path can be ahead: all of them hang. */
  lemma EndlessToo(items: seq<Item>, t: cstring, caps: Caps, other: Caps, p: nat, ns: seq<nat>)
    requires items != [] && Endless(items[0], CapSpan(Env(t, -1), caps, items[0].head))
    requires Ahead(caps, |t|, other, p) && p <= |t|
    ensures !Replay(Env(t, -1), items, p, other, ns).Match?
  {
    MatchUnfolds(Env(t, -1), items, p, other, ns);
  }

  lemma {:induction false} NoPathMatches(items: seq<Item>, t: cstring, caps: Caps, open: set<byte>, grown: set<byte>,
                                         other: Caps, p: nat, ns: seq<nat>)
    requires Doomed(items, t, caps, open, grown)
    requires Ahead(caps, |t|, other, p) && p <= |Least(items, t, caps)|
    ensures !Replay(Env(Least(items, t, caps), -1), items, p, other, ns).Match?
    decreases |items|
  {
    var w := Least(items, t, caps);
    var it := items[0];
    var sp, sp' := CapSpan(Env(t, -1), caps, it.head), CapSpan(Env(w, -1), other, it.head);
    LeastUnfolds(items, t, caps);
    if Endless(it, sp) {
      EndlessToo(items, t, caps, other, p, ns);
    } else {
      MatchUnfolds(Env(w, -1), items, p, other, ns);
      if ns != [] && Admits(Env(w, -1), it, p, sp', ns[0]) {
        DoomedStep(items, t, caps, open, grown);
        StaysAhead(items, t, w, caps, open, grown, other, p, ns[0]);
        NoPathMatches(items[1..], t + Piece(it, t, sp), Note(it.head, |t|, caps),
                      NextOpen(it.head, open), if Consumes(it, grown) then grown + open else grown,
                      Note(it.head, p, other), Land(p, ns[0], Stride(it.head, sp')), ns[1..]);
      }
    }
  }

  /**
   The exact condition for termination. A pattern of the fragment returns on every subject
   if and only if every starred reference, up to an atom that accepts no byte but must match,
   names a group that is sure to be non-empty.
   */
  lemma ReturnsIffHangFree(items: seq<Item>)
    requires InFragment(items) && DollarLast(items)
    ensures HangFree(items, {}, {}) <==>
            forall s: cstring, i: nat, r: Regs :: i <= |s| && ValidRegs(r) ==> Run(Env(s, -1), items, i, r).v != Stuck
  {
    if HangFree(items, {}, {}) {
      forall s: cstring, i: nat, r: Regs | i <= |s| && ValidRegs(r) ensures Run(Env(s, -1), items, i, r).v != Stuck {
        NeverHangs(Env(s, -1), items, i);
        RunDecidesMatching(Env(s, -1), items, i, r);
      }
    } else {
      var s, r := RunSticks(items);
    }
  }

  /** `step` returns on every subject, from every position and whatever the globals hold. */
  ghost predicate SearchReturns(items: seq<Item>, anchored: bool) {
    forall s: cstring, i: nat, loc1: int, r: Regs {:trigger Start(Env(s, -1), items, anchored, i, loc1, r)} ::
      i <= |s| && ValidRegs(r) ==> Start(Env(s, -1), items, anchored, i, loc1, r).v != Stuck
  }

  /** The same condition decides it for the search, anchored or not. */
  lemma SearchReturnsIff(items: seq<Item>, anchored: bool)
    requires InFragment(items) && DollarLast(items)
    ensures HangFree(items, {}, {}) <==> SearchReturns(items, anchored)
  {
    if HangFree(items, {}, {}) {
      AlwaysReturns(items, anchored);
    } else {
      SometimesSticks(items, anchored);
    }
  }

  lemma AlwaysReturns(items: seq<Item>, anchored: bool)
    requires InFragment(items) && HangFree(items, {}, {})
    ensures SearchReturns(items, anchored)
  {
    forall s: cstring, i: nat, loc1: int, r: Regs | i <= |s| && ValidRegs(r)
      ensures Start(Env(s, -1), items, anchored, i, loc1, r).v != Stuck
    {
      NeverSticks(s, items, anchored, i, loc1, r);
    }
  }

  lemma SometimesSticks(items: seq<Item>, anchored: bool)
    requires InFragment(items) && DollarLast(items) && !HangFree(items, {}, {})
    ensures !SearchReturns(items, anchored)
  {
    var s, r := RunSticks(items);
    SticksAtOnce(s, items, anchored, r);
  }

  lemma RunSticks(items: seq<Item>) returns (s: cstring, r: Regs)
    requires InFragment(items) && DollarLast(items) && !HangFree(items, {}, {})
    ensures ValidRegs(r) && Run(Env(s, -1), items, 0, r).v == Stuck
  {
    var zeros := seq(NBRA, _ => 0);
    s, r := Least(items, [], NOTHING), Regs(zeros, zeros, 0);
    SticksOnLeast(items, r);
  }

  lemma SticksAtOnce(s: cstring, items: seq<Item>, anchored: bool, r: Regs)
    requires ValidRegs(r) && Run(Env(s, -1), items, 0, r).v == Stuck
    ensures Start(Env(s, -1), items, anchored, 0, 0, r).v == Stuck && !SearchReturns(items, anchored)
  {
  }

  lemma NeverSticks(s: cstring, items: seq<Item>, anchored: bool, i: nat, loc1: int, r: Regs)
    requires InFragment(items) && HangFree(items, {}, {}) && i <= |s| && ValidRegs(r)
    ensures Start(Env(s, -1), items, anchored, i, loc1, r).v != Stuck
  {
    forall j: nat | j <= |s| ensures Safe(Env(s, -1), items, j) {
      NeverHangs(Env(s, -1), items, j);
    }
    if anchored {
      RunDecidesMatching(Env(s, -1), items, i, r);
    } else {
      ScanFindsLeastMatch(Env(s, -1), items, i, loc1, r);
    }
  }

  lemma SticksOnLeast(items: seq<Item>, r: Regs)
    requires InFragment(items) && DollarLast(items) && !HangFree(items, {}, {}) && ValidRegs(r)
    ensures Run(Env(Least(items, [], NOTHING), -1), items, 0, r).v == Stuck
  {
    var s := Least(items, [], NOTHING);
    assert NOTHING.start.Keys == {} && NOTHING.end.Keys == {};
    LeastPathHangs(items, [], NOTHING, {}, {});
    forall ns ensures !Replay(Env(s, -1), items, 0, NOTHING, ns).Match? {
      NoPathMatches(items, [], NOTHING, {}, {}, NOTHING, 0, ns);
    }
    RunIsGreedy(Env(s, -1), items, 0, r);
  }

  lemma HangsOn(items: seq<Item>) returns (s: cstring)
    requires InFragment(items) && DollarLast(items) && !HangFree(items, {}, {})
    ensures forall r: Regs :: ValidRegs(r) ==> Run(Env(s, -1), items, 0, r).v == Stuck
  {
    s := Least(items, [], NOTHING);
    forall r: Regs | ValidRegs(r) ensures Run(Env(s, -1), items, 0, r).v == Stuck {
      SticksOnLeast(items, r);
    }
  }
}
