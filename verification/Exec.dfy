/**
 The matcher as it runs: one pair of capture arrays for the whole search, written on
 every path and never restored when a path is abandoned. `Exec` says exactly what a run
 leaves in those arrays; the refinement theorem says that this costs nothing.
 */
module Exec {
  import opened Bits
  import opened Pattern
  import opened Semantics
  import opened Search

  datatype Verdict = No | Yes | Stuck

  /** The globals `braslist`, `braelist` and `loc2`. */
  datatype Regs = Regs(bra: seq<int>, ket: seq<int>, loc2: int)

  predicate ValidRegs(r: Regs) {
    |r.bra| == NBRA && |r.ket| == NBRA
  }

  datatype Result = Result(v: Verdict, regs: Regs)

  /** The span the arrays hold for a reference, if they hold one inside the subject. */
  function RegSpan(env: Env, r: Regs, h: Head): Span
    requires ValidRegs(r)
  {
    if h.Ref? && h.g < NBRA && 0 <= r.bra[h.g] <= r.ket[h.g] <= |env.s| then Span(r.bra[h.g], r.ket[h.g])
    else NoSpan
  }

  function Store(h: Head, i: nat, r: Regs): (r': Regs)
    requires ValidRegs(r)
    ensures ValidRegs(r')
  {
    if h.Open? && h.g < NBRA then r.(bra := r.bra[h.g := i])
    else if h.Close? && h.g < NBRA then r.(ket := r.ket[h.g := i])
    else r
  }

  function Run(env: Env, items: seq<Item>, i: nat, r: Regs): (x: Result)
    requires ValidRegs(r)
    ensures ValidRegs(x.regs)
    decreases |items|, 0, 0
  {
    if items == [] then Result(Yes, r.(loc2 := i))
    else
      match ChoicesAt(env, items[0], i, RegSpan(env, r, items[0].head))
      case Forever => Result(Stuck, r)
      case Counts(stride, low, high) =>
        RunDown(env, items[1..], i, stride, low, high, Store(items[0].head, i, r))
  }

  function RunDown(env: Env, rest: seq<Item>, i: nat, stride: nat, low: nat, high: int, r: Regs): (x: Result)
    requires ValidRegs(r)
    ensures ValidRegs(x.regs)
    decreases |rest|, 1, high - low + 1
  {
    if high < low then Result(No, r)
    else
      var x := Run(env, rest, Land(i, high, stride), r);
      if x.v == No then RunDown(env, rest, i, stride, low, high - 1, x.regs) else x
  }

  /** The same result with `loc2` one further on, where the match consumed the terminator. */
  function Past(nul: bool, x: Result): Result {
    if nul && x.v == Yes then x.(regs := x.regs.(loc2 := x.regs.loc2 + 1)) else x
  }

  /** The arrays hold the path's value for every group begun or ended on the path. */
  ghost predicate Agrees(r: Regs, caps: Caps)
    requires ValidRegs(r)
  {
    && (forall g :: g in caps.start ==> g < NBRA && r.bra[g] == caps.start[g])
    && (forall g :: g in caps.end ==> g < NBRA && r.ket[g] == caps.end[g])
  }

  /** The path's captures lie before the current position, ends after starts. */
  ghost predicate InOrder(env: Env, caps: Caps, i: nat) {
    && i <= |env.s|
    && (forall g :: g in caps.start ==> caps.start[g] <= i)
    && (forall g :: g in caps.end ==> g in caps.start && caps.start[g] <= caps.end[g] <= i)
  }

  ghost predicate InScope(items: seq<Item>, caps: Caps) {
    AllSupported(items) && WellScoped(items, caps.start.Keys, caps.end.Keys)
  }

  const NOTHING := Caps(map[], map[])

  /** Before anything is captured, whatever the arrays hold will do. */
  lemma FreshStart(env: Env, items: seq<Item>, i: nat, r: Regs)
    requires InFragment(items) && i <= |env.s| && ValidRegs(r)
    ensures InScope(items, NOTHING) && InOrder(env, NOTHING, i) && Agrees(r, NOTHING)
  {
    assert NOTHING.start.Keys == {} && NOTHING.end.Keys == {};
  }

  /**
   Whenever a reference executes, the arrays hold the span recorded on the current path:
   never one from an abandoned path and never the arrays' initial contents.
   */
  lemma ReferencesReadThePath(env: Env, items: seq<Item>, i: nat, r: Regs, caps: Caps)
    requires items != [] && items[0].head.Ref?
    requires ValidRegs(r) && InScope(items, caps) && InOrder(env, caps, i) && Agrees(r, caps)
    ensures var g := items[0].head.g;
            && g in caps.start && g in caps.end
            && RegSpan(env, r, items[0].head) == CapSpan(env, caps, items[0].head) == Span(caps.start[g], caps.end[g])
  {
  }

  /** One step keeps everything the search relies on, at any position further on. */
  lemma StepKeepsScope(env: Env, items: seq<Item>, i: nat, i': nat, r: Regs, caps: Caps)
    requires items != [] && i <= i' <= |env.s|
    requires ValidRegs(r) && InScope(items, caps) && InOrder(env, caps, i) && Agrees(r, caps)
    ensures InScope(items[1..], Note(items[0].head, i, caps))
    ensures InOrder(env, Note(items[0].head, i, caps), i')
    ensures Agrees(Store(items[0].head, i, r), Note(items[0].head, i, caps))
  {
    NoteKeepsScope(items, i, caps);
  }

  /** What stays true of the earlier captures when a step's own entry is forgotten. */
  lemma AgreesWithout(h: Head, i: nat, r: Regs, caps: Caps, begun: set<byte>, ended: set<byte>)
    requires ValidRegs(r) && begun == caps.start.Keys && ended == caps.end.Keys
    requires h.Open? ==> h.g !in begun
    requires h.Close? ==> h.g !in ended
    requires Agrees(r, Note(h, i, caps))
    ensures Agrees(r, caps)
  {
    var caps' := Note(h, i, caps);
    forall g | g in caps.start ensures g < NBRA && r.bra[g] == caps.start[g] { assert g in caps'.start; }
    forall g | g in caps.end ensures g < NBRA && r.ket[g] == caps.end[g] { assert g in caps'.end; }
  }

  /** How a run over the shared arrays corresponds to a search with path captures. */
  ghost predicate Corresponds(x: Result, o: Outcome, r: Regs, caps: Caps) {
    && ValidRegs(x.regs)
    && Agrees(x.regs, caps)
    && (o.Fail? <==> x.v == No)
    && (o.Hang? <==> x.v == Stuck)
    && (x.v != Yes ==> x.regs.loc2 == r.loc2)
    && (o.Match? ==> x.regs.loc2 == o.end && Agrees(x.regs, o.caps))
  }

  /**
   Captures need no restoring. The run over shared arrays answers as the search that
   gives every path its own captures, and on success leaves that path's captures.
   */
  lemma {:induction false} RunRefinesFind(env: Env, items: seq<Item>, i: nat, r: Regs, caps: Caps)
    requires ValidRegs(r) && InScope(items, caps) && InOrder(env, caps, i) && Agrees(r, caps)
    ensures Corresponds(Run(env, items, i, r), Find(env, items, i, caps), r, caps)
    decreases |items|, 0, 0
  {
    if items == [] {
    } else {
      var it, rest := items[0], items[1..];
      var sp := CapSpan(env, caps, it.head);
      if it.head.Ref? { ReferencesReadThePath(env, items, i, r, caps); }
      var c := ChoicesAt(env, it, i, sp);
      if c.Counts? {
        StepKeepsScope(env, items, i, i, r, caps);
        forall n: nat | c.low <= n <= c.high
          ensures Land(i, n, c.stride) <= |env.s|
        {
          ChoicesExact(env, it, i, sp, n);
          LandsInside(env, it, i, sp, n);
        }
        var r', caps' := Store(it.head, i, r), Note(it.head, i, caps);
        RunDownRefinesDescend(env, rest, i, c.stride, c.low, c.high, r', caps');
        AgreesWithout(it.head, i, Run(env, items, i, r).regs, caps, caps.start.Keys, caps.end.Keys);
      }
    }
  }

  lemma {:induction false} RunDownRefinesDescend(env: Env, rest: seq<Item>, i: nat, stride: nat, low: nat, high: int,
                                                 r: Regs, caps: Caps)
    requires ValidRegs(r) && InScope(rest, caps) && InOrder(env, caps, i) && Agrees(r, caps)
    requires forall n: nat :: low <= n <= high ==> Land(i, n, stride) <= |env.s|
    ensures Corresponds(RunDown(env, rest, i, stride, low, high, r), Descend(env, rest, i, stride, low, high, caps),
                        r, caps)
    decreases |rest|, 1, high - low + 1
  {
    if low <= high {
      var at := Land(i, high, stride);
      RunRefinesFind(env, rest, at, r, caps);
      var x := Run(env, rest, at, r);
      if x.v == No {
        RunDownRefinesDescend(env, rest, i, stride, low, high - 1, x.regs, caps);
      }
    }
  }

  // ----- The search for a start -----

  datatype Found = Found(v: Verdict, loc1: int, regs: Regs)

  /** Try every start from `i` to the terminator, with no shortcut. */
  function Scan(env: Env, items: seq<Item>, i: nat, loc1: int, r: Regs): Found
    requires ValidRegs(r) && i <= |env.s|
    decreases |env.s| - i
  {
    var x := Run(env, items, i, r);
    if x.v == Yes then Found(Yes, i, x.regs)
    else if x.v == Stuck || i == |env.s| then Found(x.v, loc1, x.regs)
    else Scan(env, items, i + 1, loc1, x.regs)
  }

  /** An anchored pattern is tried at the first position only. */
  function Start(env: Env, items: seq<Item>, anchored: bool, i: nat, loc1: int, r: Regs): Found
    requires ValidRegs(r) && i <= |env.s|
  {
    if anchored then
      var x := Run(env, items, i, r);
      Found(x.v, i, x.regs)
    else
      Scan(env, items, i, loc1, r)
  }
}
