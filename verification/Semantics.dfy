/**
 What it means for a pattern to match at a position, said without a search. A match is
 a vector of repetition counts, one per item, that can be replayed over the subject. The
 greedy match is the replay of the lexicographically greatest vector.
 */
module Semantics {
  import opened Bits
  import opened Pattern

  /** The bytes of a subject before its terminating NUL. */
  type cstring = s: seq<byte> | 0 !in s

  /** The subject and `locs`, the position at which a repetition may not stop. */
  datatype Env = Env(s: cstring, locs: int)

  /** Reading a subject byte; index `|s|` is the terminator and nothing lies beyond it. */
  function At(s: cstring, i: nat): byte
    requires i <= |s|
  {
    if i < |s| then s[i] else 0
  }

  /** Where each group opened and closed on the path taken so far. */
  datatype Caps = Caps(start: map<byte, nat>, end: map<byte, nat>)

  datatype Span = NoSpan | Span(from: nat, to: nat)

  function CapSpan(env: Env, caps: Caps, h: Head): Span {
    if h.Ref? && h.g in caps.start && h.g in caps.end && caps.start[h.g] <= caps.end[h.g] <= |env.s| then
      Span(caps.start[h.g], caps.end[h.g])
    else
      NoSpan
  }

  /** The captures after passing head `h` at position `i`. */
  function Note(h: Head, i: nat, caps: Caps): Caps {
    match h
    case Open(g) => caps.(start := caps.start[g := i])
    case Close(g) => caps.(end := caps.end[g := i])
    case _ => caps
  }

  lemma NoteKeepsScope(items: seq<Item>, i: nat, caps: Caps)
    requires items != [] && WellScoped(items, caps.start.Keys, caps.end.Keys)
    ensures var caps' := Note(items[0].head, i, caps); WellScoped(items[1..], caps'.start.Keys, caps'.end.Keys)
  {
    var caps' := Note(items[0].head, i, caps);
    match items[0].head
    case Open(g) => assert caps'.start.Keys == caps.start.Keys + {g};
    case Close(g) => assert caps'.end.Keys == caps.end.Keys + {g};
    case _ =>
  }

  // ----- Counts -----

  function MinCount(it: Item): nat {
    if it.ranges != [] then it.ranges[0].lo else if it.star then 0 else 1
  }

  /** How many repetitions beyond its lower bound an interval allows. */
  function Slack(r: Interval): int {
    if r.hi == UNBOUNDED then OPEN_SLACK else r.hi - r.lo
  }

  predicate WithinMax(it: Item, n: nat) {
    if it.ranges != [] then n <= it.ranges[0].lo + Slack(it.ranges[0])
    else it.star || n <= 1
  }

  predicate AllAccepted(s: cstring, h: Head, i: nat, n: nat) {
    i + n <= |s| && forall d :: i <= d < i + n ==> Accepts(h, s[d])
  }

  /** `n` repetitions of a character atom are allowed by its bounds and by the text. */
  predicate Fits(s: cstring, it: Item, i: nat, n: nat) {
    MinCount(it) <= n && WithinMax(it, n) && AllAccepted(s, it.head, i, n)
  }

  predicate Copy(s: cstring, sp: Span, i: nat)
    requires sp.Span? && sp.from <= sp.to <= |s|
  {
    i + (sp.to - sp.from) <= |s| && s[i..i + (sp.to - sp.from)] == s[sp.from..sp.to]
  }

  /** `n` copies of the captured text lie at `i`. */
  predicate Copies(s: cstring, sp: Span, i: nat, n: nat)
    requires sp.Span? && sp.from <= sp.to <= |s|
    decreases n
  {
    n == 0 || (Copy(s, sp, i) && Copies(s, sp, i + (sp.to - sp.from), n - 1))
  }

  /**
   May item `it` take count `n` at position `i`? Counts of zero-width items are 0. A
   repetition must not stop at `locs`, nor below a count that would stop there.
   */
  ghost predicate Admits(env: Env, it: Item, i: nat, sp: Span, n: nat) {
    match it.head
    case Dollar => n == 0 && i == |env.s|
    case Open(_) => n == 0
    case Close(_) => n == 0
    case Ref(_) => sp.Span? && sp.from <= sp.to <= |env.s| && Copies(env.s, sp, i, n) && (it.star || n == 1)
    case _ =>
      && Fits(env.s, it, i, n)
      && (Repeated(it) ==> !exists m: nat :: n <= m && Fits(env.s, it, i, m) && i + m == env.locs)
  }

  /** The position `n` strides on from `i`. */
  function Land(i: nat, n: nat, stride: nat): (p: nat)
    ensures p >= i && (stride == 1 ==> p == i + n) && (n >= 1 && stride >= 1 ==> p > i) && (n == 1 ==> p == i + stride)
    decreases n
  {
    if n == 0 then i else Land(i, n - 1, stride) + stride
  }

  lemma {:induction false} LandShift(i: nat, n: nat, stride: nat)
    ensures Land(i + stride, n, stride) == Land(i, n + 1, stride)
    decreases n
  {
    if n == 0 {
    } else {
      LandShift(i, n - 1, stride);
    }
  }

  /** How far one repetition moves. */
  function Stride(h: Head, sp: Span): nat {
    if h.Ref? && sp.Span? && sp.from <= sp.to then sp.to - sp.from else 1
  }

  /** A starred reference to an empty capture: repeating it never makes progress. */
  predicate Endless(it: Item, sp: Span) {
    it.head.Ref? && it.star && sp.Span? && sp.from == sp.to
  }

  // ----- Replays -----

  /** Fail: no match. Hang: the path runs into an endless repetition. */
  datatype Outcome = Fail | Hang | Match(end: nat, caps: Caps)

  /** Follow the counts `ns`. A path that hangs has counts for the items before the hang. */
  ghost function Replay(env: Env, items: seq<Item>, i: nat, caps: Caps, ns: seq<nat>): Outcome
    decreases |items|
  {
    if items == [] then
      if ns == [] then Match(i, caps) else Fail
    else
      var sp := CapSpan(env, caps, items[0].head);
      if Endless(items[0], sp) then
        if ns == [] then Hang else Fail
      else if ns == [] || !Admits(env, items[0], i, sp, ns[0]) then
        Fail
      else
        Replay(env, items[1..], Land(i, ns[0], Stride(items[0].head, sp)), Note(items[0].head, i, caps), ns[1..])
  }

  lemma MatchUnfolds(env: Env, items: seq<Item>, i: nat, caps: Caps, ns: seq<nat>)
    requires items != []
    ensures var h, sp := items[0].head, CapSpan(env, caps, items[0].head);
            Replay(env, items, i, caps, ns).Match? <==>
            && !Endless(items[0], sp) && ns != [] && Admits(env, items[0], i, sp, ns[0])
            && Replay(env, items[1..], Land(i, ns[0], Stride(h, sp)), Note(h, i, caps), ns[1..]).Match?
  {
  }

  /** Lexicographic order on count vectors. */
  predicate Lex(a: seq<nat>, b: seq<nat>) {
    if a == [] || b == [] then a == [] && b != []
    else a[0] < b[0] || (a[0] == b[0] && Lex(a[1..], b[1..]))
  }

  /** `ns` can be replayed, and every other vector that can be is smaller. */
  ghost predicate Greediest(env: Env, items: seq<Item>, i: nat, caps: Caps, ns: seq<nat>) {
    && Replay(env, items, i, caps, ns) != Fail
    && forall ms :: Replay(env, items, i, caps, ms) != Fail ==> ms == ns || Lex(ms, ns)
  }

  /** Some match starts at `i`. */
  ghost predicate Matches(env: Env, items: seq<Item>, i: nat, caps: Caps) {
    exists ns :: Replay(env, items, i, caps, ns).Match?
  }
}
