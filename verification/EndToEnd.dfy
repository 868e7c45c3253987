/**
 The documented use of the engine: compile a pattern, then search a subject. The answer
 is stated about the pattern's text and the declarative match relation alone.
 */
module EndToEnd {
  import opened Bits
  import opened Pattern
  import opened Code
  import opened Semantics
  import opened Exec
  import opened Syntax
  import opened Groups
  import opened Spelling
  import opened Writing
  import opened Denotable
  import opened Matching
  import opened Language
  import opened Compiler
  import opened Regexp

  /** What a caller gets: `bra` and `ket` are the capture arrays. */
  datatype Answer =
    | BadPattern(code: int)
    | NoPattern
    | NoMatch
    | NeverReturns
    | Leftmost(start: nat, end: nat, bra: seq<int>, ket: seq<int>)

  /** The starts that count: an anchored pattern may only match at the beginning. */
  predicate Candidate(s: cstring, anchored: bool, j: nat) {
    j <= |s| && (anchored ==> j == 0)
  }

  /** `start` is the first candidate from which any path gets through. */
  ghost predicate FirstStart(s: cstring, items: seq<Item>, anchored: bool, start: nat) {
    && Candidate(s, anchored, start) && !Quiet(Env(s, -1), items, start)
    && forall j: nat :: j < start ==> Quiet(Env(s, -1), items, j)
  }

  /** Some greediest path from `start` has outcome `o`. */
  ghost predicate GreedyOutcome(s: cstring, items: seq<Item>, start: nat, o: Outcome) {
    exists ns :: Greediest(Env(s, -1), items, start, NOTHING, ns) && Replay(Env(s, -1), items, start, NOTHING, ns) == o
  }

  /** The arrays hold the captures. */
  ghost predicate Captured(bra: seq<int>, ket: seq<int>, caps: Caps) {
    && |bra| == NBRA && |ket| == NBRA
    && (forall g :: g in caps.start ==> g < NBRA && bra[g] == caps.start[g])
    && (forall g :: g in caps.end ==> g < NBRA && ket[g] == caps.end[g])
  }

  /**
   The answer is what the greediest path from the first start that lets any path through
   comes to: its end and its captures, or that it never returns. Without such a start there
   is no match.
   */
  ghost predicate Correct(s: cstring, items: seq<Item>, anchored: bool, a: Answer) {
    match a
    case BadPattern(_) => false
    case NoPattern => false
    case NoMatch => forall j: nat :: Candidate(s, anchored, j) ==> Quiet(Env(s, -1), items, j)
    case NeverReturns =>
      exists start: nat :: FirstStart(s, items, anchored, start) && GreedyOutcome(s, items, start, Hang)
    case Leftmost(start, end, bra, ket) =>
      && FirstStart(s, items, anchored, start)
      && exists caps :: GreedyOutcome(s, items, start, Match(end, caps)) && Captured(bra, ket, caps)
  }

  function AnswerOf(f: Found): Answer {
    if f.v == Stuck then NeverReturns
    else if f.v == Yes && f.loc1 >= 0 && f.regs.loc2 >= 0 then Leftmost(f.loc1, f.regs.loc2, f.regs.bra, f.regs.ket)
    else NoMatch
  }

  // ----- A NUL literal at the end -----

  predicate EndsInNul(items: seq<Item>) {
    items != [] && items[|items| - 1] == NUL_LITERAL
  }

  /** The same list, with a NUL literal at the end read as the end of the subject. */
  function Meant(items: seq<Item>): seq<Item> {
    if EndsInNul(items) then items[..|items| - 1] + [AT_END] else items
  }

  lemma {:induction false} ScopedWithEnd(items: seq<Item>, begun: set<byte>, ended: set<byte>)
    ensures WellScoped(items + [AT_END], begun, ended) == WellScoped(items, begun, ended)
    decreases |items|
  {
    var all := items + [AT_END];
    if items == [] {
      assert all[1..] == [];
    } else {
      assert all[1..] == items[1..] + [AT_END];
      match items[0].head
      case Open(g) => ScopedWithEnd(items[1..], begun + {g}, ended);
      case Close(g) => ScopedWithEnd(items[1..], begun, ended + {g});
      case _ => ScopedWithEnd(items[1..], begun, ended);
    }
  }

  /** A NUL literal may be added at the end of any pattern of the fragment. */
  lemma MeantInFragment(items: seq<Item>)
    ensures InFragment(Meant(items + [NUL_LITERAL])) <==> InFragment(items)
  {
    var all := items + [NUL_LITERAL];
    assert all[..|all| - 1] == items;
    ScopedWithEnd(items, {}, {});
    assert Supported(AT_END);
    if AllSupported(items + [AT_END]) {
      forall k | 0 <= k < |items| ensures Supported(items[k]) {
        assert (items + [AT_END])[k] == items[k];
      }
    }
  }

  function PastEnd(nul: bool, a: Answer): Answer {
    if nul && a.Leftmost? then a.(end := a.end + 1) else a
  }

  /**
   The answer for a list that may end in a NUL literal: correct for the list meant, except
   that the literal consumes the terminator.
   */
  ghost predicate Answers(s: cstring, items: seq<Item>, anchored: bool, a: Answer) {
    exists b :: Correct(s, Meant(items), anchored, b) && a == PastEnd(EndsInNul(items), b)
  }

  /** A match ends inside the subject if and only if the pattern does not end in a NUL literal. */
  lemma EndsInsideIff(s: cstring, items: seq<Item>, anchored: bool, a: Answer)
    requires InFragment(Meant(items)) && Answers(s, items, anchored, a) && a.Leftmost?
    ensures a.end <= |s| <==> !EndsInNul(items)
    ensures EndsInNul(items) ==> a.end == |s| + 1
  {
    var b :| Correct(s, Meant(items), anchored, b) && a == PastEnd(EndsInNul(items), b);
    var caps, ns := GreedyMatch(s, Meant(items), anchored, b);
    MatchEndsInside(Env(s, -1), Meant(items), b.start, NOTHING, ns);
  }

  /** The match that a correct answer reports. */
  lemma GreedyMatch(s: cstring, items: seq<Item>, anchored: bool, a: Answer) returns (caps: Caps, ns: seq<nat>)
    requires Correct(s, items, anchored, a) && a.Leftmost?
    ensures a.start <= |s| && Captured(a.bra, a.ket, caps)
    ensures Greediest(Env(s, -1), items, a.start, NOTHING, ns)
    ensures Replay(Env(s, -1), items, a.start, NOTHING, ns) == Match(a.end, caps)
  {
    caps :| GreedyOutcome(s, items, a.start, Match(a.end, caps)) && Captured(a.bra, a.ket, caps);
    ns :| Greediest(Env(s, -1), items, a.start, NOTHING, ns)
          && Replay(Env(s, -1), items, a.start, NOTHING, ns) == Match(a.end, caps);
  }

  /**
   When a match ends past the terminator, decided by the text of the pattern: when the text
   ends in a dangling backslash.
   */
  lemma EndsPastIff(text: seq<byte>, eof: byte, sed: bool, room: int, first: byte, s: cstring, a: Answer)
    requires 0 !in text && Parse(text, eof, sed, room, first).Accepted?
    requires var p := Parse(text, eof, sed, room, first);
             InFragment(Meant(p.items)) && Answers(s, p.items, p.anchored, a) && a.Leftmost?
    ensures var p := Parse(text, eof, sed, room, first);
            a.end > |s| <==> eof == 0 && !p.newline && Dangling(text)
  {
    var p := Parse(text, eof, sed, room, first);
    NulIff(text, eof, sed, room, first);
    EndsInsideIff(s, p.items, p.anchored, a);
  }

  // ----- Compiling and searching -----

  /** What the matcher reports at the first start is a correct answer. */
  lemma ReportIsCorrect(s: cstring, items: seq<Item>, anchored: bool, start: nat, v: Verdict, r: Regs, r': Regs,
                        ns: seq<nat>)
    requires FirstStart(s, items, anchored, start) && Greediest(Env(s, -1), items, start, NOTHING, ns)
    requires Reports(Result(v, r'), Replay(Env(s, -1), items, start, NOTHING, ns), r)
    ensures Correct(s, items, anchored, AnswerOf(Found(v, start, r')))
    ensures v == Yes ==> r'.loc2 >= 0
  {
    var o := Replay(Env(s, -1), items, start, NOTHING, ns);
    assert GreedyOutcome(s, items, start, o);
    if o.Match? {
      assert Captured(r'.bra, r'.ket, o.caps);
    }
  }

  lemma AnchoredIsCorrect(s: cstring, items: seq<Item>, loc1: int, r: Regs)
    requires InFragment(items) && ValidRegs(r)
    ensures var f := Start(Env(s, -1), items, true, 0, loc1, r);
            Correct(s, items, true, AnswerOf(f)) && (f.v == Yes ==> f.loc1 >= 0 && f.regs.loc2 >= 0)
  {
    var env := Env(s, -1);
    RunIsGreedy(env, items, 0, r);
    var x := Run(env, items, 0, r);
    if x.v != No {
      var ns :| Greediest(env, items, 0, NOTHING, ns) && Reports(x, Replay(env, items, 0, NOTHING, ns), r);
      ReportIsCorrect(s, items, true, 0, x.v, r, x.regs, ns);
    }
  }

  lemma UnanchoredIsCorrect(s: cstring, items: seq<Item>, loc1: int, r: Regs)
    requires InFragment(items) && ValidRegs(r)
    ensures var f := Start(Env(s, -1), items, false, 0, loc1, r);
            Correct(s, items, false, AnswerOf(f)) && (f.v == Yes ==> f.loc1 >= 0 && f.regs.loc2 >= 0)
  {
    var env := Env(s, -1);
    ScanIsLeftmost(env, items, 0, loc1, r);
    var f := Scan(env, items, 0, loc1, r);
    if f.v != No {
      var j: nat :| StopsAt(env, items, 0, loc1, r, f, j);
      var ns :| Greediest(env, items, j, NOTHING, ns)
          && Reports(Result(f.v, f.regs), Replay(env, items, j, NOTHING, ns), r);
      ReportIsCorrect(s, items, false, j, f.v, r, f.regs, ns);
    }
  }

  /**
   Where no path hangs, the answer is about matches alone: the leftmost start at which the
   pattern matches, or that there is none.
   */
  lemma SafeAnswer(s: cstring, items: seq<Item>, anchored: bool, a: Answer)
    requires Correct(s, items, anchored, a)
    requires forall j: nat :: Candidate(s, anchored, j) ==> Safe(Env(s, -1), items, j)
    ensures a.NoMatch? || a.Leftmost?
    ensures a.NoMatch? <==> forall j: nat :: Candidate(s, anchored, j) ==> !Matches(Env(s, -1), items, j, NOTHING)
    ensures a.Leftmost? ==> && Candidate(s, anchored, a.start) && Matches(Env(s, -1), items, a.start, NOTHING)
                            && forall j: nat :: j < a.start ==> !Matches(Env(s, -1), items, j, NOTHING)
  {
    forall j: nat | Candidate(s, anchored, j)
      ensures Quiet(Env(s, -1), items, j) <==> !Matches(Env(s, -1), items, j, NOTHING)
    {
      assert Safe(Env(s, -1), items, j);
    }
  }

  /** A pattern that is free of endless loops is safe on every subject. */
  lemma HangFreeAnswer(s: cstring, items: seq<Item>, anchored: bool, a: Answer)
    requires InFragment(items) && HangFree(items, {}, {}) && Correct(s, items, anchored, a)
    ensures a.NoMatch? || a.Leftmost?
    ensures a.NoMatch? <==> forall j: nat :: Candidate(s, anchored, j) ==> !Matches(Env(s, -1), items, j, NOTHING)
    ensures a.Leftmost? ==> && Candidate(s, anchored, a.start) && Matches(Env(s, -1), items, a.start, NOTHING)
                            && forall j: nat :: j < a.start ==> !Matches(Env(s, -1), items, j, NOTHING)
  {
    forall j: nat | Candidate(s, anchored, j) ensures Safe(Env(s, -1), items, j) {
      NeverHangs(Env(s, -1), items, j);
    }
    SafeAnswer(s, items, anchored, a);
  }

  // ----- The answer about positions in the subject -----

  /** There is a way from `start`, and none from any candidate before it. */
  ghost predicate FirstWay(s: cstring, items: seq<Item>, anchored: bool, start: nat, ps: seq<nat>) {
    && Candidate(s, anchored, start) && Greatest(Env(s, -1), items, start, ps)
    && forall j: nat, qs :: j < start ==> !Way(Env(s, -1), items, j, qs)
  }

  /**
   The answer is the greatest way from the first start that has one: its end and the
   positions of its markers, or that it gets stuck; or that there is no way.
   */
  ghost predicate Located(s: cstring, items: seq<Item>, anchored: bool, a: Answer) {
    match a
    case BadPattern(_) => false
    case NoPattern => false
    case NoMatch => forall j: nat, qs :: Candidate(s, anchored, j) ==> !Way(Env(s, -1), items, j, qs)
    case NeverReturns => exists start: nat, ps :: FirstWay(s, items, anchored, start, ps) && |ps| <= |items|
    case Leftmost(start, end, bra, ket) =>
      exists ps :: && FirstWay(s, items, anchored, start, ps) && |ps| == |items| + 1 && ps[|items|] == end
                   && HoldsMarkers(items, ps, bra, ket)
  }

  lemma QuietBefore(s: cstring, items: seq<Item>, start: nat)
    requires InFragment(items) && start <= |s| && forall j: nat :: j < start ==> Quiet(Env(s, -1), items, j)
    ensures forall j: nat, qs :: j < start ==> !Way(Env(s, -1), items, j, qs)
  {
    forall j: nat, qs | j < start ensures !Way(Env(s, -1), items, j, qs) {
      QuietIff(Env(s, -1), items, j);
    }
  }

  lemma GreedyWay(s: cstring, items: seq<Item>, anchored: bool, start: nat, o: Outcome) returns (ps: seq<nat>)
    requires InFragment(items) && FirstStart(s, items, anchored, start) && GreedyOutcome(s, items, start, o)
    ensures FirstWay(s, items, anchored, start, ps) && |ps| <= |items| + 1 && o == OutcomeOf(items, ps)
  {
    var env := Env(s, -1);
    var ns :| Greediest(env, items, start, NOTHING, ns) && Replay(env, items, start, NOTHING, ns) == o;
    ps := GreediestIsGreatest(env, items, start, ns);
    QuietBefore(s, items, start);
  }

  /** Every correct answer is so located in the subject. */
  lemma CorrectIsLocated(s: cstring, items: seq<Item>, anchored: bool, a: Answer)
    requires InFragment(items) && Correct(s, items, anchored, a)
    ensures Located(s, items, anchored, a)
  {
    match a
    case NoMatch =>
      forall j: nat, qs | Candidate(s, anchored, j) ensures !Way(Env(s, -1), items, j, qs) {
        QuietIff(Env(s, -1), items, j);
      }
    case NeverReturns =>
      var start: nat :| FirstStart(s, items, anchored, start) && GreedyOutcome(s, items, start, Hang);
      var ps := GreedyWay(s, items, anchored, start, Hang);
    case Leftmost(start, end, bra, ket) =>
      LeftmostIsLocated(s, items, anchored, start, end, bra, ket);
  }

  lemma LeftmostIsLocated(s: cstring, items: seq<Item>, anchored: bool, start: nat, end: nat, bra: seq<int>,
                          ket: seq<int>)
    requires InFragment(items) && Correct(s, items, anchored, Leftmost(start, end, bra, ket))
    ensures Located(s, items, anchored, Leftmost(start, end, bra, ket))
  {
    var caps :| GreedyOutcome(s, items, start, Match(end, caps)) && Captured(bra, ket, caps);
    var ps := GreedyWay(s, items, anchored, start, Match(end, caps));
    AgreementHolds(items, ps, Regs(bra, ket, 0));
  }

  /** The program that `compile` leaves, as the matcher is proved to read it. */
  lemma CompiledIsCoded(code: seq<byte>, items: seq<Item>)
    requires Program(code, 0, items)
    ensures Coded(code, 0, Meant(items), EndsInNul(items))
  {
    if EndsInNul(items) {
      assert items == items[..|items| - 1] + [NUL_LITERAL];
      NulProgramIsCoded(code, 0, items[..|items| - 1], items, Meant(items));
    } else {
      ProgramIsCoded(code, 0, items);
    }
  }

  /**
   Compile `text`, up to the delimiter `eof`, into `size` bytes of code and search `s`. For
   every pattern of the fragment, with a NUL literal at its end or not, the answer is the
   leftmost greedy one; where the code would not return, the model's answer says so. An
   empty text leaves no program to search with.
   */
  method CompileAndStep(text: seq<byte>, s: cstring, size: nat, eof: byte, sed: bool) returns (a: Answer)
    requires var p := Parse(text, eof, sed, size, 0); p.Accepted? ==> InFragment(Meant(p.items))
    ensures match Parse(text, eof, sed, size, 0)
            case Rejected(code) => a == BadPattern(code)
            case Unchanged(_, _) => a == NoPattern
            case Accepted(items, anchored, _, _, _) => Answers(s, items, anchored, a)
  {
    var e := new Engine(sed);
    ghost var p := Parse(text, eof, sed, size, 0);
    var turn, code := Compiled(e, text, size, eof);
    if turn.Error? {
      return BadPattern(turn.code);
    }
    if turn.ep == 0 {
      return NoPattern;
    }
    a := Search(e, code, s, p.items, p.anchored);
  }

  /** `compile` into a new buffer. */
  method Compiled(e: Engine, text: seq<byte>, size: nat, eof: byte) returns (turn: Turn, code: seq<byte>)
    requires e.Valid()
    modifies e
    ensures e.Valid() && e.locs == old(e.locs)
    ensures match Parse(text, eof, old(e.sed), size, 0)
            case Rejected(err) => turn == Error(err)
            case Unchanged(_, _) => turn.Return? && turn.ep == 0
            case Accepted(items, anchored, _, _, _) =>
              && turn.Return? && turn.ep > 0 && Program(code, 0, items) && (e.circf != 0 <==> anchored)
  {
    var buf := new byte[size + 1](_ => 0);
    turn := e.Compile(text, buf, 0, size, eof);
    code := buf[..];
  }

  /** `step` on a compiled program, from the beginning of the subject. */
  method Search(e: Engine, code: seq<byte>, s: cstring, ghost items: seq<Item>, ghost anchored: bool)
    returns (a: Answer)
    requires e.Valid() && e.locs == -1 && (e.circf != 0 <==> anchored)
    requires Program(code, 0, items) && InFragment(Meant(items))
    modifies e, e.braslist, e.braelist
    ensures Answers(s, items, anchored, a)
  {
    ghost var loc1, r, meant := e.loc1, e.Registers(), Meant(items);
    CompiledIsCoded(code, items);
    var v := e.Step(s, code, 0, 0, meant, EndsInNul(items));
    a := AnswerOf(Found(v, e.loc1, Regs(e.braslist[..], e.braelist[..], e.loc2)));
    StartAnswers(s, items, anchored, loc1, r);
  }

  lemma StartAnswers(s: cstring, items: seq<Item>, anchored: bool, loc1: int, r: Regs)
    requires InFragment(Meant(items)) && ValidRegs(r)
    ensures var f := Start(Env(s, -1), Meant(items), anchored, 0, loc1, r);
            Answers(s, items, anchored, AnswerOf(PastFound(EndsInNul(items), f)))
  {
    var f := Start(Env(s, -1), Meant(items), anchored, 0, loc1, r);
    if anchored {
      AnchoredIsCorrect(s, Meant(items), loc1, r);
    } else {
      UnanchoredIsCorrect(s, Meant(items), loc1, r);
    }
    assert AnswerOf(PastFound(EndsInNul(items), f)) == PastEnd(EndsInNul(items), AnswerOf(f));
  }

  /** The same for a pattern that is written down before a delimiter: what is searched for is what was meant. */
  method SearchFor(items: seq<Item>, lists: seq<seq<Elem>>, anchored: bool, s: cstring, size: nat, eof: byte, sed: bool)
    returns (a: Answer)
    requires Spellable(items, lists) && (anchored || items != []) && CanDelimit(items, lists, anchored, eof)
    requires TotalSize(items) < size && InFragment(items)
    ensures Correct(s, items, anchored, a) && Located(s, items, anchored, a)
  {
    SpelledIsRead(items, lists, anchored, eof, sed, size, 0);
    assert items != [] ==> Supported(items[|items| - 1]);
    a := CompileAndStep(Spell(items, lists, anchored, eof) + [eof], s, size, eof, sed);
    CorrectIsLocated(s, items, anchored, a);
  }

  /** One span inside the other, or one after the other. */
  predicate NestOrFollow(from: int, to: int, from': int, to': int) {
    to <= from' || to' <= from || (from <= from' && to' <= to) || (from' <= from && to <= to')
  }

  /**
   In every match of every accepted pattern of the fragment, with a NUL literal at its end
   or not, every group has a span inside the match, and of any two groups one lies inside
   the other or one after the other.
   */
  lemma CapturesAreNested(text: seq<byte>, eof: byte, sed: bool, room: int, first: byte, env: Env, i: nat,
                          ns: seq<nat>, g: byte, h: byte)
    requires Parse(text, eof, sed, room, first).Accepted?
    requires var p := Parse(text, eof, sed, room, first);
             && InFragment(Meant(p.items)) && Replay(env, Meant(p.items), i, NOTHING, ns).Match?
             && g < p.nbra && h < p.nbra
    ensures var m := Replay(env, Meant(Parse(text, eof, sed, room, first).items), i, NOTHING, ns);
            && g in m.caps.start && g in m.caps.end && h in m.caps.start && h in m.caps.end
            && i <= m.caps.start[g] <= m.caps.end[g] <= m.end
            && NestOrFollow(m.caps.start[g], m.caps.end[g], m.caps.start[h], m.caps.end[h])
  {
    var p := Parse(text, eof, sed, room, first);
    AcceptedIsBalanced(text, eof, sed, room, first);
    SpansNest(p.items, p.nbra, env, i, ns, g, h);
  }

  lemma SpansNest(items: seq<Item>, n: nat, env: Env, i: nat, ns: seq<nat>, g: byte, h: byte)
    requires Balanced(items, n) && g < n && h < n
    requires InFragment(Meant(items)) && Replay(env, Meant(items), i, NOTHING, ns).Match?
    ensures var m := Replay(env, Meant(items), i, NOTHING, ns);
            && g in m.caps.start && g in m.caps.end && h in m.caps.start && h in m.caps.end
            && i <= m.caps.start[g] <= m.caps.end[g] <= m.end
            && NestOrFollow(m.caps.start[g], m.caps.end[g], m.caps.start[h], m.caps.end[h])
  {
    assert Paired(items, g) && Paired(items, h);
    var o: nat, c: nat :| o < c && HasAt(items, Open(g), o) && HasAt(items, Close(g), c);
    var o': nat, c': nat :| o' < c' && HasAt(items, Open(h), o') && HasAt(items, Close(h), c');
    MarkersAreMeant(items, g, o, c);
    MarkersAreMeant(items, h, o', c');
    assert o < o' ==> c < o' || c' < c;
    assert o' < o ==> c' < o || c < c';
    MarkedSpansNest(Meant(items), env, i, ns, g, o, c, h, o', c');
  }

  lemma MarkedSpansNest(items: seq<Item>, env: Env, i: nat, ns: seq<nat>, g: byte, o: nat, c: nat,
                        h: byte, o': nat, c': nat)
    requires InFragment(items) && Replay(env, items, i, NOTHING, ns).Match?
    requires o < c < |items| && items[o].head == Open(g) && items[c].head == Close(g)
    requires o' < c' < |items| && items[o'].head == Open(h) && items[c'].head == Close(h)
    requires (o < o' ==> c < o' || c' < c) && (o' < o ==> c' < o || c < c')
    ensures var m := Replay(env, items, i, NOTHING, ns);
            && g in m.caps.start && g in m.caps.end && h in m.caps.start && h in m.caps.end
            && i <= m.caps.start[g] <= m.caps.end[g] <= m.end
            && NestOrFollow(m.caps.start[g], m.caps.end[g], m.caps.start[h], m.caps.end[h])
  {
    GroupSpan(env, items, i, ns, g, o, c);
    if o < o' {
      SpansNestAsGroups(env, items, i, ns, g, o, c, h, o', c');
    } else if o' < o {
      SpansNestAsGroups(env, items, i, ns, h, o', c', g, o, c);
    }
  }

  lemma MarkersAreMeant(items: seq<Item>, g: byte, o: nat, c: nat)
    requires HasAt(items, Open(g), o) && HasAt(items, Close(g), c)
    ensures o < |Meant(items)| && c < |Meant(items)|
    ensures Meant(items)[o].head == Open(g) && Meant(items)[c].head == Close(g)
  {
  }

  /** What the arrays hold after compiling and searching: nested spans inside the match. */
  lemma AnswersAreNested(text: seq<byte>, eof: byte, sed: bool, room: int, first: byte, s: cstring, a: Answer,
                         g: byte, h: byte)
    requires Parse(text, eof, sed, room, first).Accepted?
    requires var p := Parse(text, eof, sed, room, first);
             && InFragment(Meant(p.items)) && Answers(s, p.items, p.anchored, a) && a.Leftmost?
             && g < p.nbra && h < p.nbra
    ensures |a.bra| == NBRA && |a.ket| == NBRA && g < NBRA && h < NBRA
    ensures a.start <= a.bra[g] <= a.ket[g] <= a.end && NestOrFollow(a.bra[g], a.ket[g], a.bra[h], a.ket[h])
  {
    var p := Parse(text, eof, sed, room, first);
    var b :| Correct(s, Meant(p.items), p.anchored, b) && a == PastEnd(EndsInNul(p.items), b);
    var caps, ns := GreedyMatch(s, Meant(p.items), p.anchored, b);
    CapturesAreNested(text, eof, sed, room, first, Env(s, -1), b.start, ns, g, h);
  }
}
