/**
 Concrete inputs on which a property that a reader might expect fails: a reference to a
 group that is still open is compiled and one to a closed group is refused, a starred
 reference to an empty group hangs, and code is written at index `endbuf`.
 */
module Witnesses {
  import opened Bits
  import opened Pattern
  import opened Code
  import opened Semantics
  import opened Exec
  import opened Syntax
  import opened Overrun
  import opened Groups
  import opened Matching
  import opened EndToEnd

  const LOWER_A: byte := 97

  lemma OneMore(text: seq<byte>, pos: nat, sed: bool, room: int, st: State, st': State, pos': nat)
    requires ReadToken(text, pos, 0, sed, room, st) == Next(st', pos')
    ensures ReadItems(text, pos, 0, sed, room, false, st) == ReadItems(text, pos', 0, sed, room, false, st')
  {
  }

  // ----- References and the counter of closed groups -----

  /** `\(\(\)` */
  const INNER_CLOSED := [BACKSLASH, LPAREN, BACKSLASH, LPAREN, BACKSLASH, RPAREN]

  const FIRST := State([Plain(Open(0))], [0], 1, 0)
  const SECOND := State([Plain(Open(0)), Plain(Open(1))], [0, 1], 2, 0)
  const THIRD := State([Plain(Open(0)), Plain(Open(1)), Plain(Close(1))], [0], 2, 1)

  lemma SmallSizes()
    ensures TotalSize(FIRST.items) == 2 && TotalSize(SECOND.items) == 4 && TotalSize(THIRD.items) == 6
  {
    TotalSizeAppend(FIRST.items, Plain(Open(1)));
    TotalSizeAppend(SECOND.items, Plain(Close(1)));
  }

  /** After `\(\(\)` the inner group has closed and the outer one is open. */
  lemma InnerHasClosed(text: seq<byte>, sed: bool, room: int)
    requires |text| >= 6 && text[..6] == INNER_CLOSED && room > 6
    ensures ReadItems(text, 0, 0, sed, room, false, EMPTY) == ReadItems(text, 6, 0, sed, room, false, THIRD)
  {
    SmallSizes();
    assert forall k :: 0 <= k < 6 ==> Get(text, k) == text[..6][k];
    assert ReadToken(text, 0, 0, sed, room, EMPTY) == Next(FIRST, 2);
    OneMore(text, 0, sed, room, EMPTY, FIRST, 2);
    assert ReadToken(text, 2, 0, sed, room, FIRST) == Next(SECOND, 4);
    OneMore(text, 2, sed, room, FIRST, SECOND, 4);
    assert ReadToken(text, 4, 0, sed, room, SECOND) == Next(THIRD, 6);
    OneMore(text, 4, sed, room, SECOND, THIRD, 6);
  }

  lemma InnerEnded()
    ensures After(THIRD.items) == Brackets([0], 2, {1})
  {
    AfterAppend([], Plain(Open(0)));
    AfterAppend(FIRST.items, Plain(Open(1)));
    AfterAppend(SECOND.items, Plain(Close(1)));
  }

  /** `\(\(\)\1\)`: the counter admits a reference to the group that the reference stands in. */
  lemma OpenReferenceIsAccepted(sed: bool, room: int, first: byte)
    requires room > 10
    ensures var text := INNER_CLOSED + [BACKSLASH, ONE, BACKSLASH, RPAREN];
            var items := THIRD.items + [Plain(Ref(0)), Plain(Close(0))];
            Parse(text, 0, sed, room, first) == Accepted(items, false, 2, 11, false) && !RefsClosed(items)
  {
    var text := INNER_CLOSED + [BACKSLASH, ONE, BACKSLASH, RPAREN];
    var fourth := Emit(THIRD, Ref(0));
    var fifth := Emit(fourth, Close(0)).(stack := [], ended := 2);
    InnerHasClosed(text, sed, room);
    SmallSizes();
    TotalSizeAppend(THIRD.items, Plain(Ref(0)));
    TotalSizeAppend(fourth.items, Plain(Close(0)));
    assert ReadToken(text, 6, 0, sed, room, THIRD) == Next(fourth, 8);
    OneMore(text, 6, sed, room, THIRD, fourth, 8);
    assert ReadToken(text, 8, 0, sed, room, fourth) == Next(fifth, 10);
    OneMore(text, 8, sed, room, fourth, fifth, 10);
    assert fifth.items == THIRD.items + [Plain(Ref(0)), Plain(Close(0))];
    assert fifth.items[3].head == Ref(0);
    assert !exists j: nat :: j < 3 && HasAt(fifth.items, Close(0), j);
  }

  /** `\(\(\)\2\)`: the counter refuses a reference to a group that has closed. */
  lemma ClosedReferenceIsRefused(sed: bool, room: int, first: byte)
    requires room > 6
    ensures var text := INNER_CLOSED + [BACKSLASH, ONE + 1, BACKSLASH, RPAREN];
            Parse(text, 0, sed, room, first) == Rejected(25) && After(THIRD.items) == Brackets([0], 2, {1})
  {
    var text := INNER_CLOSED + [BACKSLASH, ONE + 1, BACKSLASH, RPAREN];
    InnerHasClosed(text, sed, room);
    InnerEnded();
    SmallSizes();
    assert ReadToken(text, 6, 0, sed, room, THIRD) == Stop(25);
  }

  // ----- A literal that matches the terminator -----

  /** A backslash at the end of the text is compiled to a NUL literal. */
  lemma DanglingBackslash(sed: bool, room: int, first: byte)
    requires room > 2
    ensures Parse([BACKSLASH], 0, sed, room, first) == Accepted([Plain(Lit(0))], false, 0, 3, false)
  {
    var st := Emit(EMPTY, Lit(0));
    TotalSizeAppend([], Plain(Lit(0)));
    assert st.items == [Plain(Lit(0))];
    assert ReadToken([BACKSLASH], 0, 0, sed, room, EMPTY) == Next(st, 2);
    OneMore([BACKSLASH], 0, sed, room, EMPTY, st, 2);
  }

  lemma MatchesOnlyAtEnd(s: cstring, j: nat)
    requires j <= |s|
    ensures Quiet(Env(s, -1), [AT_END], j) <==> j < |s|
    ensures Safe(Env(s, -1), [AT_END], j)
  {
    var items := [AT_END];
    assert items[1..] == [];
    if j == |s| {
      assert [0][1..] == [];
      assert Replay(Env(s, -1), items, j, NOTHING, [0]).Match?;
    }
  }

  lemma OnlyAnswer(s: cstring, a: Answer)
    requires Correct(s, [AT_END], false, a)
    ensures a.Leftmost? && a.start == |s| && a.end == |s|
  {
    forall j: nat | j <= |s| ensures Safe(Env(s, -1), [AT_END], j) && (Quiet(Env(s, -1), [AT_END], j) <==> j < |s|) {
      MatchesOnlyAtEnd(s, j);
    }
    SafeAnswer(s, [AT_END], false, a);
    assert Candidate(s, false, |s|);
    var caps, ns := GreedyMatch(s, [AT_END], false, a);
    MatchEndsInside(Env(s, -1), [AT_END], a.start, NOTHING, ns);
  }

  lemma NulIsMeant()
    ensures EndsInNul([NUL_LITERAL]) && Meant([NUL_LITERAL]) == [AT_END] && InFragment(Meant([NUL_LITERAL]))
  {
    assert [NUL_LITERAL][..0] == [] && [] + [AT_END] == [AT_END];
    EndInFragment([AT_END]);
  }

  lemma EndInFragment(items: seq<Item>)
    requires items == [AT_END]
    ensures InFragment(items)
  {
    assert items[1..] == [];
  }

  lemma AnswerAtEnd(s: cstring, a: Answer)
    requires Answers(s, [NUL_LITERAL], false, a)
    ensures a.Leftmost? && a.start == |s| && a.end == |s| + 1
  {
    NulIsMeant();
    var b :| Correct(s, [AT_END], false, b) && a == PastEnd(true, b);
    OnlyAnswer(s, b);
  }

  /** The text that is one backslash. */
  lemma BackslashText() returns (text: seq<byte>)
    ensures text == [BACKSLASH]
    ensures Parse(text, 0, false, 3, 0) == Accepted([NUL_LITERAL], false, 0, 3, false)
  {
    text := [BACKSLASH];
    DanglingBackslash(false, 3, 0);
  }

  /** It matches every subject, at the terminator, and ends past it. */
  method DanglingBackslashMatches(text: seq<byte>, s: cstring) returns (a: Answer)
    requires text == [BACKSLASH]
    ensures a.Leftmost? && a.start == |s| && a.end == |s| + 1
  {
    NulIsMeant();
    ghost var t := BackslashText();
    a := CompileAndStep(text, s, 3, 0, false);
    AnswerAtEnd(s, a);
  }

  // ----- A loop that does not end -----

  const STARRED_GROUP := [Plain(Open(0)), Item(Lit(LOWER_A), true, []), Plain(Close(0))]

  const STARRED_REFERENCE := STARRED_GROUP + [Item(Ref(0), true, [])]

  /** `\(a*\)\1*` is a pattern. */
  lemma StarredReferenceIsAccepted(sed: bool, room: int, first: byte)
    requires room > 8
    ensures var text := [BACKSLASH, LPAREN, LOWER_A, ASTERISK, BACKSLASH, RPAREN, BACKSLASH, ONE, ASTERISK];
            Parse(text, 0, sed, room, first) == Accepted(STARRED_REFERENCE, false, 1, 10, false)
  {
    var text := [BACKSLASH, LPAREN, LOWER_A, ASTERISK, BACKSLASH, RPAREN, BACKSLASH, ONE, ASTERISK];
    StarredGroupReads(text, sed, room);
    var group := State(STARRED_GROUP, [], 1, 1);
    var plain, starred := Emit(group, Ref(0)), State(STARRED_REFERENCE, [], 1, 1);
    StarredSizes();
    assert ReadToken(text, 6, 0, sed, room, group) == Next(plain, 8);
    OneMore(text, 6, sed, room, group, plain, 8);
    assert ReplaceLast(plain.items, Item(Ref(0), true, [])) == STARRED_REFERENCE;
    assert ReadToken(text, 8, 0, sed, room, plain) == Next(starred, 9);
    OneMore(text, 8, sed, room, plain, starred, 9);
  }

  lemma StarredSizes()
    ensures TotalSize(STARRED_GROUP) == 6 && TotalSize(STARRED_REFERENCE) == 8
    ensures TotalSize(STARRED_GROUP + [Plain(Ref(0))]) == 8 && TotalSize(STARRED_GROUP[..2]) == 4
    ensures TotalSize([Plain(Open(0)), Plain(Lit(LOWER_A))]) == 4
  {
    TotalSizeAppend([Plain(Open(0))], Plain(Lit(LOWER_A)));
    TotalSizeAppend([Plain(Open(0))], Item(Lit(LOWER_A), true, []));
    assert STARRED_GROUP[..2] == [Plain(Open(0))] + [Item(Lit(LOWER_A), true, [])];
    TotalSizeAppend(STARRED_GROUP[..2], Plain(Close(0)));
    assert STARRED_GROUP[..2] + [Plain(Close(0))] == STARRED_GROUP;
    TotalSizeAppend(STARRED_GROUP, Plain(Ref(0)));
    TotalSizeAppend(STARRED_GROUP, Item(Ref(0), true, []));
  }

  lemma StarredGroupReads(text: seq<byte>, sed: bool, room: int)
    requires |text| >= 6 && text[..6] == [BACKSLASH, LPAREN, LOWER_A, ASTERISK, BACKSLASH, RPAREN] && room > 6
    ensures ReadItems(text, 0, 0, sed, room, false, EMPTY) ==
            ReadItems(text, 6, 0, sed, room, false, State(STARRED_GROUP, [], 1, 1))
  {
    assert forall k :: 0 <= k < 6 ==> Get(text, k) == text[..6][k];
    GroupOpens(text, sed, room);
    LetterReads(text, sed, room);
    LetterIsStarred(text, sed, room);
    GroupCloses(text, sed, room);
  }

  lemma GroupOpens(text: seq<byte>, sed: bool, room: int)
    requires Get(text, 0) == BACKSLASH && Get(text, 1) == LPAREN && room > 6
    ensures ReadItems(text, 0, 0, sed, room, false, EMPTY) == ReadItems(text, 2, 0, sed, room, false, FIRST)
  {
    assert ReadToken(text, 0, 0, sed, room, EMPTY) == Next(FIRST, 2);
    OneMore(text, 0, sed, room, EMPTY, FIRST, 2);
  }

  lemma LetterReads(text: seq<byte>, sed: bool, room: int)
    requires Get(text, 2) == LOWER_A && room > 6
    ensures ReadItems(text, 2, 0, sed, room, false, FIRST) ==
            ReadItems(text, 3, 0, sed, room, false, Emit(FIRST, Lit(LOWER_A)))
  {
    SmallSizes();
    assert ReadToken(text, 2, 0, sed, room, FIRST) == Next(Emit(FIRST, Lit(LOWER_A)), 3);
    OneMore(text, 2, sed, room, FIRST, Emit(FIRST, Lit(LOWER_A)), 3);
  }

  lemma LetterIsStarred(text: seq<byte>, sed: bool, room: int)
    requires Get(text, 3) == ASTERISK && room > 6
    ensures ReadItems(text, 3, 0, sed, room, false, Emit(FIRST, Lit(LOWER_A))) ==
            ReadItems(text, 4, 0, sed, room, false, State(STARRED_GROUP[..2], [0], 1, 0))
  {
    var plain, starred := Emit(FIRST, Lit(LOWER_A)), State(STARRED_GROUP[..2], [0], 1, 0);
    StarredSizes();
    assert plain.items == [Plain(Open(0)), Plain(Lit(LOWER_A))];
    assert ReplaceLast(plain.items, Item(Lit(LOWER_A), true, [])) == STARRED_GROUP[..2];
    assert ReadToken(text, 3, 0, sed, room, plain) == Next(starred, 4);
    OneMore(text, 3, sed, room, plain, starred, 4);
  }

  lemma GroupCloses(text: seq<byte>, sed: bool, room: int)
    requires Get(text, 4) == BACKSLASH && Get(text, 5) == RPAREN && room > 6
    ensures ReadItems(text, 4, 0, sed, room, false, State(STARRED_GROUP[..2], [0], 1, 0)) ==
            ReadItems(text, 6, 0, sed, room, false, State(STARRED_GROUP, [], 1, 1))
  {
    var starred, group := State(STARRED_GROUP[..2], [0], 1, 0), State(STARRED_GROUP, [], 1, 1);
    StarredSizes();
    assert ReadToken(text, 4, 0, sed, room, starred) == Next(group, 6);
    OneMore(text, 4, sed, room, starred, group, 6);
  }

  /** `a*` takes nothing of the empty subject, and the starred reference never gets on. */
  lemma EmptyCaptureHangs(r: Regs)
    requires ValidRegs(r)
    ensures Run(Env([], -1), STARRED_REFERENCE, 0, r).v == Stuck
  {
    var env, items := Env([], -1), STARRED_REFERENCE;
    var r1 := Store(Open(0), 0, r);
    var r2 := Store(Close(0), 0, r1);
    assert items[3..][0] == items[3] && items[2..][1..] == items[3..] && items[1..][1..] == items[2..];
    assert RegSpan(env, r2, Ref(0)) == Span(0, 0);
    assert Run(env, items[3..], 0, r2).v == Stuck;
    assert Run(env, items[2..], 0, r1).v == Stuck;
    assert Run(env, items[1..], 0, r1).v == Stuck;
  }

  // ----- Writing at `endbuf` -----

  /** `a` with one byte of room: the character is written at `endbuf` before error 50. */
  lemma LiteralSpills(sed: bool, first: byte)
    ensures TextSpill([LOWER_A], 0, sed, 1) == Wet(LOWER_A) && Parse([LOWER_A], 0, sed, 1, first) == Rejected(50)
  {
    var text, st := [LOWER_A], Emit(EMPTY, Lit(LOWER_A));
    assert ReadToken(text, 0, 0, sed, 1, EMPTY) == Next(st, 1);
    OneMore(text, 0, sed, 1, EMPTY, st, 1);
  }

  const DISORDER := [LOWER_A, BACKSLASH, LBRACE, ZERO + 5, COMMA, ZERO + 3, BACKSLASH, RBRACE]

  lemma DisorderNumbers()
    ensures ReadNumber(DISORDER, 3, 0) == Number(5, COMMA, 5) && ReadNumber(DISORDER, 5, 0) == Number(3, BACKSLASH, 7)
    ensures ReadInterval(DISORDER, 3) == BadInterval(46) && SecondByte(DISORDER, 3) == Wet(3)
  {
    assert Get(DISORDER, 3) == ZERO + 5 && Get(DISORDER, 4) == COMMA && Get(DISORDER, 5) == ZERO + 3;
    assert Get(DISORDER, 6) == BACKSLASH && Get(DISORDER, 7) == RBRACE;
  }

  /** `a\{5,3\}` with three bytes of room: the second bound is written at `endbuf` before error 46. */
  lemma BoundSpills(sed: bool, first: byte)
    ensures TextSpill(DISORDER, 0, sed, 3) == Wet(3) && Parse(DISORDER, 0, sed, 3, first) == Rejected(46)
  {
    var text, st := DISORDER, Emit(EMPTY, Lit(LOWER_A));
    TotalSizeAppend([], Plain(Lit(LOWER_A)));
    DisorderNumbers();
    assert ReadToken(text, 0, 0, sed, 3, EMPTY) == Next(st, 1);
    assert ReadToken(text, 1, 0, sed, 3, st) == Stop(46);
    OneMore(text, 0, sed, 3, EMPTY, st, 1);
    assert TokenSpill(text, 0, 0, sed, 3, EMPTY) == Dry && TokenSpill(text, 1, 0, sed, 3, st) == Wet(3);
    assert ItemsSpill(text, 1, 0, sed, 3, st) == Wet(3);
  }
}
