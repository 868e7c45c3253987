/**
 What is written at index `endbuf`, said about the text: which byte, and after which tokens.
 */
module Spills {
  import opened Bits
  import opened Pattern
  import opened Code
  import opened Syntax
  import opened Groups
  import opened Overrun
  import opened Spelling
  import opened Grammar
  import opened Faults

  // ----- The second byte of an interval -----

  /** After the first bound `m`, the second byte is `b`: the same bound, 255, or the bound `n`. */
  ghost predicate SecondIs(text: seq<byte>, pos: nat, m: seq<byte>, n: seq<byte>, b: byte) {
    && GoodNumber(m) && Starts(text, pos, m)
    && var at := pos + |m|;
       || (Get(text, at) == BACKSLASH && Get(text, at + 1) == RBRACE && b == Value(0, m))
       || (Get(text, at) == COMMA && Get(text, at + 1) == BACKSLASH && b == 255)
       || (Get(text, at) == COMMA && SecondReadAs(text, at + 1, n, b))
  }

  ghost predicate SecondReadAs(text: seq<byte>, pos: nat, n: seq<byte>, b: byte) {
    GoodNumber(n) && Starts(text, pos, n) && IsStop(Get(text, pos + |n|)) && b == Value(0, n)
  }

  ghost predicate ReachesSecond(text: seq<byte>, pos: nat, b: byte) {
    exists m, n :: SecondIs(text, pos, m, n, b)
  }

  lemma NumberStarts(text: seq<byte>, pos: nat, n: seq<byte>)
    requires GoodNumber(n) && Starts(text, pos, n)
    ensures Get(text, pos) != BACKSLASH
  {
    StartsAt(text, pos, n, 0);
  }

  lemma SecondTells(text: seq<byte>, pos: nat, b: byte, n: seq<byte>)
    requires AllDigits(n) && Starts(text, pos, n) && !IsDigit(Get(text, pos + |n|))
    ensures var r := ReadNumber(text, pos, 0);
            r.Number? && r.value < 255 && r.value == b <==> SecondReadAs(text, pos, n, b)
    ensures forall n' :: SecondReadAs(text, pos, n', b) ==> n' == n
  {
    NumberTells(text, pos, n);
    forall n' | SecondReadAs(text, pos, n', b) ensures n' == n {
      OneRun(text, pos, n', n);
    }
  }

  lemma SecondByteIff(text: seq<byte>, pos: nat, b: byte)
    ensures SecondByte(text, pos) == Wet(b) <==> ReachesSecond(text, pos, b)
  {
    var m := DigitRun(text, pos);
    NumberTells(text, pos, m);
    var at := pos + |m| + 1;
    var n := DigitRun(text, at);
    SecondTells(text, at, b, n);
    forall n' | SecondReadAs(text, at, n', b) ensures Get(text, at) != BACKSLASH {
      NumberStarts(text, at, n');
    }
    if SecondByte(text, pos) == Wet(b) {
      assert SecondIs(text, pos, m, n, b);
    }
    forall m', n' | SecondIs(text, pos, m', n', b) ensures m' == m {
      OneRun(text, pos, m', m);
    }
  }

  // ----- One token -----

  /** Token `t` takes two bytes of code, the second of which is `b`. */
  predicate TakesTwo(items: seq<Item>, t: Token, b: byte) {
    match t
    case Char(c) => b == c
    case Quoted(c) => b == c
    case QuotedNewline => b == NEWLINE
    case Begin => b == NextGroup(items)
    case End => b == TopGroup(items)
    case Back(g) => b == g
    case _ => false
  }

  ghost predicate TwoByteToken(text: seq<byte>, pos: nat, eof: byte, items: seq<Item>, b: byte) {
    exists t :: StandsAt(text, pos, eof, items, t) && TakesTwo(items, t, b)
  }

  ghost predicate IntervalReached(text: seq<byte>, pos: nat, eof: byte, items: seq<Item>, b: byte) {
    && Get(text, pos) == BACKSLASH != eof && Get(text, pos + 1) == LBRACE && items != []
    && ReachesSecond(text, pos + 2, b)
  }

  lemma TwoBytes(items: seq<Item>, t: Token, b: byte)
    requires !IsModifier(t)
    ensures TakesTwo(items, t, b) <==> Size(Plain(HeadOf(items, t))) == 2 && FinalByte(Plain(HeadOf(items, t))) == b
    ensures TotalSize(Extend(items, t)) == TotalSize(items) + Size(Plain(HeadOf(items, t)))
    ensures Extend(items, t) != [] && Last(Extend(items, t)) == Plain(HeadOf(items, t))
  {
    ExtendGrows(items, t);
  }

  /** With one byte left, a token that is read as two bytes spills its second. */
  lemma TokenSpills(text: seq<byte>, pos: nat, eof: byte, sed: bool, room: int, items: seq<Item>, t: Token, b: byte)
    requires IsReadAs(text, pos, eof, sed, room, items, t) && !IsModifier(t) && TotalSize(items) == room - 1
    ensures TokenSpill(text, pos, eof, sed, room, StateOf(items)) == Wet(b) <==>
            Size(Plain(HeadOf(items, t))) >= 2 && FinalByte(Plain(HeadOf(items, t))) == b
  {
    TwoBytes(items, t, b);
  }

  lemma NoWiderToken(text: seq<byte>, pos: nat, eof: byte, sed: bool, room: int, items: seq<Item>, t: Token)
    requires IsReadAs(text, pos, eof, sed, room, items, t) && !IsModifier(t) && TotalSize(items) == room - 1
    ensures Size(Plain(HeadOf(items, t))) <= 2
  {
    ExtendGrows(items, t);
    TokenGrows(text, pos, eof, sed, room, StateOf(items));
  }

  /** What a token is that spills `b`. */
  lemma SpilledBy(text: seq<byte>, pos: nat, eof: byte, sed: bool, room: int, items: seq<Item>, b: byte)
    requires After(items).Brackets? && TotalSize(items) == room - 1
    requires TokenSpill(text, pos, eof, sed, room, StateOf(items)) == Wet(b)
    ensures TwoByteToken(text, pos, eof, items, b) || IntervalReached(text, pos, eof, items, b)
  {
    if ReadToken(text, pos, eof, sed, room, StateOf(items)).Next? {
      var t := TokenIsSpelled(text, pos, eof, sed, room, items);
      if IsModifier(t) {
        ModifierSpills(text, pos, eof, sed, room, items, t, b);
      } else {
        TokenSpills(text, pos, eof, sed, room, items, t, b);
        NoWiderToken(text, pos, eof, sed, room, items, t);
        TwoBytes(items, t, b);
      }
    } else {
      SecondByteIff(text, pos + 2, b);
    }
  }

  lemma ModifierSpills(text: seq<byte>, pos: nat, eof: byte, sed: bool, room: int, items: seq<Item>, t: Token, b: byte)
    requires IsReadAs(text, pos, eof, sed, room, items, t) && IsModifier(t) && StandsAt(text, pos, eof, items, t)
    requires TotalSize(items) == room - 1 && TokenSpill(text, pos, eof, sed, room, StateOf(items)) == Wet(b)
    ensures IntervalReached(text, pos, eof, items, b)
  {
    if t.Times? {
      TotalSizeReplace(items, Modified(Last(items), t));
    } else {
      RangeText(text, pos, t.b);
      IntervalToken(text, pos, eof, sed, room, StateOf(items));
      SecondByteIff(text, pos + 2, b);
    }
  }

  lemma RangeText(text: seq<byte>, pos: nat, b: Bounds)
    requires Starts(text, pos, TokenText(Range(b)))
    ensures Get(text, pos) == BACKSLASH && Get(text, pos + 1) == LBRACE
  {
    StartsSplit(text, pos, [BACKSLASH, LBRACE], SpellBounds(b));
    StartsAt(text, pos, [BACKSLASH, LBRACE], 0);
    StartsAt(text, pos, [BACKSLASH, LBRACE], 1);
  }

  /** With one byte left, what a token spills. */
  lemma TokenSpillIs(text: seq<byte>, pos: nat, eof: byte, sed: bool, room: int, items: seq<Item>, b: byte)
    requires After(items).Brackets? && TotalSize(items) == room - 1
    ensures TokenSpill(text, pos, eof, sed, room, StateOf(items)) == Wet(b) <==>
            TwoByteToken(text, pos, eof, items, b) || IntervalReached(text, pos, eof, items, b)
  {
    if TokenSpill(text, pos, eof, sed, room, StateOf(items)) == Wet(b) {
      SpilledBy(text, pos, eof, sed, room, items, b);
    }
    if t :| StandsAt(text, pos, eof, items, t) && TakesTwo(items, t, b) {
      TokenReads(text, pos, eof, sed, room, items, t);
      TwoBytes(items, t, b);
      TokenSpills(text, pos, eof, sed, room, items, t, b);
    }
    if IntervalReached(text, pos, eof, items, b) {
      SecondByteIff(text, pos + 2, b);
      RefusedSpillIsSpilled(text, pos, eof, sed, room, StateOf(items));
    }
  }

  // ----- Whole texts -----

  lemma DryStep(text: seq<byte>, pos: nat, eof: byte, sed: bool, room: int, st: State, st': State, pos': nat)
    requires ReadToken(text, pos, eof, sed, room, st) == Next(st', pos')
    requires TotalSize(st'.items) <= room || TokenSpill(text, pos, eof, sed, room, st) == Dry
    ensures ItemsSpill(text, pos, eof, sed, room, st) == ItemsSpill(text, pos', eof, sed, room, st')
  {
  }

  /** As long as there is room, nothing is spilled. */
  lemma {:induction false} DryTokens(text: seq<byte>, start: nat, eof: byte, sed: bool, room: int, toks: seq<Token>,
                                     end: nat)
    requires Written(text, start, eof, toks, end) && TotalSize(Build(toks)) < room
    ensures After(Build(toks)).Brackets?
    ensures ItemsSpill(text, start, eof, sed, room, EMPTY) ==
            ItemsSpill(text, end, eof, sed, room, StateOf(Build(toks)))
    decreases |toks|
  {
    if toks == [] {
      assert StateOf([]) == EMPTY;
    } else {
      var mid := WithoutFinal(text, start, eof, toks, end);
      AllHadRoom(toks, room);
      DryTokens(text, start, eof, sed, room, Front(toks), mid);
      DryFinal(text, mid, eof, sed, room, Build(Front(toks)), Final(toks), Build(toks), end);
    }
  }

  lemma DryFinal(text: seq<byte>, pos: nat, eof: byte, sed: bool, room: int, items: seq<Item>, t: Token,
                 items': seq<Item>, pos': nat)
    requires StandsAt(text, pos, eof, items, t) && HasRoomFor(items, t, room) && TotalSize(items') < room
    requires items' == Extend(items, t) && pos' == pos + |TokenText(t)|
    ensures After(items').Brackets?
    ensures ItemsSpill(text, pos, eof, sed, room, StateOf(items)) ==
            ItemsSpill(text, pos', eof, sed, room, StateOf(items'))
  {
    TokenReads(text, pos, eof, sed, room, items, t);
    DryStep(text, pos, eof, sed, room, StateOf(items), StateOf(items'), pos');
  }

  /** `toks` leave one byte, and what follows them takes one too many, `b`. */
  ghost predicate SpillsAt(text: seq<byte>, eof: byte, room: int, toks: seq<Token>, anchored: bool, end: nat, b: byte) {
    && Spans(text, eof, toks, anchored, end) && TotalSize(Build(toks)) == room - 1
    && (TwoByteToken(text, end, eof, Build(toks), b) || IntervalReached(text, end, eof, Build(toks), b))
  }

  lemma SpillIsRead(text: seq<byte>, eof: byte, sed: bool, room: int, toks: seq<Token>, anchored: bool, end: nat,
                    b: byte)
    requires SpillsAt(text, eof, room, toks, anchored, end, b)
    ensures TextSpill(text, eof, sed, room) == Wet(b)
  {
    DryTokens(text, if anchored then 1 else 0, eof, sed, room, toks, end);
    TokenSpillIs(text, end, eof, sed, room, Build(toks), b);
  }

  /** Reading on from `toks` up to the token that spills. */
  lemma {:induction false} SpillIsWritten(text: seq<byte>, start: nat, eof: byte, sed: bool, room: int,
                                          toks: seq<Token>, pos: nat, b: byte)
    returns (all: seq<Token>, end: nat)
    requires Standing(text, start, eof, room, toks, pos)
    requires ItemsSpill(text, pos, eof, sed, room, StateOf(Build(toks))) == Wet(b)
    ensures Standing(text, start, eof, room, all, end) && TotalSize(Build(all)) == room - 1
    ensures TokenSpill(text, end, eof, sed, room, StateOf(Build(all))) == Wet(b)
    decreases if pos < |text| then |text| - pos else 0, room - TotalSize(Build(toks))
  {
    if TokenSpill(text, pos, eof, sed, room, StateOf(Build(toks))).Wet? {
      all, end := toks, pos;
      TokenSpillsIff(text, pos, eof, sed, room, StateOf(Build(toks)));
    } else {
      var toks', pos' := DryToken(text, start, eof, sed, room, toks, pos, b);
      all, end := SpillIsWritten(text, start, eof, sed, room, toks', pos', b);
    }
  }

  lemma DryToken(text: seq<byte>, start: nat, eof: byte, sed: bool, room: int, toks: seq<Token>, pos: nat, b: byte)
    returns (toks': seq<Token>, pos': nat)
    requires Standing(text, start, eof, room, toks, pos)
    requires ItemsSpill(text, pos, eof, sed, room, StateOf(Build(toks))) == Wet(b)
    requires TokenSpill(text, pos, eof, sed, room, StateOf(Build(toks))) == Dry
    ensures Standing(text, start, eof, room, toks', pos')
    ensures ItemsSpill(text, pos', eof, sed, room, StateOf(Build(toks'))) == Wet(b)
    ensures pos < pos' && TotalSize(Build(toks)) < room
    ensures pos >= |text| ==> TotalSize(Build(toks')) > TotalSize(Build(toks))
  {
    assert ReadToken(text, pos, eof, sed, room, StateOf(Build(toks))).Next?;
    var t := TokenIsSpelled(text, pos, eof, sed, room, Build(toks));
    toks', pos' := toks + [t], pos + |TokenText(t)|;
    HadRoom(text, pos, eof, sed, room, Build(toks), t);
    StandsOn(text, start, eof, room, toks, pos, t, toks', pos');
    Progresses(text, pos, eof, sed, room, Build(toks), t, Build(toks'), pos');
    SpillsLater(text, pos, eof, sed, room, Build(toks), t, Build(toks'), pos');
  }

  lemma SpillsLater(text: seq<byte>, pos: nat, eof: byte, sed: bool, room: int, items: seq<Item>, t: Token,
                    items': seq<Item>, pos': nat)
    requires IsReadAs(text, pos, eof, sed, room, items, t)
    requires items' == Extend(items, t) && pos' == pos + |TokenText(t)|
    requires TokenSpill(text, pos, eof, sed, room, StateOf(items)) == Dry
    ensures ItemsSpill(text, pos, eof, sed, room, StateOf(items)) ==
            ItemsSpill(text, pos', eof, sed, room, StateOf(items'))
  {
    DryStep(text, pos, eof, sed, room, StateOf(items), StateOf(items'), pos');
  }

  /**
   A text writes `b` at index `endbuf` if and only if it begins with tokens that leave one
   byte, and goes on with a token of two bytes, `b` the second, or an interval whose second
   byte `b` is reached.
   */
  lemma SpillIff(text: seq<byte>, eof: byte, sed: bool, room: int, b: byte)
    ensures TextSpill(text, eof, sed, room) == Wet(b) <==>
            exists toks, anchored, end :: SpillsAt(text, eof, room, toks, anchored, end, b)
  {
    if toks, anchored, end :| SpillsAt(text, eof, room, toks, anchored, end, b) {
      SpillIsRead(text, eof, sed, room, toks, anchored, end, b);
    }
    if TextSpill(text, eof, sed, room) == Wet(b) {
      var anchored := Get(text, 0) == CARET;
      var start := if anchored then 1 else 0;
      assert StateOf([]) == EMPTY;
      var toks, end := SpillIsWritten(text, start, eof, sed, room, [], start, b);
      TokenSpillIs(text, end, eof, sed, room, Build(toks), b);
      assert SpillsAt(text, eof, room, toks, anchored, end, b);
    }
  }
}
