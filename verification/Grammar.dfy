/**
 The grammar of patterns, stated without a reader: which texts are patterns, what list of
 items each denotes, and for the texts that are not, where they go wrong. A pattern is a
 sequence of tokens; a token has a text, adds to the items, and is allowed or not after
 the items before it. The reader is proved to accept exactly these texts.
 */
module Grammar {
  import opened Bits
  import opened Pattern
  import opened Code
  import opened Syntax
  import opened Groups
  import opened Overrun
  import opened Spelling

  datatype Token =
    | Char(c: byte)
    | Quoted(c: byte)
    | QuotedNewline
    | AnyByte
    | List(neg: bool, elems: seq<Elem>)
    | Begin
    | End
    | Back(g: byte)
    | AtEnd
    | Times
    | Range(b: Bounds)

  function TokenText(t: Token): seq<byte> {
    match t
    case Char(c) => [c]
    case Quoted(c) => [BACKSLASH, c]
    case QuotedNewline => [BACKSLASH, LOWER_N]
    case AnyByte => [PERIOD]
    case List(neg, elems) => (if neg then [LSQUARE, CARET] else [LSQUARE]) + SpellList(elems)
    case Begin => [BACKSLASH, LPAREN]
    case End => [BACKSLASH, RPAREN]
    case Back(g) => [BACKSLASH, if g < NBRA then ONE + g else ONE]
    case AtEnd => [DOLLAR]
    case Times => [ASTERISK]
    case Range(b) => [BACKSLASH, LBRACE] + SpellBounds(b)
  }

  function SpellTokens(toks: seq<Token>): seq<byte> {
    if toks == [] then [] else SpellTokens(Front(toks)) + TokenText(Final(toks))
  }

  function Front(toks: seq<Token>): seq<Token>
    requires toks != []
  {
    toks[..|toks| - 1]
  }

  function Final(toks: seq<Token>): Token
    requires toks != []
  {
    toks[|toks| - 1]
  }

  // ----- What tokens denote -----

  /** The number of the next group. */
  function NextGroup(items: seq<Item>): byte {
    if After(items).Brackets? && After(items).begun < NBRA then After(items).begun else 0
  }

  /** The number of the innermost open group. */
  function TopGroup(items: seq<Item>): byte {
    if After(items).Brackets? && After(items).stack != [] then After(items).stack[|After(items).stack| - 1] else 0
  }

  predicate IsModifier(t: Token) {
    t.Times? || t.Range?
  }

  /** The item that a token other than a modifier stands for, after `items`. */
  function HeadOf(items: seq<Item>, t: Token): Head
    requires !IsModifier(t)
  {
    match t
    case Char(c) => Lit(c)
    case Quoted(c) => Lit(c)
    case QuotedNewline => Lit(NEWLINE)
    case AnyByte => Dot
    case List(neg, elems) => Bracket(neg, Denote(0, elems), AnyHigh(elems))
    case Begin => Open(NextGroup(items))
    case End => Close(TopGroup(items))
    case Back(g) => Ref(g)
    case AtEnd => Dollar
  }

  /** What a modifier makes of the item before it. */
  function Modified(it: Item, t: Token): Item
    requires IsModifier(t)
  {
    match t
    case Times => it.(star := true)
    case Range(b) => if GoodBounds(b) then it.(ranges := it.ranges + [IntervalOf(b)]) else it
  }

  function Extend(items: seq<Item>, t: Token): seq<Item> {
    if !IsModifier(t) then items + [Plain(HeadOf(items, t))]
    else if items == [] then []
    else ReplaceLast(items, Modified(Last(items), t))
  }

  function Build(toks: seq<Token>): seq<Item> {
    if toks == [] then [] else Extend(Build(Front(toks)), Final(toks))
  }

  // ----- Which tokens are allowed -----

  /** A character that stands for itself: `$` unless the pattern ends after it, `*` where there is nothing to repeat. */
  predicate Ordinary(items: seq<Item>, c: byte, more: bool) {
    && c != NEWLINE && c != PERIOD && c != LSQUARE && c != BACKSLASH
    && (c == DOLLAR ==> more)
    && (c == ASTERISK ==> items == [] || IsMarker(Last(items)))
  }

  /** A character that stands for itself after a backslash: `{` only where there is nothing to repeat. */
  predicate Quotable(items: seq<Item>, c: byte) {
    && c != LPAREN && c != RPAREN && c != LOWER_N && c != NEWLINE && !(ONE <= c <= NINE)
    && (c == LBRACE ==> items == [])
  }

  /** Token `t` may stand after `items`; `more`: the pattern does not end after it. */
  predicate Allowed(items: seq<Item>, t: Token, more: bool, eof: byte) {
    && TokenText(t)[0] != eof
    && After(items).Brackets?
    && match t
       case Char(c) => Ordinary(items, c, more)
       case Quoted(c) => Quotable(items, c)
       case List(neg, elems) => WritableList(neg, elems)
       case Begin => After(items).begun < NBRA
       case End => After(items).stack != []
       case Back(g) => g < NBRA && g < |After(items).ended|
       case AtEnd => !more
       case Times => items != [] && !IsMarker(Last(items))
       case Range(b) => items != [] && GoodBounds(b)
       case _ => true
  }

  predicate Valid(toks: seq<Token>, more: bool, eof: byte)
    decreases |toks|
  {
    toks == [] || (Valid(Front(toks), true, eof) && Allowed(Build(Front(toks)), Final(toks), more, eof))
  }

  lemma {:induction false} ValidIsBalanced(toks: seq<Token>, more: bool, eof: byte)
    requires Valid(toks, more, eof)
    ensures After(Build(toks)).Brackets?
    decreases |toks|
  {
    if toks == [] {
    } else {
      ExtendBalanced(Build(Front(toks)), Final(toks), more, eof);
    }
  }

  lemma ExtendBalanced(items: seq<Item>, t: Token, more: bool, eof: byte)
    requires Allowed(items, t, more, eof)
    ensures After(Extend(items, t)).Brackets?
  {
    if t.Begin? {
      EnterOpen(items, After(items), items + [Plain(Open(NextGroup(items)))]);
    } else if t.End? {
      EnterClose(items, After(items), items + [Plain(Close(TopGroup(items)))], TopGroup(items));
    } else {
      SameGroups(items, t);
    }
  }

  // ----- The reader's state -----

  /** Where the reader stands after `items`. */
  function StateOf(items: seq<Item>): State
    requires After(items).Brackets?
  {
    var b := After(items);
    State(items, b.stack, b.begun, |b.ended|)
  }

  /** Every modifier and every item other than a group marker leaves the groups as they are. */
  lemma SameGroups(items: seq<Item>, t: Token)
    requires After(items).Brackets? && !t.Begin? && !t.End? && (IsModifier(t) ==> items != [])
    ensures After(Extend(items, t)) == After(items)
  {
    if IsModifier(t) {
      AfterReplace(items, Modified(Last(items), t));
    } else {
      AfterAppend(items, Plain(HeadOf(items, t)));
    }
  }

  lemma BeginState(items: seq<Item>, st: State)
    requires After(items).Brackets? && After(items).begun < NBRA && st == StateOf(items)
    ensures var items' := Extend(items, Begin);
            && After(items').Brackets?
            && StateOf(items') ==
               State(items + [Plain(Open(st.nbra))], st.stack + [st.nbra as byte], st.nbra + 1, st.ended)
  {
    EnterOpen(items, After(items), items + [Plain(Open(After(items).begun))]);
  }

  lemma EnterOpen(items: seq<Item>, b: Brackets, items': seq<Item>)
    requires b == After(items) && b.Brackets? && b.begun < NBRA && items' == items + [Plain(Open(b.begun))]
    ensures After(items') == Brackets(b.stack + [b.begun as byte], b.begun + 1, b.ended)
  {
    AfterAppend(items, Plain(Open(b.begun)));
  }

  lemma EndState(items: seq<Item>, st: State)
    requires After(items).Brackets? && After(items).stack != [] && st == StateOf(items)
    ensures var items', top := Extend(items, End), |st.stack| - 1;
            && After(items').Brackets?
            && StateOf(items') == State(items + [Plain(Close(st.stack[top]))], st.stack[..top], st.nbra, st.ended + 1)
  {
    EnterClose(items, After(items), items + [Plain(Close(TopGroup(items)))], TopGroup(items));
  }

  lemma EnterClose(items: seq<Item>, b: Brackets, items': seq<Item>, g: byte)
    requires b == After(items) && b.Brackets? && b.stack != [] && g == b.stack[|b.stack| - 1]
    requires items' == items + [Plain(Close(g))]
    ensures After(items').Brackets? && After(items').stack == b.stack[..|b.stack| - 1]
    ensures After(items').begun == b.begun && |After(items').ended| == |b.ended| + 1
  {
    AfterAppend(items, Plain(Close(g)));
    AfterPartition(items);
    assert g in b.stack;
  }

  /** The pattern ends at `pos`. */
  predicate Ends(text: seq<byte>, pos: nat, eof: byte) {
    Get(text, pos) == eof || Get(text, pos) == NEWLINE
  }

  lemma ExtendGrows(items: seq<Item>, t: Token)
    ensures TotalSize(items) <= TotalSize(Extend(items, t))
    ensures !IsModifier(t) ==> TotalSize(Extend(items, t)) == TotalSize(items) + Size(Plain(HeadOf(items, t)))
  {
    if !IsModifier(t) {
      TotalSizeAppend(items, Plain(HeadOf(items, t)));
    } else if items != [] {
      TotalSizeReplace(items, Modified(Last(items), t));
    }
  }

  /** What the reader makes of an allowed token. */
  ghost predicate IsReadAs(text: seq<byte>, pos: nat, eof: byte, sed: bool, room: int, items: seq<Item>, t: Token) {
    && After(items).Brackets? && After(Extend(items, t)).Brackets?
    && ReadToken(text, pos, eof, sed, room, StateOf(items)) == Next(StateOf(Extend(items, t)), pos + |TokenText(t)|)
  }

  /** The same, where the groups stay as they are. */
  lemma ReadInPlace(text: seq<byte>, pos: nat, eof: byte, sed: bool, room: int, items: seq<Item>, t: Token, st: State)
    requires After(items).Brackets? && !t.Begin? && !t.End? && (IsModifier(t) ==> items != [])
    requires st == StateOf(items)
    requires ReadToken(text, pos, eof, sed, room, st) == Next(st.(items := Extend(items, t)), pos + |TokenText(t)|)
    ensures IsReadAs(text, pos, eof, sed, room, items, t)
  {
    SameGroups(items, t);
  }

  // ----- Allowed tokens are read -----

  /** The next token of `text`, allowed where it stands. */
  ghost predicate StandsAt(text: seq<byte>, pos: nat, eof: byte, items: seq<Item>, t: Token) {
    Starts(text, pos, TokenText(t)) && Allowed(items, t, !Ends(text, pos + |TokenText(t)|, eof), eof)
  }

  /** There is room to read `t`: for a bracket expression the whole of it is tested, else only the next byte. */
  predicate HasRoomFor(items: seq<Item>, t: Token, room: int) {
    TotalSize(items) < room && (t.List? ==> TotalSize(Extend(items, t)) < room)
  }

  lemma TokenReads(text: seq<byte>, pos: nat, eof: byte, sed: bool, room: int, items: seq<Item>, t: Token)
    requires StandsAt(text, pos, eof, items, t) && HasRoomFor(items, t, room)
    ensures IsReadAs(text, pos, eof, sed, room, items, t)
  {
    ExtendGrows(items, t);
    if t.Begin? || t.End? {
      MarkerReads(text, pos, eof, sed, room, items, t, StateOf(items));
    } else {
      var st := StateOf(items);
      if t.List? {
        ListTokenReads(text, pos, eof, sed, room, st, t);
      } else if t.Range? {
        RangeTokenReads(text, pos, eof, sed, room, st, t);
      } else {
        ShortTokenReads(text, pos, eof, sed, room, st, t);
      }
      ReadInPlace(text, pos, eof, sed, room, items, t, st);
    }
  }

  lemma ShortTokenReads(text: seq<byte>, pos: nat, eof: byte, sed: bool, room: int, st: State, t: Token)
    requires StandsAt(text, pos, eof, st.items, t) && After(st.items).Brackets? && st.ended == |After(st.items).ended|
    requires !t.List? && !t.Range? && !t.Begin? && !t.End? && TotalSize(st.items) < room
    ensures ReadToken(text, pos, eof, sed, room, st) ==
            Next(st.(items := Extend(st.items, t)), pos + |TokenText(t)|)
  {
    StartsAt(text, pos, TokenText(t), 0);
    if t.Quoted? || t.QuotedNewline? || t.Back? {
      StartsAt(text, pos, TokenText(t), 1);
    }
  }

  lemma ListTokenReads(text: seq<byte>, pos: nat, eof: byte, sed: bool, room: int, st: State, t: Token)
    requires t.List? && Starts(text, pos, TokenText(t)) && WritableList(t.neg, t.elems) && LSQUARE != eof
    requires TotalSize(st.items) + Size(Plain(HeadOf(st.items, t))) < room
    ensures ReadToken(text, pos, eof, sed, room, st) == Next(Emit(st, HeadOf(st.items, t)), pos + |TokenText(t)|)
  {
    var x := ListText(text, pos, t.neg, t.elems);
    assert ReadToken(text, pos, eof, sed, room, st) == ReadBracket(text, pos + 1, room, st);
    BracketReads(text, pos, room, st, t.neg, t.elems, pos + |x|);
  }

  lemma BracketReads(text: seq<byte>, pos: nat, room: int, st: State, neg: bool, elems: seq<Elem>, at: nat)
    requires WritableList(neg, elems) && (Get(text, pos + 1) == CARET <==> neg)
    requires at == (if neg then pos + 2 else pos + 1) && Starts(text, at, SpellList(elems))
    requires TotalSize(st.items) + Size(Plain(Bracket(neg, Denote(0, elems), AnyHigh(elems)))) < room
    ensures ReadBracket(text, pos + 1, room, st) ==
            Next(Emit(st, Bracket(neg, Denote(0, elems), AnyHigh(elems))), at + |SpellList(elems)|)
  {
    ListReads(text, at, neg, elems, TotalSize(st.items) + 33 < room);
  }

  /** The opening of a bracket expression, and its list. */
  lemma ListText(text: seq<byte>, pos: nat, neg: bool, elems: seq<Elem>) returns (x: seq<byte>)
    requires WritableList(neg, elems) && Starts(text, pos, TokenText(List(neg, elems)))
    ensures x == if neg then [LSQUARE, CARET] else [LSQUARE]
    ensures |TokenText(List(neg, elems))| == |x| + |SpellList(elems)|
    ensures Get(text, pos) == LSQUARE && (Get(text, pos + 1) == CARET <==> neg)
    ensures Starts(text, pos + |x|, SpellList(elems))
  {
    x := if neg then [LSQUARE, CARET] else [LSQUARE];
    var y := SpellList(elems);
    StartsSplit(text, pos, x, y);
    StartsAt(text, pos, x, 0);
    if neg {
      StartsAt(text, pos, x, 1);
    } else {
      StartsAt(text, pos + 1, y, 0);
      assert y[0] == elems[0].c;
    }
  }

  lemma RangeTokenReads(text: seq<byte>, pos: nat, eof: byte, sed: bool, room: int, st: State, t: Token)
    requires t.Range? && Starts(text, pos, TokenText(t)) && GoodBounds(t.b) && BACKSLASH != eof
    requires st.items != [] && TotalSize(st.items) < room
    ensures ReadToken(text, pos, eof, sed, room, st) ==
            Next(st.(items := Extend(st.items, t)), pos + |TokenText(t)|)
  {
    StartsSplit(text, pos, [BACKSLASH, LBRACE], SpellBounds(t.b));
    StartsAt(text, pos, [BACKSLASH, LBRACE], 0);
    StartsAt(text, pos, [BACKSLASH, LBRACE], 1);
    BoundsRead(text, pos + 2, t.b);
  }

  lemma MarkerReads(text: seq<byte>, pos: nat, eof: byte, sed: bool, room: int, items: seq<Item>, t: Token, st: State)
    requires (t.Begin? || t.End?) && StandsAt(text, pos, eof, items, t) && st == StateOf(items)
    requires TotalSize(items) < room
    ensures IsReadAs(text, pos, eof, sed, room, items, t)
  {
    StartsAt(text, pos, TokenText(t), 0);
    StartsAt(text, pos, TokenText(t), 1);
    if t.Begin? {
      BeginReads(text, pos, eof, sed, room, st);
      BeginState(items, st);
    } else {
      EndReads(text, pos, eof, sed, room, st);
      EndState(items, st);
    }
  }

  lemma BeginReads(text: seq<byte>, pos: nat, eof: byte, sed: bool, room: int, st: State)
    requires Get(text, pos) == BACKSLASH != eof && Get(text, pos + 1) == LPAREN && TotalSize(st.items) < room
    ensures ReadToken(text, pos, eof, sed, room, st) == BeginGroup(st, pos + 2)
  {
  }

  lemma EndReads(text: seq<byte>, pos: nat, eof: byte, sed: bool, room: int, st: State)
    requires Get(text, pos) == BACKSLASH != eof && Get(text, pos + 1) == RPAREN && TotalSize(st.items) < room
    ensures ReadToken(text, pos, eof, sed, room, st) == EndGroup(st, pos + 2)
  {
  }

  // ----- Tokens that are read are allowed -----

  lemma TokenIsSpelled(text: seq<byte>, pos: nat, eof: byte, sed: bool, room: int, items: seq<Item>)
    returns (t: Token)
    requires After(items).Brackets? && ReadToken(text, pos, eof, sed, room, StateOf(items)).Next?
    ensures StandsAt(text, pos, eof, items, t) && IsReadAs(text, pos, eof, sed, room, items, t)
  {
    var c, st := Get(text, pos), StateOf(items);
    if c == BACKSLASH && (Get(text, pos + 1) == LPAREN || Get(text, pos + 1) == RPAREN) {
      t := MarkerIsToken(text, pos, eof, sed, room, items, st);
    } else {
      if c == LSQUARE {
        t := ListIsToken(text, pos, eof, sed, room, st);
      } else if c == BACKSLASH && Get(text, pos + 1) == LBRACE && items != [] {
        t := RangeIsToken(text, pos, eof, sed, room, st);
      } else {
        t := ShortIsToken(text, pos, eof, sed, room, st);
      }
      ReadInPlace(text, pos, eof, sed, room, items, t, st);
    }
  }

  lemma ListIsToken(text: seq<byte>, pos: nat, eof: byte, sed: bool, room: int, st: State) returns (t: Token)
    requires After(st.items).Brackets? && Get(text, pos) == LSQUARE
    requires ReadToken(text, pos, eof, sed, room, st).Next?
    ensures t.List? && StandsAt(text, pos, eof, st.items, t)
    ensures ReadToken(text, pos, eof, sed, room, st) == Next(Emit(st, HeadOf(st.items, t)), pos + |TokenText(t)|)
  {
    assert ReadToken(text, pos, eof, sed, room, st) == ReadBracket(text, pos + 1, room, st);
    t := BracketIsToken(text, pos, room, st);
  }

  lemma BracketIsToken(text: seq<byte>, pos: nat, room: int, st: State) returns (t: Token)
    requires Get(text, pos) == LSQUARE && ReadBracket(text, pos + 1, room, st).Next?
    ensures t.List? && WritableList(t.neg, t.elems) && Starts(text, pos, TokenText(t)) && TokenText(t)[0] == LSQUARE
    ensures ReadBracket(text, pos + 1, room, st) == Next(Emit(st, HeadOf(st.items, t)), pos + |TokenText(t)|)
  {
    var neg := Get(text, pos + 1) == CARET;
    var at := if neg then pos + 2 else pos + 1;
    var elems := ListIsSpelled(text, at, neg, TotalSize(st.items) + 33 < room);
    t := List(neg, elems);
    ListTextAt(text, pos, neg, elems, at);
  }

  lemma ListTextAt(text: seq<byte>, pos: nat, neg: bool, elems: seq<Elem>, at: nat)
    requires Get(text, pos) == LSQUARE && (neg ==> Get(text, pos + 1) == CARET)
    requires at == (if neg then pos + 2 else pos + 1) && Starts(text, at, SpellList(elems))
    ensures var x := TokenText(List(neg, elems));
            x[0] == LSQUARE && Starts(text, pos, x) && pos + |x| == at + |SpellList(elems)|
  {
    var x := if neg then [LSQUARE, CARET] else [LSQUARE];
    StartsJoin(text, pos, x, SpellList(elems), TokenText(List(neg, elems)));
  }

  lemma MarkerIsToken(text: seq<byte>, pos: nat, eof: byte, sed: bool, room: int, items: seq<Item>, st: State)
    returns (t: Token)
    requires After(items).Brackets? && st == StateOf(items) && Get(text, pos) == BACKSLASH
    requires Get(text, pos + 1) == LPAREN || Get(text, pos + 1) == RPAREN
    requires ReadToken(text, pos, eof, sed, room, st).Next?
    ensures StandsAt(text, pos, eof, items, t) && IsReadAs(text, pos, eof, sed, room, items, t)
  {
    if Get(text, pos + 1) == LPAREN {
      t := Begin;
      BeginReads(text, pos, eof, sed, room, st);
      BeginState(items, st);
    } else {
      t := End;
      EndReads(text, pos, eof, sed, room, st);
      EndState(items, st);
    }
  }

  lemma RangeIsToken(text: seq<byte>, pos: nat, eof: byte, sed: bool, room: int, st: State) returns (t: Token)
    requires After(st.items).Brackets? && st.items != []
    requires Get(text, pos) == BACKSLASH && Get(text, pos + 1) == LBRACE
    requires ReadToken(text, pos, eof, sed, room, st).Next?
    ensures t.Range? && StandsAt(text, pos, eof, st.items, t)
    ensures ReadToken(text, pos, eof, sed, room, st) ==
            Next(st.(items := Extend(st.items, t)), pos + |TokenText(t)|)
  {
    assert ReadToken(text, pos, eof, sed, room, st) == AddInterval(text, pos + 2, st);
    var b := AddedIsSpelled(text, pos + 2, st);
    t := Range(b);
    StartsSplit(text, pos, [BACKSLASH, LBRACE], SpellBounds(b));
  }

  lemma AddedIsSpelled(text: seq<byte>, pos: nat, st: State) returns (b: Bounds)
    requires st.items != [] && AddInterval(text, pos, st).Next?
    ensures GoodBounds(b) && Starts(text, pos, SpellBounds(b))
    ensures AddInterval(text, pos, st) == Next(st.(items := Extend(st.items, Range(b))), pos + |SpellBounds(b)|)
  {
    b := IntervalIsSpelled(text, pos);
  }

  lemma ShortIsToken(text: seq<byte>, pos: nat, eof: byte, sed: bool, room: int, st: State) returns (t: Token)
    requires After(st.items).Brackets? && st.ended == |After(st.items).ended| && Get(text, pos) != LSQUARE
    requires Get(text, pos) == BACKSLASH ==>
               var c := Get(text, pos + 1); c != LPAREN && c != RPAREN && (c == LBRACE ==> st.items == [])
    requires ReadToken(text, pos, eof, sed, room, st).Next?
    ensures !t.Begin? && !t.End? && StandsAt(text, pos, eof, st.items, t)
    ensures ReadToken(text, pos, eof, sed, room, st) ==
            Next(st.(items := Extend(st.items, t)), pos + |TokenText(t)|)
  {
    if Get(text, pos) == BACKSLASH {
      t := EscapedIsToken(text, pos, eof, sed, room, st);
    } else {
      t := BareIsToken(text, pos, eof, sed, room, st);
    }
  }

  lemma EscapedIsToken(text: seq<byte>, pos: nat, eof: byte, sed: bool, room: int, st: State) returns (t: Token)
    requires After(st.items).Brackets? && st.ended == |After(st.items).ended| && Get(text, pos) == BACKSLASH
    requires var c := Get(text, pos + 1); c != LPAREN && c != RPAREN && (c == LBRACE ==> st.items == [])
    requires ReadToken(text, pos, eof, sed, room, st).Next?
    ensures (t.Quoted? || t.QuotedNewline? || t.Back?) && StandsAt(text, pos, eof, st.items, t)
    ensures ReadToken(text, pos, eof, sed, room, st) == Next(Emit(st, HeadOf(st.items, t)), pos + 2)
  {
    var d := Get(text, pos + 1);
    assert ReadToken(text, pos, eof, sed, room, st) == ReadEscaped(d, pos + 2, st);
    t := if d == LOWER_N then QuotedNewline else if ONE <= d <= NINE then Back(d - ONE) else Quoted(d);
  }

  lemma BareIsToken(text: seq<byte>, pos: nat, eof: byte, sed: bool, room: int, st: State) returns (t: Token)
    requires After(st.items).Brackets? && Get(text, pos) != LSQUARE && Get(text, pos) != BACKSLASH
    requires ReadToken(text, pos, eof, sed, room, st).Next?
    ensures !t.Begin? && !t.End? && StandsAt(text, pos, eof, st.items, t)
    ensures ReadToken(text, pos, eof, sed, room, st) ==
            Next(st.(items := Extend(st.items, t)), pos + |TokenText(t)|)
  {
    var c := Get(text, pos);
    if c == ASTERISK && st.items != [] && !IsMarker(Last(st.items)) {
      t := Times;
    } else {
      t := if c == PERIOD then AnyByte else if c == DOLLAR && Ends(text, pos + 1, eof) then AtEnd else Char(c);
    }
  }

  // ----- Sequences of tokens -----

  /** `toks` are written from `start` to `end`, each allowed where it stands. */
  ghost predicate Written(text: seq<byte>, start: nat, eof: byte, toks: seq<Token>, end: nat) {
    && Starts(text, start, SpellTokens(toks)) && end == start + |SpellTokens(toks)|
    && Valid(toks, !Ends(text, end, eof), eof)
  }

  /** Every token found room; the sizes only grow, so the last one tells. */
  predicate FoundRoom(toks: seq<Token>, room: int) {
    toks == [] || HasRoomFor(Build(Front(toks)), Final(toks), room)
  }

  lemma RoomBefore(toks: seq<Token>, room: int)
    requires toks != [] && TotalSize(Build(Front(toks))) < room
    ensures FoundRoom(Front(toks), room)
  {
    var front := Front(toks);
    if front != [] {
      ExtendGrows(Build(Front(front)), Final(front));
    }
  }

  lemma FirstByte(items: seq<Item>, t: Token, more: bool, eof: byte)
    requires Allowed(items, t, more, eof)
    ensures TokenText(t)[0] != eof && TokenText(t)[0] != NEWLINE
  {
  }

  /** A written sequence without its last token, and that token. */
  lemma WithoutFinal(text: seq<byte>, start: nat, eof: byte, toks: seq<Token>, end: nat) returns (mid: nat)
    requires toks != [] && Written(text, start, eof, toks, end)
    ensures Written(text, start, eof, Front(toks), mid) && !Ends(text, mid, eof)
    ensures StandsAt(text, mid, eof, Build(Front(toks)), Final(toks)) && end == mid + |TokenText(Final(toks))|
  {
    TokensUnfold(toks, !Ends(text, end, eof), eof);
    mid := StartsWith(text, start, SpellTokens(Front(toks)), TokenText(Final(toks)), SpellTokens(toks), end);
    GoesOnWith(text, mid, eof, Build(Front(toks)), Final(toks), !Ends(text, end, eof));
    WrittenBefore(text, start, eof, Front(toks), mid);
    StandsBefore(text, mid, eof, Build(Front(toks)), Final(toks), end);
  }

  lemma WrittenBefore(text: seq<byte>, start: nat, eof: byte, front: seq<Token>, mid: nat)
    requires Starts(text, start, SpellTokens(front)) && mid == start + |SpellTokens(front)|
    requires Valid(front, true, eof) && !Ends(text, mid, eof)
    ensures Written(text, start, eof, front, mid)
  {
  }

  lemma StandsBefore(text: seq<byte>, mid: nat, eof: byte, items: seq<Item>, t: Token, end: nat)
    requires Starts(text, mid, TokenText(t)) && end == mid + |TokenText(t)|
    requires Allowed(items, t, !Ends(text, end, eof), eof)
    ensures StandsAt(text, mid, eof, items, t)
  {
  }

  lemma {:induction false} TokensUnfold(toks: seq<Token>, more: bool, eof: byte)
    requires toks != [] && Valid(toks, more, eof)
    ensures SpellTokens(toks) == SpellTokens(Front(toks)) + TokenText(Final(toks))
    ensures Valid(Front(toks), true, eof) && Allowed(Build(Front(toks)), Final(toks), more, eof)
  {
  }

  lemma StartsWith(text: seq<byte>, pos: nat, x: seq<byte>, y: seq<byte>, z: seq<byte>, end: nat) returns (mid: nat)
    requires z == x + y && Starts(text, pos, z) && end == pos + |z|
    ensures mid == pos + |x| && Starts(text, pos, x) && Starts(text, mid, y) && end == mid + |y|
  {
    mid := pos + |x|;
    StartsSplit(text, pos, x, y);
  }

  /** Where a token begins, the text does not end. */
  lemma GoesOnWith(text: seq<byte>, pos: nat, eof: byte, items: seq<Item>, t: Token, more: bool)
    requires Starts(text, pos, TokenText(t)) && Allowed(items, t, more, eof)
    ensures !Ends(text, pos, eof)
  {
    StartsAt(text, pos, TokenText(t), 0);
    FirstByte(items, t, more, eof);
  }

  lemma OneMore(text: seq<byte>, pos: nat, eof: byte, sed: bool, room: int, anchored: bool, st: State, st': State,
                pos': nat)
    requires ReadToken(text, pos, eof, sed, room, st) == Next(st', pos')
    ensures ReadItems(text, pos, eof, sed, room, anchored, st) == ReadItems(text, pos', eof, sed, room, anchored, st')
  {
  }

  /** Allowed tokens are read one after the other. */
  lemma {:induction false} TokensRead(text: seq<byte>, start: nat, eof: byte, sed: bool, room: int, anchored: bool,
                                      toks: seq<Token>, end: nat)
    requires Written(text, start, eof, toks, end) && FoundRoom(toks, room)
    ensures After(Build(toks)).Brackets?
    ensures ReadItems(text, start, eof, sed, room, anchored, EMPTY) ==
            ReadItems(text, end, eof, sed, room, anchored, StateOf(Build(toks)))
    decreases |toks|
  {
    if toks == [] {
      assert StateOf([]) == EMPTY;
    } else {
      var mid := WithoutFinal(text, start, eof, toks, end);
      RoomBefore(toks, room);
      TokensRead(text, start, eof, sed, room, anchored, Front(toks), mid);
      FinalReads(text, mid, eof, sed, room, anchored, Build(Front(toks)), Final(toks), Build(toks), end);
    }
  }

  lemma FinalReads(text: seq<byte>, pos: nat, eof: byte, sed: bool, room: int, anchored: bool, items: seq<Item>,
                   t: Token, items': seq<Item>, pos': nat)
    requires StandsAt(text, pos, eof, items, t) && HasRoomFor(items, t, room)
    requires items' == Extend(items, t) && pos' == pos + |TokenText(t)|
    ensures After(items').Brackets?
    ensures ReadItems(text, pos, eof, sed, room, anchored, StateOf(items)) ==
            ReadItems(text, pos', eof, sed, room, anchored, StateOf(items'))
  {
    TokenReads(text, pos, eof, sed, room, items, t);
    ReadsOn(text, pos, eof, sed, room, anchored, items, t, items', pos');
  }

  /** What becomes of the text when no more token is read. */
  ghost predicate IsVerdict(p: Parsed, t: Step, st: State, anchored: bool) {
    match t
    case Next(_, _) => false
    case Done(pos, newline) => p == Accepted(st.items, anchored, st.nbra, pos, newline)
    case Stop(code) => p == Rejected(code)
  }

  lemma OneWritten(text: seq<byte>, start: nat, eof: byte, toks: seq<Token>, pos: nat, t: Token, toks': seq<Token>)
    requires Written(text, start, eof, toks, pos) && !Ends(text, pos, eof)
    requires StandsAt(text, pos, eof, Build(toks), t) && toks' == toks + [t]
    ensures Written(text, start, eof, toks', pos + |TokenText(t)|)
    ensures Front(toks') == toks && Final(toks') == t && Build(toks') == Extend(Build(toks), t)
  {
    FinalApart(toks, t, toks');
    OneSpelled(toks, t, toks');
    StartsJoin(text, start, SpellTokens(toks), TokenText(t), SpellTokens(toks'));
    OneValid(toks, t, toks', !Ends(text, pos + |TokenText(t)|, eof), eof);
  }

  lemma {:induction false} OneSpelled(toks: seq<Token>, t: Token, toks': seq<Token>)
    requires toks' != [] && Front(toks') == toks && Final(toks') == t
    ensures SpellTokens(toks') == SpellTokens(toks) + TokenText(t) && Build(toks') == Extend(Build(toks), t)
  {
  }

  lemma {:induction false} OneValid(toks: seq<Token>, t: Token, toks': seq<Token>, more: bool, eof: byte)
    requires toks' != [] && Front(toks') == toks && Final(toks') == t
    requires Valid(toks, true, eof) && Allowed(Build(toks), t, more, eof)
    ensures Valid(toks', more, eof)
  {
  }

  lemma FinalApart(toks: seq<Token>, t: Token, toks': seq<Token>)
    requires toks' == toks + [t]
    ensures Front(toks') == toks && Final(toks') == t
  {
  }

  lemma NotAtEnd(text: seq<byte>, pos: nat, eof: byte, sed: bool, room: int, st: State)
    ensures ReadToken(text, pos, eof, sed, room, st).Next? ==> !Ends(text, pos, eof) && TotalSize(st.items) < room
  {
  }

  lemma ReadHadRoom(text: seq<byte>, pos: nat, eof: byte, sed: bool, room: int, items: seq<Item>, t: Token)
    requires IsReadAs(text, pos, eof, sed, room, items, t) && Starts(text, pos, TokenText(t))
    ensures HasRoomFor(items, t, room)
  {
    StartsAt(text, pos, TokenText(t), 0);
    NotAtEnd(text, pos, eof, sed, room, StateOf(items));
    if t.List? {
      assert ReadToken(text, pos, eof, sed, room, StateOf(items)) == ReadBracket(text, pos + 1, room, StateOf(items));
      BracketHadRoom(text, pos + 1, room, StateOf(items));
      TotalSizeAppend(items, Plain(HeadOf(items, t)));
    }
  }

  lemma BracketHadRoom(text: seq<byte>, pos: nat, room: int, st: State)
    ensures var t := ReadBracket(text, pos, room, st);
            t.Next? ==> TotalSize(st.items) + Size(Last(t.st.items)) < room
  {
    var neg := Get(text, pos) == CARET;
    WideNeedsRoom(text, if neg then pos + 1 else pos, 0, {}, false, TotalSize(st.items) + 33 < room);
  }

  /** The reader stands at `pos` after `toks`. */
  ghost predicate Standing(text: seq<byte>, start: nat, eof: byte, room: int, toks: seq<Token>, pos: nat) {
    Written(text, start, eof, toks, pos) && FoundRoom(toks, room) && After(Build(toks)).Brackets?
  }

  /** What is read is a sequence of allowed tokens, up to where no more token is read. */
  lemma {:induction false} ReadIsWritten(text: seq<byte>, start: nat, eof: byte, sed: bool, room: int, anchored: bool,
                                         toks: seq<Token>, pos: nat)
    returns (all: seq<Token>, end: nat)
    requires Standing(text, start, eof, room, toks, pos)
    ensures Standing(text, start, eof, room, all, end)
    ensures var st := StateOf(Build(all));
            IsVerdict(ReadItems(text, pos, eof, sed, room, anchored, StateOf(Build(toks))),
                      ReadToken(text, end, eof, sed, room, st), st, anchored)
    decreases if pos < |text| then |text| - pos else 0, room - TotalSize(Build(toks))
  {
    if !ReadToken(text, pos, eof, sed, room, StateOf(Build(toks))).Next? {
      all, end := toks, pos;
    } else {
      var toks', pos' := NextIsWritten(text, start, eof, sed, room, anchored, toks, pos);
      all, end := ReadIsWritten(text, start, eof, sed, room, anchored, toks', pos');
    }
  }

  lemma NextIsWritten(text: seq<byte>, start: nat, eof: byte, sed: bool, room: int, anchored: bool, toks: seq<Token>,
                      pos: nat)
    returns (toks': seq<Token>, pos': nat)
    requires Standing(text, start, eof, room, toks, pos)
    requires ReadToken(text, pos, eof, sed, room, StateOf(Build(toks))).Next?
    ensures Standing(text, start, eof, room, toks', pos')
    ensures ReadItems(text, pos, eof, sed, room, anchored, StateOf(Build(toks))) ==
            ReadItems(text, pos', eof, sed, room, anchored, StateOf(Build(toks')))
    ensures pos < pos' && TotalSize(Build(toks)) < room
    ensures pos >= |text| ==> TotalSize(Build(toks')) > TotalSize(Build(toks))
  {
    var t := TokenIsSpelled(text, pos, eof, sed, room, Build(toks));
    toks', pos' := toks + [t], pos + |TokenText(t)|;
    HadRoom(text, pos, eof, sed, room, Build(toks), t);
    StandsOn(text, start, eof, room, toks, pos, t, toks', pos');
    ReadsOn(text, pos, eof, sed, room, anchored, Build(toks), t, Build(toks'), pos');
    Progresses(text, pos, eof, sed, room, Build(toks), t, Build(toks'), pos');
  }

  lemma StandsOn(text: seq<byte>, start: nat, eof: byte, room: int, toks: seq<Token>, pos: nat, t: Token,
                 toks': seq<Token>, pos': nat)
    requires Standing(text, start, eof, room, toks, pos) && StandsAt(text, pos, eof, Build(toks), t)
    requires HasRoomFor(Build(toks), t, room) && !Ends(text, pos, eof)
    requires toks' == toks + [t] && pos' == pos + |TokenText(t)|
    ensures Standing(text, start, eof, room, toks', pos') && Build(toks') == Extend(Build(toks), t)
  {
    OneWritten(text, start, eof, toks, pos, t, toks');
    ExtendBalanced(Build(toks), t, !Ends(text, pos', eof), eof);
  }

  lemma HadRoom(text: seq<byte>, pos: nat, eof: byte, sed: bool, room: int, items: seq<Item>, t: Token)
    requires IsReadAs(text, pos, eof, sed, room, items, t) && Starts(text, pos, TokenText(t))
    ensures HasRoomFor(items, t, room) && !Ends(text, pos, eof)
  {
    NotAtEnd(text, pos, eof, sed, room, StateOf(items));
    ReadHadRoom(text, pos, eof, sed, room, items, t);
  }

  lemma ReadsOn(text: seq<byte>, pos: nat, eof: byte, sed: bool, room: int, anchored: bool, items: seq<Item>, t: Token,
                items': seq<Item>, pos': nat)
    requires IsReadAs(text, pos, eof, sed, room, items, t)
    requires items' == Extend(items, t) && pos' == pos + |TokenText(t)|
    ensures ReadItems(text, pos, eof, sed, room, anchored, StateOf(items)) ==
            ReadItems(text, pos', eof, sed, room, anchored, StateOf(items'))
  {
    OneMore(text, pos, eof, sed, room, anchored, StateOf(items), StateOf(items'), pos');
  }

  lemma Progresses(text: seq<byte>, pos: nat, eof: byte, sed: bool, room: int, items: seq<Item>, t: Token,
                   items': seq<Item>, pos': nat)
    requires IsReadAs(text, pos, eof, sed, room, items, t)
    requires items' == Extend(items, t) && pos' == pos + |TokenText(t)|
    ensures pos < pos' && TotalSize(items) < room && (pos >= |text| ==> TotalSize(items') > TotalSize(items))
  {
    TokenProgress(text, pos, eof, sed, room, StateOf(items));
  }

  // ----- Exactly the accepted texts -----

  /** The text is not empty, and is anchored exactly if it begins with a circumflex. */
  predicate Begins(text: seq<byte>, eof: byte, anchored: bool) {
    !Ends(text, 0, eof) && (Get(text, 0) == CARET <==> anchored)
  }

  /** `toks` are written in the text after the anchor, up to `end`. */
  ghost predicate Spans(text: seq<byte>, eof: byte, toks: seq<Token>, anchored: bool, end: nat) {
    Begins(text, eof, anchored) && Written(text, if anchored then 1 else 0, eof, toks, end)
  }

  /** What an end at `end` makes of the items. */
  function Outcome(text: seq<byte>, eof: byte, sed: bool, items: seq<Item>, anchored: bool, end: nat): Parsed
    requires After(items).Brackets?
  {
    if Get(text, end) != eof && sed then Rejected(36)
    else if After(items).stack != [] then Rejected(42)
    else if Get(text, end) == eof then Accepted(items, anchored, After(items).begun, end + 1, false)
    else Accepted(items, anchored, After(items).begun, end, true)
  }

  /**
   A text that is written as tokens up to its end denotes the items that the tokens build:
   for every delimiter, and with the delimiter or a newline at the end.
   */
  lemma PatternIsRead(text: seq<byte>, eof: byte, sed: bool, room: int, first: byte, toks: seq<Token>, anchored: bool,
                      end: nat)
    requires Spans(text, eof, toks, anchored, end) && Ends(text, end, eof) && TotalSize(Build(toks)) < room
    ensures After(Build(toks)).Brackets?
    ensures Parse(text, eof, sed, room, first) == Outcome(text, eof, sed, Build(toks), anchored, end)
  {
    AllHadRoom(toks, room);
    TokensRead(text, if anchored then 1 else 0, eof, sed, room, anchored, toks, end);
  }

  lemma AllHadRoom(toks: seq<Token>, room: int)
    requires TotalSize(Build(toks)) < room
    ensures FoundRoom(toks, room)
  {
    if toks != [] {
      ExtendGrows(Build(Front(toks)), Final(toks));
    }
  }

  /** `toks` make the whole of an accepted text, whose reading is `p`. */
  ghost predicate IsPattern(text: seq<byte>, eof: byte, sed: bool, room: int, toks: seq<Token>, anchored: bool,
                          end: nat, p: Parsed)
  {
    && Spans(text, eof, toks, anchored, end) && Ends(text, end, eof) && TotalSize(Build(toks)) < room
    && After(Build(toks)).Brackets? && p == Outcome(text, eof, sed, Build(toks), anchored, end)
  }

  /**
   The grammar is exact. A text is accepted if and only if it is written as allowed tokens
   up to its end with all groups closed, and then as the items that the tokens build.
   */
  lemma AcceptedIff(text: seq<byte>, eof: byte, sed: bool, room: int, first: byte, p: Parsed)
    requires p.Accepted?
    ensures Parse(text, eof, sed, room, first) == p <==>
            exists toks, anchored, end :: IsPattern(text, eof, sed, room, toks, anchored, end, p)
  {
    if toks, anchored, end :| IsPattern(text, eof, sed, room, toks, anchored, end, p) {
      PatternIsRead(text, eof, sed, room, first, toks, anchored, end);
    }
    if Parse(text, eof, sed, room, first) == p {
      var anchored := Get(text, 0) == CARET;
      var toks, end := ParsedIsWritten(text, eof, sed, room, first);
      AcceptedAtEnd(text, eof, sed, room, Build(toks), anchored, end, p);
      assert IsPattern(text, eof, sed, room, toks, anchored, end, p);
    }
  }

  /** Where an accepted text ended: at a newline, which is left there, or at the delimiter, which is not. */
  lemma EndIsThere(text: seq<byte>, eof: byte, sed: bool, room: int, first: byte)
    requires Parse(text, eof, sed, room, first).Accepted?
    ensures var p := Parse(text, eof, sed, room, first);
            if p.newline then Get(text, p.pos) == NEWLINE != eof && !sed
            else p.pos > 0 && Get(text, p.pos - 1) == eof
  {
    var p := Parse(text, eof, sed, room, first);
    AcceptedIff(text, eof, sed, room, first, p);
    var toks, anchored, end :| IsPattern(text, eof, sed, room, toks, anchored, end, p);
    OutcomeEnds(text, eof, sed, Build(toks), anchored, end);
  }

  lemma OutcomeEnds(text: seq<byte>, eof: byte, sed: bool, items: seq<Item>, anchored: bool, end: nat)
    requires After(items).Brackets? && Ends(text, end, eof)
    ensures var p := Outcome(text, eof, sed, items, anchored, end);
            p.Accepted? ==> if p.newline then p.pos == end && Get(text, end) == NEWLINE != eof && !sed
                            else p.pos == end + 1 && Get(text, end) == eof
  {
  }

  lemma AcceptedAtEnd(text: seq<byte>, eof: byte, sed: bool, room: int, items: seq<Item>, anchored: bool, end: nat,
                      p: Parsed)
    requires After(items).Brackets? && p.Accepted?
    requires IsVerdict(p, ReadToken(text, end, eof, sed, room, StateOf(items)), StateOf(items), anchored)
    ensures Ends(text, end, eof) && TotalSize(items) < room && p == Outcome(text, eof, sed, items, anchored, end)
  {
  }

  lemma ParsedIsWritten(text: seq<byte>, eof: byte, sed: bool, room: int, first: byte)
    returns (toks: seq<Token>, end: nat)
    requires !Ends(text, 0, eof)
    ensures Spans(text, eof, toks, Get(text, 0) == CARET, end) && FoundRoom(toks, room)
            && After(Build(toks)).Brackets?
    ensures var st := StateOf(Build(toks));
            IsVerdict(Parse(text, eof, sed, room, first), ReadToken(text, end, eof, sed, room, st), st,
                      Get(text, 0) == CARET)
  {
    var anchored := Get(text, 0) == CARET;
    var start := if anchored then 1 else 0;
    assert StateOf([]) == EMPTY;
    toks, end := ReadIsWritten(text, start, eof, sed, room, anchored, [], start);
  }

  /** A pattern whose code does not fit is refused with error 50. */
  lemma {:induction false} TooLongIsRefused(text: seq<byte>, start: nat, eof: byte, sed: bool, room: int,
                                            anchored: bool, toks: seq<Token>, end: nat)
    requires Written(text, start, eof, toks, end) && TotalSize(Build(toks)) >= room
    ensures ReadItems(text, start, eof, sed, room, anchored, EMPTY) == Rejected(50)
    decreases |toks|
  {
    if toks == [] {
      assert StateOf([]) == EMPTY;
    } else {
      var mid := WithoutFinal(text, start, eof, toks, end);
      if TotalSize(Build(Front(toks))) >= room {
        TooLongIsRefused(text, start, eof, sed, room, anchored, Front(toks), mid);
      } else {
        LastLacksRoom(text, start, eof, sed, room, anchored, toks, end, mid);
      }
    }
  }

  lemma LastLacksRoom(text: seq<byte>, start: nat, eof: byte, sed: bool, room: int, anchored: bool, toks: seq<Token>,
                      end: nat, mid: nat)
    requires toks != [] && Written(text, start, eof, toks, end) && TotalSize(Build(toks)) >= room
    requires TotalSize(Build(Front(toks))) < room && Written(text, start, eof, Front(toks), mid)
    requires StandsAt(text, mid, eof, Build(Front(toks)), Final(toks))
    ensures ReadItems(text, start, eof, sed, room, anchored, EMPTY) == Rejected(50)
  {
    if Final(toks).List? {
      RoomBefore(toks, room);
      TokensRead(text, start, eof, sed, room, anchored, Front(toks), mid);
      ListLacksRoom(text, mid, eof, sed, room, Build(Front(toks)), Final(toks));
    } else {
      TokensRead(text, start, eof, sed, room, anchored, toks, end);
      FullIsRefused(text, end, eof, sed, room, anchored, StateOf(Build(toks)));
    }
  }

  lemma FullIsRefused(text: seq<byte>, pos: nat, eof: byte, sed: bool, room: int, anchored: bool, st: State)
    requires TotalSize(st.items) >= room
    ensures ReadItems(text, pos, eof, sed, room, anchored, st) == Rejected(50)
  {
  }

  lemma ListLacksRoom(text: seq<byte>, pos: nat, eof: byte, sed: bool, room: int, items: seq<Item>, t: Token)
    requires t.List? && StandsAt(text, pos, eof, items, t)
    requires TotalSize(items) < room <= TotalSize(Extend(items, t))
    ensures ReadToken(text, pos, eof, sed, room, StateOf(items)) == Stop(50)
  {
    ExtendGrows(items, t);
    var x := ListText(text, pos, t.neg, t.elems);
    assert ReadToken(text, pos, eof, sed, room, StateOf(items)) == ReadBracket(text, pos + 1, room, StateOf(items));
    BracketLacksRoom(text, pos, room, StateOf(items), t.neg, t.elems, pos + |x|);
  }

  lemma BracketLacksRoom(text: seq<byte>, pos: nat, room: int, st: State, neg: bool, elems: seq<Elem>, at: nat)
    requires WritableList(neg, elems) && (Get(text, pos + 1) == CARET <==> neg)
    requires at == (if neg then pos + 2 else pos + 1) && Starts(text, at, SpellList(elems))
    requires TotalSize(st.items) + Size(Plain(Bracket(neg, Denote(0, elems), AnyHigh(elems)))) >= room
    ensures ReadBracket(text, pos + 1, room, st) == Stop(50)
  {
    if TotalSize(st.items) + 17 < room {
      HighLacksRoom(text, at, neg, elems);
    }
  }

  lemma HighLacksRoom(text: seq<byte>, pos: nat, neg: bool, elems: seq<Elem>)
    requires WritableList(neg, elems) && Starts(text, pos, SpellList(elems)) && AnyHigh(elems)
    ensures ReadList(text, pos, 0, {}, false, false) == BadBracket(50)
  {
    var c, rest := elems[0].c, elems[1..];
    StartsSplit(text, pos, [c], SpellList(rest));
    StartsAt(text, pos, [c], 0);
    if c < 128 {
      RestLacksRoom(text, pos + 1, rest, c, {} + {c});
    }
  }

  lemma {:induction false} RestLacksRoom(text: seq<byte>, pos: nat, elems: seq<Elem>, lc: byte, members: set<byte>)
    requires WritableRest(lc, elems) && Starts(text, pos, SpellList(elems)) && AnyHigh(elems)
    ensures ReadMore(text, pos, lc, members, false, false) == BadBracket(50)
    decreases |elems|
  {
    var e, rest := elems[0], elems[1..];
    StartsSplit(text, pos, SpellElem(e), SpellList(rest));
    StartsAt(text, pos, SpellElem(e), 0);
    if e.To? {
      StartsAt(text, pos, SpellElem(e), 1);
    }
    if Trail(e) < 128 {
      ElemReads(text, pos, e, lc, members, false, false);
      RestLacksRoom(text, pos + |SpellElem(e)|, rest, Trail(e), members + DenoteElem(lc, e));
    }
  }

  /** Hence what a text that is written as tokens up to its end is read as, whatever the room. */
  lemma PatternOutcome(text: seq<byte>, eof: byte, sed: bool, room: int, first: byte, toks: seq<Token>,
                       anchored: bool, end: nat)
    requires Spans(text, eof, toks, anchored, end) && Ends(text, end, eof)
    ensures After(Build(toks)).Brackets?
    ensures Parse(text, eof, sed, room, first) ==
            if TotalSize(Build(toks)) >= room then Rejected(50)
            else Outcome(text, eof, sed, Build(toks), anchored, end)
  {
    ValidIsBalanced(toks, false, eof);
    if TotalSize(Build(toks)) >= room {
      TooLongIsRefused(text, if anchored then 1 else 0, eof, sed, room, anchored, toks, end);
    } else {
      PatternIsRead(text, eof, sed, room, first, toks, anchored, end);
    }
  }
}
