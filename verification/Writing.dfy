/**
 Writing a list of items down: one text for every list that has any, and the proof that
 reading it gives the list back, for every delimiter.
 */
module Writing {
  import opened Bits
  import opened Pattern
  import opened Code
  import opened Syntax
  import opened Groups
  import opened Spelling
  import opened Grammar

  predicate Special(c: byte) {
    c == PERIOD || c == ASTERISK || c == LSQUARE || c == BACKSLASH || c == DOLLAR || c == CARET
  }

  predicate SpelledBy(h: Head, elems: seq<Elem>) {
    match h
    case Lit(c) => c != 0
    case Bracket(neg, members, wide) =>
      WritableList(neg, elems) && members == Denote(0, elems) && wide == AnyHigh(elems)
    case _ => true
  }

  predicate SpellableItem(it: Item, elems: seq<Elem>) {
    SpelledBy(it.head, elems) && forall k :: 0 <= k < |it.ranges| ==> WritableInterval(it.ranges[k])
  }

  predicate NoDollar(items: seq<Item>) {
    forall k :: 0 <= k < |items| ==> !items[k].head.Dollar?
  }

  /** The patterns that can be written down; `lists` are the elements of their bracket expressions. */
  ghost predicate Spellable(items: seq<Item>, lists: seq<seq<Elem>>) {
    && |lists| == |items|
    && AllSound(items) && RefsCounted(items) && DollarLast(items)
    && After(items).Brackets? && After(items).stack == [] && After(items).begun <= NBRA
    && forall k :: 0 <= k < |items| ==> SpellableItem(items[k], lists[k])
  }

  // ----- Tokens for items -----

  /** A literal is quoted if it would mean something else, or is the delimiter and can be. */
  function LiteralToken(c: byte, eof: byte): Token {
    if c == NEWLINE then QuotedNewline
    else if Special(c) || (c == eof && c != LBRACE && Quotable([], c)) then Quoted(c)
    else Char(c)
  }

  function HeadToken(h: Head, elems: seq<Elem>, eof: byte): Token {
    match h
    case Lit(c) => LiteralToken(c, eof)
    case Dot => AnyByte
    case Bracket(neg, _, _) => List(neg, elems)
    case Open(_) => Begin
    case Close(_) => End
    case Ref(g) => Back(g)
    case Dollar => AtEnd
  }

  function RangeTokens(ranges: seq<Interval>): seq<Token> {
    if ranges == [] then []
    else RangeTokens(ranges[..|ranges| - 1]) + [Range(Shortest(ranges[|ranges| - 1]))]
  }

  function ItemTokens(it: Item, elems: seq<Elem>, eof: byte): seq<Token> {
    [HeadToken(it.head, elems, eof)] + RangeTokens(it.ranges) + if it.star then [Times] else []
  }

  function TokensOf(items: seq<Item>, lists: seq<seq<Elem>>, eof: byte): seq<Token>
    requires |lists| == |items|
  {
    if items == [] then []
    else
      var n := |items| - 1;
      TokensOf(items[..n], lists[..n], eof) + ItemTokens(items[n], lists[n], eof)
  }

  /** No token of the sequence begins with the delimiter. */
  predicate Clear(toks: seq<Token>, eof: byte) {
    forall k :: 0 <= k < |toks| ==> TokenText(toks[k])[0] != eof
  }

  // ----- The tokens build the items -----

  lemma OneToken(toks: seq<Token>, t: Token, more: bool, eof: byte)
    requires Valid(toks, true, eof) && Allowed(Build(toks), t, more, eof)
    ensures Valid(toks + [t], more, eof) && Build(toks + [t]) == Extend(Build(toks), t)
  {
    assert Front(toks + [t]) == toks && Final(toks + [t]) == t;
  }

  /** Head `h` may stand after `items`. */
  ghost predicate CanFollow(items: seq<Item>, h: Head, more: bool) {
    && After(items).Brackets? && Enter(After(items), h).Brackets?
    && match h
       case Open(g) => After(items).begun < NBRA
       case Ref(g) => g < NBRA && g < |After(items).ended|
       case Dollar => !more
       case _ => true
  }

  lemma HeadIsAllowed(items: seq<Item>, h: Head, elems: seq<Elem>, more: bool, eof: byte)
    requires SpelledBy(h, elems) && CanFollow(items, h, more) && TokenText(HeadToken(h, elems, eof))[0] != eof
    ensures var t := HeadToken(h, elems, eof); Allowed(items, t, more, eof) && !IsModifier(t) && HeadOf(items, t) == h
  {
  }

  /** `toks` are allowed and build `items` and then `it`. */
  predicate Makes(toks: seq<Token>, more: bool, eof: byte, items: seq<Item>, it: Item) {
    Valid(toks, more, eof) && Build(toks) == items + [it]
  }

  lemma HeadBuilds(toks: seq<Token>, items: seq<Item>, h: Head, elems: seq<Elem>, more: bool, eof: byte)
    requires Valid(toks, true, eof) && Build(toks) == items
    requires SpelledBy(h, elems) && CanFollow(items, h, more) && TokenText(HeadToken(h, elems, eof))[0] != eof
    ensures Makes(toks + [HeadToken(h, elems, eof)], more, eof, items, Plain(h))
  {
    HeadIsAllowed(items, h, elems, more, eof);
    OneToken(toks, HeadToken(h, elems, eof), more, eof);
  }

  /** A modifier changes the last item. */
  lemma ModifierBuilds(toks: seq<Token>, items: seq<Item>, it: Item, t: Token, it': Item, more: bool, eof: byte)
    requires Makes(toks, true, eof, items, it) && IsModifier(t) && it' == Modified(it, t)
    requires Allowed(items + [it], t, more, eof)
    ensures Makes(toks + [t], more, eof, items, it')
  {
    OneToken(toks, t, more, eof);
    LastModified(items, it, t);
  }

  lemma LastModified(items: seq<Item>, it: Item, t: Token)
    requires IsModifier(t)
    ensures Extend(items + [it], t) == items + [Modified(it, t)]
  {
    var all := items + [it];
    assert all[..|all| - 1] == items && Last(all) == it;
  }

  lemma RangeBuilds(toks: seq<Token>, items: seq<Item>, h: Head, ranges: seq<Interval>, r: Interval, eof: byte)
    requires Makes(toks, true, eof, items, Item(h, false, ranges)) && WritableInterval(r) && eof != BACKSLASH
    ensures Makes(toks + [Range(Shortest(r))], true, eof, items, Item(h, false, ranges + [r]))
  {
    ValidIsBalanced(toks, true, eof);
    ShortestExpresses(r);
    ModifierBuilds(toks, items, Item(h, false, ranges), Range(Shortest(r)), Item(h, false, ranges + [r]), true, eof);
  }

  lemma {:induction false} RangesBuild(toks: seq<Token>, items: seq<Item>, h: Head, ranges: seq<Interval>, eof: byte)
    requires Makes(toks, true, eof, items, Plain(h))
    requires forall j :: 0 <= j < |ranges| ==> WritableInterval(ranges[j])
    requires ranges != [] ==> eof != BACKSLASH
    ensures Makes(toks + RangeTokens(ranges), true, eof, items, Item(h, false, ranges))
    decreases |ranges|
  {
    if ranges == [] {
      assert toks + RangeTokens(ranges) == toks;
    } else {
      var front, r := ranges[..|ranges| - 1], ranges[|ranges| - 1];
      RangesBuild(toks, items, h, front, eof);
      RangeBuilds(toks + RangeTokens(front), items, h, front, r, eof);
      OneRangeMore(toks, front, r, ranges);
    }
  }

  lemma {:induction false} OneRangeMore(toks: seq<Token>, front: seq<Interval>, r: Interval, ranges: seq<Interval>)
    requires ranges != [] && front == ranges[..|ranges| - 1] && r == ranges[|ranges| - 1]
    ensures toks + RangeTokens(front) + [Range(Shortest(r))] == toks + RangeTokens(ranges) && front + [r] == ranges
  {
    Reassociate(toks, RangeTokens(front), [Range(Shortest(r))]);
  }

  lemma Reassociate(xs: seq<Token>, ys: seq<Token>, zs: seq<Token>)
    ensures xs + ys + zs == xs + (ys + zs)
  {
  }

  lemma TimesBuilds(toks: seq<Token>, items: seq<Item>, it: Item, more: bool, eof: byte)
    requires Makes(toks, true, eof, items, it.(star := false)) && it.star && SoundItem(it) && eof != ASTERISK
    ensures Makes(toks + [Times], more, eof, items, it)
  {
    ValidIsBalanced(toks, true, eof);
    ModifierBuilds(toks, items, it.(star := false), Times, it, more, eof);
  }

  /** Only `$` depends on whether the pattern ends after it. */
  lemma EndsOrNot(toks: seq<Token>, more: bool, eof: byte)
    requires Valid(toks, true, eof) && (toks != [] ==> Final(toks) != Char(DOLLAR))
    ensures Valid(toks, more, eof)
  {
  }

  lemma ModifiersBuild(toks: seq<Token>, items: seq<Item>, it: Item, more: bool, eof: byte)
    requires Makes(toks, true, eof, items, Plain(it.head)) && Repeated(it)
    requires SoundItem(it) && forall j :: 0 <= j < |it.ranges| ==> WritableInterval(it.ranges[j])
    requires (it.ranges != [] ==> eof != BACKSLASH) && (it.star ==> eof != ASTERISK)
    ensures Makes(toks + RangeTokens(it.ranges) + if it.star then [Times] else [], more, eof, items, it)
  {
    var mid := toks + RangeTokens(it.ranges);
    RangesBuild(toks, items, it.head, it.ranges, eof);
    if it.star {
      TimesBuilds(mid, items, it, more, eof);
    } else {
      assert mid + [] == mid;
      LastRange(toks, it.ranges);
      EndsOrNot(mid, more, eof);
    }
  }

  lemma LastRange(toks: seq<Token>, ranges: seq<Interval>)
    requires ranges != []
    ensures var all := toks + RangeTokens(ranges); all != [] && Final(all).Range?
  {
  }

  lemma ItemBuilds(toks: seq<Token>, items: seq<Item>, it: Item, elems: seq<Elem>, more: bool, eof: byte)
    requires Valid(toks, true, eof) && Build(toks) == items
    requires SoundItem(it) && SpellableItem(it, elems) && CanFollow(items, it.head, more)
    requires Clear(ItemTokens(it, elems, eof), eof)
    ensures Makes(toks + ItemTokens(it, elems, eof), more, eof, items, it)
  {
    var t := HeadToken(it.head, elems, eof);
    var xs, ys := RangeTokens(it.ranges), if it.star then [Times] else [];
    assert ItemTokens(it, elems, eof)[0] == t;
    Reassociate(toks, [t] + xs, ys);
    Reassociate(toks, [t], xs);
    if Repeated(it) {
      ClearModifiers(it, elems, eof);
      HeadBuilds(toks, items, it.head, elems, true, eof);
      ModifiersBuild(toks + [t], items, it, more, eof);
    } else {
      HeadBuilds(toks, items, it.head, elems, more, eof);
      assert toks + [t] + xs + ys == toks + [t];
    }
  }

  lemma ClearModifiers(it: Item, elems: seq<Elem>, eof: byte)
    requires Clear(ItemTokens(it, elems, eof), eof)
    ensures (it.ranges != [] ==> eof != BACKSLASH) && (it.star ==> eof != ASTERISK)
  {
    var toks := ItemTokens(it, elems, eof);
    if it.ranges != [] {
      LastRange([HeadToken(it.head, elems, eof)], it.ranges);
      assert toks[|RangeTokens(it.ranges)|].Range?;
    }
    if it.star {
      assert toks[|toks| - 1] == Times;
    }
  }

  // ----- Whole lists -----

  /** What every prefix of a list that can be written down satisfies; `more`: it goes on. */
  ghost predicate Composes(items: seq<Item>, lists: seq<seq<Elem>>, more: bool) {
    && |lists| == |items| && AllSound(items) && RefsCounted(items) && DollarLast(items) && (more ==> NoDollar(items))
    && After(items).Brackets? && After(items).begun <= NBRA
    && forall k :: 0 <= k < |items| ==> SpellableItem(items[k], lists[k])
  }

  lemma ComposesBefore(items: seq<Item>, lists: seq<seq<Elem>>, more: bool, n: nat)
    requires Composes(items, lists, more) && |items| == n + 1
    ensures Composes(items[..n], lists[..n], true) && CanFollow(items[..n], items[n].head, more)
    ensures items == items[..n] + [items[n]]
  {
    PrefixBalanced(items, n);
    AfterPrefix(items, n);
    assert items[..n + 1] == items;
    CountedBefore(items, n);
    assert SoundItem(items[n]);
  }

  lemma CountedBefore(items: seq<Item>, n: nat)
    requires RefsCounted(items) && n <= |items|
    ensures RefsCounted(items[..n])
    ensures n < |items| && items[n].head.Ref? ==> CountedAt(items, n)
  {
    forall k | 0 <= k < n && items[..n][k].head.Ref? ensures CountedAt(items[..n], k) {
      assert CountedAt(items, k);
      assert items[..n][..k] == items[..k];
    }
  }

  lemma {:induction false} TokensBuild(items: seq<Item>, lists: seq<seq<Elem>>, more: bool, eof: byte)
    requires Composes(items, lists, more) && Clear(TokensOf(items, lists, eof), eof)
    ensures Valid(TokensOf(items, lists, eof), more, eof) && Build(TokensOf(items, lists, eof)) == items
    decreases |items|
  {
    if items == [] {
    } else {
      var n := |items| - 1;
      var toks := TokensOf(items[..n], lists[..n], eof);
      ComposesBefore(items, lists, more, n);
      ClearSplits(toks, ItemTokens(items[n], lists[n], eof), eof);
      TokensBuild(items[..n], lists[..n], true, eof);
      assert SoundItem(items[n]) && SpellableItem(items[n], lists[n]);
      ItemBuilds(toks, items[..n], items[n], lists[n], more, eof);
    }
  }

  lemma ClearSplits(xs: seq<Token>, ys: seq<Token>, eof: byte)
    ensures Clear(xs + ys, eof) <==> Clear(xs, eof) && Clear(ys, eof)
  {
    if Clear(xs + ys, eof) {
      assert forall k :: 0 <= k < |xs| ==> (xs + ys)[k] == xs[k];
      assert forall k :: 0 <= k < |ys| ==> (xs + ys)[|xs| + k] == ys[k];
    }
  }

  // ----- Texts and delimiters -----

  function Mark(anchored: bool): seq<byte> {
    if anchored then [CARET] else []
  }

  function Spell(items: seq<Item>, lists: seq<seq<Elem>>, anchored: bool, eof: byte): seq<byte>
    requires |lists| == |items|
  {
    Mark(anchored) + SpellTokens(TokensOf(items, lists, eof))
  }

  /** A delimiter that can be quoted as a literal and has no other meaning. */
  predicate PlainDelimiter(eof: byte) {
    eof == NEWLINE || (!Special(eof) && eof != LBRACE && Quotable([], eof))
  }

  /** A list can be written before `eof` if that is a plain delimiter or does not occur in the text. */
  predicate CanDelimit(items: seq<Item>, lists: seq<seq<Elem>>, anchored: bool, eof: byte)
    requires |lists| == |items|
  {
    PlainDelimiter(eof) || eof !in Spell(items, lists, anchored, eof)
  }

  lemma {:induction false} PlainIsClear(items: seq<Item>, lists: seq<seq<Elem>>, eof: byte)
    requires |lists| == |items| && PlainDelimiter(eof)
    ensures Clear(TokensOf(items, lists, eof), eof)
    decreases |items|
  {
    if items == [] {
    } else {
      var n := |items| - 1;
      PlainIsClear(items[..n], lists[..n], eof);
      ItemIsClear(items[n], lists[n], eof);
      ClearSplits(TokensOf(items[..n], lists[..n], eof), ItemTokens(items[n], lists[n], eof), eof);
    }
  }

  lemma ItemIsClear(it: Item, elems: seq<Elem>, eof: byte)
    requires PlainDelimiter(eof)
    ensures Clear(ItemTokens(it, elems, eof), eof)
  {
    HeadIsClear(it.head, elems, eof);
    RangesAreClear(it.ranges, eof);
    ThreeAreClear([HeadToken(it.head, elems, eof)], RangeTokens(it.ranges), if it.star then [Times] else [], eof);
  }

  lemma HeadIsClear(h: Head, elems: seq<Elem>, eof: byte)
    requires PlainDelimiter(eof)
    ensures Clear([HeadToken(h, elems, eof)], eof)
  {
  }

  lemma ThreeAreClear(xs: seq<Token>, ys: seq<Token>, zs: seq<Token>, eof: byte)
    requires Clear(xs, eof) && Clear(ys, eof) && Clear(zs, eof)
    ensures Clear(xs + ys + zs, eof)
  {
    ClearSplits(xs, ys, eof);
    ClearSplits(xs + ys, zs, eof);
  }

  lemma {:induction false} RangesAreClear(ranges: seq<Interval>, eof: byte)
    requires eof != BACKSLASH
    ensures Clear(RangeTokens(ranges), eof)
  {
    if ranges == [] {
    } else {
      var n := |ranges| - 1;
      RangesAreClear(ranges[..n], eof);
      ClearSplits(RangeTokens(ranges[..n]), [Range(Shortest(ranges[n]))], eof);
    }
  }

  lemma {:induction false} AbsentIsClear(toks: seq<Token>, eof: byte)
    requires eof !in SpellTokens(toks)
    ensures Clear(toks, eof)
    decreases |toks|
  {
    if toks == [] {
    } else {
      AbsentBefore(toks, eof);
      AbsentIsClear(Front(toks), eof);
      OneMoreClear(Front(toks), Final(toks), toks, eof);
    }
  }

  lemma {:induction false} AbsentBefore(toks: seq<Token>, eof: byte)
    requires toks != [] && eof !in SpellTokens(toks)
    ensures eof !in SpellTokens(Front(toks)) && TokenText(Final(toks))[0] != eof
  {
    var x, y := SpellTokens(Front(toks)), TokenText(Final(toks));
    assert SpellTokens(toks) == x + y && y[0] in y;
  }

  lemma OneMoreClear(front: seq<Token>, t: Token, toks: seq<Token>, eof: byte)
    requires Clear(front, eof) && TokenText(t)[0] != eof && toks != [] && front == Front(toks) && t == Final(toks)
    ensures Clear(toks, eof)
  {
    forall k | 0 <= k < |toks| ensures TokenText(toks[k])[0] != eof {
      assert k < |front| ==> toks[k] == front[k];
    }
  }

  lemma DelimitedIsClear(items: seq<Item>, lists: seq<seq<Elem>>, anchored: bool, eof: byte)
    requires |lists| == |items| && CanDelimit(items, lists, anchored, eof)
    ensures Clear(TokensOf(items, lists, eof), eof) && (anchored ==> eof != CARET)
  {
    if PlainDelimiter(eof) {
      PlainIsClear(items, lists, eof);
    } else {
      assert anchored ==> CARET in Mark(anchored);
      AbsentIsClear(TokensOf(items, lists, eof), eof);
    }
  }

  /** The first byte of a text is the first byte of its first token. */
  lemma {:induction false} FirstOfText(toks: seq<Token>)
    requires toks != []
    ensures SpellTokens(toks) != [] && SpellTokens(toks)[0] == TokenText(toks[0])[0]
    decreases |toks|
  {
    if |toks| == 1 {
      assert Front(toks) == [];
    } else {
      FirstOfText(Front(toks));
    }
  }

  lemma {:induction false} FirstOfTokens(items: seq<Item>, lists: seq<seq<Elem>>, eof: byte)
    requires |lists| == |items| && items != []
    ensures var toks := TokensOf(items, lists, eof); toks != [] && toks[0] == HeadToken(items[0].head, lists[0], eof)
    decreases |items|
  {
    var n := |items| - 1;
    if n == 0 {
      assert TokensOf(items[..n], lists[..n], eof) == [];
    } else {
      FirstOfTokens(items[..n], lists[..n], eof);
    }
  }

  /** The text begins as a pattern that is anchored or not. */
  lemma TextBegins(text: seq<byte>, items: seq<Item>, lists: seq<seq<Elem>>, anchored: bool, eof: byte,
                   toks: seq<Token>)
    requires |lists| == |items| && toks == TokensOf(items, lists, eof) && Clear(toks, eof)
    requires if anchored then eof != CARET else items != []
    requires forall k :: 0 <= k < |items| ==> SpellableItem(items[k], lists[k])
    requires Starts(text, 0, Spell(items, lists, anchored, eof))
    ensures Begins(text, eof, anchored) && Starts(text, |Mark(anchored)|, SpellTokens(toks))
  {
    AfterMark(text, anchored, SpellTokens(toks), Spell(items, lists, anchored, eof));
    if !anchored {
      FirstOfTokens(items, lists, eof);
      assert SpellableItem(items[0], lists[0]);
      BareBegins(text, toks, items[0].head, lists[0], eof);
    }
  }

  lemma AfterMark(text: seq<byte>, anchored: bool, y: seq<byte>, x: seq<byte>)
    requires x == Mark(anchored) + y && Starts(text, 0, x)
    ensures Starts(text, |Mark(anchored)|, y) && (anchored ==> Get(text, 0) == CARET)
  {
    StartsSplit(text, 0, Mark(anchored), y);
    if anchored {
      StartsAt(text, 0, Mark(anchored), 0);
    }
  }

  lemma BareBegins(text: seq<byte>, toks: seq<Token>, h: Head, elems: seq<Elem>, eof: byte)
    requires toks != [] && toks[0] == HeadToken(h, elems, eof) && SpelledBy(h, elems) && Clear(toks, eof)
    requires Starts(text, 0, SpellTokens(toks))
    ensures Begins(text, eof, false)
  {
    FirstOfText(toks);
    StartsAt(text, 0, SpellTokens(toks), 0);
    HeadBegins(h, elems, eof);
  }

  lemma HeadBegins(h: Head, elems: seq<Elem>, eof: byte)
    requires SpelledBy(h, elems)
    ensures var c := TokenText(HeadToken(h, elems, eof))[0]; c != NEWLINE && c != CARET
  {
  }

  /**
   A text that begins with a spelled pattern and ends after it, at the delimiter or a
   newline, is read as exactly the pattern; or refused with error 50 if the code is too long.
   */
  lemma SpelledReads(text: seq<byte>, items: seq<Item>, lists: seq<seq<Elem>>, anchored: bool, eof: byte, sed: bool,
                     room: int, first: byte, end: nat)
    requires Spellable(items, lists) && (anchored || items != []) && CanDelimit(items, lists, anchored, eof)
    requires Starts(text, 0, Spell(items, lists, anchored, eof)) && end == |Spell(items, lists, anchored, eof)|
    requires Ends(text, end, eof)
    ensures Parse(text, eof, sed, room, first) ==
            if TotalSize(items) >= room then Rejected(50) else Outcome(text, eof, sed, items, anchored, end)
  {
    DelimitedIsClear(items, lists, anchored, eof);
    TextBegins(text, items, lists, anchored, eof, TokensOf(items, lists, eof));
    TokensBuild(items, lists, false, eof);
    PatternOutcome(text, eof, sed, room, first, TokensOf(items, lists, eof), anchored, end);
  }

  /**
   Reading inverts writing, for every delimiter: a pattern that is written down and followed
   by the delimiter is read back as exactly the pattern, provided the code fits; an unanchored
   empty pattern has no spelling.
   */
  lemma SpelledIsRead(items: seq<Item>, lists: seq<seq<Elem>>, anchored: bool, eof: byte, sed: bool, room: int,
                      first: byte)
    requires Spellable(items, lists) && (anchored || items != []) && CanDelimit(items, lists, anchored, eof)
    requires TotalSize(items) < room
    ensures var x := Spell(items, lists, anchored, eof);
            Parse(x + [eof], eof, sed, room, first) ==
            Accepted(items, anchored, After(items).begun, |x| + 1, false)
  {
    var x := Spell(items, lists, anchored, eof);
    SpelledReads(x + [eof], items, lists, anchored, eof, sed, room, first, |x|);
  }

  /** With NUL as the delimiter, the end of the text will do. */
  lemma SpelledIsReadToEnd(items: seq<Item>, lists: seq<seq<Elem>>, anchored: bool, sed: bool, room: int, first: byte)
    requires Spellable(items, lists) && (anchored || items != []) && TotalSize(items) < room
    ensures var x := Spell(items, lists, anchored, 0);
            Parse(x, 0, sed, room, first) == Accepted(items, anchored, After(items).begun, |x| + 1, false)
  {
    var x := Spell(items, lists, anchored, 0);
    SpelledReads(x, items, lists, anchored, 0, sed, room, first, |x|);
  }

  // ----- A backslash at the end -----

  /** With a backslash after it, and without a dollar, it is read as the pattern and a NUL literal. */
  lemma DanglingIsRead(items: seq<Item>, lists: seq<seq<Elem>>, anchored: bool, sed: bool, room: int, first: byte)
    requires Spellable(items, lists) && NoDollar(items) && TotalSize(items) + 2 < room
    ensures var text := Spell(items, lists, anchored, 0) + [BACKSLASH];
            Parse(text, 0, sed, room, first) ==
            Accepted(items + [NUL_LITERAL], anchored, After(items).begun, |text| + 2, false)
  {
    var x := Spell(items, lists, anchored, 0);
    var toks := TokensOf(items, lists, 0);
    PlainIsClear(items, lists, 0);
    DanglingBuilds(items, lists, toks);
    DanglingText(x + [BACKSLASH], x, items, lists, anchored, toks);
    DanglingSize(items);
    DanglingOutcome(x + [BACKSLASH], toks + [Quoted(0)], items, anchored, sed, room, first, |x| + 2);
  }

  lemma DanglingOutcome(text: seq<byte>, toks: seq<Token>, items: seq<Item>, anchored: bool, sed: bool, room: int,
                        first: byte, end: nat)
    requires Spans(text, 0, toks, anchored, end) && Get(text, end) == 0 && Build(toks) == items + [NUL_LITERAL]
    requires After(items).Brackets? && After(items).stack == [] && After(items + [NUL_LITERAL]) == After(items)
    requires TotalSize(items + [NUL_LITERAL]) < room
    ensures Parse(text, 0, sed, room, first) ==
            Accepted(items + [NUL_LITERAL], anchored, After(items).begun, end + 1, false)
  {
    PatternOutcome(text, 0, sed, room, first, toks, anchored, end);
  }

  lemma DanglingBuilds(items: seq<Item>, lists: seq<seq<Elem>>, toks: seq<Token>)
    requires Spellable(items, lists) && NoDollar(items) && toks == TokensOf(items, lists, 0) && Clear(toks, 0)
    ensures Valid(toks + [Quoted(0)], false, 0) && Build(toks + [Quoted(0)]) == items + [NUL_LITERAL]
  {
    TokensBuild(items, lists, true, 0);
    OneToken(toks, Quoted(0), false, 0);
  }

  lemma DanglingSize(items: seq<Item>)
    requires After(items).Brackets?
    ensures TotalSize(items + [NUL_LITERAL]) == TotalSize(items) + 2 && After(items + [NUL_LITERAL]) == After(items)
  {
    AfterAppend(items, NUL_LITERAL);
    TotalSizeAppend(items, NUL_LITERAL);
  }

  lemma DanglingText(text: seq<byte>, x: seq<byte>, items: seq<Item>, lists: seq<seq<Elem>>, anchored: bool,
                     toks: seq<Token>)
    requires Spellable(items, lists) && x == Spell(items, lists, anchored, 0) && text == x + [BACKSLASH]
    requires toks == TokensOf(items, lists, 0) && Clear(toks, 0)
    ensures Begins(text, 0, anchored)
    ensures Starts(text, |Mark(anchored)|, SpellTokens(toks + [Quoted(0)]))
    ensures |x| + 2 == |Mark(anchored)| + |SpellTokens(toks + [Quoted(0)])|
  {
    SpellOneMore(toks, Quoted(0));
    BackslashAtEnd(text, Mark(anchored), SpellTokens(toks), x, SpellTokens(toks + [Quoted(0)]));
    DanglingBegins(text, x, items, lists, anchored, toks);
  }

  lemma DanglingBegins(text: seq<byte>, x: seq<byte>, items: seq<Item>, lists: seq<seq<Elem>>, anchored: bool,
                       toks: seq<Token>)
    requires Spellable(items, lists) && x == Spell(items, lists, anchored, 0) && text == x + [BACKSLASH]
    requires toks == TokensOf(items, lists, 0) && Clear(toks, 0) && Starts(text, 0, x)
    ensures Begins(text, 0, anchored)
  {
    if anchored || items != [] {
      TextBegins(text, items, lists, anchored, 0, toks);
    } else {
      assert toks == [] && text == [BACKSLASH];
    }
  }

  /** A backslash at the end escapes the NUL after it. */
  lemma BackslashAtEnd(text: seq<byte>, mark: seq<byte>, y: seq<byte>, x: seq<byte>, z: seq<byte>)
    requires x == mark + y && text == x + [BACKSLASH] && z == y + [BACKSLASH, 0]
    ensures Starts(text, 0, x) && Starts(text, |mark|, z)
  {
    StartsSplit(text, 0, mark, y);
    StartsJoin(text, |mark|, y, [BACKSLASH, 0], z);
  }

  // ----- Spellings have no NUL -----

  lemma {:induction false} DecimalHasNoNul(n: byte)
    ensures 0 !in Decimal(n)
  {
    if n >= 10 {
      DecimalHasNoNul(n / 10);
    }
  }

  lemma {:induction false} RangesHaveNoNul(ranges: seq<Interval>)
    ensures 0 !in SpellTokens(RangeTokens(ranges))
  {
    if ranges == [] {
    } else {
      var n := |ranges| - 1;
      RangesHaveNoNul(ranges[..n]);
      DecimalHasNoNul(ranges[n].lo);
      DecimalHasNoNul(ranges[n].hi);
      SpellOneMore(RangeTokens(ranges[..n]), Range(Shortest(ranges[n])));
    }
  }

  lemma {:induction false} SpellOneMore(toks: seq<Token>, t: Token)
    ensures SpellTokens(toks + [t]) == SpellTokens(toks) + TokenText(t)
  {
    assert Front(toks + [t]) == toks && Final(toks + [t]) == t;
  }

  lemma {:induction false} SpellBoth(xs: seq<Token>, ys: seq<Token>)
    ensures SpellTokens(xs + ys) == SpellTokens(xs) + SpellTokens(ys)
    decreases |ys|
  {
    if ys == [] {
      assert xs + ys == xs;
    } else {
      SpellBoth(xs, Front(ys));
      SpellBothMore(xs, Front(ys), Final(ys));
      Rejoin(xs, ys);
    }
  }

  lemma {:induction false} SpellBothMore(xs: seq<Token>, ys: seq<Token>, t: Token)
    requires SpellTokens(xs + ys) == SpellTokens(xs) + SpellTokens(ys)
    ensures SpellTokens(xs + ys + [t]) == SpellTokens(xs) + SpellTokens(ys + [t])
  {
    SpellOneMore(xs + ys, t);
    SpellOneMore(ys, t);
    Regroup(SpellTokens(xs), SpellTokens(ys), TokenText(t));
  }

  lemma Rejoin(xs: seq<Token>, ys: seq<Token>)
    requires ys != []
    ensures xs + Front(ys) + [Final(ys)] == xs + ys && Front(ys) + [Final(ys)] == ys
  {
  }

  lemma Regroup(x: seq<byte>, y: seq<byte>, z: seq<byte>)
    ensures x + y + z == x + (y + z)
  {
  }

  lemma {:induction false} RestHasNoNul(lc: byte, elems: seq<Elem>)
    requires 0 !in Denote(lc, elems)
    ensures 0 !in SpellList(elems)
    decreases |elems|
  {
    if elems == [] {
    } else {
      assert Trail(elems[0]) in DenoteElem(lc, elems[0]);
      RestHasNoNul(Trail(elems[0]), elems[1..]);
    }
  }

  lemma HeadHasNoNul(h: Head, elems: seq<Elem>)
    requires SpelledBy(h, elems) && SoundHead(h)
    ensures 0 !in TokenText(HeadToken(h, elems, 0))
  {
    if h.Bracket? {
      RestHasNoNul(0, elems);
    }
  }

  lemma ItemHasNoNul(it: Item, elems: seq<Elem>)
    requires SpelledBy(it.head, elems) && SoundItem(it)
    ensures 0 !in SpellTokens(ItemTokens(it, elems, 0))
  {
    HeadHasNoNul(it.head, elems);
    SpellOne(HeadToken(it.head, elems, 0));
    RangesHaveNoNul(it.ranges);
    StarHasNoNul(it.star);
    NoneInThree([HeadToken(it.head, elems, 0)], RangeTokens(it.ranges), if it.star then [Times] else []);
  }

  lemma StarHasNoNul(star: bool)
    ensures 0 !in SpellTokens(if star then [Times] else [])
  {
    SpellOne(Times);
  }

  lemma {:induction false} NoneInThree(xs: seq<Token>, ys: seq<Token>, zs: seq<Token>)
    requires 0 !in SpellTokens(xs) && 0 !in SpellTokens(ys) && 0 !in SpellTokens(zs)
    ensures 0 !in SpellTokens(xs + ys + zs)
  {
    NoneInBoth(xs, ys);
    NoneInBoth(xs + ys, zs);
  }

  lemma {:induction false} SpellOne(t: Token)
    ensures SpellTokens([t]) == TokenText(t)
  {
    assert Front([t]) == [];
  }

  lemma {:induction false} NoneInBoth(xs: seq<Token>, ys: seq<Token>)
    requires 0 !in SpellTokens(xs) && 0 !in SpellTokens(ys)
    ensures 0 !in SpellTokens(xs + ys)
  {
    SpellBoth(xs, ys);
  }

  lemma {:induction false} ItemsHaveNoNul(items: seq<Item>, lists: seq<seq<Elem>>)
    requires |lists| == |items| && AllSound(items)
    requires forall k :: 0 <= k < |items| ==> SpellableItem(items[k], lists[k])
    ensures 0 !in SpellTokens(TokensOf(items, lists, 0))
    decreases |items|
  {
    if items == [] {
    } else {
      var n := |items| - 1;
      ItemsHaveNoNul(items[..n], lists[..n]);
      assert SoundItem(items[n]) && SpellableItem(items[n], lists[n]);
      ItemHasNoNul(items[n], lists[n]);
      NoneInLast(TokensOf(items[..n], lists[..n], 0), items[n], lists[n]);
    }
  }

  lemma {:induction false} NoneInLast(toks: seq<Token>, it: Item, elems: seq<Elem>)
    requires 0 !in SpellTokens(toks) && 0 !in SpellTokens(ItemTokens(it, elems, 0))
    ensures 0 !in SpellTokens(toks + ItemTokens(it, elems, 0))
  {
    NoneInBoth(toks, ItemTokens(it, elems, 0));
  }
}
