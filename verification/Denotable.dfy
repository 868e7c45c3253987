/**
 Which lists of items are patterns. A list is denoted by some text if and only if it can be
 written down and its code fits. A NUL literal comes from one place: an odd number of
 backslashes at the end of the text, the last of which escapes the terminator.
 */
module Denotable {
  import opened Bits
  import opened Pattern
  import opened Code
  import opened Syntax
  import opened Groups
  import opened Overrun
  import opened Spelling
  import opened Grammar
  import opened Writing

  predicate NoNul(items: seq<Item>) {
    forall k :: 0 <= k < |items| ==> items[k].head != Lit(0)
  }

  ghost predicate Writable(it: Item) {
    it.head == Lit(0) || exists elems :: SpellableItem(it, elems)
  }

  ghost predicate AllWritable(items: seq<Item>) {
    forall k :: 0 <= k < |items| ==> Writable(items[k])
  }

  // ----- Everything that is read can be written -----

  lemma PlainIsWritable(h: Head)
    requires !h.Bracket?
    ensures Writable(Plain(h))
  {
    assert h == Lit(0) || SpellableItem(Plain(h), []);
  }

  lemma BracketIsWritable(text: seq<byte>, pos: nat, neg: bool, roomy: bool)
    requires 0 !in text && (!neg ==> Get(text, pos) != CARET)
    ensures var b := ReadList(text, pos, 0, {}, false, roomy);
            b.BracketText? ==> Writable(Plain(Bracket(neg, b.members, b.wide)))
  {
    var b := ReadList(text, pos, 0, {}, false, roomy);
    if b.BracketText? {
      var elems := ListIsSpelled(text, pos, neg, roomy);
      assert SpellableItem(Plain(Bracket(neg, b.members, b.wide)), elems);
    }
  }

  /** Patches keep an item writable: a star always, an interval with a lower bound below 255. */
  lemma PatchedIsWritable(it: Item, it': Item)
    requires Writable(it) && it'.head == it.head
    requires it'.ranges == it.ranges || (it'.ranges != [] && it'.ranges[..|it'.ranges| - 1] == it.ranges
                                         && WritableInterval(it'.ranges[|it'.ranges| - 1]))
    ensures Writable(it')
  {
    if it.head != Lit(0) {
      var elems :| SpellableItem(it, elems);
      forall k | 0 <= k < |it'.ranges| ensures WritableInterval(it'.ranges[k]) {
        if k < |it.ranges| {
          assert it'.ranges[k] == it.ranges[k];
        }
      }
      assert SpellableItem(it', elems);
    }
  }

  lemma IntervalIsWritable(text: seq<byte>, pos: nat)
    ensures var r := ReadInterval(text, pos); r.IntervalText? ==> WritableInterval(r.r)
  {
  }

  /** The item that a token adds or patches is writable if the one it patches is. */
  lemma TokenIsWritable(text: seq<byte>, pos: nat, eof: byte, sed: bool, room: int, st: State)
    requires 0 !in text && AllWritable(st.items)
    ensures var t := ReadToken(text, pos, eof, sed, room, st);
            t.Next? ==> t.st.items != [] && Writable(Last(t.st.items))
  {
    var t := ReadToken(text, pos, eof, sed, room, st);
    var c := Get(text, pos);
    if t.Next? {
      if c == LSQUARE {
        var neg := Get(text, pos + 1) == CARET;
        BracketIsWritable(text, if neg then pos + 2 else pos + 1, neg, TotalSize(st.items) + 33 < room);
      } else if c == ASTERISK && st.items != [] && !IsMarker(Last(st.items)) {
        PatchedIsWritable(Last(st.items), Last(t.st.items));
      } else if c == BACKSLASH && Get(text, pos + 1) == LBRACE && st.items != [] {
        IntervalIsWritable(text, pos + 2);
        var it, r := Last(st.items), ReadInterval(text, pos + 2).r;
        assert (it.ranges + [r])[..|it.ranges|] == it.ranges;
        PatchedIsWritable(it, Last(t.st.items));
      } else {
        PlainIsWritable(Last(t.st.items).head);
      }
    }
  }

  lemma TokenKeepsWritable(text: seq<byte>, pos: nat, eof: byte, sed: bool, room: int, st: State)
    requires 0 !in text && AllWritable(st.items)
    ensures var t := ReadToken(text, pos, eof, sed, room, st); t.Next? ==> AllWritable(t.st.items)
  {
    var t := ReadToken(text, pos, eof, sed, room, st);
    TokenIsWritable(text, pos, eof, sed, room, st);
    EitherGrows(text, pos, eof, sed, room, st);
    if t.Next? {
      forall k | 0 <= k < |t.st.items| ensures Writable(t.st.items[k]) {
        if k < |t.st.items| - 1 {
          assert t.st.items[k] == st.items[k];
        }
      }
    }
  }

  lemma {:induction false} ItemsAreWritable(text: seq<byte>, pos: nat, eof: byte, sed: bool, room: int,
                                            anchored: bool, st: State)
    requires 0 !in text && AllWritable(st.items)
    ensures var p := ReadItems(text, pos, eof, sed, room, anchored, st);
            p.Accepted? ==> && AllWritable(p.items) && TotalSize(p.items) < room
                            && (st.items != [] ==> p.items != [])
    decreases if pos < |text| then |text| - pos else 0, room - TotalSize(st.items)
  {
    var t := ReadToken(text, pos, eof, sed, room, st);
    if t.Next? {
      TokenProgress(text, pos, eof, sed, room, st);
      TokenKeepsWritable(text, pos, eof, sed, room, st);
      EitherGrows(text, pos, eof, sed, room, st);
      ItemsAreWritable(text, t.pos, eof, sed, room, anchored, t.st);
    }
  }

  // ----- The bracket lists of a pattern -----

  ghost function ListFor(it: Item): seq<Elem>
    requires exists elems :: SpellableItem(it, elems)
    ensures SpellableItem(it, ListFor(it))
  {
    var elems :| SpellableItem(it, elems);
    elems
  }

  ghost function ListsFor(items: seq<Item>): (lists: seq<seq<Elem>>)
    requires AllWritable(items) && NoNul(items)
    ensures |lists| == |items| && forall k :: 0 <= k < |items| ==> SpellableItem(items[k], lists[k])
  {
    if items == [] then []
    else
      assert Writable(items[0]);
      [ListFor(items[0])] + ListsFor(items[1..])
  }

  // ----- Backslashes at the end of a text -----

  function Trailing(text: seq<byte>): nat {
    if text == [] || text[|text| - 1] != BACKSLASH then 0 else 1 + Trailing(text[..|text| - 1])
  }

  /** Is the number of backslashes at the end odd, so that the last one escapes nothing? */
  predicate Dangling(text: seq<byte>) {
    Trailing(text) % 2 == 1
  }

  lemma {:induction false} TrailingParity(x: seq<byte>, y: seq<byte>)
    requires !Dangling(x)
    ensures Dangling(x + y) == Dangling(y)
    decreases |y|
  {
    if y == [] {
      assert x + y == x;
    } else {
      var n := |y| - 1;
      assert (x + y)[..|x + y| - 1] == x + y[..n];
      TrailingParity(x, y[..n]);
    }
  }

  lemma EndsOtherwise(text: seq<byte>, from: nat, to: nat)
    requires from < to <= |text| && text[to - 1] != BACKSLASH
    ensures !Dangling(text[from..to])
  {
  }

  /** A backslash and what it escapes. */
  lemma EscapeIsEven(text: seq<byte>, pos: nat)
    requires pos + 2 <= |text| && text[pos] == BACKSLASH
    ensures !Dangling(text[pos..pos + 2])
  {
    var x := text[pos..pos + 2];
    assert [BACKSLASH][..0] == [] && Trailing([BACKSLASH]) == 1;
    assert x[..1] == [BACKSLASH];
  }

  lemma {:induction false} ListEnds(elems: seq<Elem>)
    ensures SpellList(elems) != [] && SpellList(elems)[|SpellList(elems)| - 1] == RSQUARE
  {
    if elems == [] {
    } else {
      ListEnds(elems[1..]);
    }
  }

  /** A bracket expression ends in the bracket. */
  lemma BracketEnds(text: seq<byte>, pos: nat, neg: bool, roomy: bool)
    requires 0 !in text && (!neg ==> Get(text, pos) != CARET)
    ensures var b := ReadList(text, pos, 0, {}, false, roomy);
            b.BracketText? ==> pos < b.pos <= |text| && text[b.pos - 1] == RSQUARE
  {
    var b := ReadList(text, pos, 0, {}, false, roomy);
    if b.BracketText? {
      var elems := ListIsSpelled(text, pos, neg, roomy);
      ListEnds(elems);
      StartsAt(text, pos, SpellList(elems), |SpellList(elems)| - 1);
    }
  }

  /** An interval ends in the brace. */
  lemma IntervalEnds(text: seq<byte>, pos: nat)
    ensures var r := ReadInterval(text, pos); r.IntervalText? ==> 0 < r.pos <= |text| && text[r.pos - 1] == RBRACE
  {
  }

  /**
   A token lies in the text and does not end in a dangling backslash, and gives no NUL
   literal; except for a backslash that is the last byte, which gives one.
   */
  lemma TokenText(text: seq<byte>, pos: nat, eof: byte, sed: bool, room: int, st: State)
    requires 0 !in text && pos < |text|
    ensures var t := ReadToken(text, pos, eof, sed, room, st);
            t.Next? ==>
              if pos + 1 == |text| && text[pos] == BACKSLASH then t == Next(Emit(st, Lit(0)), |text| + 1)
              else
                && pos < t.pos <= |text| && !Dangling(text[pos..t.pos])
                && (NoNul(st.items) ==> NoNul(t.st.items))
  {
    var t := ReadToken(text, pos, eof, sed, room, st);
    if t.Next? && !(pos + 1 == |text| && text[pos] == BACKSLASH) {
      TokenEnds(text, pos, eof, sed, room, st);
      if NoNul(st.items) {
        TokenHasNoNul(text, pos, eof, sed, room, st);
      }
    }
  }

  lemma TokenEnds(text: seq<byte>, pos: nat, eof: byte, sed: bool, room: int, st: State)
    requires 0 !in text && pos < |text| && !(pos + 1 == |text| && text[pos] == BACKSLASH)
    ensures var t := ReadToken(text, pos, eof, sed, room, st);
            t.Next? ==> pos < t.pos <= |text| && !Dangling(text[pos..t.pos])
  {
    var t := ReadToken(text, pos, eof, sed, room, st);
    var c := Get(text, pos);
    if t.Next? {
      if c == LSQUARE {
        var neg := Get(text, pos + 1) == CARET;
        BracketEnds(text, if neg then pos + 2 else pos + 1, neg, TotalSize(st.items) + 33 < room);
        EndsOtherwise(text, pos, t.pos);
      } else if c == BACKSLASH && Get(text, pos + 1) == LBRACE && st.items != [] {
        IntervalEnds(text, pos + 2);
        IntervalAdvances(text, pos + 2);
        EndsOtherwise(text, pos, t.pos);
      } else if c == BACKSLASH {
        EscapeIsEven(text, pos);
      } else {
        EndsOtherwise(text, pos, t.pos);
      }
    }
  }

  lemma TokenHasNoNul(text: seq<byte>, pos: nat, eof: byte, sed: bool, room: int, st: State)
    requires 0 !in text && pos < |text| && !(pos + 1 == |text| && text[pos] == BACKSLASH) && NoNul(st.items)
    ensures var t := ReadToken(text, pos, eof, sed, room, st); t.Next? ==> NoNul(t.st.items)
  {
    var t := ReadToken(text, pos, eof, sed, room, st);
    EitherGrows(text, pos, eof, sed, room, st);
    if t.Next? {
      assert Last(t.st.items).head != Lit(0);
      forall k | 0 <= k < |t.st.items| ensures t.st.items[k].head != Lit(0) {
        if k < |t.st.items| - 1 {
          assert t.st.items[k] == st.items[k];
        }
      }
    }
  }

  /** With another delimiter than NUL, the end of the text is never accepted as an end. */
  lemma {:induction false} PastTheText(text: seq<byte>, pos: nat, eof: byte, sed: bool, room: int, anchored: bool,
                                       st: State)
    requires eof != 0 && pos >= |text|
    ensures ReadItems(text, pos, eof, sed, room, anchored, st).Rejected?
    decreases room - TotalSize(st.items)
  {
    if TotalSize(st.items) >= room {
    } else {
      var st' := Emit(st, Lit(0));
      TotalSizeAppend(st.items, NUL_LITERAL);
      assert ReadToken(text, pos, eof, sed, room, st) == Next(st', pos + 1);
      PastTheText(text, pos + 1, eof, sed, room, anchored, st');
    }
  }

  /** After the escaped terminator the text is at its end. */
  lemma AfterDangling(text: seq<byte>, eof: byte, sed: bool, room: int, anchored: bool, st: State)
    requires text != []
    ensures var p := ReadItems(text, |text| + 1, eof, sed, room, anchored, Emit(st, Lit(0)));
            p.Accepted? ==> && eof == 0 && !p.newline && p.items == st.items + [NUL_LITERAL]
                            && st.stack == [] && p.nbra == st.nbra
  {
    if eof != 0 {
      PastTheText(text, |text| + 1, eof, sed, room, anchored, Emit(st, Lit(0)));
    }
  }

  /** What is known of the items of a text that is accepted; `front` are those before a NUL literal. */
  ghost predicate Told(text: seq<byte>, pos: nat, eof: byte, p: Parsed, front: State)
    requires p.Accepted? && pos <= |text|
  {
    if eof == 0 && !p.newline && Dangling(text[pos..]) then
      && p.items == front.items + [NUL_LITERAL] && front.stack == [] && p.nbra == front.nbra
      && NoNul(front.items) && AllWritable(front.items) && Tidy(text, |text| - 1, eof, front)
      && text != [] && text[|text| - 1] == BACKSLASH
    else
      NoNul(p.items)
  }

  lemma {:induction false} NulIsTold(text: seq<byte>, pos: nat, eof: byte, sed: bool, room: int, anchored: bool,
                                     st: State)
    returns (front: State)
    requires 0 !in text && pos <= |text| && NoNul(st.items) && AllWritable(st.items) && Tidy(text, pos, eof, st)
    requires ReadItems(text, pos, eof, sed, room, anchored, st).Accepted?
    ensures Told(text, pos, eof, ReadItems(text, pos, eof, sed, room, anchored, st), front)
    decreases |text| - pos
  {
    var p := ReadItems(text, pos, eof, sed, room, anchored, st);
    var t := ReadToken(text, pos, eof, sed, room, st);
    if pos == |text| || !t.Next? {
      front := st;
      ToldAtOnce(text, pos, eof, sed, room, anchored, st);
    } else if pos + 1 == |text| && text[pos] == BACKSLASH {
      front := st;
      ToldAtBackslash(text, pos, eof, sed, room, anchored, st);
    } else {
      StepToTold(text, pos, eof, sed, room, st);
      front := NulIsTold(text, t.pos, eof, sed, room, anchored, t.st);
      ToldBefore(text, pos, t.pos, eof, p, front);
    }
  }

  lemma ToldAtOnce(text: seq<byte>, pos: nat, eof: byte, sed: bool, room: int, anchored: bool, st: State)
    requires 0 !in text && pos <= |text| && NoNul(st.items)
    requires pos == |text| || !ReadToken(text, pos, eof, sed, room, st).Next?
    requires ReadItems(text, pos, eof, sed, room, anchored, st).Accepted?
    ensures Told(text, pos, eof, ReadItems(text, pos, eof, sed, room, anchored, st), st)
  {
    if pos == |text| {
      assert text[pos..] == [];
      if eof != 0 {
        PastTheText(text, pos, eof, sed, room, anchored, st);
      }
    }
  }

  lemma ToldAtBackslash(text: seq<byte>, pos: nat, eof: byte, sed: bool, room: int, anchored: bool, st: State)
    requires 0 !in text && pos + 1 == |text| && text[pos] == BACKSLASH
    requires NoNul(st.items) && AllWritable(st.items) && Tidy(text, pos, eof, st)
    requires ReadToken(text, pos, eof, sed, room, st).Next?
    requires ReadItems(text, pos, eof, sed, room, anchored, st).Accepted?
    ensures Told(text, pos, eof, ReadItems(text, pos, eof, sed, room, anchored, st), st)
  {
    TokenText(text, pos, eof, sed, room, st);
    AfterDangling(text, eof, sed, room, anchored, st);
    OneBackslash(text, pos);
  }

  lemma StepToTold(text: seq<byte>, pos: nat, eof: byte, sed: bool, room: int, st: State)
    requires 0 !in text && pos < |text| && !(pos + 1 == |text| && text[pos] == BACKSLASH)
    requires NoNul(st.items) && AllWritable(st.items) && Tidy(text, pos, eof, st)
    ensures var t := ReadToken(text, pos, eof, sed, room, st);
            t.Next? ==> && pos < t.pos <= |text| && !Dangling(text[pos..t.pos])
                        && NoNul(t.st.items) && AllWritable(t.st.items) && Tidy(text, t.pos, eof, t.st)
  {
    TokenText(text, pos, eof, sed, room, st);
    TokenTidy(text, pos, eof, sed, room, st);
    TokenKeepsWritable(text, pos, eof, sed, room, st);
  }

  lemma ToldBefore(text: seq<byte>, pos: nat, pos': nat, eof: byte, p: Parsed, front: State)
    requires p.Accepted? && pos <= pos' <= |text| && !Dangling(text[pos..pos']) && Told(text, pos', eof, p, front)
    ensures Told(text, pos, eof, p, front)
  {
    TrailingParity(text[pos..pos'], text[pos'..]);
    assert text[pos..] == text[pos..pos'] + text[pos'..];
  }

  lemma OneBackslash(text: seq<byte>, pos: nat)
    requires pos + 1 == |text| && text[pos] == BACKSLASH
    ensures Dangling(text[pos..])
  {
    assert text[pos..] == [BACKSLASH] && [BACKSLASH][..0] == [];
  }

  /**
   When an accepted text without NUL denotes a NUL literal, decided by the text: when NUL is
   its delimiter, no newline ends it before, and it has an odd number of backslashes at the end.
   */
  lemma NulIff(text: seq<byte>, eof: byte, sed: bool, room: int, first: byte)
    requires 0 !in text && Parse(text, eof, sed, room, first).Accepted?
    ensures var p := Parse(text, eof, sed, room, first);
            && (!NoNul(p.items) <==> eof == 0 && !p.newline && Dangling(text))
            && (NEWLINE !in text ==> !p.newline)
            && (!NoNul(p.items) ==> Last(p.items) == NUL_LITERAL && NoNul(p.items[..|p.items| - 1]))
  {
    var front := ParsedIsTold(text, eof, sed, room, first);
    LiteralIsLast(text, eof, Parse(text, eof, sed, room, first), front);
    EndIsThere(text, eof, sed, room, first);
  }

  lemma LiteralIsLast(text: seq<byte>, eof: byte, p: Parsed, front: State)
    requires p.Accepted? && Told(text, 0, eof, p, front)
    ensures !NoNul(p.items) ==> Last(p.items) == NUL_LITERAL && NoNul(p.items[..|p.items| - 1])
  {
    if !NoNul(p.items) {
      assert p.items[..|p.items| - 1] == front.items;
    }
  }

  lemma ParsedIsTold(text: seq<byte>, eof: byte, sed: bool, room: int, first: byte) returns (front: State)
    requires 0 !in text && Parse(text, eof, sed, room, first).Accepted?
    ensures Told(text, 0, eof, Parse(text, eof, sed, room, first), front)
    ensures var p := Parse(text, eof, sed, room, first);
            !NoNul(p.items) <==> eof == 0 && !p.newline && Dangling(text)
  {
    var start := if Get(text, 0) == CARET then 1 else 0;
    front := NulIsTold(text, start, eof, sed, room, Get(text, 0) == CARET, EMPTY);
    SkipCaret(text, start);
    ToldIsNul(text, eof, Parse(text, eof, sed, room, first), front);
  }

  lemma SkipCaret(text: seq<byte>, start: nat)
    requires start == if Get(text, 0) == CARET then 1 else 0
    ensures start <= |text| && Dangling(text[start..]) == Dangling(text[0..]) == Dangling(text)
  {
    if start == 1 {
      assert text == [CARET] + text[1..];
      EndsOtherwise([CARET], 0, 1);
      assert [CARET][0..1] == [CARET];
      TrailingParity([CARET], text[1..]);
    }
    assert text[0..] == text;
  }

  lemma ToldIsNul(text: seq<byte>, eof: byte, p: Parsed, front: State)
    requires p.Accepted? && Told(text, 0, eof, p, front)
    ensures !NoNul(p.items) <==> eof == 0 && !p.newline && Dangling(text)
  {
    assert text[0..] == text;
    if eof == 0 && !p.newline && Dangling(text) {
      assert p.items[|p.items| - 1] == NUL_LITERAL;
    }
  }

  /** The list can be written down, or is one that can without a dollar, followed by a NUL literal. */
  ghost predicate CanBeWritten(items: seq<Item>) {
    || HasSpelling(items)
    || (items != [] && Last(items) == NUL_LITERAL && NoDollar(items) && HasSpelling(items[..|items| - 1]))
  }

  ghost predicate HasSpelling(items: seq<Item>) {
    exists lists :: Spellable(items, lists)
  }

  /**
   The list that an accepted text without NUL denotes can be written down, if need be with
   a backslash at the end, and has a spelling proper if and only if the text does not end
   in a dangling backslash.
   */
  lemma AcceptedIsSpellable(text: seq<byte>, eof: byte, sed: bool, room: int, first: byte)
    requires 0 !in text && Parse(text, eof, sed, room, first).Accepted?
    ensures var p := Parse(text, eof, sed, room, first);
            && TotalSize(p.items) < room && (p.anchored || p.items != []) && CanBeWritten(p.items)
            && (HasSpelling(p.items) <==> !(eof == 0 && !p.newline && Dangling(text)))
  {
    var p := Parse(text, eof, sed, room, first);
    var start := if Get(text, 0) == CARET then 1 else 0;
    ItemsTidy(text, start, eof, sed, room, Get(text, 0) == CARET, EMPTY);
    ItemsAreWritable(text, start, eof, sed, room, Get(text, 0) == CARET, EMPTY);
    if Get(text, 0) != CARET {
      FirstTokenAdds(text, eof, sed, room);
    }
    var front := ParsedIsTold(text, eof, sed, room, first);
    if NoNul(p.items) {
      assert Spellable(p.items, ListsFor(p.items));
    } else {
      FrontIsSpellable(text, eof, p, front);
      NulIsNotSpellable(p.items);
    }
  }

  lemma NulIsNotSpellable(items: seq<Item>)
    requires !NoNul(items)
    ensures !HasSpelling(items)
  {
    var k :| 0 <= k < |items| && items[k].head == Lit(0);
    forall lists: seq<seq<Elem>> | |lists| == |items| ensures !SpellableItem(items[k], lists[k]) {
    }
  }

  lemma FrontIsSpellable(text: seq<byte>, eof: byte, p: Parsed, front: State)
    requires 0 !in text && p.Accepted? && Told(text, 0, eof, p, front) && !NoNul(p.items) && eof == 0
    ensures CanBeWritten(p.items)
  {
    LiteralIsLast(text, eof, p, front);
    assert p.items[..|p.items| - 1] == front.items;
    TidyIsSpellable(text, eof, front);
    NoDollarBefore(text, eof, front, p.items);
  }

  lemma TidyIsSpellable(text: seq<byte>, eof: byte, front: State)
    requires 0 !in text && text != [] && Tidy(text, |text| - 1, eof, front) && front.stack == []
    requires NoNul(front.items) && AllWritable(front.items)
    ensures HasSpelling(front.items)
  {
    assert Spellable(front.items, ListsFor(front.items));
  }

  lemma NoDollarBefore(text: seq<byte>, eof: byte, front: State, items: seq<Item>)
    requires text != [] && text[|text| - 1] == BACKSLASH != eof && Tidy(text, |text| - 1, eof, front)
    requires items == front.items + [NUL_LITERAL]
    ensures NoDollar(items)
  {
    forall k | 0 <= k < |items| ensures !items[k].head.Dollar? {
      if k < |front.items| {
        assert items[k] == front.items[k];
      }
    }
  }

  lemma FirstTokenAdds(text: seq<byte>, eof: byte, sed: bool, room: int)
    requires 0 !in text && Get(text, 0) != eof && Get(text, 0) != NEWLINE
    ensures var p := ReadItems(text, 0, eof, sed, room, false, EMPTY); p.Accepted? ==> p.items != []
  {
    var t := ReadToken(text, 0, eof, sed, room, EMPTY);
    if t.Next? {
      TokenKeepsWritable(text, 0, eof, sed, room, EMPTY);
      EitherGrows(text, 0, eof, sed, room, EMPTY);
      ItemsAreWritable(text, t.pos, eof, sed, room, false, t.st);
    }
  }

  // ----- Exactly the patterns -----

  ghost predicate Denotes(text: seq<byte>, items: seq<Item>, anchored: bool, sed: bool, room: int, first: byte) {
    var p := Parse(text, 0, sed, room, first);
    0 !in text && p.Accepted? && p.items == items && p.anchored == anchored
  }

  lemma SpelledIsDenoted(items: seq<Item>, lists: seq<seq<Elem>>, anchored: bool, sed: bool, room: int, first: byte)
    requires Spellable(items, lists) && (anchored || items != []) && TotalSize(items) < room
    ensures Denotes(Spell(items, lists, anchored, 0), items, anchored, sed, room, first)
  {
    SpelledIsReadToEnd(items, lists, anchored, sed, room, first);
    ItemsHaveNoNul(items, lists);
  }

  lemma DanglingIsDenoted(items: seq<Item>, lists: seq<seq<Elem>>, anchored: bool, sed: bool, room: int, first: byte)
    requires Spellable(items, lists) && NoDollar(items) && TotalSize(items + [NUL_LITERAL]) < room
    ensures Denotes(Spell(items, lists, anchored, 0) + [BACKSLASH], items + [NUL_LITERAL], anchored, sed, room, first)
  {
    TotalSizeAppend(items, NUL_LITERAL);
    DanglingIsRead(items, lists, anchored, sed, room, first);
    ItemsHaveNoNul(items, lists);
  }

  /**
   A list is denoted by some text if and only if it can be written down, its code fits, and
   it is anchored or not empty.
   */
  lemma DenotableIff(items: seq<Item>, anchored: bool, sed: bool, room: int, first: byte)
    ensures (exists text :: Denotes(text, items, anchored, sed, room, first)) <==>
            CanBeWritten(items) && (anchored || items != []) && TotalSize(items) < room
  {
    if text :| Denotes(text, items, anchored, sed, room, first) {
      AcceptedIsSpellable(text, 0, sed, room, first);
    }
    if CanBeWritten(items) && (anchored || items != []) && TotalSize(items) < room {
      var text := TextFor(items, anchored, sed, room, first);
    }
  }

  lemma TextFor(items: seq<Item>, anchored: bool, sed: bool, room: int, first: byte) returns (text: seq<byte>)
    requires CanBeWritten(items) && (anchored || items != []) && TotalSize(items) < room
    ensures Denotes(text, items, anchored, sed, room, first)
  {
    if HasSpelling(items) {
      var lists :| Spellable(items, lists);
      text := Spell(items, lists, anchored, 0);
      SpelledIsDenoted(items, lists, anchored, sed, room, first);
    } else {
      text := DanglingTextFor(items, anchored, sed, room, first);
    }
  }

  lemma DanglingTextFor(items: seq<Item>, anchored: bool, sed: bool, room: int, first: byte) returns (text: seq<byte>)
    requires items != [] && Last(items) == NUL_LITERAL && NoDollar(items) && HasSpelling(items[..|items| - 1])
    requires TotalSize(items) < room
    ensures Denotes(text, items, anchored, sed, room, first)
  {
    var front := items[..|items| - 1];
    var lists :| Spellable(front, lists);
    assert items == front + [NUL_LITERAL];
    text := Spell(front, lists, anchored, 0) + [BACKSLASH];
    DanglingIsDenoted(front, lists, anchored, sed, room, first);
  }
}
