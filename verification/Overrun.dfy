/**
 The byte that lies at `endbuf`. The compiler tests for room before it reads a token, and
 a token can take two bytes: which texts make it write at index `endbuf`, and what.
 `room` is `endbuf` seen from the start of the program.
 */
module Overrun {
  import opened Bits
  import opened Pattern
  import opened Code
  import opened Syntax

  /** What is written at index `endbuf`, if anything. */
  datatype Spill = Dry | Wet(b: byte)

  /** The second byte of an interval, if reading gets that far. */
  function SecondByte(text: seq<byte>, pos: nat): Spill {
    var m := ReadNumber(text, pos, 0);
    if m.NotANumber? || m.value >= 255 then Dry
    else if m.stop == BACKSLASH then if Get(text, m.pos) == RBRACE then Wet(m.value) else Dry
    else if Get(text, m.pos) == BACKSLASH then Wet(UNBOUNDED)
    else
      var n := ReadNumber(text, m.pos, 0);
      if n.Number? && n.value < 255 then Wet(n.value) else Dry
  }

  /** The last byte in the code of an item that has no bitmap at its end. */
  function FinalByte(it: Item): byte {
    if it.ranges != [] then it.ranges[|it.ranges| - 1].hi
    else
      match it.head
      case Lit(c) => c
      case Open(g) => g
      case Close(g) => g
      case Ref(g) => g
      case _ => 0
  }

  /** What reading an interval after the backslash at `pos - 1` spills, with one byte left. */
  function IntervalSpill(text: seq<byte>, pos: nat, room: int, st: State): Spill {
    if Get(text, pos) == LBRACE && st.items != [] && TotalSize(st.items) == room - 1 then SecondByte(text, pos + 1)
    else Dry
  }

  /** What a token other than the end of the pattern spills if it is refused. */
  function CharSpill(text: seq<byte>, pos: nat, room: int, st: State): Spill {
    if Get(text, pos) == BACKSLASH then IntervalSpill(text, pos + 1, room, st) else Dry
  }

  function RefusedSpill(text: seq<byte>, pos: nat, eof: byte, room: int, st: State): Spill {
    if Get(text, pos) != eof then CharSpill(text, pos, room, st) else Dry
  }

  /**
   A token spills exactly when one byte is left and it takes two, or when one byte is left
   and it is an interval whose second byte is reached, good or not.
   */
  function TokenSpill(text: seq<byte>, pos: nat, eof: byte, sed: bool, room: int, st: State): Spill {
    match ReadToken(text, pos, eof, sed, room, st)
    case Next(st', _) =>
      if st'.items != [] && TotalSize(st'.items) > room then Wet(FinalByte(Last(st'.items))) else Dry
    case _ => RefusedSpill(text, pos, eof, room, st)
  }

  /** What reading the rest of a text spills: the tokens after a spill are never reached. */
  function ItemsSpill(text: seq<byte>, pos: nat, eof: byte, sed: bool, room: int, st: State): Spill
    decreases if pos < |text| then |text| - pos else 0, room - TotalSize(st.items)
  {
    var w := TokenSpill(text, pos, eof, sed, room, st);
    var t := ReadToken(text, pos, eof, sed, room, st);
    if w.Wet? || !t.Next? then w
    else
      TokenProgress(text, pos, eof, sed, room, st);
      ItemsSpill(text, t.pos, eof, sed, room, t.st)
  }

  function TextSpill(text: seq<byte>, eof: byte, sed: bool, room: int): Spill {
    var c := Get(text, 0);
    if c == eof || c == NEWLINE then Dry
    else ItemsSpill(text, if c == CARET then 1 else 0, eof, sed, room, EMPTY)
  }

  // ----- How much a token can add -----

  lemma TotalSizeReplace(items: seq<Item>, it: Item)
    requires items != []
    ensures TotalSize(ReplaceLast(items, it)) == TotalSize(items) - Size(Last(items)) + Size(it)
  {
    var front := items[..|items| - 1];
    TotalSizeAppend(front, it);
    TotalSizeAppend(front, Last(items));
    assert front + [Last(items)] == items;
  }

  lemma SecondByteRead(text: seq<byte>, pos: nat)
    ensures var r := ReadInterval(text, pos); r.IntervalText? ==> SecondByte(text, pos) == Wet(r.r.hi)
  {
  }

  /** Tokens never take code back, and only past its last byte do they exceed the room. */
  lemma TokenGrows(text: seq<byte>, pos: nat, eof: byte, sed: bool, room: int, st: State)
    ensures var t := ReadToken(text, pos, eof, sed, room, st);
            t.Next? ==>
              && TotalSize(st.items) <= TotalSize(t.st.items)
              && (|| TotalSize(t.st.items) <= room
                  || (TotalSize(st.items) == room - 1 && TotalSize(t.st.items) == room + 1))
  {
    var t := ReadToken(text, pos, eof, sed, room, st);
    if t.Next? {
      EitherGrows(text, pos, eof, sed, room, st);
      TotalSizeAppend(st.items, Last(t.st.items));
      if st.items != [] {
        TotalSizeReplace(st.items, Last(t.st.items));
      }
    }
  }

  lemma {:induction false} WideNeedsRoom(text: seq<byte>, pos: nat, lc: byte, members: set<byte>, wide: bool,
                                         roomy: bool)
    requires wide ==> roomy
    ensures var b := ReadList(text, pos, lc, members, wide, roomy); b.BracketText? && b.wide ==> roomy
    decreases |text| - pos
  {
    var c := Get(text, pos);
    if c == 0 || (c >= 128 && !roomy) {
    } else if c == HYPHEN && lc != 0 {
      var d := Get(text, pos + 1);
      if d < 128 || roomy {
        WideNeedsRoom(text, pos + 2, d, members + Below(lc, d) + {d}, wide || d >= 128, roomy);
      }
    } else {
      WideNeedsRoom(text, pos + 1, c, members + {c}, wide || c >= 128, roomy);
    }
  }

  /** A token appends a plain item, or patches the last one. */
  lemma EitherGrows(text: seq<byte>, pos: nat, eof: byte, sed: bool, room: int, st: State)
    ensures var t := ReadToken(text, pos, eof, sed, room, st);
            t.Next? ==>
              && t.st.items != [] && TotalSize(st.items) < room
              && var it := Last(t.st.items);
                 || (t.st.items == st.items + [it] && (Size(it) <= 2 || TotalSize(st.items) + Size(it) <= room))
                 || (st.items != [] && t.st.items == ReplaceLast(st.items, it)
                     && Size(Last(st.items)) <= Size(it) <= Size(Last(st.items)) + 2
                     && (Size(it) > Size(Last(st.items)) ==> it.ranges != []))
  {
    if Get(text, pos) == LSQUARE {
      var at := if Get(text, pos + 1) == CARET then pos + 2 else pos + 1;
      WideNeedsRoom(text, at, 0, {}, false, TotalSize(st.items) + 33 < room);
    }
  }

  /** An interval that spills is a token that spills, whether it is refused or not. */
  lemma RefusedSpillIsSpilled(text: seq<byte>, pos: nat, eof: byte, sed: bool, room: int, st: State)
    ensures var w := RefusedSpill(text, pos, eof, room, st); w.Wet? ==> TokenSpill(text, pos, eof, sed, room, st) == w
  {
    if RefusedSpill(text, pos, eof, room, st).Wet? {
      IntervalToken(text, pos, eof, sed, room, st);
    }
  }

  lemma IntervalToken(text: seq<byte>, pos: nat, eof: byte, sed: bool, room: int, st: State)
    requires Get(text, pos) == BACKSLASH != eof && Get(text, pos + 1) == LBRACE && st.items != []
    requires TotalSize(st.items) < room
    ensures var t := ReadToken(text, pos, eof, sed, room, st);
            t.Next? ==> && t.st.items != [] && TotalSize(t.st.items) == TotalSize(st.items) + 2
                        && SecondByte(text, pos + 2) == Wet(FinalByte(Last(t.st.items)))
  {
    var t := ReadToken(text, pos, eof, sed, room, st);
    assert t == AddInterval(text, pos + 2, st);
    SecondByteRead(text, pos + 2);
    if t.Next? {
      TotalSizeReplace(st.items, Last(t.st.items));
    }
  }

  /** The item that takes the last byte and one more ends in one operand byte or an interval. */
  lemma SpillingItem(text: seq<byte>, pos: nat, eof: byte, sed: bool, room: int, st: State)
    ensures var t := ReadToken(text, pos, eof, sed, room, st);
            t.Next? && TotalSize(t.st.items) > room ==>
              t.st.items != [] && (Last(t.st.items).ranges != [] || OperandSize(Last(t.st.items).head) == 1)
  {
    EitherGrows(text, pos, eof, sed, room, st);
    TokenGrows(text, pos, eof, sed, room, st);
    var t := ReadToken(text, pos, eof, sed, room, st);
    if t.Next? {
      TotalSizeAppend(st.items, Last(t.st.items));
      if st.items != [] {
        TotalSizeReplace(st.items, Last(t.st.items));
      }
    }
  }

  lemma NoMoreSpills(text: seq<byte>, pos: nat, eof: byte, sed: bool, room: int, st: State)
    requires TotalSize(st.items) >= room
    ensures ItemsSpill(text, pos, eof, sed, room, st) == Dry
  {
    assert ReadToken(text, pos, eof, sed, room, st) == Stop(50);
  }

  // ----- Exactly when something is spilled -----

  /** A token that takes two bytes, or an interval whose second byte is reached, with one byte left. */
  ghost predicate TakesOneTooMany(text: seq<byte>, pos: nat, eof: byte, sed: bool, room: int, st: State) {
    var t := ReadToken(text, pos, eof, sed, room, st);
    && TotalSize(st.items) == room - 1
    && (|| (t.Next? && TotalSize(t.st.items) == TotalSize(st.items) + 2)
        || (Get(text, pos) == BACKSLASH != eof && Get(text, pos + 1) == LBRACE && st.items != []
            && SecondByte(text, pos + 2).Wet?))
  }

  lemma TokenSpillsIff(text: seq<byte>, pos: nat, eof: byte, sed: bool, room: int, st: State)
    ensures TokenSpill(text, pos, eof, sed, room, st).Wet? <==> TakesOneTooMany(text, pos, eof, sed, room, st)
  {
    TokenGrows(text, pos, eof, sed, room, st);
    RefusedSpillIsSpilled(text, pos, eof, sed, room, st);
  }

  // ----- What becomes of a text that spills -----

  lemma RefusedAfterSpill(text: seq<byte>, pos: nat, eof: byte, sed: bool, room: int, st: State)
    requires RefusedSpill(text, pos, eof, room, st).Wet?
    ensures var t := ReadToken(text, pos, eof, sed, room, st);
            t.Next? || t == Stop(44) || t == Stop(45) || t == Stop(46)
  {
    SecondByteRefused(text, pos + 2);
  }

  lemma SecondByteRefused(text: seq<byte>, pos: nat)
    ensures var r := ReadInterval(text, pos);
            SecondByte(text, pos).Wet? && r.BadInterval? ==> r.code == 44 || r.code == 45 || r.code == 46
  {
  }

  /** A text that makes the compiler write at `endbuf` is refused: a program never ends there. */
  lemma {:induction false} SpillIsRefused(text: seq<byte>, pos: nat, eof: byte, sed: bool, room: int, anchored: bool,
                                          st: State)
    requires ItemsSpill(text, pos, eof, sed, room, st).Wet?
    ensures var p := ReadItems(text, pos, eof, sed, room, anchored, st); p.Rejected? && p.code in {44, 45, 46, 50}
    decreases if pos < |text| then |text| - pos else 0, room - TotalSize(st.items)
  {
    var t := ReadToken(text, pos, eof, sed, room, st);
    if !t.Next? {
      RefusedAfterSpill(text, pos, eof, sed, room, st);
    } else if TokenSpill(text, pos, eof, sed, room, st).Wet? {
      assert ReadToken(text, t.pos, eof, sed, room, t.st) == Stop(50);
    } else {
      TokenProgress(text, pos, eof, sed, room, st);
      SpillIsRefused(text, t.pos, eof, sed, room, anchored, t.st);
    }
  }

  lemma SpillingTextIsRefused(text: seq<byte>, eof: byte, sed: bool, room: int, first: byte)
    ensures TextSpill(text, eof, sed, room).Wet? ==>
              var p := Parse(text, eof, sed, room, first); p.Rejected? && p.code in {44, 45, 46, 50}
  {
    var c := Get(text, 0);
    if TextSpill(text, eof, sed, room).Wet? {
      SpillIsRefused(text, if c == CARET then 1 else 0, eof, sed, room, c == CARET, EMPTY);
    }
  }
}
