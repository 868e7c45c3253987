/**
 What a pattern text denotes: a list of items, or the error that reading it ends with.
 This is the reference the compiler is proved against. It knows nothing of opcodes,
 bitmaps or patching; of the code buffer it knows only how many bytes are left.
 */
module Syntax {
  import opened Bits
  import opened Pattern
  import opened Code

  /** The pattern cursor: NUL for ever after the last byte. */
  function Get(text: seq<byte>, pos: nat): byte {
    if pos < |text| then text[pos] else 0
  }

  const NEWLINE: byte := 10
  const DOLLAR: byte := 36
  const LPAREN: byte := 40
  const RPAREN: byte := 41
  const ASTERISK: byte := 42
  const COMMA: byte := 44
  const HYPHEN: byte := 45
  const PERIOD: byte := 46
  const ZERO: byte := 48
  const ONE: byte := 49
  const NINE: byte := 57
  const LSQUARE: byte := 91
  const BACKSLASH: byte := 92
  const RSQUARE: byte := 93
  const CARET: byte := 94
  const LOWER_N: byte := 110
  const LBRACE: byte := 123
  const RBRACE: byte := 125

  // ----- Bracket expressions -----

  datatype BracketText = BracketText(members: set<byte>, wide: bool, pos: nat) | BadBracket(code: int)

  predicate Between(lo: byte, x: byte, hi: byte) {
    lo <= x < hi
  }

  /** The members from `lo` up to but not including `hi`. */
  function Below(lo: byte, hi: byte): set<byte> {
    set x: byte | Between(lo, x, hi)
  }

  /**
   Read the list from `pos` on. `lc` is the last member read, 0 if none; a hyphen after a
   member starts a range unless the list ends there. `roomy`: a wide map would fit.
   */
  function ReadList(text: seq<byte>, pos: nat, lc: byte, members: set<byte>, wide: bool, roomy: bool): (b: BracketText)
    ensures b.BadBracket? ==> b.code == 49 || b.code == 50
    decreases |text| - pos, 0
  {
    var c := Get(text, pos);
    if c == 0 || c == NEWLINE then BadBracket(49)
    else if c >= 128 && !wide && !roomy then BadBracket(50)
    else if c == HYPHEN && lc != 0 then
      var d := Get(text, pos + 1);
      if d == RSQUARE then BracketText(members + {HYPHEN}, wide, pos + 2)
      else if d >= 128 && !wide && !roomy then BadBracket(50)
      else ReadMore(text, pos + 2, d, members + Below(lc, d) + {d}, wide || d >= 128, roomy)
    else ReadMore(text, pos + 1, c, members + {c}, wide || c >= 128, roomy)
  }

  function ReadMore(text: seq<byte>, pos: nat, lc: byte, members: set<byte>, wide: bool, roomy: bool): (b: BracketText)
    ensures b.BadBracket? ==> b.code == 49 || b.code == 50
    decreases |text| - pos, 1
  {
    if Get(text, pos) == RSQUARE then BracketText(members, wide, pos + 1)
    else ReadList(text, pos, lc, members, wide, roomy)
  }

  // ----- Intervals -----

  datatype NumberText = Number(value: nat, stop: byte, pos: nat) | NotANumber

  /** At least one digit, then a backslash or a comma. */
  function ReadNumber(text: seq<byte>, pos: nat, value: nat): (n: NumberText)
    ensures n.Number? ==> n.stop == BACKSLASH || n.stop == COMMA
    decreases |text| - pos
  {
    var c := Get(text, pos);
    if !(ZERO <= c <= NINE) then NotANumber
    else
      var v := 10 * value + (c - ZERO);
      var d := Get(text, pos + 1);
      if d == BACKSLASH || d == COMMA then Number(v, d, pos + 2)
      else ReadNumber(text, pos + 1, v)
  }

  datatype IntervalText = IntervalText(r: Interval, pos: nat) | BadInterval(code: int)

  function ReadInterval(text: seq<byte>, pos: nat): (r: IntervalText)
    ensures r.BadInterval? ==> r.code in {11, 16, 44, 45, 46}
    ensures r.IntervalText? ==> SoundInterval(r.r)
  {
    var m := ReadNumber(text, pos, 0);
    if m.NotANumber? then BadInterval(16)
    else if m.value >= 255 then BadInterval(11)
    else if m.stop == BACKSLASH then CloseInterval(text, m.pos, m.value, m.value)
    else if Get(text, m.pos) == BACKSLASH then CloseInterval(text, m.pos + 1, m.value, UNBOUNDED)
    else
      var n := ReadNumber(text, m.pos, 0);
      if n.NotANumber? then BadInterval(16)
      else if n.value >= 255 then BadInterval(11)
      else if n.stop == COMMA then BadInterval(44)
      else CloseInterval(text, n.pos, m.value, n.value)
  }

  function CloseInterval(text: seq<byte>, pos: nat, lo: byte, hi: byte): IntervalText {
    if Get(text, pos) != RBRACE then BadInterval(45)
    else if hi < lo then BadInterval(46)
    else IntervalText(Interval(lo, hi), pos + 1)
  }

  // ----- Items -----

  /** The items so far, the groups still open, and the counts of groups begun and ended. */
  datatype State = State(items: seq<Item>, stack: seq<byte>, nbra: nat, ended: nat)

  datatype Step = Next(st: State, pos: nat) | Done(pos: nat, newline: bool) | Stop(code: int)

  function Plain(h: Head): Item {
    Item(h, false, [])
  }

  function Emit(st: State, h: Head): State {
    st.(items := st.items + [Plain(h)])
  }

  function Last(items: seq<Item>): Item
    requires items != []
  {
    items[|items| - 1]
  }

  function ReplaceLast(items: seq<Item>, it: Item): seq<Item>
    requires items != []
  {
    items[..|items| - 1] + [it]
  }

  /** A group marker that nothing was patched onto. */
  predicate IsMarker(it: Item) {
    (it.head.Open? || it.head.Close?) && !Repeated(it)
  }

  function Finish(st: State, pos: nat, newline: bool): Step {
    if st.stack != [] then Stop(42) else Done(pos, newline)
  }

  /** One token. `room` is the number of code bytes available for the whole program. */
  function ReadToken(text: seq<byte>, pos: nat, eof: byte, sed: bool, room: int, st: State): Step {
    var c := Get(text, pos);
    if TotalSize(st.items) >= room then Stop(50)
    else if c == eof then Finish(st, pos + 1, false)
    else if c == NEWLINE then if sed then Stop(36) else Finish(st, pos, true)
    else ReadChar(text, pos, eof, room, st)
  }

  /** A token that neither ends the pattern nor lacks room. */
  function ReadChar(text: seq<byte>, pos: nat, eof: byte, room: int, st: State): Step {
    var c := Get(text, pos);
    if c == PERIOD then Next(Emit(st, Dot), pos + 1)
    else if c == ASTERISK then AddStar(st, pos + 1)
    else if c == DOLLAR then
      var atEnd := Get(text, pos + 1) == eof || Get(text, pos + 1) == NEWLINE;
      Next(Emit(st, if atEnd then Dollar else Lit(c)), pos + 1)
    else if c == LSQUARE then ReadBracket(text, pos + 1, room, st)
    else if c == BACKSLASH then ReadEscape(text, pos + 1, st)
    else Next(Emit(st, Lit(c)), pos + 1)
  }

  /** A star with nothing to repeat, or after a group marker, is an ordinary character. */
  function AddStar(st: State, pos: nat): Step {
    if st.items == [] || IsMarker(Last(st.items)) then Next(Emit(st, Lit(ASTERISK)), pos)
    else Next(st.(items := ReplaceLast(st.items, Last(st.items).(star := true))), pos)
  }

  function ReadBracket(text: seq<byte>, pos: nat, room: int, st: State): Step {
    var size := TotalSize(st.items);
    if size + 17 >= room then Stop(50)
    else
      var neg := Get(text, pos) == CARET;
      match ReadList(text, if neg then pos + 1 else pos, 0, {}, false, size + 33 < room)
      case BadBracket(code) => Stop(code)
      case BracketText(members, wide, pos') => Next(Emit(st, Bracket(neg, members, wide)), pos')
  }

  /** The text after a backslash. */
  function ReadEscape(text: seq<byte>, pos: nat, st: State): Step {
    var c := Get(text, pos);
    if c == LPAREN then BeginGroup(st, pos + 1)
    else if c == RPAREN then EndGroup(st, pos + 1)
    else if c == LBRACE && st.items != [] then AddInterval(text, pos + 1, st)
    else ReadEscaped(c, pos + 1, st)
  }

  /** An escaped byte that is neither a group marker nor an interval. */
  function ReadEscaped(c: byte, pos: nat, st: State): Step {
    if c == NEWLINE then Stop(36)
    else if c == LOWER_N then Next(Emit(st, Lit(NEWLINE)), pos)
    else if ONE <= c <= NINE then
      if c - ONE >= st.ended then Stop(25) else Next(Emit(st, Ref(c - ONE)), pos)
    else Next(Emit(st, Lit(c)), pos)
  }

  function BeginGroup(st: State, pos: nat): Step {
    if st.nbra >= NBRA then Stop(43)
    else Next(Emit(st, Open(st.nbra)).(stack := st.stack + [st.nbra as byte], nbra := st.nbra + 1), pos)
  }

  function EndGroup(st: State, pos: nat): Step {
    if st.stack == [] then Stop(42)
    else
      var top := |st.stack| - 1;
      Next(Emit(st, Close(st.stack[top])).(stack := st.stack[..top], ended := st.ended + 1), pos)
  }

  function AddInterval(text: seq<byte>, pos: nat, st: State): Step
    requires st.items != []
  {
    match ReadInterval(text, pos)
    case BadInterval(code) => Stop(code)
    case IntervalText(r, pos') =>
      var last := Last(st.items);
      Next(st.(items := ReplaceLast(st.items, last.(ranges := last.ranges + [r]))), pos')
  }

  // ----- Whole patterns -----

  datatype Parsed =
    | Rejected(code: int)
    | Unchanged(pos: nat, newline: bool)
    | Accepted(items: seq<Item>, anchored: bool, nbra: nat, pos: nat, newline: bool)

  const EMPTY := State([], [], 0, 0)

  function ReadItems(text: seq<byte>, pos: nat, eof: byte, sed: bool, room: int, anchored: bool, st: State): (p: Parsed)
    ensures p.Rejected? || (p.Accepted? && p.anchored == anchored)
    decreases if pos < |text| then |text| - pos else 0, room - TotalSize(st.items)
  {
    match ReadToken(text, pos, eof, sed, room, st)
    case Stop(code) => Rejected(code)
    case Done(pos', newline) => Accepted(st.items, anchored, st.nbra, pos', newline)
    case Next(st', pos') =>
      TokenProgress(text, pos, eof, sed, room, st);
      ReadItems(text, pos', eof, sed, room, anchored, st')
  }

  /**
   The meaning of `text` up to the delimiter `eof`. `first` is the first byte of the code
   buffer: an empty pattern keeps the program that is there, if there is one.
   */
  function Parse(text: seq<byte>, eof: byte, sed: bool, room: int, first: byte): Parsed {
    var c := Get(text, 0);
    if c == eof || c == NEWLINE then
      if first == 0 && !sed then Rejected(41)
      else Unchanged(if c == NEWLINE then 0 else 1, c == NEWLINE)
    else ReadItems(text, if c == CARET then 1 else 0, eof, sed, room, c == CARET, EMPTY)
  }

  /** Where the reader stands after `n` more tokens, if it gets that far. */
  function Stands(text: seq<byte>, pos: nat, eof: byte, sed: bool, room: int, st: State, n: nat): Step
    decreases n
  {
    if n == 0 then Next(st, pos)
    else
      var t := ReadToken(text, pos, eof, sed, room, st);
      if t.Next? then Stands(text, t.pos, eof, sed, room, t.st, n - 1) else t
  }

  // ----- Progress -----

  lemma {:induction false} ListAdvances(text: seq<byte>, pos: nat, lc: byte, members: set<byte>, wide: bool,
                                        roomy: bool)
    ensures var b := ReadList(text, pos, lc, members, wide, roomy); b.BracketText? ==> pos < b.pos
    decreases |text| - pos
  {
    var c := Get(text, pos);
    if c != 0 {
      if c == HYPHEN && lc != 0 {
        var d := Get(text, pos + 1);
        ListAdvances(text, pos + 2, d, members + Below(lc, d) + {d}, wide || d >= 128, roomy);
      } else {
        ListAdvances(text, pos + 1, c, members + {c}, wide || c >= 128, roomy);
      }
    }
  }

  lemma {:induction false} NumberAdvances(text: seq<byte>, pos: nat, value: nat)
    ensures var n := ReadNumber(text, pos, value); n.Number? ==> pos < n.pos
    decreases |text| - pos
  {
    var c := Get(text, pos);
    if c != 0 {
      NumberAdvances(text, pos + 1, 10 * value + if ZERO <= c <= NINE then c - ZERO else 0);
    }
  }

  lemma IntervalAdvances(text: seq<byte>, pos: nat)
    ensures var r := ReadInterval(text, pos); r.IntervalText? ==> pos < r.pos
  {
    NumberAdvances(text, pos, 0);
    var m := ReadNumber(text, pos, 0);
    if m.Number? { NumberAdvances(text, m.pos, 0); }
  }

  /** Every token consumes text, or once the text is used up, code space. */
  lemma TokenProgress(text: seq<byte>, pos: nat, eof: byte, sed: bool, room: int, st: State)
    ensures var t := ReadToken(text, pos, eof, sed, room, st);
            t.Next? ==> pos < t.pos && TotalSize(st.items) < room
                        && (pos >= |text| ==> TotalSize(t.st.items) > TotalSize(st.items))
  {
    var c := Get(text, pos);
    if c == LSQUARE {
      var neg := Get(text, pos + 1) == CARET;
      ListAdvances(text, if neg then pos + 2 else pos + 1, 0, {}, false, TotalSize(st.items) + 33 < room);
    } else if c == BACKSLASH {
      IntervalAdvances(text, pos + 2);
    } else if pos >= |text| {
      TotalSizeAppend(st.items, Plain(Lit(c)));
    }
  }
}
