/**
 The texts that are refused, and with which error number. Every refused text begins with
 allowed tokens and then goes wrong in one of the ways stated here.
 */
module Faults {
  import opened Bits
  import opened Pattern
  import opened Code
  import opened Syntax
  import opened Groups
  import opened Spelling
  import opened Grammar

  // ----- Intervals -----

  predicate IsDigit(c: byte) {
    ZERO <= c <= NINE
  }

  predicate IsStop(c: byte) {
    c == BACKSLASH || c == COMMA
  }

  /** After the digits `ds`, error 16 at a byte that cannot follow them; error 11 for 255 or more. */
  ghost predicate NumberFault(text: seq<byte>, pos: nat, ds: seq<byte>, code: int) {
    && AllDigits(ds) && Starts(text, pos, ds)
    && var c := Get(text, pos + |ds|);
       if ds != [] && IsStop(c) then code == 11 && Value(0, ds) >= 255 else code == 16 && !IsDigit(c)
  }

  /** After `m,n`: error 44 for another comma, 45 without a brace, 46 for bounds out of order. */
  ghost predicate SecondFault(text: seq<byte>, pos: nat, n: seq<byte>, lo: nat, code: int) {
    && GoodNumber(n) && Starts(text, pos, n)
    && var c, d := Get(text, pos + |n|), Get(text, pos + |n| + 1);
       || (c == COMMA && code == 44)
       || (c == BACKSLASH && d != RBRACE && code == 45)
       || (c == BACKSLASH && d == RBRACE && Value(0, n) < lo && code == 46)
  }

  ghost predicate CommaFault(text: seq<byte>, pos: nat, lo: nat, code: int) {
    if Get(text, pos) == BACKSLASH then Get(text, pos + 1) != RBRACE && code == 45
    else exists n :: NumberFault(text, pos, n, code) || SecondFault(text, pos, n, lo, code)
  }

  /** What goes wrong in or after the first number `m`. */
  ghost predicate FirstFault(text: seq<byte>, pos: nat, m: seq<byte>, code: int) {
    || NumberFault(text, pos, m, code)
    || (&& GoodNumber(m) && Starts(text, pos, m)
        && var c := Get(text, pos + |m|);
           || (c == BACKSLASH && Get(text, pos + |m| + 1) != RBRACE && code == 45)
           || (c == COMMA && CommaFault(text, pos + |m| + 1, Value(0, m), code)))
  }

  ghost predicate IntervalFault(text: seq<byte>, pos: nat, code: int) {
    exists m :: FirstFault(text, pos, m, code)
  }

  /** The digits from `pos` on, up to the first other byte. */
  lemma {:induction false} DigitRun(text: seq<byte>, pos: nat) returns (ds: seq<byte>)
    ensures AllDigits(ds) && Starts(text, pos, ds) && !IsDigit(Get(text, pos + |ds|))
    decreases |text| - pos
  {
    if IsDigit(Get(text, pos)) {
      var rest := DigitRun(text, pos + 1);
      ds := [Get(text, pos)] + rest;
      StartsSplit(text, pos, [Get(text, pos)], rest);
    } else {
      ds := [];
    }
  }

  lemma {:induction false} NotANumberRead(text: seq<byte>, pos: nat, v: nat, ds: seq<byte>)
    requires AllDigits(ds) && Starts(text, pos, ds)
    requires var c := Get(text, pos + |ds|); !IsDigit(c) && (ds == [] || !IsStop(c))
    ensures ReadNumber(text, pos, v).NotANumber?
    decreases |ds|
  {
    if ds == [] {
    } else {
      var rest := ds[1..];
      assert ds == [ds[0]] + rest;
      StartsSplit(text, pos, [ds[0]], rest);
      StartsAt(text, pos, ds, 0);
      if rest != [] {
        StartsAt(text, pos + 1, rest, 0);
        NotANumberRead(text, pos + 1, 10 * v + (ds[0] - ZERO), rest);
      } else {
        assert ReadNumber(text, pos + 1, 10 * v + (ds[0] - ZERO)).NotANumber?;
      }
    }
  }

  /** Reading a number: the digits up to the first other byte tell whether it is one. */
  lemma NumberTells(text: seq<byte>, pos: nat, ds: seq<byte>)
    requires AllDigits(ds) && Starts(text, pos, ds) && !IsDigit(Get(text, pos + |ds|))
    ensures var c := Get(text, pos + |ds|);
            ReadNumber(text, pos, 0) ==
            if ds != [] && IsStop(c) then Number(Value(0, ds), c, pos + |ds| + 1) else NotANumber
  {
    var c := Get(text, pos + |ds|);
    if ds != [] && IsStop(c) {
      DigitsRead(text, pos, 0, ds, c);
    } else {
      NotANumberRead(text, pos, 0, ds);
    }
  }

  lemma DigitsThrough(text: seq<byte>, pos: nat, ds: seq<byte>)
    requires AllDigits(ds) && Starts(text, pos, ds)
    ensures forall k: nat {:trigger Get(text, k)} :: pos <= k < pos + |ds| ==> IsDigit(Get(text, k))
  {
    forall k: nat | pos <= k < pos + |ds| ensures IsDigit(Get(text, k)) {
      StartsAt(text, pos, ds, k - pos);
    }
  }

  /** There is one such run of digits. */
  lemma OneRun(text: seq<byte>, pos: nat, ds: seq<byte>, es: seq<byte>)
    requires AllDigits(ds) && Starts(text, pos, ds) && !IsDigit(Get(text, pos + |ds|))
    requires AllDigits(es) && Starts(text, pos, es) && !IsDigit(Get(text, pos + |es|))
    ensures ds == es
  {
    DigitsThrough(text, pos, ds);
    DigitsThrough(text, pos, es);
    forall k | 0 <= k < |ds| ensures ds[k] == es[k] {
      StartsAt(text, pos, ds, k);
      StartsAt(text, pos, es, k);
    }
  }

  /** After a lower bound and a comma. */
  lemma CommaFaults(text: seq<byte>, pos: nat, lo: byte, code: int)
    requires lo < 255
    ensures var n := ReadNumber(text, pos, 0);
            CommaFault(text, pos, lo, code) <==>
            BadInterval(code) == if Get(text, pos) == BACKSLASH then CloseInterval(text, pos + 1, lo, UNBOUNDED)
                                 else if n.NotANumber? then BadInterval(16)
                                 else if n.value >= 255 then BadInterval(11)
                                 else if n.stop == COMMA then BadInterval(44)
                                 else CloseInterval(text, n.pos, lo, n.value)
  {
    if Get(text, pos) != BACKSLASH {
      var n := DigitRun(text, pos);
      NumberTells(text, pos, n);
      SecondDecides(text, pos, n, lo, code);
    }
  }

  lemma SecondDecides(text: seq<byte>, pos: nat, n: seq<byte>, lo: nat, code: int)
    requires AllDigits(n) && Starts(text, pos, n) && !IsDigit(Get(text, pos + |n|)) && Get(text, pos) != BACKSLASH
    ensures CommaFault(text, pos, lo, code) <==>
            NumberFault(text, pos, n, code) || SecondFault(text, pos, n, lo, code)
  {
    forall m | NumberFault(text, pos, m, code) || SecondFault(text, pos, m, lo, code) ensures m == n {
      OneRun(text, pos, m, n);
    }
  }

  lemma IntervalFaults(text: seq<byte>, pos: nat, code: int)
    ensures ReadInterval(text, pos) == BadInterval(code) <==> IntervalFault(text, pos, code)
  {
    var m := DigitRun(text, pos);
    NumberTells(text, pos, m);
    FirstDecides(text, pos, m, code);
    if GoodNumber(m) {
      CommaFaults(text, pos + |m| + 1, Value(0, m), code);
    }
  }

  lemma FirstDecides(text: seq<byte>, pos: nat, m: seq<byte>, code: int)
    requires AllDigits(m) && Starts(text, pos, m) && !IsDigit(Get(text, pos + |m|))
    ensures IntervalFault(text, pos, code) <==> FirstFault(text, pos, m, code)
  {
    forall n | FirstFault(text, pos, n, code) ensures n == m {
      OneRun(text, pos, n, m);
    }
  }

  // ----- Bracket lists -----

  function SpellElems(elems: seq<Elem>): seq<byte> {
    if elems == [] then [] else SpellElem(elems[0]) + SpellElems(elems[1..])
  }

  /** Elements that a list may go on after. */
  predicate OpenRest(lc: byte, elems: seq<Elem>)
    decreases |elems|
  {
    elems == [] ||
    (WritableElem(lc, elems[0], false) && Trail(elems[0]) != RSQUARE && OpenRest(Trail(elems[0]), elems[1..]))
  }

  function TrailOf(lc: byte, elems: seq<Elem>): byte {
    if elems == [] then lc else Trail(elems[|elems| - 1])
  }

  /** Error 49 at NUL or a newline, 50 at a byte above 127 for which there is no room. */
  predicate BreaksAt(text: seq<byte>, pos: nat, lc: byte, roomy: bool, code: int) {
    var c := Get(text, pos);
    if c == 0 || c == NEWLINE then code == 49
    else code == 50 && !roomy && (c >= 128 || (c == HYPHEN && lc != 0 && Get(text, pos + 1) >= 128))
  }

  /** A list goes wrong after `elems`. */
  ghost predicate RestBreaks(text: seq<byte>, pos: nat, lc: byte, elems: seq<Elem>, roomy: bool, code: int) {
    && OpenRest(lc, elems) && Starts(text, pos, SpellElems(elems)) && (roomy || !AnyHigh(elems))
    && BreaksAt(text, pos + |SpellElems(elems)|, TrailOf(lc, elems), roomy, code)
  }

  lemma {:induction false} BreakIsRead(text: seq<byte>, pos: nat, lc: byte, elems: seq<Elem>, roomy: bool, code: int,
                                       members: set<byte>, wide: bool)
    requires RestBreaks(text, pos, lc, elems, roomy, code) && (wide ==> roomy)
    ensures ReadMore(text, pos, lc, members, wide, roomy) == BadBracket(code)
    decreases |elems|
  {
    if elems == [] {
    } else {
      var e, rest := elems[0], elems[1..];
      StartsSplit(text, pos, SpellElem(e), SpellElems(rest));
      ElemReads(text, pos, e, lc, members, wide, roomy);
      assert TrailOf(lc, elems) == TrailOf(Trail(e), rest);
      BreakIsRead(text, pos + |SpellElem(e)|, Trail(e), rest, roomy, code, members + DenoteElem(lc, e),
                  wide || Trail(e) >= 128);
    }
  }

  lemma {:induction false} BadIsBreak(text: seq<byte>, pos: nat, lc: byte, roomy: bool, members: set<byte>, wide: bool)
    returns (elems: seq<Elem>)
    requires ReadMore(text, pos, lc, members, wide, roomy).BadBracket? && (wide ==> roomy)
    ensures RestBreaks(text, pos, lc, elems, roomy, ReadMore(text, pos, lc, members, wide, roomy).code)
    decreases |text| - pos
  {
    var c, d := Get(text, pos), Get(text, pos + 1);
    if BreaksAt(text, pos, lc, roomy, ReadMore(text, pos, lc, members, wide, roomy).code) {
      elems := [];
    } else {
      var e := if c == HYPHEN && lc != 0 then To(d) else One(c);
      ElemReads(text, pos, e, lc, members, wide, roomy);
      var rest := BadIsBreak(text, pos + |SpellElem(e)|, Trail(e), roomy, members + DenoteElem(lc, e),
                             wide || Trail(e) >= 128);
      elems := [e] + rest;
      BreakAfter(text, pos, lc, e, rest, roomy, ReadMore(text, pos, lc, members, wide, roomy).code);
    }
  }

  lemma BreakAfter(text: seq<byte>, pos: nat, lc: byte, e: Elem, rest: seq<Elem>, roomy: bool, code: int)
    requires WritableElem(lc, e, false) && Trail(e) != RSQUARE && Starts(text, pos, SpellElem(e))
    requires roomy || Trail(e) < 128
    requires RestBreaks(text, pos + |SpellElem(e)|, Trail(e), rest, roomy, code)
    ensures RestBreaks(text, pos, lc, [e] + rest, roomy, code)
  {
    var elems := [e] + rest;
    assert elems[1..] == rest && TrailOf(lc, elems) == TrailOf(Trail(e), rest);
    StartsSplit(text, pos, SpellElem(e), SpellElems(rest));
  }

  /** A list goes wrong at its first byte, or after that and `elems`. */
  ghost predicate ListBreaks(text: seq<byte>, pos: nat, elems: seq<Elem>, roomy: bool, code: int) {
    var c := Get(text, pos);
    || BreaksAt(text, pos, 0, roomy, code)
    || (&& c != 0 && c != NEWLINE && (roomy || c < 128)
        && RestBreaks(text, pos + 1, c, elems, roomy, code))
  }

  ghost predicate ListFault(text: seq<byte>, pos: nat, roomy: bool, code: int) {
    exists elems :: ListBreaks(text, pos, elems, roomy, code)
  }

  lemma ListFaults(text: seq<byte>, pos: nat, roomy: bool, code: int)
    ensures ReadList(text, pos, 0, {}, false, roomy) == BadBracket(code) <==> ListFault(text, pos, roomy, code)
  {
    var c := Get(text, pos);
    var b := ReadList(text, pos, 0, {}, false, roomy);
    if elems :| ListBreaks(text, pos, elems, roomy, code) && !BreaksAt(text, pos, 0, roomy, code) {
      BreakIsRead(text, pos + 1, c, elems, roomy, code, {} + {c}, c >= 128);
    }
    if b == BadBracket(code) {
      if BreaksAt(text, pos, 0, roomy, code) {
        assert ListBreaks(text, pos, [], roomy, code);
      } else {
        var elems := BadIsBreak(text, pos + 1, c, roomy, {} + {c}, c >= 128);
        assert ListBreaks(text, pos, elems, roomy, code);
      }
    }
  }

  // ----- Tokens -----

  /** A bracket expression goes wrong: for want of room, or in its list. */
  ghost predicate BracketFault(text: seq<byte>, pos: nat, size: nat, room: int, code: int) {
    var at := if Get(text, pos) == CARET then pos + 1 else pos;
    if size + 17 >= room then code == 50
    else ListFault(text, at, size + 33 < room, code)
  }

  /** What goes wrong after a backslash. */
  ghost predicate EscapeFault(text: seq<byte>, pos: nat, items: seq<Item>, code: int) {
    && After(items).Brackets?
    && var c := Get(text, pos);
       || (c == LPAREN && After(items).begun >= NBRA && code == 43)
       || (c == RPAREN && After(items).stack == [] && code == 42)
       || (c == LBRACE && items != [] && IntervalFault(text, pos + 1, code))
       || (c == NEWLINE && code == 36)
       || (ONE <= c <= NINE && c - ONE >= |After(items).ended| && code == 25)
  }

  /** What goes wrong at `pos` after `items`; the test for room comes first. */
  ghost predicate Fault(text: seq<byte>, pos: nat, eof: byte, sed: bool, room: int, items: seq<Item>, code: int) {
    && After(items).Brackets?
    && var c := Get(text, pos);
       if TotalSize(items) >= room then code == 50
       else if c == eof then After(items).stack != [] && code == 42
       else if c == NEWLINE then if sed then code == 36 else After(items).stack != [] && code == 42
       else
         || (c == LSQUARE && BracketFault(text, pos + 1, TotalSize(items), room, code))
         || (c == BACKSLASH && EscapeFault(text, pos + 1, items, code))
  }

  lemma TokenFaults(text: seq<byte>, pos: nat, eof: byte, sed: bool, room: int, items: seq<Item>, code: int)
    requires After(items).Brackets?
    ensures ReadToken(text, pos, eof, sed, room, StateOf(items)) == Stop(code) <==>
            Fault(text, pos, eof, sed, room, items, code)
  {
    var c := Get(text, pos);
    if TotalSize(items) < room && c != eof && c != NEWLINE {
      if c == LSQUARE {
        BracketFaults(text, pos + 1, room, StateOf(items), code);
      } else if c == BACKSLASH {
        EscapeFaults(text, pos + 1, items, StateOf(items), code);
      }
    }
  }

  lemma BracketFaults(text: seq<byte>, pos: nat, room: int, st: State, code: int)
    ensures ReadBracket(text, pos, room, st) == Stop(code) <==>
            BracketFault(text, pos, TotalSize(st.items), room, code)
  {
    var at := if Get(text, pos) == CARET then pos + 1 else pos;
    ListFaults(text, at, TotalSize(st.items) + 33 < room, code);
  }

  lemma EscapeFaults(text: seq<byte>, pos: nat, items: seq<Item>, st: State, code: int)
    requires After(items).Brackets? && st == StateOf(items)
    ensures ReadEscape(text, pos, st) == Stop(code) <==> EscapeFault(text, pos, items, code)
  {
    IntervalFaults(text, pos + 1, code);
  }

  // ----- Exactly the refused texts -----

  /** Allowed tokens up to `end`, where the text goes wrong. */
  ghost predicate FailsAt(text: seq<byte>, eof: byte, sed: bool, room: int, toks: seq<Token>, anchored: bool, end: nat,
                          code: int)
  {
    && Spans(text, eof, toks, anchored, end) && FoundRoom(toks, room)
    && Fault(text, end, eof, sed, room, Build(toks), code)
  }

  /**
   A text is refused with error `code` if and only if it is empty, there is no program to
   keep and `code` is 41; or it begins with allowed tokens and then goes wrong so.
   */
  lemma RejectedIff(text: seq<byte>, eof: byte, sed: bool, room: int, first: byte, code: int)
    ensures Parse(text, eof, sed, room, first) == Rejected(code) <==>
            if Ends(text, 0, eof) then first == 0 && !sed && code == 41
            else exists toks, anchored, end :: FailsAt(text, eof, sed, room, toks, anchored, end, code)
  {
    if !Ends(text, 0, eof) {
      if toks, anchored, end :| FailsAt(text, eof, sed, room, toks, anchored, end, code) {
        FaultIsRead(text, eof, sed, room, first, toks, anchored, end, code);
      }
      if Parse(text, eof, sed, room, first) == Rejected(code) {
        var toks, end := ParsedIsWritten(text, eof, sed, room, first);
        TokenFaults(text, end, eof, sed, room, Build(toks), code);
        assert FailsAt(text, eof, sed, room, toks, Get(text, 0) == CARET, end, code);
      }
    }
  }

  lemma FaultIsRead(text: seq<byte>, eof: byte, sed: bool, room: int, first: byte, toks: seq<Token>, anchored: bool,
                    end: nat, code: int)
    requires FailsAt(text, eof, sed, room, toks, anchored, end, code)
    ensures Parse(text, eof, sed, room, first) == Rejected(code)
  {
    TokensRead(text, if anchored then 1 else 0, eof, sed, room, anchored, toks, end);
    TokenFaults(text, end, eof, sed, room, Build(toks), code);
  }

  /** An empty text keeps the program that is there: whether a newline ended it, and where. */
  lemma UnchangedIff(text: seq<byte>, eof: byte, sed: bool, room: int, first: byte, pos: nat, newline: bool)
    ensures Parse(text, eof, sed, room, first) == Unchanged(pos, newline) <==>
            && Ends(text, 0, eof) && (first != 0 || sed)
            && (if newline then Get(text, 0) == NEWLINE && pos == 0 else Get(text, 0) != NEWLINE && pos == 1)
  {
  }
}
