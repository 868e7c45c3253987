/**
 What the compiler guarantees about the programs it accepts: sound items, balanced and
 properly nested groups, and which references the `closed` counter lets through.
 */
module Groups {
  import opened Bits
  import opened Pattern
  import opened Code
  import opened Syntax

  /** Groups seen so far: those open, how many were begun, and those ended. */
  datatype Brackets = Unbalanced | Brackets(stack: seq<byte>, begun: nat, ended: set<byte>)

  function Enter(b: Brackets, h: Head): Brackets {
    if b.Unbalanced? then b
    else
      match h
      case Open(g) =>
        if g == b.begun then Brackets(b.stack + [g], b.begun + 1, b.ended) else Unbalanced
      case Close(g) =>
        if b.stack != [] && b.stack[|b.stack| - 1] == g then Brackets(b.stack[..|b.stack| - 1], b.begun, b.ended + {g})
        else Unbalanced
      case _ => b
  }

  function After(items: seq<Item>): Brackets {
    if items == [] then Brackets([], 0, {})
    else Enter(After(items[..|items| - 1]), Last(items).head)
  }

  lemma AfterAppend(items: seq<Item>, it: Item)
    ensures After(items + [it]) == Enter(After(items), it.head)
  {
    assert (items + [it])[..|items|] == items;
  }

  lemma AfterReplace(items: seq<Item>, it: Item)
    requires items != [] && it.head == Last(items).head
    ensures After(ReplaceLast(items, it)) == After(items)
  {
    AfterAppend(items[..|items| - 1], it);
  }

  // ----- Open and ended groups partition the groups begun -----

  predicate IsBelow(g: byte, n: nat) {
    g < n
  }

  /** The groups numbered below `n`. */
  function Begun(n: nat): set<byte> {
    set g: byte | IsBelow(g, n)
  }

  predicate Increasing(s: seq<byte>) {
    forall j, k :: 0 <= j < k < |s| ==> s[j] < s[k]
  }

  ghost predicate Partition(b: Brackets) {
    b.Brackets? ==>
      && b.begun <= 256 && Increasing(b.stack)
      && (forall g :: g in b.stack ==> g < b.begun && g !in b.ended)
      && (forall g :: g in b.ended ==> g < b.begun)
      && (forall g: byte :: g < b.begun ==> g in b.stack || g in b.ended)
  }

  lemma EnterKeepsPartition(b: Brackets, h: Head)
    requires Partition(b)
    ensures Partition(Enter(b, h))
  {
    var b' := Enter(b, h);
    if b'.Brackets? && h.Open? {
      assert forall g :: g in b'.stack <==> g in b.stack || g == h.g;
      forall j, k | 0 <= j < k < |b'.stack| ensures b'.stack[j] < b'.stack[k] {
        assert b.stack[j] in b.stack;
      }
    } else if b'.Brackets? && h.Close? {
      var top := |b.stack| - 1;
      assert b.stack == b'.stack + [h.g];
      assert forall g :: g in b.stack <==> g in b'.stack || g == h.g;
      assert h.g !in b'.stack;
    }
  }

  lemma {:induction false} AfterPartition(items: seq<Item>)
    ensures Partition(After(items))
    decreases |items|
  {
    if items == [] {
    } else {
      AfterPartition(items[..|items| - 1]);
      EnterKeepsPartition(After(items[..|items| - 1]), Last(items).head);
    }
  }

  lemma {:induction false} PrefixBalanced(items: seq<Item>, k: nat)
    requires k <= |items| && After(items).Brackets?
    ensures After(items[..k]).Brackets?
    decreases |items|
  {
    if k < |items| {
      PrefixBalanced(items[..|items| - 1], k);
      assert items[..|items| - 1][..k] == items[..k];
    } else {
      assert items[..k] == items;
    }
  }

  lemma TakeOneMore(items: seq<Item>, k: nat)
    requires k < |items|
    ensures items[..k + 1] == items[..k] + [items[k]]
  {
  }

  lemma AfterPrefix(items: seq<Item>, k: nat)
    requires k < |items|
    ensures After(items[..k + 1]) == Enter(After(items[..k]), items[k].head)
  {
    TakeOneMore(items, k);
    AfterAppend(items[..k], items[k]);
  }

  // ----- Where groups begin and end -----

  ghost predicate HasAt(items: seq<Item>, h: Head, k: nat) {
    k < |items| && items[k].head == h
  }

  lemma {:induction false} EndedIffCloses(items: seq<Item>, g: byte)
    requires After(items).Brackets?
    ensures g in After(items).ended <==> exists k: nat :: HasAt(items, Close(g), k)
    decreases |items|
  {
    if items == [] {
    } else {
      var n := |items| - 1;
      EndedIffCloses(items[..n], g);
      if exists k: nat :: HasAt(items[..n], Close(g), k) {
        var k: nat :| HasAt(items[..n], Close(g), k);
        assert HasAt(items, Close(g), k);
      }
      if exists k: nat :: HasAt(items, Close(g), k) {
        var k: nat :| HasAt(items, Close(g), k);
        if k < n { assert HasAt(items[..n], Close(g), k); }
      }
      if Last(items).head == Close(g) { assert HasAt(items, Close(g), n); }
    }
  }

  lemma {:induction false} BegunIffOpens(items: seq<Item>, g: byte)
    requires After(items).Brackets?
    ensures g < After(items).begun <==> exists k: nat :: HasAt(items, Open(g), k)
    decreases |items|
  {
    if items == [] {
    } else {
      var n := |items| - 1;
      BegunIffOpens(items[..n], g);
      if exists k: nat :: HasAt(items[..n], Open(g), k) {
        var k: nat :| HasAt(items[..n], Open(g), k);
        assert HasAt(items, Open(g), k);
      }
      if exists k: nat :: HasAt(items, Open(g), k) {
        var k: nat :| HasAt(items, Open(g), k);
        if k < n { assert HasAt(items[..n], Open(g), k); }
      }
      if Last(items).head == Open(g) { assert HasAt(items, Open(g), n); }
    }
  }

  /** Every reference names a group that closed before it. */
  ghost predicate RefsClosed(items: seq<Item>) {
    forall k :: 0 <= k < |items| && items[k].head.Ref? ==>
      exists j: nat :: j < k && HasAt(items, Close(items[k].head.g), j)
  }

  lemma EndedBefore(items: seq<Item>, k: nat, g: byte)
    requires k <= |items| && After(items).Brackets?
    ensures After(items[..k]).Brackets?
    ensures g in After(items[..k]).ended <==> exists j: nat :: j < k && HasAt(items, Close(g), j)
  {
    PrefixBalanced(items, k);
    EndedIffCloses(items[..k], g);
    if g in After(items[..k]).ended {
      var j: nat :| HasAt(items[..k], Close(g), j);
      assert j < k && HasAt(items, Close(g), j);
    }
    if exists j: nat :: j < k && HasAt(items, Close(g), j) {
      var j: nat :| j < k && HasAt(items, Close(g), j);
      assert HasAt(items[..k], Close(g), j);
    }
  }

  /** For balanced groups, being well scoped comes down to references naming closed groups. */
  lemma {:induction false} ScopedIffRefsClosed(items: seq<Item>, k: nat)
    requires k <= |items| && After(items).Brackets?
    ensures After(items[..k]).Brackets?
    ensures var b := After(items[..k]);
            WellScoped(items[k..], Begun(b.begun), b.ended) <==>
            forall l :: k <= l < |items| && items[l].head.Ref? ==>
              exists j: nat :: j < l && HasAt(items, Close(items[l].head.g), j)
    decreases |items| - k
  {
    PrefixBalanced(items, k);
    if k < |items| {
      ScopedIffRefsClosed(items, k + 1);
      AfterPrefix(items, k);
      AfterPartition(items[..k]);
      var b, b', h := After(items[..k]), After(items[..k + 1]), items[k].head;
      assert items[k..][0] == items[k] && items[k..][1..] == items[k + 1..];
      match h
      case Open(g) => assert Begun(b'.begun) == Begun(b.begun) + {g};
      case Close(g) => assert g in b.stack;
      case Ref(g) => EndedBefore(items, k, g);
      case _ =>
    }
  }

  // ----- Nesting -----

  /**
   Groups 0 to `n - 1` each begin once and end once, later; nothing else begins or ends;
   and of two groups the later one lies after the end of the earlier or inside it.
   */
  ghost predicate Balanced(items: seq<Item>, n: nat) {
    && (forall g: byte :: g < n ==> Paired(items, g))
    && (forall g: byte, o: nat :: HasAt(items, Open(g), o) ==> g < n)
    && (forall g: byte, c: nat :: HasAt(items, Close(g), c) ==> g < n)
    && OnceEach(items)
    && (forall g: byte, o: nat, c: nat, h: byte, o': nat, c': nat ::
          && HasAt(items, Open(g), o) && HasAt(items, Close(g), c)
          && HasAt(items, Open(h), o') && HasAt(items, Close(h), c') && o < o'
          ==> c < o' || c' < c)
  }

  ghost predicate Paired(items: seq<Item>, g: byte) {
    exists o: nat, c: nat :: o < c && HasAt(items, Open(g), o) && HasAt(items, Close(g), c)
  }

  ghost predicate OnceEach(items: seq<Item>) {
    && (forall g: byte, j: nat, k: nat :: HasAt(items, Open(g), j) && HasAt(items, Open(g), k) ==> j == k)
    && (forall g: byte, j: nat, k: nat :: HasAt(items, Close(g), j) && HasAt(items, Close(g), k) ==> j == k)
    && (forall g: byte, o: nat, c: nat :: HasAt(items, Open(g), o) && HasAt(items, Close(g), c) ==> o < c)
  }

  lemma BegunBefore(items: seq<Item>, k: nat, g: byte)
    requires k <= |items| && After(items).Brackets?
    ensures After(items[..k]).Brackets?
    ensures g < After(items[..k]).begun <==> exists j: nat :: j < k && HasAt(items, Open(g), j)
  {
    PrefixBalanced(items, k);
    BegunIffOpens(items[..k], g);
    if g < After(items[..k]).begun {
      var j: nat :| HasAt(items[..k], Open(g), j);
      assert j < k && HasAt(items, Open(g), j);
    }
    if exists j: nat :: j < k && HasAt(items, Open(g), j) {
      var j: nat :| j < k && HasAt(items, Open(g), j);
      assert HasAt(items[..k], Open(g), j);
    }
  }

  lemma OpensOnce(items: seq<Item>, g: byte, j: nat, k: nat)
    requires After(items).Brackets? && HasAt(items, Open(g), j) && HasAt(items, Open(g), k)
    ensures j == k
  {
    if j != k {
      var lo, hi := if j < k then j else k, if j < k then k else j;
      BegunBefore(items, hi, g);
      PrefixBalanced(items, hi + 1);
      AfterPrefix(items, hi);
    }
  }

  /** A closing marker pops its own group: it is open, not yet ended, and innermost. */
  lemma ClosesTop(items: seq<Item>, g: byte, c: nat)
    requires After(items).Brackets? && HasAt(items, Close(g), c)
    ensures var b := After(items[..c]);
            && b.Brackets? && Partition(b) && g in b.stack && g !in b.ended && g < b.begun
            && forall s :: s in b.stack ==> s <= g
  {
    PrefixBalanced(items, c);
    PrefixBalanced(items, c + 1);
    AfterPrefix(items, c);
    AfterPartition(items[..c]);
  }

  lemma ClosesOnce(items: seq<Item>, g: byte, j: nat, k: nat)
    requires After(items).Brackets? && HasAt(items, Close(g), j) && HasAt(items, Close(g), k)
    ensures j == k
  {
    if j != k {
      var lo, hi := if j < k then j else k, if j < k then k else j;
      ClosesTop(items, g, hi);
      EndedBefore(items, hi, g);
    }
  }

  lemma OpensFirst(items: seq<Item>, g: byte, o: nat, c: nat)
    requires After(items).Brackets? && HasAt(items, Open(g), o) && HasAt(items, Close(g), c)
    ensures o < c
  {
    ClosesTop(items, g, c);
    BegunBefore(items, c, g);
    var j: nat :| j < c && HasAt(items, Open(g), j);
    OpensOnce(items, g, o, j);
  }

  lemma NestsOrFollows(items: seq<Item>, g: byte, o: nat, c: nat, h: byte, o': nat, c': nat)
    requires After(items).Brackets? && o < o'
    requires HasAt(items, Open(g), o) && HasAt(items, Close(g), c) && HasAt(items, Open(h), o')
             && HasAt(items, Close(h), c')
    ensures c < o' || c' < c
  {
    if o' < c {
      BegunBefore(items, o', g);
      PrefixBalanced(items, o' + 1);
      AfterPrefix(items, o');
      assert g < h;
      ClosesTop(items, g, c);
      BegunBefore(items, c, h);
      EndedBefore(items, c, h);
      var j: nat :| j < c && HasAt(items, Close(h), j);
      ClosesOnce(items, h, j, c');
    }
  }

  lemma AfterIsBalanced(items: seq<Item>)
    requires After(items).Brackets? && After(items).stack == []
    ensures Balanced(items, After(items).begun)
  {
    var n := After(items).begun;
    AfterPartition(items);
    forall g: byte | g < n
      ensures Paired(items, g)
    {
      BegunIffOpens(items, g);
      EndedIffCloses(items, g);
      var o: nat :| HasAt(items, Open(g), o);
      var c: nat :| HasAt(items, Close(g), c);
      OpensFirst(items, g, o, c);
    }
    forall g: byte, k: nat | HasAt(items, Open(g), k) ensures g < n { BegunIffOpens(items, g); }
    forall g: byte, k: nat | HasAt(items, Close(g), k) ensures g < n { EndedIffCloses(items, g); }
    AfterIsOnceEach(items);
    forall g: byte, o: nat, c: nat, h: byte, o': nat, c': nat |
      && HasAt(items, Open(g), o) && HasAt(items, Close(g), c)
      && HasAt(items, Open(h), o') && HasAt(items, Close(h), c') && o < o'
      ensures c < o' || c' < c
    {
      NestsOrFollows(items, g, o, c, h, o', c');
    }
  }

  lemma AfterIsOnceEach(items: seq<Item>)
    requires After(items).Brackets?
    ensures OnceEach(items)
  {
    forall g: byte, j: nat, k: nat | HasAt(items, Open(g), j) && HasAt(items, Open(g), k)
      ensures j == k
    {
      OpensOnce(items, g, j, k);
    }
    forall g: byte, j: nat, k: nat | HasAt(items, Close(g), j) && HasAt(items, Close(g), k)
      ensures j == k
    {
      ClosesOnce(items, g, j, k);
    }
    forall g: byte, o: nat, c: nat | HasAt(items, Open(g), o) && HasAt(items, Close(g), c)
      ensures o < c
    {
      OpensFirst(items, g, o, c);
    }
  }

  // ----- What reading a text guarantees -----

  ghost predicate DollarLast(items: seq<Item>) {
    forall k :: 0 <= k < |items| - 1 ==> !items[k].head.Dollar?
  }

  /** Every reference is below the number of groups that have ended before it. */
  ghost predicate RefsCounted(items: seq<Item>) {
    forall k {:trigger CountedAt(items, k)} :: 0 <= k < |items| && items[k].head.Ref? ==> CountedAt(items, k)
  }

  ghost predicate CountedAt(items: seq<Item>, k: nat)
    requires k < |items| && items[k].head.Ref?
  {
    After(items[..k]).Brackets? && items[k].head.g < |After(items[..k]).ended|
  }

  lemma CountedAppend(items: seq<Item>, it: Item)
    requires RefsCounted(items)
    requires it.head.Ref? ==> After(items).Brackets? && it.head.g < |After(items).ended|
    ensures RefsCounted(items + [it])
  {
    forall k | 0 <= k < |items| + 1 && (items + [it])[k].head.Ref? ensures CountedAt(items + [it], k) {
      assert (items + [it])[..k] == items[..k];
      if k < |items| {
        assert CountedAt(items, k);
      } else {
        assert items[..k] == items;
      }
    }
  }

  lemma CountedReplace(items: seq<Item>, it: Item)
    requires RefsCounted(items) && items != [] && it.head == Last(items).head
    ensures RefsCounted(ReplaceLast(items, it))
  {
    var items' := ReplaceLast(items, it);
    forall k | 0 <= k < |items| && items'[k].head.Ref? ensures CountedAt(items', k) {
      assert items'[..k] == items[..k];
      assert CountedAt(items, k);
    }
  }

  /** What holds of the reader's state before every token; items are sound if the text has no NUL. */
  ghost predicate Tidy(text: seq<byte>, pos: nat, eof: byte, st: State) {
    var b := After(st.items);
    && b.Brackets? && b.stack == st.stack && b.begun == st.nbra <= NBRA && |b.ended| == st.ended
    && (0 !in text ==> AllSound(st.items))
    && RefsCounted(st.items)
    && DollarLast(st.items)
    && (st.items != [] && Last(st.items).head.Dollar? ==> Get(text, pos) == eof || Get(text, pos) == NEWLINE)
  }

  lemma {:induction false} ListIsSound(text: seq<byte>, pos: nat, lc: byte, members: set<byte>, wide: bool, roomy: bool)
    requires 0 !in text
    requires 0 in members ==> pos >= |text|
    requires wide || forall c :: c in members ==> c < 128
    ensures var b := ReadList(text, pos, lc, members, wide, roomy);
            b.BracketText? ==> 0 !in b.members && (b.wide || forall c :: c in b.members ==> c < 128)
    decreases |text| - pos
  {
    var c := Get(text, pos);
    if c != 0 {
      if c == HYPHEN && lc != 0 {
        var d := Get(text, pos + 1);
        ListIsSound(text, pos + 2, d, members + Below(lc, d) + {d}, wide || d >= 128, roomy);
      } else {
        ListIsSound(text, pos + 1, c, members + {c}, wide || c >= 128, roomy);
      }
    }
  }

  lemma EmitTidy(text: seq<byte>, pos: nat, eof: byte, st: State, pos': nat, h: Head)
    requires Tidy(text, pos, eof, st) && (0 !in text ==> SoundHead(h)) && !h.Open? && !h.Close?
    requires st.items != [] ==> !Last(st.items).head.Dollar?
    requires h.Ref? ==> h.g < st.ended
    requires h.Dollar? ==> Get(text, pos') == eof || Get(text, pos') == NEWLINE
    ensures Tidy(text, pos', eof, Emit(st, h))
  {
    AfterAppend(st.items, Plain(h));
    CountedAppend(st.items, Plain(h));
  }

  lemma PatchTidy(text: seq<byte>, pos: nat, eof: byte, st: State, pos': nat, it: Item)
    requires Tidy(text, pos, eof, st) && st.items != [] && !Last(st.items).head.Dollar?
    requires it.head == Last(st.items).head && (0 !in text ==> SoundItem(it))
    ensures Tidy(text, pos', eof, st.(items := ReplaceLast(st.items, it)))
  {
    AfterReplace(st.items, it);
    CountedReplace(st.items, it);
  }

  lemma EscapeTidy(text: seq<byte>, pos: nat, eof: byte, st: State, pos1: nat)
    requires Tidy(text, pos, eof, st) && (st.items != [] ==> !Last(st.items).head.Dollar?)
    ensures var t := ReadEscape(text, pos1, st); t.Next? ==> Tidy(text, t.pos, eof, t.st)
  {
    var t := ReadEscape(text, pos1, st);
    var c := Get(text, pos1);
    if t.Next? {
      if c == LPAREN {
        OpenTidy(text, pos, eof, st, t.pos);
      } else if c == RPAREN {
        CloseTidy(text, pos, eof, st, t.pos);
      } else if c == LBRACE && st.items != [] {
        var last := Last(st.items);
        PatchTidy(text, pos, eof, st, t.pos, last.(ranges := last.ranges + [ReadInterval(text, pos1 + 1).r]));
      } else {
        EmitTidy(text, pos, eof, st, t.pos, Last(t.st.items).head);
      }
    }
  }

  lemma OpenTidy(text: seq<byte>, pos: nat, eof: byte, st: State, pos': nat)
    requires Tidy(text, pos, eof, st) && (st.items != [] ==> !Last(st.items).head.Dollar?) && st.nbra < NBRA
    ensures Tidy(text, pos', eof, Emit(st, Open(st.nbra)).(stack := st.stack + [st.nbra as byte], nbra := st.nbra + 1))
  {
    AfterAppend(st.items, Plain(Open(st.nbra)));
    CountedAppend(st.items, Plain(Open(st.nbra)));
  }

  lemma CloseTidy(text: seq<byte>, pos: nat, eof: byte, st: State, pos': nat)
    requires Tidy(text, pos, eof, st) && (st.items != [] ==> !Last(st.items).head.Dollar?) && st.stack != []
    ensures var top := |st.stack| - 1;
            Tidy(text, pos', eof, Emit(st, Close(st.stack[top])).(stack := st.stack[..top], ended := st.ended + 1))
  {
    var g := st.stack[|st.stack| - 1];
    AfterPartition(st.items);
    assert g in After(st.items).stack;
    AfterAppend(st.items, Plain(Close(g)));
    CountedAppend(st.items, Plain(Close(g)));
  }

  lemma TokenTidy(text: seq<byte>, pos: nat, eof: byte, sed: bool, room: int, st: State)
    requires Tidy(text, pos, eof, st)
    ensures var t := ReadToken(text, pos, eof, sed, room, st); t.Next? ==> Tidy(text, t.pos, eof, t.st)
  {
    var t := ReadToken(text, pos, eof, sed, room, st);
    var c := Get(text, pos);
    if t.Next? {
      if c == ASTERISK && st.items != [] && !IsMarker(Last(st.items)) {
        PatchTidy(text, pos, eof, st, t.pos, Last(st.items).(star := true));
      } else if c == BACKSLASH {
        EscapeTidy(text, pos, eof, st, pos + 1);
      } else {
        if c == LSQUARE && 0 !in text {
          var neg := Get(text, pos + 1) == CARET;
          ListIsSound(text, if neg then pos + 2 else pos + 1, 0, {}, false, TotalSize(st.items) + 33 < room);
        }
        EmitTidy(text, pos, eof, st, t.pos, Last(t.st.items).head);
      }
    }
  }

  lemma {:induction false} ItemsTidy(text: seq<byte>, pos: nat, eof: byte, sed: bool, room: int, anchored: bool,
                                     st: State)
    requires Tidy(text, pos, eof, st)
    ensures var p := ReadItems(text, pos, eof, sed, room, anchored, st);
            p.Accepted? ==> (0 !in text ==> AllSound(p.items)) && RefsCounted(p.items) && DollarLast(p.items)
                            && p.nbra <= NBRA && After(p.items).Brackets? && After(p.items).stack == []
                               && After(p.items).begun == p.nbra
    decreases if pos < |text| then |text| - pos else 0, room - TotalSize(st.items)
  {
    var t := ReadToken(text, pos, eof, sed, room, st);
    if t.Next? {
      TokenProgress(text, pos, eof, sed, room, st);
      TokenTidy(text, pos, eof, sed, room, st);
      ItemsTidy(text, t.pos, eof, sed, room, anchored, t.st);
    }
  }

  lemma {:induction false} ReachableIsTidy(text: seq<byte>, pos: nat, eof: byte, sed: bool, room: int, st: State,
                                           n: nat)
    requires Tidy(text, pos, eof, st)
    ensures var t := Stands(text, pos, eof, sed, room, st, n); t.Next? ==> Tidy(text, t.pos, eof, t.st)
    decreases n
  {
    if n == 0 {
    } else {
      var t := ReadToken(text, pos, eof, sed, room, st);
      if t.Next? {
        TokenTidy(text, pos, eof, sed, room, st);
        ReachableIsTidy(text, t.pos, eof, sed, room, t.st, n - 1);
      }
    }
  }

  /** Every state that the reader reaches from the beginning of a text is tidy. */
  lemma ReachedIsTidy(text: seq<byte>, start: nat, eof: byte, sed: bool, room: int, n: nat)
    ensures var t := Stands(text, start, eof, sed, room, EMPTY, n); t.Next? ==> Tidy(text, t.pos, eof, t.st)
  {
    ReachableIsTidy(text, start, eof, sed, room, EMPTY, n);
  }

  /**
   Every accepted text denotes a list with balanced groups, at most nine of them, and sound
   items if the text has no NUL. It is in the fragment exactly when its items are supported
   and its references name closed groups: the rest is guaranteed.
   */
  lemma AcceptedIsBalanced(text: seq<byte>, eof: byte, sed: bool, room: int, first: byte)
    requires Parse(text, eof, sed, room, first).Accepted?
    ensures var p := Parse(text, eof, sed, room, first);
            && (0 !in text ==> AllSound(p.items)) && DollarLast(p.items)
            && p.nbra <= NBRA && Balanced(p.items, p.nbra)
            && (InFragment(p.items) <==> AllSupported(p.items) && RefsClosed(p.items))
  {
    var p := Parse(text, eof, sed, room, first);
    var start := if Get(text, 0) == CARET then 1 else 0;
    assert Tidy(text, start, eof, EMPTY);
    ItemsTidy(text, start, eof, sed, room, Get(text, 0) == CARET, EMPTY);
    AfterIsBalanced(p.items);
    ScopedIffRefsClosed(p.items, 0);
    assert p.items[..0] == [] && p.items[0..] == p.items && Begun(0) == {};
  }

  // ----- The counter of closed groups -----

  /** The compiler's test lets a reference through exactly when its group has ended. */
  ghost predicate CounterExact(st: State) {
    var b := After(st.items);
    b.Brackets? && forall g: byte :: g < NBRA ==> (g < st.ended <==> g in b.ended)
  }

  lemma {:induction false} BegunSize(n: nat)
    requires n <= 256
    ensures |Begun(n)| == n
  {
    if n == 0 {
      assert Begun(0) == {};
    } else {
      BegunSize(n - 1);
      assert Begun(n) == Begun(n - 1) + {(n - 1) as byte};
    }
  }

  lemma SubsetSameSize(a: set<byte>, b: set<byte>)
    requires a <= b && |a| == |b|
    ensures a == b
  {
    if a != b {
      var x :| x in b && x !in a;
      assert |b - {x}| == |b| - 1 && a <= b - {x};
      SubsetSize(a, b - {x});
    }
  }

  lemma {:induction false} SubsetSize(a: set<byte>, b: set<byte>)
    requires a <= b
    ensures |a| <= |b|
    decreases a
  {
    if a == {} {
    } else {
      var x :| x in a;
      SubsetSize(a - {x}, b - {x});
    }
  }

  /**
   Counting closed groups stands in for knowing which are closed. It is exact if and only
   if no group has ended since the outermost open group began.
   */
  lemma CounterExactIff(text: seq<byte>, pos: nat, eof: byte, st: State)
    requires Tidy(text, pos, eof, st)
    ensures CounterExact(st) <==> st.stack == [] || st.stack[0] >= st.ended
  {
    var b := After(st.items);
    AfterPartition(st.items);
    assert b.ended <= Begun(b.begun);
    BegunSize(b.begun);
    SubsetSize(b.ended, Begun(b.begun));
    if st.stack == [] || st.stack[0] >= st.ended {
      assert Begun(st.ended) <= b.ended by {
        forall g: byte | g < st.ended ensures g in b.ended {
        }
      }
      BegunSize(st.ended);
      SubsetSameSize(Begun(st.ended), b.ended);
    } else {
      assert st.stack[0] in b.stack && st.stack[0] !in b.ended;
    }
  }

  /** No group begins inside another. */
  ghost predicate Flat(items: seq<Item>) {
    forall k {:trigger EmptyStackAt(items, k)} :: 0 <= k < |items| && items[k].head.Open? ==> EmptyStackAt(items, k)
  }

  ghost predicate EmptyStackAt(items: seq<Item>, k: nat)
    requires k <= |items|
  {
    After(items[..k]).Brackets? && After(items[..k]).stack == []
  }

  lemma {:induction false} FlatEndedArePrefix(items: seq<Item>, k: nat)
    requires k <= |items| && After(items).Brackets? && Flat(items)
    ensures var b := After(items[..k]);
            && b.Brackets?
            && (b.stack == [] ==> b.ended == Begun(b.begun))
            && (b.stack != [] ==>
                  1 <= b.begun <= 256 && b.stack == [(b.begun - 1) as byte] && b.ended == Begun(b.begun - 1))
    decreases k
  {
    PrefixBalanced(items, k);
    if k == 0 {
      assert items[..0] == [] && Begun(0) == {};
    } else {
      FlatEndedArePrefix(items, k - 1);
      AfterPrefix(items, k - 1);
      AfterPartition(items[..k]);
      var b, h := After(items[..k - 1]), items[k - 1].head;
      if h.Open? {
        assert EmptyStackAt(items, k - 1);
      } else if h.Close? {
        assert Begun(b.begun - 1) + {h.g} == Begun(b.begun);
      }
    }
  }

  /**
   When groups do not nest, the test is exact in every reachable state: it lets a reference
   through if and only if its group has closed.
   */
  lemma FlatCounterExact(text: seq<byte>, pos: nat, eof: byte, st: State)
    requires Tidy(text, pos, eof, st) && Flat(st.items)
    ensures CounterExact(st)
  {
    FlatEndedArePrefix(st.items, |st.items|);
    assert st.items[..|st.items|] == st.items;
    AfterPartition(st.items);
    var b := After(st.items);
    if b.stack != [] {
      BegunSize(b.begun - 1);
    }
    CounterExactIff(text, pos, eof, st);
  }

  /** When groups do not nest, every accepted reference names a group that has closed. */
  lemma FlatRefsAreClosed(text: seq<byte>, eof: byte, sed: bool, room: int, first: byte)
    requires Parse(text, eof, sed, room, first).Accepted?
    requires Flat(Parse(text, eof, sed, room, first).items)
    ensures RefsClosed(Parse(text, eof, sed, room, first).items)
  {
    var items := Parse(text, eof, sed, room, first).items;
    var start := if Get(text, 0) == CARET then 1 else 0;
    assert Tidy(text, start, eof, EMPTY);
    ItemsTidy(text, start, eof, sed, room, Get(text, 0) == CARET, EMPTY);
    forall k | 0 <= k < |items| && items[k].head.Ref?
      ensures exists j: nat :: j < k && HasAt(items, Close(items[k].head.g), j)
    {
      assert CountedAt(items, k);
      FlatCountedIsClosed(items, k);
    }
  }

  lemma FlatCountedIsClosed(items: seq<Item>, k: nat)
    requires After(items).Brackets? && Flat(items) && k < |items| && items[k].head.Ref? && CountedAt(items, k)
    ensures exists j: nat :: j < k && HasAt(items, Close(items[k].head.g), j)
  {
    var b := After(items[..k]);
    FlatEndedArePrefix(items, k);
    AfterPartition(items[..k]);
    BegunSize(if b.stack == [] then b.begun else b.begun - 1);
    EndedBefore(items, k, items[k].head.g);
  }
}
