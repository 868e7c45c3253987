/**
 The byte code: opcodes, the encoding of one item, and programs as they lie in a
 buffer. Encodings are described by what the bytes say, so that both the compiler,
 which patches them in place, and the matcher, which reads them, can be related to it.
 */
module Code {
  import opened Bits
  import opened Pattern

  const CBRA: byte := 2
  const CCHR: byte := 4
  const CDOT: byte := 8
  const CCL: byte := 12
  const CXCL: byte := 16
  const CDOL: byte := 20
  const CCEOF: byte := 22
  const CKET: byte := 24
  const CBACK: byte := 36
  const NCCL: byte := 40

  const STAR: byte := 1
  const RNGE: byte := 3

  function Base(h: Head): byte {
    match h
    case Lit(_) => CCHR
    case Dot => CDOT
    case Bracket(neg, _, wide) => if wide then CXCL else if neg then NCCL else CCL
    case Open(_) => CBRA
    case Close(_) => CKET
    case Ref(_) => CBACK
    case Dollar => CDOL
  }

  function Flag(it: Item): byte {
    if it.ranges != [] then RNGE else if it.star then STAR else 0
  }

  function Opcode(it: Item): nat {
    Or(Base(it.head), Flag(it))
  }

  function OperandSize(h: Head): nat {
    match h
    case Lit(_) => 1
    case Dot => 0
    case Bracket(_, _, wide) => if wide then 32 else 16
    case Open(_) => 1
    case Close(_) => 1
    case Ref(_) => 1
    case Dollar => 0
  }

  function Size(it: Item): nat {
    1 + OperandSize(it.head) + 2 * |it.ranges|
  }

  function TotalSize(items: seq<Item>): nat {
    if items == [] then 0 else Size(items[0]) + TotalSize(items[1..])
  }

  /** The bit that a bracket's bitmap holds for `c`. */
  predicate Stored(h: Head, c: byte)
    requires h.Bracket?
  {
    if h.wide && h.neg then c != 0 && c !in h.members
    else c in h.members || (h.neg && c == 0)
  }

  ghost predicate IsOperand(x: seq<byte>, h: Head)
    requires |x| > OperandSize(h)
  {
    match h
    case Lit(c) => x[1] == c
    case Bracket(_, _, _) => forall c: byte :: c < 8 * OperandSize(h) ==> IsThere(x, 1, c) == Stored(h, c)
    case Open(g) => x[1] == g
    case Close(g) => x[1] == g
    case Ref(g) => x[1] == g
    case _ => true
  }

  /** `x` is exactly one encoded item: opcode, operand, and two bytes for each interval. */
  ghost predicate IsItem(x: seq<byte>, it: Item)
    decreases |it.ranges|
  {
    && |x| == Size(it)
    && x[0] == Opcode(it)
    && IsOperand(x, it.head)
    && (it.ranges != [] ==>
          var n := |it.ranges| - 1;
          && x[|x| - 2] == it.ranges[n].lo && x[|x| - 1] == it.ranges[n].hi
          && (n > 0 ==> IsItem(x[..|x| - 2], it.(ranges := it.ranges[..n]))))
  }

  /** `code[from..to]` is exactly the encodings of `items`, one after the other. */
  ghost predicate Emitted(code: seq<byte>, from: nat, to: nat, items: seq<Item>)
    requires to <= |code|
    decreases |items|
  {
    if items == [] then from == to
    else
      var n := |items| - 1;
      var at := to - Size(items[n]);
      from <= at && IsItem(code[at..to], items[n]) && Emitted(code, from, at, items[..n])
  }

  /** A program for `items` lies at `code[ep]`, ended by CCEOF. */
  ghost predicate Program(code: seq<byte>, ep: nat, items: seq<Item>)
    decreases |items|
  {
    if items == [] then ep < |code| && code[ep] == CCEOF
    else
      && ep + Size(items[0]) < |code|
      && IsItem(code[ep..ep + Size(items[0])], items[0])
      && Program(code, ep + Size(items[0]), items[1..])
  }

  /** What a backslash at the very end of a text is compiled to. */
  const NUL_LITERAL := Item(Lit(0), false, [])

  const AT_END := Item(Dollar, false, [])

  /**
   A program for `items` lies at `code[ep]`; with `nul`, its last item is `AT_END` and lies
   there as a NUL literal, which passes at the terminator and nowhere else.
   */
  ghost predicate Coded(code: seq<byte>, ep: nat, items: seq<Item>, nul: bool)
    decreases |items|
  {
    if items == [] then !nul && ep < |code| && code[ep] == CCEOF
    else if nul && |items| == 1 then
      && items[0] == AT_END && ep + 2 < |code| && code[ep + 2] == CCEOF
      && IsItem(code[ep..ep + 2], NUL_LITERAL)
    else
      && ep + Size(items[0]) < |code|
      && IsItem(code[ep..ep + Size(items[0])], items[0])
      && Coded(code, ep + Size(items[0]), items[1..], nul)
  }

  lemma {:induction false} ProgramIsCoded(code: seq<byte>, ep: nat, items: seq<Item>)
    requires Program(code, ep, items)
    ensures Coded(code, ep, items, false)
    decreases |items|
  {
    if items == [] {
    } else {
      ProgramIsCoded(code, ep + Size(items[0]), items[1..]);
    }
  }

  lemma {:induction false} NulProgramIsCoded(code: seq<byte>, ep: nat, items: seq<Item>, program: seq<Item>,
                                             coded: seq<Item>)
    requires program == items + [NUL_LITERAL] && coded == items + [AT_END] && Program(code, ep, program)
    ensures Coded(code, ep, coded, true)
    decreases |items|
  {
    if items == [] {
      LoneNulIsCoded(code, ep, program, coded);
    } else {
      ConsSnoc(items, NUL_LITERAL);
      ConsSnoc(items, AT_END);
      ProgramUnfolds(code, ep, program);
      NulProgramIsCoded(code, ep + Size(items[0]), items[1..], program[1..], coded[1..]);
      CodedFolds(code, ep, coded, true);
    }
  }

  lemma ConsSnoc(items: seq<Item>, it: Item)
    requires items != []
    ensures (items + [it])[0] == items[0] && (items + [it])[1..] == items[1..] + [it]
  {
  }

  lemma LoneNulIsCoded(code: seq<byte>, ep: nat, program: seq<Item>, coded: seq<Item>)
    requires program == [NUL_LITERAL] && coded == [AT_END] && Program(code, ep, program)
    ensures Coded(code, ep, coded, true)
  {
    ProgramUnfolds(code, ep, program);
    assert program[1..] == [] && Size(NUL_LITERAL) == 2;
  }

  lemma ProgramUnfolds(code: seq<byte>, ep: nat, items: seq<Item>)
    requires items != [] && Program(code, ep, items)
    ensures ep + Size(items[0]) < |code| && IsItem(code[ep..ep + Size(items[0])], items[0])
    ensures Program(code, ep + Size(items[0]), items[1..])
  {
  }

  lemma CodedFolds(code: seq<byte>, ep: nat, items: seq<Item>, nul: bool)
    requires items != [] && !(nul && |items| == 1)
    requires ep + Size(items[0]) < |code| && IsItem(code[ep..ep + Size(items[0])], items[0])
    requires Coded(code, ep + Size(items[0]), items[1..], nul)
    ensures Coded(code, ep, items, nul)
  {
  }

  // ----- Building programs -----

  lemma SameSlice(x: seq<byte>, y: seq<byte>, from: nat, to: nat)
    requires from <= to <= |x| && to <= |y| && forall k :: from <= k < to ==> x[k] == y[k]
    ensures x[from..to] == y[from..to]
  {
  }

  lemma SplitLast(items: seq<Item>)
    requires items != []
    ensures items == items[..|items| - 1] + [items[|items| - 1]]
  {
  }

  lemma {:induction false} EmittedSize(code: seq<byte>, from: nat, to: nat, items: seq<Item>)
    requires to <= |code| && Emitted(code, from, to, items)
    ensures to == from + TotalSize(items)
    decreases |items|
  {
    if items == [] {
    } else {
      var n := |items| - 1;
      EmittedSize(code, from, to - Size(items[n]), items[..n]);
      TotalSizeAppend(items[..n], items[n]);
      SplitLast(items);
    }
  }

  lemma {:induction false} TotalSizeAppend(items: seq<Item>, it: Item)
    ensures TotalSize(items + [it]) == TotalSize(items) + Size(it)
    decreases |items|
  {
    if items == [] {
      assert items + [it] == [it];
    } else {
      TotalSizeAppend(items[1..], it);
      assert (items + [it])[1..] == items[1..] + [it];
    }
  }

  lemma EmittedSnoc(code: seq<byte>, from: nat, at: nat, to: nat, items: seq<Item>)
    requires items != [] && from <= at <= to <= |code|
    requires IsItem(code[at..to], items[|items| - 1]) && Emitted(code, from, at, items[..|items| - 1])
    ensures Emitted(code, from, to, items)
  {
  }

  lemma EmittedLast(code: seq<byte>, from: nat, to: nat, items: seq<Item>) returns (at: nat)
    requires items != [] && to <= |code| && Emitted(code, from, to, items)
    ensures from <= at && at + Size(items[|items| - 1]) == to
    ensures IsItem(code[at..to], items[|items| - 1]) && Emitted(code, from, at, items[..|items| - 1])
  {
    at := to - Size(items[|items| - 1]);
  }

  /** Emitted items stay emitted when only other bytes change. */
  lemma {:induction false} EmittedStays(code: seq<byte>, code': seq<byte>, from: nat, to: nat, items: seq<Item>)
    requires to <= |code| && to <= |code'| && Emitted(code, from, to, items)
    requires forall k :: from <= k < to ==> code'[k] == code[k]
    ensures Emitted(code', from, to, items)
    decreases |items|
  {
    if items == [] {
    } else {
      var at := EmittedLast(code, from, to, items);
      SameSlice(code, code', at, to);
      EmittedStays(code, code', from, at, items[..|items| - 1]);
      EmittedSnoc(code', from, at, to, items);
    }
  }

  lemma EmittedAppend(code: seq<byte>, from: nat, at: nat, to: nat, items: seq<Item>, it: Item)
    requires at <= to <= |code| && Emitted(code, from, at, items) && from <= at && IsItem(code[at..to], it)
    ensures Emitted(code, from, to, items + [it])
  {
    assert (items + [it])[..|items|] == items;
  }

  /** Emitted items in front of a program make a longer program. */
  lemma {:induction false} EmittedBeforeProgram(code: seq<byte>, from: nat, at: nat, items: seq<Item>, rest: seq<Item>)
    requires at <= |code| && Program(code, at, rest) && Emitted(code, from, at, items)
    ensures Program(code, from, items + rest)
    decreases |items|
  {
    if items == [] {
      assert items + rest == rest;
    } else {
      var n := |items| - 1;
      var at' := EmittedLast(code, from, at, items);
      ProgramCons(code, at', items[n], rest);
      EmittedBeforeProgram(code, from, at', items[..n], [items[n]] + rest);
      Regroup(items, rest);
    }
  }

  lemma Regroup(items: seq<Item>, rest: seq<Item>)
    requires items != []
    ensures var n := |items| - 1; items[..n] + ([items[n]] + rest) == items + rest
  {
  }

  lemma ProgramInside(code: seq<byte>, ep: nat, items: seq<Item>)
    requires Program(code, ep, items)
    ensures ep < |code|
  {
  }

  lemma ProgramCons(code: seq<byte>, ep: nat, it: Item, rest: seq<Item>)
    requires Program(code, ep + Size(it), rest) && ep + Size(it) <= |code| && IsItem(code[ep..ep + Size(it)], it)
    ensures Program(code, ep, [it] + rest)
  {
    var items := [it] + rest;
    assert items[0] == it && items[1..] == rest;
    ProgramInside(code, ep + Size(it), rest);
    ProgramFolds(code, ep, items);
  }

  lemma ProgramFolds(code: seq<byte>, ep: nat, items: seq<Item>)
    requires items != [] && ep + Size(items[0]) < |code| && IsItem(code[ep..ep + Size(items[0])], items[0])
    requires Program(code, ep + Size(items[0]), items[1..])
    ensures Program(code, ep, items)
  {
  }

  lemma EmittedIsProgram(code: seq<byte>, from: nat, at: nat, items: seq<Item>)
    requires at < |code| && code[at] == CCEOF && Emitted(code, from, at, items)
    ensures Program(code, from, items)
  {
    EmittedBeforeProgram(code, from, at, items, []);
    assert items + [] == items;
  }

  // ----- Reading programs -----

  /** The opcode of an executable item: flags never overlap the base. */
  lemma OpcodeValue(it: Item)
    requires Executable(it)
    ensures Opcode(it) == Base(it.head) + Flag(it)
  {
    if it.head.Open? {
      OrZero(CBRA);
    } else {
      OrLow(Base(it.head), Flag(it));
    }
  }

  /** The modifier that is added to an opcode: 3 for an interval, 1 for a star. */
  function FlagByte(it: Item): byte {
    if it.ranges != [] then 3 else if it.star then 1 else 0
  }

  function OperandOf(h: Head): seq<byte>
    requires !h.Bracket?
  {
    match h
    case Lit(c) => [c]
    case Open(g) => [g]
    case Close(g) => [g]
    case Ref(g) => [g]
    case _ => []
  }

  function OpcodeByte(h: Head): byte {
    match h
    case Lit(_) => 4
    case Dot => 8
    case Bracket(neg, _, wide) => if wide then 16 else if neg then 40 else 12
    case Open(_) => 2
    case Close(_) => 24
    case Ref(_) => 36
    case Dollar => 20
  }

  /** The bytes of an item that is not a bracket expression. */
  function ItemBytes(it: Item): seq<byte>
    requires !it.head.Bracket? && OpcodeByte(it.head) + FlagByte(it) < 256
  {
    [OpcodeByte(it.head) + FlagByte(it)] + OperandOf(it.head)
    + if it.ranges != [] then [it.ranges[0].lo, it.ranges[0].hi] else []
  }

  /** What lies in the buffer for an item that the matcher can execute. */
  lemma EncodedAs(x: seq<byte>, it: Item)
    requires Executable(it)
    ensures OpcodeByte(it.head) + FlagByte(it) < 256
    ensures !it.head.Bracket? ==> (IsItem(x, it) <==> x == ItemBytes(it))
  {
    OpcodeValue(it);
  }

  /** Bit `c % 8` of byte `c / 8` of the map tells whether `c` is in it; a negated narrow map holds NUL as well. */
  predicate MapTells(x: seq<byte>, h: Head, c: byte)
    requires h.Bracket? && 1 + c / 8 < |x|
  {
    Bit(x[1 + c / 8], c % 8) <==>
    if h.wide && h.neg then c != 0 && c !in h.members else c in h.members || (h.neg && c == 0)
  }

  /** The same for a bracket expression. */
  lemma BracketEncodedAs(x: seq<byte>, it: Item)
    requires Executable(it) && it.head.Bracket? && IsItem(x, it)
    ensures |x| == (if it.head.wide then 33 else 17) + (if it.ranges != [] then 2 else 0)
    ensures x[0] == OpcodeByte(it.head) + FlagByte(it)
    ensures it.ranges != [] ==> x[|x| - 2] == it.ranges[0].lo && x[|x| - 1] == it.ranges[0].hi
    ensures forall c: byte :: c < (if it.head.wide then 256 else 128) ==> MapTells(x, it.head, c)
  {
    OpcodeValue(it);
    forall c: byte | c < (if it.head.wide then 256 else 128) ensures MapTells(x, it.head, c) {
      IsThereIsBit(x, 1, c);
      assert IsThere(x, 1, c) == Stored(it.head, c);
    }
  }

  /** How the matcher tests one subject byte against an atom's operand at `at`. */
  datatype Test = Equal(c: byte) | NonNul | Wide(at: nat) | Narrow(at: nat, neg: bool)

  predicate TestFits(code: seq<byte>, t: Test) {
    match t
    case Wide(m) => m + 32 <= |code|
    case Narrow(m, _) => m + 16 <= |code|
    case _ => true
  }

  predicate Passes(code: seq<byte>, t: Test, c: byte)
    requires TestFits(code, t)
  {
    match t
    case Equal(d) => c == d
    case NonNul => c != 0
    case Wide(m) => IsThere(code, m, c)
    case Narrow(m, neg) => (c < 128 && IsThere(code, m, c)) != neg
  }

  /**
   The tests of the interval loops are written the other way round, and for a narrow map
   with the high bit on the other side.
   */
  predicate Misses(code: seq<byte>, t: Test, c: byte)
    requires TestFits(code, t)
  {
    match t
    case Equal(d) => c != d
    case NonNul => c == 0
    case Wide(m) => !IsThere(code, m, c)
    case Narrow(m, neg) => (c >= 128 || !IsThere(code, m, c)) != neg
  }

  lemma MissesIsNotPasses(code: seq<byte>, t: Test, c: byte)
    requires TestFits(code, t)
    ensures Misses(code, t, c) <==> !Passes(code, t, c)
  {
  }

  /** The test that the matcher's case for `h`, with operand at `at`, performs. */
  function TestFor(h: Head, at: nat): Test
    requires IsSingle(h)
  {
    match h
    case Lit(c) => Equal(c)
    case Dot => NonNul
    case Bracket(neg, _, wide) => if wide then Wide(at) else Narrow(at, neg)
  }

  /**
   The three bracket encodings, and the other atoms, refine one notion of acceptance:
   the opcode's own test on the operand bytes accepts exactly what the atom denotes. Only a
   NUL literal also passes the terminator.
   */
  lemma PassesIsAccepts(code: seq<byte>, ep: nat, it: Item, c: byte)
    requires Executable(it) && IsSingle(it.head)
    requires ep + Size(it) <= |code| && IsItem(code[ep..ep + Size(it)], it)
    ensures TestFits(code, TestFor(it.head, ep + 1))
    ensures Passes(code, TestFor(it.head, ep + 1), c) <==> Accepts(it.head, c) || (it.head == Lit(0) && c == 0)
  {
    var x := code[ep..ep + Size(it)];
    if it.head.Bracket? && (it.head.wide || c < 128) {
      assert c < 8 * OperandSize(it.head);
      assert IsThere(x, 1, c) == Stored(it.head, c);
      assert IsThere(code, ep + 1, c) == IsThere(x, 1, c) by {
        assert code[ep + 1 + c / 8] == x[1 + c / 8];
      }
    }
  }
}
