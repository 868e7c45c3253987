/**
 The COFF type word: a basic type in the low four bits and, above it, a stack of derived
 types of two bits each with the outermost derivation lowest.
 */
module TypeWord {
  import opened Bits

  const DT_PTR := 1
  const DT_FCN := 2
  const DT_ARY := 3
  const N_BTMASK: nat := 15
  const N_TMASK: nat := 48
  const N_BTSHFT := 4
  const N_TSHIFT := 2

  function BType(x: nat): nat { And(x, N_BTMASK) }
  predicate IsPtr(x: nat) { And(x, N_TMASK) == DT_PTR * Pow2(N_BTSHFT) }
  predicate IsFcn(x: nat) { And(x, N_TMASK) == DT_FCN * Pow2(N_BTSHFT) }
  predicate IsAry(x: nat) { And(x, N_TMASK) == DT_ARY * Pow2(N_BTSHFT) }

  function IncRef(x: nat): nat {
    Or(Or(AndNot(x, N_BTMASK) * Pow2(N_TSHIFT), DT_PTR * Pow2(N_BTSHFT)), And(x, N_BTMASK))
  }

  function DecRef(x: nat): nat {
    Or(AndNot(x / Pow2(N_TSHIFT), N_BTMASK), And(x, N_BTMASK))
  }

  // ----- The macros as arithmetic -----

  lemma AndDouble(x: nat, y: nat)
    ensures And(x, 2 * y) == 2 * And(x / 2, y)
  {
  }

  /** Operands without common digits just add up. */
  lemma {:induction false} OrDisjoint(x: nat, y: nat, k: nat)
    requires x % Pow2(k) == 0 && y < Pow2(k)
    ensures Or(x, y) == x + y
    decreases k
  {
    if k == 0 {
      OrZero(x);
    } else {
      var p := Pow2(k - 1);
      ModDouble(x, p);
      OrDisjoint(x / 2, y / 2, k - 1);
      if x + y != 0 {
        assert Or(x, y) == 2 * Or(x / 2, y / 2) + y % 2;
      }
    }
  }

  lemma BaseMask(x: nat)
    ensures And(x, N_BTMASK) == x % 16
  {
    assert Pow2(4) == 16;
    AndLow(x, 4);
  }

  lemma RestMask(x: nat)
    ensures AndNot(x, N_BTMASK) == x - x % 16
  {
    assert Pow2(4) == 16;
    AndNotLow(x, 4);
  }

  lemma TopMask(x: nat)
    ensures And(x, N_TMASK) == x / 16 % 4 * 16
  {
    AndDouble(x, 24);
    AndDouble(x / 2, 12);
    AndDouble(x / 2 / 2, 6);
    AndDouble(x / 2 / 2 / 2, 3);
    assert x / 2 / 2 / 2 / 2 == x / 16;
    assert Pow2(2) == 4;
    AndLow(x / 16, 2);
  }

  lemma IncRefValue(x: nat)
    ensures IncRef(x) == x / 16 * 64 + 16 + x % 16
  {
    BaseMask(x);
    RestMask(x);
    assert Pow2(4) == 16 && Pow2(2) == 4;
    assert (x - x % 16) * 4 == x / 16 * 64;
    ThreeFields(x / 16, x % 16);
  }

  lemma ThreeFields(hi: nat, lo: nat)
    requires lo < 16
    ensures Or(Or(hi * 64, 16), lo) == hi * 64 + 16 + lo
  {
    assert Pow2(6) == 64;
    OrAbove(hi, 16, 6);
    assert Pow2(4) == 16;
    OrAbove(hi * 4 + 1, lo, 4);
  }

  /** Merging a part below `2^k` with a multiple of `2^k` is adding. */
  lemma OrAbove(q: nat, y: nat, k: nat)
    requires y < Pow2(k)
    ensures Or(q * Pow2(k), y) == q * Pow2(k) + y
  {
    DivModUnique(q * Pow2(k), Pow2(k), q, 0);
    OrDisjoint(q * Pow2(k), y, k);
  }

  lemma DecRefValue(x: nat)
    ensures DecRef(x) == x / 64 * 16 + x % 16
  {
    BaseMask(x);
    RestMask(x / 4);
    Quarter(x);
    assert Pow2(4) == 16 && Pow2(2) == 4;
    OrAbove(x / 64, x % 16, 4);
  }

  lemma Quarter(x: nat)
    ensures x / 4 - x / 4 % 16 == x / 64 * 16
  {
    DivModUnique(x / 4, 16, x / 64, x % 64 / 4);
  }

  /** DECREF undoes INCREF on every word; INCREF keeps the basic type and makes a pointer. */
  lemma DecRefUndoesIncRef(x: nat)
    ensures DecRef(IncRef(x)) == x && BType(IncRef(x)) == BType(x) && IsPtr(IncRef(x))
  {
    assert Pow2(4) == 16;
    IncRefValue(x);
    DecRefValue(IncRef(x));
    IncRefParts(x / 16, x % 16, IncRef(x));
    BaseMask(x);
    BaseMask(IncRef(x));
    TopMask(IncRef(x));
  }

  lemma IncRefParts(hi: nat, lo: nat, y: nat)
    requires lo < 16 && y == hi * 64 + 16 + lo
    ensures y / 64 == hi && y % 16 == lo && y / 16 % 4 == 1
  {
    DivModUnique(y, 64, hi, 16 + lo);
    DivModUnique(y, 16, hi * 4 + 1, lo);
    DivModUnique(hi * 4 + 1, 4, hi, 1);
  }

  lemma DecRefKeepsBase(x: nat)
    ensures BType(DecRef(x)) == BType(x)
  {
    DecRefValue(x);
    DivModUnique(DecRef(x), 16, x / 64, x % 16);
    BaseMask(x);
    BaseMask(DecRef(x));
  }

  // ----- A stack of derivations -----

  type Derivation = d: int | 1 <= d <= 3 witness 1

  function Digits(stack: seq<Derivation>): nat {
    if stack == [] then 0 else stack[0] + 4 * Digits(stack[1..])
  }

  /** The word for basic type `base` under the derivations of `stack`, outermost first. */
  function Word(base: nat, stack: seq<Derivation>): nat {
    base + 16 * Digits(stack)
  }

  datatype Move = Push | Pop

  function MoveWord(x: nat, m: Move): nat {
    match m case Push => IncRef(x) case Pop => DecRef(x)
  }

  /** Popping an underived type leaves it as it is. */
  function MoveStack(stack: seq<Derivation>, m: Move): seq<Derivation> {
    match m
    case Push => [DT_PTR] + stack
    case Pop => if stack == [] then [] else stack[1..]
  }

  function MovesWord(x: nat, ms: seq<Move>): nat
    decreases |ms|
  {
    if ms == [] then x else MovesWord(MoveWord(x, ms[0]), ms[1..])
  }

  function MovesStack(stack: seq<Derivation>, ms: seq<Move>): seq<Derivation>
    decreases |ms|
  {
    if ms == [] then stack else MovesStack(MoveStack(stack, ms[0]), ms[1..])
  }

  lemma MoveRefines(base: nat, stack: seq<Derivation>, m: Move)
    requires base < 16
    ensures MoveWord(Word(base, stack), m) == Word(base, MoveStack(stack, m))
  {
    var x := Word(base, stack);
    DivModUnique(x, 16, Digits(stack), base);
    match m
    case Push =>
      IncRefValue(x);
      assert ([DT_PTR] + stack)[1..] == stack;
      assert Digits([DT_PTR] + stack) == 1 + 4 * Digits(stack);
    case Pop =>
      DecRefValue(x);
      var top, rest := if stack == [] then 0 else stack[0] as nat, if stack == [] then 0 else Digits(stack[1..]);
      DivModUnique(x, 64, rest, top * 16 + base);
  }

  /** Every run of INCREF and DECREF does to the word what push and pop do to the stack. */
  lemma {:induction false} MovesRefine(base: nat, stack: seq<Derivation>, ms: seq<Move>)
    requires base < 16
    ensures MovesWord(Word(base, stack), ms) == Word(base, MovesStack(stack, ms))
    decreases |ms|
  {
    if ms == [] {
    } else {
      MoveRefines(base, stack, ms[0]);
      MovesRefine(base, MoveStack(stack, ms[0]), ms[1..]);
    }
  }

  /** Of every word, bits 4 and 5 tell: 1 is a pointer, 2 a function, 3 an array. */
  lemma TestsReadDigit(x: nat)
    ensures BType(x) == x % 16
    ensures IsPtr(x) <==> x / 16 % 4 == 1
    ensures IsFcn(x) <==> x / 16 % 4 == 2
    ensures IsAry(x) <==> x / 16 % 4 == 3
  {
    BaseMask(x);
    TopMask(x);
    assert Pow2(4) == 16;
  }

  /** The tests read the basic type and the outermost derivation. */
  lemma TestsReadTop(base: nat, stack: seq<Derivation>)
    requires base < 16
    ensures var x := Word(base, stack);
            && BType(x) == base
            && (IsPtr(x) <==> stack != [] && stack[0] == DT_PTR)
            && (IsFcn(x) <==> stack != [] && stack[0] == DT_FCN)
            && (IsAry(x) <==> stack != [] && stack[0] == DT_ARY)
  {
    var x := Word(base, stack);
    BaseMask(x);
    TopMask(x);
    assert Pow2(4) == 16;
    DivModUnique(x, 16, Digits(stack), base);
    if stack != [] { DivModUnique(Digits(stack), 4, Digits(stack[1..]), stack[0]); }
  }

  /** Different derivations give different words. */
  lemma {:induction false} DigitsDiffer(a: seq<Derivation>, b: seq<Derivation>)
    requires Digits(a) == Digits(b)
    ensures a == b
    decreases |a|
  {
    if a != [] && b != [] {
      assert a[0] == b[0] && Digits(a[1..]) == Digits(b[1..]);
      DigitsDiffer(a[1..], b[1..]);
      assert a == [a[0]] + a[1..] && b == [b[0]] + b[1..];
    }
  }

  // ----- Sixteen bits -----

  lemma {:induction false} DigitsRange(stack: seq<Derivation>)
    ensures Digits(stack) < Pow2(2 * |stack|)
    ensures stack != [] ==> Digits(stack) >= Pow2(2 * |stack| - 2)
    decreases |stack|
  {
    if stack == [] {
    } else {
      DigitsRange(stack[1..]);
      assert Pow2(2 * |stack|) == 2 * Pow2(2 * |stack| - 1) == 4 * Pow2(2 * |stack| - 2);
      if |stack| > 1 {
        assert Pow2(2 * |stack| - 2) == 2 * Pow2(2 * |stack| - 3) == 4 * Pow2(2 * |stack| - 4);
      }
    }
  }

  lemma {:induction false} Pow2Monotone(j: nat, k: nat)
    requires j <= k
    ensures Pow2(j) <= Pow2(k)
    decreases k
  {
    if j < k { Pow2Monotone(j, k - 1); }
  }

  /** A word fits in sixteen bits if and only if it has at most six derivations. */
  lemma SixDerivationsFit(base: nat, stack: seq<Derivation>)
    requires base < 16
    ensures Word(base, stack) < 65536 <==> |stack| <= 6
  {
    DigitsRange(stack);
    assert Pow2(12) == 4096;
    if |stack| <= 6 {
      Pow2Monotone(2 * |stack|, 12);
    } else {
      Pow2Monotone(12, 2 * |stack| - 2);
    }
  }

  /** What a sixteen-bit field keeps of a word. */
  function Stored(x: nat): nat { x % 65536 }

  /** INCREF, stored in the field, can be undone if and only if the top two bits were free. */
  lemma StoredIncRefUndone(x: nat)
    requires x < 65536
    ensures DecRef(Stored(IncRef(x))) == x <==> x < 16384
  {
    IncRefValue(x);
    DecRefValue(Stored(IncRef(x)));
    UndoneArithmetic(x / 16, x % 16);
  }

  lemma UndoneArithmetic(hi: nat, lo: nat)
    requires hi < 4096 && lo < 16
    ensures var y := (hi * 64 + 16 + lo) % 65536; y / 64 * 16 + y % 16 == hi * 16 + lo <==> hi < 1024
  {
    var q, r := hi / 1024, hi % 1024;
    DivModUnique(hi * 64 + 16 + lo, 65536, q, r * 64 + 16 + lo);
    IncRefParts(r, lo, r * 64 + 16 + lo);
  }
}
