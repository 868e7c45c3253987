/**
 Bitwise operators on natural numbers, written as recursions on the binary digits,
 with the few facts about them that the bitmaps, opcodes and type words need.
 */
module Bits {

  type byte = x: int | 0 <= x < 256

  /** Digit `k` of the binary numeral of `x`. */
  predicate Bit(x: nat, k: nat) {
    if k == 0 then x % 2 == 1 else Bit(x / 2, k - 1)
  }

  function Or(x: nat, y: nat): nat
    decreases x + y
  {
    if x == 0 && y == 0 then 0
    else 2 * Or(x / 2, y / 2) + if x % 2 == 1 || y % 2 == 1 then 1 else 0
  }

  function And(x: nat, y: nat): nat
    decreases x + y
  {
    if x == 0 && y == 0 then 0
    else 2 * And(x / 2, y / 2) + if x % 2 == 1 && y % 2 == 1 then 1 else 0
  }

  function Xor(x: nat, y: nat): nat
    decreases x + y
  {
    if x == 0 && y == 0 then 0
    else 2 * Xor(x / 2, y / 2) + if x % 2 != y % 2 then 1 else 0
  }

  /** `x & ~y` for non-negative operands of any width. */
  function AndNot(x: nat, y: nat): nat
    decreases x + y
  {
    if x == 0 && y == 0 then 0
    else 2 * AndNot(x / 2, y / 2) + if x % 2 == 1 && y % 2 == 0 then 1 else 0
  }

  function Pow2(k: nat): (r: nat)
    ensures r >= 1
  {
    if k == 0 then 1 else 2 * Pow2(k - 1)
  }

  lemma {:induction false} BitOfZero(k: nat)
    ensures !Bit(0, k)
  {
    if k != 0 { BitOfZero(k - 1); }
  }

  lemma {:induction false} BitOr(x: nat, y: nat, k: nat)
    ensures Bit(Or(x, y), k) == (Bit(x, k) || Bit(y, k))
    decreases k
  {
    if x == 0 && y == 0 {
      BitOfZero(k);
    } else if k != 0 {
      BitOr(x / 2, y / 2, k - 1);
    }
  }

  lemma {:induction false} BitAnd(x: nat, y: nat, k: nat)
    ensures Bit(And(x, y), k) == (Bit(x, k) && Bit(y, k))
    decreases k
  {
    if x == 0 && y == 0 {
      BitOfZero(k);
    } else if k != 0 {
      BitAnd(x / 2, y / 2, k - 1);
    }
  }

  lemma {:induction false} BitXor(x: nat, y: nat, k: nat)
    ensures Bit(Xor(x, y), k) == (Bit(x, k) != Bit(y, k))
    decreases k
  {
    if x == 0 && y == 0 {
      BitOfZero(k);
    } else if k != 0 {
      BitXor(x / 2, y / 2, k - 1);
    }
  }

  lemma {:induction false} OrAssociates(x: nat, y: nat, z: nat)
    ensures Or(Or(x, y), z) == Or(x, Or(y, z))
    decreases x + y + z
  {
    if x + y + z != 0 {
      OrAssociates(x / 2, y / 2, z / 2);
    }
  }

  lemma {:induction false} OrZero(x: nat)
    ensures Or(x, 0) == x
  {
    if x != 0 { OrZero(x / 2); }
  }

  /** Flags in the two low digits of a multiple of four just add up. */
  lemma OrLow(x: nat, f: nat)
    requires x % 4 == 0 && f < 4
    ensures Or(x, f) == x + f
  {
    if x + f != 0 {
      assert Or(x, f) == 2 * Or(x / 2, f / 2) + f % 2;
      OrZero(x / 4);
      if x / 2 + f / 2 != 0 {
        assert Or(x / 2, f / 2) == 2 * Or(x / 4, 0) + f / 2;
      }
    }
  }

  /** The three operators stay below any power of two that bounds both operands. */
  lemma {:induction false} StaysBelow(x: nat, y: nat, k: nat)
    requires x < Pow2(k) && y < Pow2(k)
    ensures Or(x, y) < Pow2(k) && And(x, y) < Pow2(k) && Xor(x, y) < Pow2(k)
    decreases k
  {
    if x == 0 && y == 0 {
    } else if k != 0 {
      StaysBelow(x / 2, y / 2, k - 1);
    }
  }

  lemma {:induction false} AndZero(x: nat)
    ensures And(x, 0) == 0
  {
    if x != 0 { AndZero(x / 2); }
  }

  lemma {:induction false} AndPow2(x: nat, k: nat)
    ensures And(x, Pow2(k)) == if Bit(x, k) then Pow2(k) else 0
    decreases k
  {
    if k == 0 {
      AndZero(x / 2);
    } else {
      AndPow2(x / 2, k - 1);
    }
  }

  lemma {:induction false} AndNotZero(x: nat)
    ensures AndNot(x, 0) == x
  {
    if x != 0 { AndNotZero(x / 2); }
  }

  /** Clearing the low `k` digits rounds down to a multiple of `2^k`. */
  lemma {:induction false} AndNotLow(x: nat, k: nat)
    ensures AndNot(x, Pow2(k) - 1) == x - x % Pow2(k)
    decreases k
  {
    if k == 0 {
      AndNotZero(x);
    } else {
      AndNotLow(x / 2, k - 1);
      AndNotOdd(x, Pow2(k - 1), (x / 2) % Pow2(k - 1));
      ModDouble(x, Pow2(k - 1));
    }
  }

  lemma AndNotUnfolds(x: nat, y: nat)
    ensures AndNot(x, y) == 2 * AndNot(x / 2, y / 2) + if x % 2 == 1 && y % 2 == 0 then 1 else 0
  {
  }

  lemma AndUnfolds(x: nat, y: nat)
    ensures And(x, y) == 2 * And(x / 2, y / 2) + if x % 2 == 1 && y % 2 == 1 then 1 else 0
  {
  }

  lemma HalfOdd(p: nat)
    requires p >= 1
    ensures (2 * p - 1) / 2 == p - 1 && (2 * p - 1) % 2 == 1
  {
  }

  lemma AndNotOdd(x: nat, p: nat, r: nat)
    requires p >= 1 && AndNot(x / 2, p - 1) == x / 2 - r
    ensures AndNot(x, 2 * p - 1) == x - (2 * r + x % 2)
  {
    HalfOdd(p);
    AndNotUnfolds(x, 2 * p - 1);
  }

  /** Masking keeps the remainder. */
  lemma {:induction false} AndLow(x: nat, k: nat)
    ensures And(x, Pow2(k) - 1) == x % Pow2(k)
    decreases k
  {
    if k == 0 {
      AndZero(x);
    } else {
      AndLow(x / 2, k - 1);
      AndOdd(x, Pow2(k - 1), (x / 2) % Pow2(k - 1));
      ModDouble(x, Pow2(k - 1));
    }
  }

  lemma AndOdd(x: nat, p: nat, r: nat)
    requires p >= 1 && And(x / 2, p - 1) == r
    ensures And(x, 2 * p - 1) == 2 * r + x % 2
  {
    HalfOdd(p);
    AndUnfolds(x, 2 * p - 1);
  }

  lemma ModDouble(x: nat, p: nat)
    requires p >= 1
    ensures x % (2 * p) == 2 * ((x / 2) % p) + x % 2
  {
    var q, r := (x / 2) / p, (x / 2) % p;
    assert x / 2 == q * p + r;
    assert x == q * (2 * p) + (2 * r + x % 2);
    DivModUnique(x, 2 * p, q, 2 * r + x % 2);
  }

  lemma DivModUnique(x: nat, d: nat, q: nat, r: nat)
    requires d >= 1 && r < d && x == q * d + r
    ensures x / d == q && x % d == r
  {
    var q', r' := x / d, x % d;
    assert x == q' * d + r';
    SameQuotient(d, q, r, q', r');
  }

  lemma SameQuotient(d: nat, q: nat, r: nat, q': nat, r': nat)
    requires r < d && r' < d && q * d + r == q' * d + r'
    ensures q == q' && r == r'
  {
    if q < q' {
      StepUp(d, q, q');
    } else if q' < q {
      StepUp(d, q', q);
    }
  }

  lemma {:induction false} StepUp(d: nat, q: nat, q': nat)
    requires q < q'
    ensures q * d + d <= q' * d
    decreases q'
  {
    assert q' * d == (q' - 1) * d + d;
    if q < q' - 1 { StepUp(d, q, q' - 1); }
  }

  // ----- Bitmaps: 8 characters to a byte, as in the bracket operands -----

  const BITTAB: seq<byte> := [1, 2, 4, 8, 16, 32, 64, 128]

  lemma BittabIsPow2(k: nat)
    requires k < 8
    ensures BITTAB[k] == Pow2(k)
  {
    assert Pow2(7) == 128;
  }

  /** Does the bitmap that starts at `code[base]` contain `c`? */
  predicate IsThere(code: seq<byte>, base: nat, c: byte)
    requires base + c / 8 < |code|
  {
    And(code[base + c / 8], BITTAB[c % 8]) != 0
  }

  lemma IsThereIsBit(code: seq<byte>, base: nat, c: byte)
    requires base + c / 8 < |code|
    ensures IsThere(code, base, c) == Bit(code[base + c / 8], c % 8)
  {
    BittabIsPow2(c % 8);
    AndPow2(code[base + c / 8], c % 8);
  }

  /** One bitmap byte with the digit for `c` switched on. */
  function Placed(b: byte, c: byte): (r: byte)
    ensures forall d: byte :: Bit(r, d % 8) == (Bit(b, d % 8) || d % 8 == c % 8)
  {
    OrByte(b, BITTAB[c % 8]);
    PlacedBits(b, c);
    Or(b, BITTAB[c % 8])
  }

  lemma OrByte(x: byte, y: byte)
    ensures Or(x, y) < 256
  {
    assert Pow2(8) == 256;
    StaysBelow(x, y, 8);
  }

  lemma PlacedBits(b: byte, c: byte)
    ensures forall d: byte :: Bit(Or(b, BITTAB[c % 8]), d % 8) == (Bit(b, d % 8) || d % 8 == c % 8)
  {
    forall d: byte
      ensures Bit(Or(b, BITTAB[c % 8]), d % 8) == (Bit(b, d % 8) || d % 8 == c % 8)
    {
      BitOr(b, BITTAB[c % 8], d % 8);
      BittabIsPow2(c % 8);
      BitPow2(c % 8, d % 8);
    }
  }

  lemma {:induction false} BitPow2(j: nat, k: nat)
    ensures Bit(Pow2(j), k) == (j == k)
    decreases k
  {
    if j == 0 {
      if k != 0 { BitOfZero(k - 1); }
    } else if k != 0 {
      BitPow2(j - 1, k - 1);
    }
  }
}
