/**
 * The bitwise operators that the constant-time selection code applies to
 * uint32_t words, given by their values: bit i of Xor/Or/And is computed
 * from bit i of the operands, over the low n bits.
 */
module Bits {
  import opened Limbs

  const ONES: int := 0xFFFF_FFFF
  const TOP: int := 0x8000_0000

  predicate IsWord(x: int)
  {
    0 <= x < BASE
  }

  function Xor(x: nat, y: nat, n: nat): nat
  {
    if n == 0 then 0 else (x + y) % 2 + 2 * Xor(x / 2, y / 2, n - 1)
  }

  function Or(x: nat, y: nat, n: nat): nat
  {
    if n == 0 then 0 else (if x % 2 == 1 || y % 2 == 1 then 1 else 0) + 2 * Or(x / 2, y / 2, n - 1)
  }

  function And(x: nat, y: nat, n: nat): nat
  {
    if n == 0 then 0 else (if x % 2 == 1 && y % 2 == 1 then 1 else 0) + 2 * And(x / 2, y / 2, n - 1)
  }

  /** a ^ b on uint32_t. */
  function Xor32(x: nat, y: nat): nat
  {
    Xor(x, y, 32)
  }

  /** a | b on uint32_t. */
  function Or32(x: nat, y: nat): nat
  {
    Or(x, y, 32)
  }

  /** a & b on uint32_t. */
  function And32(x: nat, y: nat): nat
  {
    And(x, y, 32)
  }

  /** ~a on a uint32_t value. */
  function Not32(x: int): int
  {
    ONES - x
  }

  lemma TwoPowers()
    ensures Pow(2, 31) == TOP && Pow(2, 32) == BASE
  {
    assert Pow(2, 1) == 2;
    assert Pow(2, 2) == 4;
    assert Pow(2, 3) == 8;
    assert Pow(2, 4) == 16;
    PowAdd(2, 4, 4);
    PowAdd(2, 8, 8);
    PowAdd(2, 16, 15);
    PowAdd(2, 31, 1);
  }

  /** The low n bits of x are its low bit and the low n-1 bits of x / 2. */
  lemma LowBits(x: nat, n: nat)
    requires n > 0
    ensures Pow(2, n) > 0 && x % Pow(2, n) == x % 2 + 2 * ((x / 2) % Pow(2, n - 1))
  {
    PowPositive(2, n - 1);
    ModSplit(x, 2, Pow(2, n - 1));
  }

  lemma {:induction false} XorZero(x: nat, n: nat)
    ensures Pow(2, n) > 0 && Xor(x, 0, n) == x % Pow(2, n)
  {
    PowPositive(2, n);
    if n > 0 {
      XorZero(x / 2, n - 1);
      LowBits(x, n);
    }
  }

  lemma {:induction false} XorCancel(x: nat, y: nat, n: nat)
    ensures Pow(2, n) > 0 && Xor(x, Xor(x, y, n), n) == y % Pow(2, n)
  {
    PowPositive(2, n);
    if n > 0 {
      var z' := Xor(x / 2, y / 2, n - 1);
      var b := (x + y) % 2;
      var z := b + 2 * z';
      assert Xor(x, y, n) == z;
      BitDigit(b, z');
      ParityCancel(x, y, z');
      XorCancel(x / 2, y / 2, n - 1);
      assert Xor(x, z, n) == y % 2 + 2 * ((y / 2) % Pow(2, n - 1));
      LowBits(y, n);
    }
  }

  /** A bit b and a quotient q make the number b + 2q. */
  lemma BitDigit(b: int, q: int)
    requires 0 <= b < 2
    ensures (b + 2 * q) / 2 == q && (b + 2 * q) % 2 == b
  {
    DivModUnique(b + 2 * q, 2, q, b);
  }

  /** x + (x xor y's low bit) has the parity of y. */
  lemma ParityCancel(x: nat, y: nat, q: int)
    ensures (x + ((x + y) % 2 + 2 * q)) % 2 == y % 2
  {
    var rx, ry := x % 2, y % 2;
    var hx := x / 2;
    BitDigit(rx, hx);
    BitDigit(ry, y / 2);
    var b := (x + y) % 2;
    DivModUnique(x + y, 2, (x + y) / 2, b);
    if rx == ry {
      DivModUnique(x + y, 2, hx + y / 2 + rx, 0);
      DivModUnique(x + (b + 2 * q), 2, hx + q, rx);
    } else {
      DivModUnique(x + y, 2, hx + y / 2, 1);
      if rx == 1 {
        DivModUnique(x + (b + 2 * q), 2, hx + q + 1, 0);
      } else {
        DivModUnique(x + (b + 2 * q), 2, hx + q, 1);
      }
    }
  }

  lemma {:induction false} XorSymmetric(x: nat, y: nat, n: nat)
    ensures Xor(x, y, n) == Xor(y, x, n)
  {
    if n > 0 {
      XorSymmetric(x / 2, y / 2, n - 1);
    }
  }

  lemma {:induction false} XorZeroIff(x: nat, y: nat, n: nat)
    ensures Pow(2, n) > 0 && (Xor(x, y, n) == 0 <==> x % Pow(2, n) == y % Pow(2, n))
  {
    PowPositive(2, n);
    if n > 0 {
      var h := Pow(2, n - 1);
      XorZeroIff(x / 2, y / 2, n - 1);
      LowBits(x, n);
      LowBits(y, n);
      var lo, rest := (x + y) % 2, Xor(x / 2, y / 2, n - 1);
      assert Xor(x, y, n) == lo + 2 * rest;
      ParitySum(x, y);
      if x % Pow(2, n) == y % Pow(2, n) {
        DigitUnique(x % 2, (x / 2) % h, y % 2, (y / 2) % h, 2);
      }
    }
  }

  lemma {:induction false} XorSelf(x: nat, n: nat)
    ensures Xor(x, x, n) == 0
  {
    if n > 0 {
      XorSelf(x / 2, n - 1);
      ParitySum(x, x);
    }
  }

  lemma ParitySum(x: nat, y: nat)
    ensures (x + y) % 2 == 0 <==> x % 2 == y % 2
  {
    var rx, ry := x % 2, y % 2;
    if rx + ry == 2 {
      DivModUnique(x + y, 2, x / 2 + y / 2 + 1, 0);
    } else {
      DivModUnique(x + y, 2, x / 2 + y / 2, rx + ry);
    }
  }

  lemma {:induction false} OrZeroIff(x: nat, y: nat, n: nat)
    ensures Pow(2, n) > 0 && (Or(x, y, n) == 0 <==> x % Pow(2, n) == 0 && y % Pow(2, n) == 0)
  {
    PowPositive(2, n);
    if n > 0 {
      OrZeroIff(x / 2, y / 2, n - 1);
      LowBits(x, n);
      LowBits(y, n);
    }
  }

  lemma {:induction false} OrZero(x: nat, n: nat)
    ensures Pow(2, n) > 0 && Or(x, 0, n) == x % Pow(2, n) && Or(0, x, n) == x % Pow(2, n)
  {
    PowPositive(2, n);
    if n > 0 {
      OrZero(x / 2, n - 1);
      LowBits(x, n);
    }
  }

  lemma {:induction false} AndMasks(x: nat, n: nat)
    ensures Pow(2, n) > 0 && And(x, Pow(2, n) - 1, n) == x % Pow(2, n) && And(x, 0, n) == 0
  {
    PowPositive(2, n);
    if n > 0 {
      AndMasks(x / 2, n - 1);
      LowBits(x, n);
      PowPositive(2, n - 1);
      assert (Pow(2, n) - 1) % 2 == 1 && (Pow(2, n) - 1) / 2 == Pow(2, n - 1) - 1;
    }
  }

  /** A word or-ed with its complement has every bit set. */
  lemma {:induction false} OrComplement(m: nat, n: nat)
    requires m < Pow(2, n)
    ensures Or(m, Pow(2, n) - 1 - m, n) == Pow(2, n) - 1
  {
    if n > 0 {
      var h := Pow(2, n - 1);
      PowPositive(2, n - 1);
      assert (Pow(2, n) - 1 - m) / 2 == h - 1 - m / 2;
      OrComplement(m / 2, n - 1);
    }
  }

  /** For nonzero m, m | -m has its top bit set. */
  lemma {:induction false} OrNegationTop(m: nat, n: nat)
    requires n > 0 && 0 < m < Pow(2, n)
    ensures Pow(2, n - 1) <= Or(m, Pow(2, n) - m, n) < Pow(2, n)
  {
    var h := Pow(2, n - 1);
    PowPositive(2, n - 1);
    if m % 2 == 0 {
      assert (Pow(2, n) - m) / 2 == h - m / 2 && (Pow(2, n) - m) % 2 == 0;
      if n == 1 {
        assert false;
      } else {
        OrNegationTop(m / 2, n - 1);
      }
    } else {
      assert (Pow(2, n) - m) / 2 == h - 1 - m / 2 && (Pow(2, n) - m) % 2 == 1;
      OrComplement(m / 2, n - 1);
    }
  }

  // ---- the word-level facts the selection code relies on ----

  /** a ^ (mask & (a ^ b)) is b, and b ^ (mask & (a ^ b)) is a, under the all-ones mask. */
  lemma XorSwapOnes(a: nat, b: nat)
    requires IsWord(a) && IsWord(b)
    ensures Xor32(a, And32(ONES, Xor32(a, b))) == b && Xor32(b, And32(ONES, Xor32(a, b))) == a
  {
    XorCancelWord(a, b);
    AndOnesWord(Xor32(a, b));
    XorCancelWord(b, a);
    XorSymmetric(a, b, 32);
  }

  lemma AndOnesWord(d: nat)
    requires d < BASE
    ensures And32(ONES, d) == d
  {
    assert And(d, ONES, 32) == d by { TwoPowers(); AndMasks(d, 32); }
    AndSymmetric(ONES, d, 32);
  }

  lemma XorCancelWord(a: nat, b: nat)
    requires IsWord(b)
    ensures Xor32(a, Xor32(a, b)) == b && Xor32(a, b) < BASE
  {
    TwoPowers();
    XorCancel(a, b, 32);
    XorBound(a, b, 32);
  }

  /** Under the zero mask a ^ (mask & (a ^ b)) is a. */
  lemma XorSwapZero(a: nat, b: nat)
    requires IsWord(a)
    ensures Xor32(a, And32(0, Xor32(a, b))) == a
  {
    AndAnyZero(Xor32(a, b), 32);
    XorWordZero(a);
  }

  lemma XorWordZero(a: nat)
    requires IsWord(a)
    ensures Xor32(a, 0) == a
  {
    TwoPowers();
    XorZeroWidth(a, 32);
  }

  lemma XorZeroWidth(a: nat, n: nat)
    requires a < Pow(2, n)
    ensures Xor(a, 0, n) == a
  {
    XorZero(a, n);
    DivModUnique(a, Pow(2, n), 0, a);
  }

  /** (a & mask) | (b & ~mask) is a under the all-ones mask and b under the zero mask. */
  lemma SelectWord(a: nat, b: nat)
    requires IsWord(a) && IsWord(b)
    ensures Or32(And32(a, ONES), And32(b, Not32(ONES))) == a
    ensures Or32(And32(a, 0), And32(b, Not32(0))) == b
  {
    assert Not32(ONES) == 0 && Not32(0) == ONES;
    AndWord(a);
    AndWord(b);
    OrWord(a);
    OrWord(b);
  }

  /** A word and-ed with all ones is itself, and with zero is zero. */
  lemma AndWord(a: nat)
    requires IsWord(a)
    ensures And32(a, ONES) == a && And32(a, 0) == 0
  {
    TwoPowers();
    AndMasks(a, 32);
    WordMod(a);
  }

  /** A word or-ed with zero, on either side, is itself. */
  lemma OrWord(a: nat)
    requires IsWord(a)
    ensures Or32(a, 0) == a && Or32(0, a) == a
  {
    TwoPowers();
    OrZero(a, 32);
    WordMod(a);
  }

  lemma WordMod(a: int)
    requires IsWord(a)
    ensures Pow(2, 32) == BASE && a % Pow(2, 32) == a
  {
    TwoPowers();
    DivModUnique(a, BASE, 0, a);
  }

  lemma {:induction false} AndSymmetric(x: nat, y: nat, n: nat)
    ensures And(x, y, n) == And(y, x, n)
  {
    if n > 0 {
      AndSymmetric(x / 2, y / 2, n - 1);
    }
  }

  lemma {:induction false} AndAnyZero(x: nat, n: nat)
    ensures And(0, x, n) == 0
  {
    if n > 0 {
      AndAnyZero(x / 2, n - 1);
    }
  }

  lemma {:induction false} XorBound(x: nat, y: nat, n: nat)
    ensures Xor(x, y, n) < Pow(2, n)
  {
    if n > 0 {
      XorBound(x / 2, y / 2, n - 1);
    }
  }

  lemma {:induction false} OrBound(x: nat, y: nat, n: nat)
    ensures Or(x, y, n) < Pow(2, n)
  {
    if n > 0 {
      OrBound(x / 2, y / 2, n - 1);
    }
  }

  /** The accumulated difference mask | (a ^ b) stays zero exactly while the words agree. */
  lemma DiffWord(mask: nat, a: nat, b: nat)
    requires IsWord(mask) && IsWord(a) && IsWord(b)
    ensures IsWord(Or32(mask, Xor32(a, b)))
    ensures Or32(mask, Xor32(a, b)) == 0 <==> mask == 0 && a == b
  {
    TwoPowers();
    var d := Xor32(a, b);
    OrBound(mask, d, 32);
    XorBound(a, b, 32);
    OrZeroIff(mask, d, 32);
    XorZeroIff(a, b, 32);
    WordMod(mask);
    WordMod(a);
    WordMod(b);
    WordMod(d);
  }

  /** (mask | (~mask + 1)) >> 31 is 0 for a zero mask and 1 otherwise. */
  lemma NonzeroBit(mask: nat)
    requires IsWord(mask)
    ensures Or32(mask, (Not32(mask) + 1) % BASE) / TOP == if mask == 0 then 0 else 1
  {
    TwoPowers();
    if mask == 0 {
      assert (Not32(mask) + 1) % BASE == 0;
      OrZero(0, 32);
    } else {
      assert (Not32(mask) + 1) % BASE == Pow(2, 32) - mask;
      OrNegationTop(mask, 32);
    }
  }

  /** Masking with 2^k - 1 keeps the low k bits. */
  lemma {:induction false} AndLow(x: nat, k: nat, n: nat)
    requires k <= n
    ensures Pow(2, k) > 0 && And(x, Pow(2, k) - 1, n) == x % Pow(2, k)
  {
    PowPositive(2, k);
    if k == 0 {
      AndMasks(x, n);
    } else {
      AndLow(x / 2, k - 1, n - 1);
      assert Pow(2, k) == 2 * Pow(2, k - 1);
      assert (Pow(2, k) - 1) / 2 == Pow(2, k - 1) - 1 && (Pow(2, k) - 1) % 2 == 1;
      LowBits(x, k);
    }
  }
}
