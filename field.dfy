/**
 * Arithmetic modulo p = 2^255 - 19 as the Curve25519 field routines compute
 * it on eight 32-bit limbs, each routine given by the exact integer it leaves
 * behind.  Carries out of the top limb are dropped exactly where the C code
 * drops them, so these functions are total over every 256-bit input.
 */
module Field {
  import opened Limbs

  const P: int := TWO255 - 19

  /** A value that eight 32-bit limbs can hold. */
  predicate IsFelem(v: int)
  {
    0 <= v < TWO256
  }

  /**
   * The value curve25519Red leaves: B = A + 19 - 2^255 (mod 2^256) replaces A
   * unless the subtraction borrowed.  Below 2p this is A mod p; for
   * A >= 2^256 - 19 the carry out of A + 19 is lost and A comes back unchanged.
   */
  function RedValue(v: int): (r: int)
    requires IsFelem(v)
    ensures IsFelem(r) && r % P == v % P
    ensures v < 2 * P ==> r == v % P
    ensures TWO256 - 19 <= v ==> r == v
    ensures r == v || r == v - P
  {
    var b := (v + 19) % TWO256;
    if b >= TWO255 then b - TWO255 else v
  }

  /** The value curve25519Add leaves: the 256-bit sum (carry dropped), then Red. */
  function FAdd(a: int, b: int): (r: int)
    requires IsFelem(a) && IsFelem(b)
    ensures IsFelem(r)
    ensures a + b < TWO256 ==> r % P == (a + b) % P
    ensures a < P && b < P ==> r == (a + b) % P
  {
    RedValue((a + b) % TWO256)
  }

  /**
   * The value curve25519Sub leaves: A - 19 - B in 256-bit two's complement,
   * then 2^255 added to the top limb (mod 2^32), then Red.
   */
  function FSub(a: int, b: int): (r: int)
    requires IsFelem(a) && IsFelem(b)
    ensures IsFelem(r)
    ensures 0 <= a - b + P < TWO256 ==> r % P == (a - b) % P
    ensures a < P && b < P ==> r == (a - b) % P
  {
    var v := (a - b + P) % TWO256;
    assert 0 <= a - b + P < TWO256 ==> v % P == (a - b) % P by {
      if 0 <= a - b + P < TWO256 {
        ModMultiple(a - b + P, a - b, 1);
      }
    }
    RedValue(v)
  }

  lemma SubShape(a: int, b: int)
    ensures ((a - 19 - b) % TWO256 + TWO255) % TWO256 == (a - b + P) % TWO256
  {
  }

  /** The value curve25519Mul leaves, for every pair of 256-bit inputs. */
  function FMul(a: int, b: int): (r: int)
    ensures 0 <= r < P
  {
    (a * b) % P
  }

  /** The value curve25519Comp returns: 0 when the two elements have the same limbs, 1 otherwise. */
  function Comp(a: int, b: int): int
  {
    if a == b then 0 else 1
  }

  /** x^n over the integers. */
  function Exp(x: int, n: nat): int
  {
    if n == 0 then 1 else Exp(x, n - 1) * x
  }

  lemma ModMultiple(x: int, y: int, k: int)
    requires x == y + k * P
    ensures x % P == y % P
  {
    DivModUnique(x, P, y / P + k, y % P);
  }

  lemma {:induction false} ExpAdd(x: int, m: nat, n: nat)
    ensures Exp(x, m + n) == Exp(x, m) * Exp(x, n)
  {
    if n > 0 {
      ExpAdd(x, m, n - 1);
    }
  }

  lemma ExpDouble(x: int, m: nat)
    ensures Exp(x, 2 * m) == Exp(x, m) * Exp(x, m)
  {
    ExpAdd(x, m, m);
  }

  /** Reducing the operands of a product does not change the product mod p. */
  lemma MulMod(a: int, b: int)
    ensures (a * b) % P == ((a % P) * (b % P)) % P
  {
    var qa, qb := a / P, b / P;
    var ra, rb := a % P, b % P;
    assert a == qa * P + ra;
    assert b == qb * P + rb;
    assert a * b == ra * rb + (qa * b + ra * qb) * P by {
      assert a * b == (qa * P + ra) * b;
      assert (qa * P + ra) * b == qa * P * b + ra * b;
      assert ra * b == ra * (qb * P + rb);
      assert ra * (qb * P + rb) == ra * qb * P + ra * rb;
    }
    ModMultiple(a * b, ra * rb, qa * b + ra * qb);
  }

  /** Reducing the right operand first does not change a product mod p. */
  lemma MulModRight(a: int, b: int)
    ensures FMul(a, b % P) == (a * b) % P
  {
    MulMod(a, b);
    MulMod(a, b % P);
  }

  /** Reducing the base does not change a power mod p. */
  lemma {:induction false} ExpMod(x: int, n: nat)
    ensures Exp(x % P, n) % P == Exp(x, n) % P
  {
    if n > 0 {
      var m := x % P;
      ExpMod(x, n - 1);
      assert m % P == x % P;
      CongruentProducts(Exp(m, n - 1), Exp(x, n - 1), m, x);
      assert Exp(m, n) == Exp(m, n - 1) * m;
      assert Exp(x, n) == Exp(x, n - 1) * x;
    }
  }

  /** Factors congruent modulo p give congruent products. */
  lemma CongruentProducts(a: int, b: int, m: int, x: int)
    requires a % P == b % P && m % P == x % P
    ensures (a * m) % P == (b * x) % P
  {
    MulMod(a, m);
    MulMod(b, x);
  }

  /** (x^n mod p)^2 mod p = x^(2n) mod p: the step of every squaring chain. */
  lemma SquareStep(x: int, n: nat)
    ensures FMul(Exp(x, n) % P, Exp(x, n) % P) == Exp(x, 2 * n) % P
  {
    MulMod(Exp(x, n), Exp(x, n));
    ExpDouble(x, n);
  }

  /** (x^n mod p)·x mod p = x^(n+1) mod p. */
  lemma MultiplyStep(x: int, n: nat)
    ensures FMul(Exp(x, n) % P, x) == Exp(x, n + 1) % P
  {
    var e := Exp(x, n);
    assert Exp(x, n + 1) == e * x;
    var m, q := e % P, e / P;
    SplitProduct(e, m, q, x, P);
    ModMultiple(e * x, m * x, q * x);
  }

  /** e = q·p + m gives e·x = m·x + (q·x)·p. */
  lemma SplitProduct(e: int, m: int, q: int, x: int, p: int)
    requires e == q * p + m
    ensures e * x == m * x + (q * x) * p
  {
  }
}
