/**
 * gf25519.c: the same Cyclone field code as curve25519.c under new names.
 * The carry loops are literally those of curve25519.c, so the methods here
 * run the Curve25519 loops and differ only in the reduction, whose final
 * choice is made either by Select (USE_GF25519SELECT) or, by default, by a
 * Copy followed by a Swap on the negated condition bit.
 */
module Gf25519 {
  import opened Limbs
  import opened Bits
  import opened Field
  import C = Curve25519

  /** The two builds of gf25519Red. */
  datatype Strategy = UseSelect | UseSwap

  /** gf25519Red: both builds leave the value curve25519Red leaves, for every input. */
  method Red(r: array<int>, a: array<int>, s: Strategy)
    requires r.Length == 8 && a.Length >= 8 && IsLimbs(a[..8])
    modifies r
    ensures C.IsElem(r) && Val(r[..]) == RedValue(C.Value(old(a[..8])))
  {
    ghost var A := a[..8];
    var b := C.RedCandidate(a);
    var bit := b[7] / TOP;
    C.RedChoice(C.Value(A), b[..]);
    assert b[..8] == b[..];
    match s {
      case UseSelect =>
        C.Select(r, b, a, bit);
      case UseSwap =>
        C.Copy(r, a);
        C.Swap(r, b, if bit == 0 then 1 else 0);
    }
  }

  /** gf25519Add: (A + B) mod p through Red, the same value as curve25519Add. */
  method Add(r: array<int>, a: array<int>, b: array<int>, s: Strategy)
    requires r.Length == 8 && C.IsElem(a) && C.IsElem(b)
    modifies r
    ensures C.IsElem(r) && Val(r[..]) == FAdd(C.Value(old(a[..])), C.Value(old(b[..])))
  {
    C.SumLimbs(r, a, b);
    assert r[..8] == r[..];
    Red(r, r, s);
  }

  /** gf25519Sub: (A - B) mod p through Red, the same value as curve25519Sub. */
  method Sub(r: array<int>, a: array<int>, b: array<int>, s: Strategy)
    requires r.Length == 8 && C.IsElem(a) && C.IsElem(b)
    modifies r
    ensures C.IsElem(r) && Val(r[..]) == FSub(C.Value(old(a[..])), C.Value(old(b[..])))
  {
    C.DiffLimbs(r, a, b);
    assert r[..8] == r[..];
    Red(r, r, s);
  }

  /** gf25519Mul: A·B mod p, the same value as curve25519Mul. */
  method Mul(r: array<int>, a: array<int>, b: array<int>, s: Strategy)
    requires r.Length == 8 && C.IsElem(a) && C.IsElem(b)
    modifies r
    ensures C.IsElem(r) && Val(r[..]) == FMul(C.Value(old(a[..])), C.Value(old(b[..])))
  {
    var u := new int[16];
    C.Comba(u, a, b);
    C.Fold(u);
    Red(r, u, s);
  }

  /** gf25519Sqr: gf25519Mul(r, a, a). */
  method Sqr(r: array<int>, a: array<int>, s: Strategy)
    requires r.Length == 8 && C.IsElem(a)
    modifies r
    ensures C.IsElem(r) && Val(r[..]) == FMul(C.Value(old(a[..])), C.Value(old(a[..])))
  {
    Mul(r, a, a, s);
  }

  /** gf25519Pwr2: A^(2^n) mod p, and A^2 for n = 0, as curve25519Pwr2. */
  method Pwr2(r: array<int>, a: array<int>, n: nat, s: Strategy)
    requires r.Length == 8 && C.IsElem(a)
    modifies r
    ensures C.IsElem(r) && Val(r[..]) == Exp(C.Value(old(a[..])), Pow(2, if n == 0 then 1 else n)) % P
  {
    ghost var x := C.Value(a[..]);
    Sqr(r, a, s);
    SquareStep(x, 1);
    assert Exp(x, 1) == x;
    var i := 1;
    while i < n
      invariant 1 <= i <= (if n == 0 then 1 else n)
      invariant C.IsElem(r) && Val(r[..]) == Exp(x, Pow(2, i)) % P
    {
      Sqr(r, r, s);
      SquareStep(x, Pow(2, i));
      i := i + 1;
    }
  }
}
