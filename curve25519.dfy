/**
 * The Curve25519 field routines of curve25519.c on arrays of eight 32-bit
 * limbs.  Every routine reads its inputs before it overwrites the limb they
 * share with the output, so the output may be the same array as an input,
 * as ristretto255.c relies on; the contracts therefore speak of the inputs'
 * old contents.  Masks made of low one-bits and shifts are written as % and /
 * on the limb values; the masks that depend on a condition bit use the bitwise
 * operators of the Bits module.
 */
module Curve25519 {
  import opened Limbs
  import opened Bits
  import opened Field
  import opened Products

  /** An array holding one field element: eight uint32_t limbs. */
  predicate IsElem(a: array<int>)
    reads a
  {
    a.Length == 8 && IsLimbs(a[..])
  }

  /** The value of the eight limbs of a field element, which fits 256 bits. */
  function Value(s: seq<int>): (v: int)
    requires |s| == 8 && IsLimbs(s)
    ensures v == Val(s) && IsFelem(v)
  {
    LimbsBound(s);
    LimbWeights();
    Val(s)
  }

  /** The addition loop of curve25519Add: R = A + B with the carry out of limb 7 dropped. */
  method SumLimbs(r: array<int>, a: array<int>, b: array<int>)
    requires r.Length == 8 && IsElem(a) && IsElem(b)
    modifies r
    ensures IsElem(r) && Val(r[..]) == (old(Val(a[..])) + old(Val(b[..]))) % TWO256
  {
    ghost var A, B := a[..], b[..];
    var temp := 0;
    var i := 0;
    while i < 8
      invariant 0 <= i <= 8
      invariant forall k :: i <= k < 8 ==> a[k] == A[k] && b[k] == B[k]
      invariant IsLimbs(r[..i])
      invariant 0 <= temp <= 1
      invariant Val(r[..i]) + temp * Pow(BASE, i) == Val(A[..i]) + Val(B[..i])
    {
      ghost var before := r[..i];
      var d := a[i] + b[i];
      r[i] := (temp + d) % BASE;
      assert r[..i + 1][..i] == before;
      Accumulate(r[..i + 1], i, temp, d, Val(A[..i]) + Val(B[..i]));
      PrefixPair(A, B, i);
      temp := (temp + d) / BASE;
      i := i + 1;
    }
    assert r[..8] == r[..] && A[..8] == A && B[..8] == B;
    FinalCarry(r[..], temp, Val(A) + Val(B));
  }

  /**
   * curve25519Add: R = (A + B) mod p through Red.  For A, B < p this is the
   * canonical sum (Field.FAdd).
   */
  method Add(r: array<int>, a: array<int>, b: array<int>)
    requires r.Length == 8 && IsElem(a) && IsElem(b)
    modifies r
    ensures IsElem(r) && Val(r[..]) == FAdd(Value(old(a[..])), Value(old(b[..])))
  {
    SumLimbs(r, a, b);
    assert r[..8] == r[..];
    Red(r, r);
  }

  /**
   * The subtraction loop of curve25519Sub: A - 19 - B in two's complement with
   * a signed 64-bit running borrow, then 2^31 added to limb 7 modulo 2^32.
   */
  method DiffLimbs(r: array<int>, a: array<int>, b: array<int>)
    requires r.Length == 8 && IsElem(a) && IsElem(b)
    modifies r
    ensures IsElem(r) && Val(r[..]) == (old(Val(a[..])) - old(Val(b[..])) + P) % TWO256
  {
    ghost var A, B := a[..], b[..];
    var temp := -19;
    var i := 0;
    while i < 8
      invariant 0 <= i <= 8
      invariant forall k :: i <= k < 8 ==> a[k] == A[k] && b[k] == B[k]
      invariant IsLimbs(r[..i])
      invariant -19 <= temp <= 0
      invariant Val(r[..i]) + temp * Pow(BASE, i) == Val(A[..i]) - Val(B[..i]) - 19
    {
      ghost var before := r[..i];
      var d := a[i] - b[i];
      r[i] := (temp + d) % BASE;
      assert r[..i + 1][..i] == before;
      Accumulate(r[..i + 1], i, temp, d, Val(A[..i]) - Val(B[..i]) - 19);
      PrefixPair(A, B, i);
      temp := (temp + d) / BASE;
      i := i + 1;
    }
    assert r[..8] == r[..] && A[..8] == A && B[..8] == B;
    FinalCarry(r[..], temp, Val(A) - Val(B) - 19);
    ghost var low := r[..];
    r[7] := (r[7] + TOP) % BASE;
    TopAdd(low);
    assert r[..] == low[7 := (low[7] + TOP) % BASE];
    SubShape(Val(A), Val(B));
  }

  /** Adding 2^31 to limb 7 modulo 2^32 adds 2^255 to the value modulo 2^256. */
  lemma TopAdd(s: seq<int>)
    requires |s| == 8 && IsLimbs(s)
    ensures IsLimbs(s[7 := (s[7] + TOP) % BASE])
    ensures Val(s[7 := (s[7] + TOP) % BASE]) == (Val(s) + TWO255) % TWO256
  {
    var s' := s[7 := (s[7] + TOP) % BASE];
    var low := Val(s[..7]);
    LimbWeights();
    EvalPrefix(s, 7, BASE);
    EvalPrefix(s', 7, BASE);
    assert s[..8] == s && s'[..8] == s' && s'[..7] == s[..7];
    LimbsBound(s[..7]);
    var c := (s[7] + TOP) / BASE;
    assert s'[7] == s[7] + TOP - c * BASE;
    assert Val(s') == low + s'[7] * TWO224;
    assert Val(s) == low + s[7] * TWO224;
    assert Val(s') == Val(s) + TWO255 - c * TWO256;
    assert 0 <= Val(s') < TWO256 by {
      assert 0 <= s'[7] < BASE;
      DigitStep(low, s'[7], TWO224, BASE);
    }
    DivModUnique(Val(s) + TWO255, TWO256, c, Val(s'));
  }

  /**
   * curve25519Sub: R = (A - B) mod p; the -19 start and the 2^255 on top add p
   * before the reduction (Field.FSub).
   */
  method Sub(r: array<int>, a: array<int>, b: array<int>)
    requires r.Length == 8 && IsElem(a) && IsElem(b)
    modifies r
    ensures IsElem(r) && Val(r[..]) == FSub(Value(old(a[..])), Value(old(b[..])))
  {
    DiffLimbs(r, a, b);
    assert r[..8] == r[..];
    Red(r, r);
  }

  /**
   * The first half of curve25519Red: B = A + 19 (carry out of limb 7 dropped),
   * then 2^31 subtracted from limb 7 modulo 2^32, so B = A + 19 - 2^255 mod 2^256.
   */
  method RedCandidate(a: array<int>) returns (b: array<int>)
    requires a.Length >= 8 && IsLimbs(a[..8])
    ensures fresh(b) && IsElem(b)
    ensures Val(b[..]) == ((Val(a[..8]) + 19) % TWO256 + TWO255) % TWO256
  {
    b := new int[8](_ => 0);
    var temp := 19;
    var i := 0;
    while i < 8
      invariant 0 <= i <= 8
      invariant IsLimbs(b[..])
      invariant 0 <= temp <= 19
      invariant Val(b[..i]) + temp * Pow(BASE, i) == Val(a[..8][..i]) + 19
    {
      ghost var before := b[..i];
      var d := a[i];
      b[i] := (temp + d) % BASE;
      assert b[..i + 1][..i] == before;
      Accumulate(b[..i + 1], i, temp, d, Val(a[..8][..i]) + 19);
      EvalPrefix(a[..8], i, BASE);
      temp := (temp + d) / BASE;
      i := i + 1;
    }
    assert b[..8] == b[..] && a[..8][..8] == a[..8];
    FinalCarry(b[..], temp, Val(a[..8]) + 19);
    ghost var sum := b[..];
    // b[7] -= 0x80000000 on a uint32_t is the same as adding 0x80000000.
    b[7] := (b[7] - TOP) % BASE;
    assert (sum[7] - TOP) % BASE == (sum[7] + TOP) % BASE;
    TopAdd(sum);
    assert b[..] == sum[7 := (sum[7] + TOP) % BASE];
  }

  /**
   * curve25519Red: R = A - p if that does not borrow, else R = A; the choice
   * is bit 31 of the top limb of B = A + 19 - 2^255.
   */
  method Red(r: array<int>, a: array<int>)
    requires r.Length == 8 && a.Length >= 8 && IsLimbs(a[..8])
    modifies r
    ensures IsElem(r) && Val(r[..]) == RedValue(Value(old(a[..8])))
  {
    ghost var A := a[..8];
    var b := RedCandidate(a);
    var c := b[7] / TOP;
    RedChoice(Value(A), b[..]);
    assert b[..8] == b[..];
    Select(r, b, a, c);
  }

  /** The condition bit of Red picks A exactly when B = A + 19 - 2^255 borrowed. */
  lemma RedChoice(v: int, b: seq<int>)
    requires IsFelem(v) && |b| == 8 && IsLimbs(b)
    requires Val(b) == ((v + 19) % TWO256 + TWO255) % TWO256
    ensures b[7] / TOP == 0 || b[7] / TOP == 1
    ensures RedValue(v) == if b[7] / TOP == 0 then Val(b) else v
  {
    TopBit(b);
    var w := (v + 19) % TWO256;
    if w >= TWO255 {
      DivModUnique(w + TWO255, TWO256, 1, w - TWO255);
    } else {
      DivModUnique(w + TWO255, TWO256, 0, w + TWO255);
    }
  }

  /** Bit 31 of limb 7 is bit 255 of the value. */
  lemma TopBit(s: seq<int>)
    requires |s| == 8 && IsLimbs(s)
    ensures s[7] / TOP == Val(s) / TWO255
    ensures Val(s[7 := s[7] % TOP]) == Val(s) % TWO255
    ensures IsLimbs(s[7 := s[7] % TOP])
  {
    var s' := s[7 := s[7] % TOP];
    var low := Val(s[..7]);
    LimbWeights();
    EvalPrefix(s, 7, BASE);
    EvalPrefix(s', 7, BASE);
    assert s[..8] == s && s'[..8] == s' && s'[..7] == s[..7];
    LimbsBound(s[..7]);
    var q, m := s[7] / TOP, s[7] % TOP;
    assert s[7] == q * TOP + m;
    assert Val(s) == low + m * TWO224 + q * TWO255;
    assert Val(s') == low + m * TWO224;
    DigitStep(low, m, TWO224, TOP);
    DivModUnique(Val(s), TWO255, q, Val(s'));
  }

  /**
   * curve25519Select: r = a when c = 0 and r = b when c = 1, through the mask
   * c - 1 (all ones or all zeros).
   */
  method Select(r: array<int>, a: array<int>, b: array<int>, c: int)
    requires r.Length == 8 && a.Length >= 8 && b.Length >= 8
    requires IsLimbs(a[..8]) && IsLimbs(b[..8]) && (c == 0 || c == 1)
    modifies r
    ensures r[..] == if c == 0 then old(a[..8]) else old(b[..8])
    ensures IsElem(r)
  {
    ghost var A, B := a[..8], b[..8];
    var mask := (c - 1) % BASE;
    var i := 0;
    while i < 8
      invariant 0 <= i <= 8
      invariant forall k :: i <= k < 8 ==> a[k] == A[k] && b[k] == B[k]
      invariant forall k :: 0 <= k < i ==> r[k] == if c == 0 then A[k] else B[k]
    {
      SelectWord(a[i], b[i]);
      r[i] := Or32(And32(a[i], mask), And32(b[i], Not32(mask)));
      i := i + 1;
    }
  }

  /** curve25519Copy: a takes the limbs of b; b is left as it was. */
  method Copy(a: array<int>, b: array<int>)
    requires a.Length == 8 && b.Length >= 8 && IsLimbs(b[..8])
    modifies a
    ensures a[..] == old(b[..8]) && b[..8] == old(b[..8]) && IsElem(a)
  {
    var i := 0;
    while i < 8
      invariant 0 <= i <= 8
      invariant forall k :: i <= k < 8 ==> b[k] == old(b[k])
      invariant forall k :: 0 <= k < i ==> a[k] == old(b[k])
    {
      a[i] := b[i];
      i := i + 1;
    }
  }

  /**
   * curve25519Swap: with c = 1 the limbs of a and b are exchanged, with c = 0
   * neither changes; the mask is ~c + 1 and each limb is XOR-ed with
   * mask & (a ^ b).  When a and b are the same array nothing changes.
   */
  method Swap(a: array<int>, b: array<int>, c: int)
    requires IsElem(a) && IsElem(b) && (c == 0 || c == 1)
    modifies a, b
    ensures a[..] == if c == 1 then old(b[..]) else old(a[..])
    ensures b[..] == if c == 1 then old(a[..]) else old(b[..])
  {
    ghost var A, B := a[..], b[..];
    var mask := (Not32(c) + 1) % BASE;
    assert mask == if c == 1 then ONES else 0;
    var i := 0;
    while i < 8
      invariant 0 <= i <= 8
      invariant forall k :: i <= k < 8 ==> a[k] == A[k] && b[k] == B[k]
      invariant forall k :: 0 <= k < i ==> a[k] == (if c == 1 then B[k] else A[k])
      invariant forall k :: 0 <= k < i ==> b[k] == (if c == 1 then A[k] else B[k])
    {
      var x, y := a[i], b[i];
      SwapWord(x, y, mask, c);
      var dummy := And32(mask, Xor32(x, y));
      a[i] := Xor32(a[i], dummy);
      b[i] := Xor32(b[i], dummy);
      i := i + 1;
    }
    assert a[..] == (if c == 1 then B else A);
    assert b[..] == (if c == 1 then A else B);
  }

  /** One limb of the masked swap: the all-ones mask exchanges x and y, the zero mask keeps them. */
  lemma SwapWord(x: nat, y: nat, mask: int, c: int)
    requires IsWord(x) && IsWord(y) && (c == 0 || c == 1)
    requires mask == if c == 1 then ONES else 0
    ensures Xor32(x, And32(mask, Xor32(x, y))) == if c == 1 then y else x
    ensures Xor32(y, And32(mask, Xor32(x, y))) == if c == 1 then x else y
  {
    if c == 1 {
      XorSwapOnes(x, y);
    } else {
      XorSwapZero(x, y);
      XorSymmetric(x, y, 32);
      XorSwapZero(y, x);
    }
  }

  /**
   * curve25519Comp: ORs a ^ b over the eight limbs and returns bit 31 of
   * mask | -mask, so 0 when the limbs are all equal and 1 otherwise.
   */
  method Comp(a: array<int>, b: array<int>) returns (r: int)
    requires IsElem(a) && IsElem(b)
    ensures r == Field.Comp(Val(a[..]), Val(b[..]))
    ensures r == 0 <==> a[..] == b[..]
  {
    var mask := 0;
    var i := 0;
    while i < 8
      invariant 0 <= i <= 8
      invariant IsWord(mask)
      invariant mask == 0 <==> a[..i] == b[..i]
    {
      DiffWord(mask, a[i], b[i]);
      assert a[..i + 1] == a[..i] + [a[i]] && b[..i + 1] == b[..i] + [b[i]];
      mask := Or32(mask, Xor32(a[i], b[i]));
      i := i + 1;
    }
    NonzeroBit(mask);
    r := Or32(mask, (Not32(mask) + 1) % BASE) / TOP;
    assert a[..8] == a[..] && b[..8] == b[..];
    if a[..] != b[..] {
      EvalInjectiveLimbs(a[..], b[..]);
    }
  }

  lemma EvalInjectiveLimbs(a: seq<int>, b: seq<int>)
    requires |a| == |b| && IsLimbs(a) && IsLimbs(b) && a != b
    ensures Val(a) != Val(b)
  {
    if Val(a) == Val(b) {
      EvalInjective(a, b, BASE);
    }
  }

  /**
   * The column loop of curve25519Mul (Comba's method): after column i the low
   * word of temp becomes u[i] and the low word of c the next temp.
   */
  method Comba(u: array<int>, a: array<int>, b: array<int>)
    requires u.Length == 16 && IsElem(a) && IsElem(b) && u != a && u != b
    modifies u
    ensures IsLimbs(u[..]) && Val(u[..]) == Val(a[..]) * Val(b[..])
  {
    ghost var A, B := a[..], b[..];
    var temp, c := 0, 0;
    var i := 0;
    while i < 16
      invariant 0 <= i <= 16
      invariant IsLimbs(u[..i])
      invariant 0 <= temp < BASE && 0 <= c
      invariant Val(u[..i]) + (temp + c * BASE) * Pow(BASE, i) == Columns(A, B, i)
    {
      ghost var t0 := temp + c * BASE;
      ghost var before := u[..i];
      temp, c := Column(a, b, i, temp, c);
      u[i] := temp % BASE;
      assert u[..i + 1][..i] == before;
      EvalPrefix(u[..i + 1], i, BASE);
      assert u[..i + 1][..i + 1] == u[..i + 1];
      assert u[i] == temp;
      ColumnAdvance(Val(before), t0, temp, c, i, A, B);
      temp := c % BASE;
      c := c / BASE;
      i := i + 1;
    }
    ghost var U := u[..];
    assert u[..i] == U;
    // After the sixteenth column the carry is zero and the limbs hold the whole product.
    assert Val(U) == Val(A) * Val(B) by {
      ColumnsProduct(A, B, 16);
      ProductFits(U, A, B, temp + c * BASE);
    }
  }

  /**
   * One column of curve25519Mul: a[j]·b[i-j] is added to the 64-bit temp and
   * the high word of temp moved into c after every product.  The two inner
   * loops of the C code (j = 0..i for i < 8, j = i-7..7 otherwise) are one
   * loop over max(0, i-7) <= j <= min(i, 7).
   */
  method Column(a: array<int>, b: array<int>, i: int, temp0: int, c0: int) returns (temp: int, c: int)
    requires IsElem(a) && IsElem(b) && 0 <= i < 16 && 0 <= temp0 < BASE && 0 <= c0
    ensures 0 <= temp < BASE && 0 <= c
    ensures temp + c * BASE == temp0 + c0 * BASE + Conv(a[..], b[..], i)
  {
    ghost var A, B := a[..], b[..];
    temp, c := temp0, c0;
    var j := if i < 8 then 0 else i - 7;
    var hi := if i < 8 then i + 1 else 8;
    if i < 8 {
      assert A[..0] == [];
    } else {
      ConvLowZero(A, B, i, j);
    }
    while j < hi
      invariant (if i < 8 then 0 else i - 7) <= j <= hi
      invariant 0 <= temp < BASE && 0 <= c
      invariant temp + c * BASE == temp0 + c0 * BASE + Conv(A[..j], B, i)
    {
      ConvStep(A, B, i, j);
      assert Digit(B, i - j) == b[i - j];
      CarryAdd(temp, c, a[j], b[i - j]);
      temp := temp + a[j] * b[i - j];
      c := c + temp / BASE;
      temp := temp % BASE;
      j := j + 1;
    }
    if i < 8 {
      ConvHighFull(A, B, i, hi);
    } else {
      assert A[..hi] == A;
    }
  }

  /** Adding a limb product to temp and moving its high word into c keeps temp + c·2^32 exact. */
  lemma CarryAdd(temp: int, c: int, x: int, y: int)
    requires 0 <= temp < BASE && 0 <= c && 0 <= x < BASE && 0 <= y < BASE
    ensures var t := temp + x * y;
      0 <= t % BASE < BASE && 0 <= c + t / BASE && t % BASE + (c + t / BASE) * BASE == temp + c * BASE + x * y
  {
    var t := temp + x * y;
    assert x * y >= 0;
    assert t % BASE + (t / BASE) * BASE == t;
  }

  /** The Comba invariant moves from column i to column i + 1. */
  lemma ColumnAdvance(v: int, t0: int, temp: int, c: int, i: nat, A: seq<int>, B: seq<int>)
    requires v + t0 * Pow(BASE, i) == Columns(A, B, i)
    requires temp + c * BASE == t0 + Conv(A, B, i)
    ensures v + temp * Pow(BASE, i) + (c % BASE + (c / BASE) * BASE) * Pow(BASE, i + 1) == Columns(A, B, i + 1)
  {
    ColumnStep(v, temp, c, Pow(BASE, i), t0, Conv(A, B, i), Columns(A, B, i));
    assert Pow(BASE, i + 1) == BASE * Pow(BASE, i);
    assert Columns(A, B, i + 1) == Columns(A, B, i) + Conv(A, B, i) * Pow(BASE, i);
  }

  lemma ColumnStep(v: int, t: int, cc: int, w: int, t0: int, conv: int, col: int)
    requires v + t0 * w == col && t + cc * BASE == t0 + conv
    ensures v + t * w + (cc % BASE + (cc / BASE) * BASE) * (BASE * w) == col + conv * w
  {
    assert cc % BASE + (cc / BASE) * BASE == cc;
    assert (t + cc * BASE) * w == t * w + cc * (BASE * w);
    assert (t0 + conv) * w == t0 * w + conv * w;
  }

  /** The 512-bit product leaves no carry beyond the sixteenth column. */
  lemma ProductFits(u: seq<int>, a: seq<int>, b: seq<int>, x: int)
    requires IsLimbs(u) && IsLimbs(a) && IsLimbs(b) && |u| == |a| + |b|
    requires x >= 0 && Val(u) + x * Pow(BASE, |u|) == Val(a) * Val(b)
    ensures Val(u) == Val(a) * Val(b)
  {
    LimbsBound(u);
    LimbsBound(a);
    LimbsBound(b);
    PowAdd(BASE, |a|, |b|);
    NoCarryOut(Val(a), Val(b), Pow(BASE, |a|), Pow(BASE, |b|), Val(u), x);
  }

  /** A product of values below wa and wb is below wa·wb, so nothing of it spills past wa·wb. */
  lemma NoCarryOut(va: int, vb: int, wa: int, wb: int, vu: int, x: int)
    requires 0 <= va < wa && 0 <= vb < wb && 0 <= vu && 0 <= x
    requires vu + x * (wa * wb) == va * vb
    ensures x == 0
  {
    MulLe(vb, wb - 1, va);
    MulLe(va, wa, wb - 1);
    assert va * vb <= wa * wb - wa;
    if x >= 1 {
      MulLe(1, x, wa * wb);
    }
  }

  /**
   * The two folding passes of curve25519Mul: bit 255 of the low half is worth
   * 19 and the high half 38 (2^255 = 19 and 2^256 = 38 mod p); the carry out
   * of the first pass is folded by the second, whose own carry is zero.  The
   * result is below 2p and congruent to the 512-bit input.
   */
  method Fold(u: array<int>)
    requires u.Length == 16 && IsLimbs(u[..])
    modifies u
    ensures IsLimbs(u[..8]) && Val(u[..8]) < 2 * P
    ensures Val(u[..8]) % P == old(Val(u[..])) % P
  {
    ghost var U := u[..];
    var carry := FoldHigh(u);
    ghost var V1 := u[..8];
    FirstPassBound(U, V1, carry);
    FoldCarry(u, carry);
    FoldMath(U, V1, u[..8], carry);
  }

  lemma FirstPassBound(U: seq<int>, V1: seq<int>, carry: int)
    requires |U| == 16 && IsLimbs(U) && |V1| == 8 && IsLimbs(V1)
    requires Val(V1) + carry * TWO256 == 19 * (Val(U[..8]) / TWO255) + Val(U[..8]) % TWO255 + 38 * Val(U[8..])
    ensures carry < 39
  {
    LimbsBound(V1);
    LimbsBound(U[..8]);
    LimbsBound(U[8..]);
    LimbWeights();
    FoldCarryBound(Val(U[..8]), Val(U[8..]), Val(V1), carry);
  }

  /** Both passes together: the eight limbs left are below 2p and congruent to the sixteen taken. */
  lemma FoldMath(U: seq<int>, V1: seq<int>, W: seq<int>, carry: int)
    requires |U| == 16 && IsLimbs(U) && |V1| == 8 && IsLimbs(V1) && carry < 39
    requires Val(V1) + carry * TWO256 == 19 * (Val(U[..8]) / TWO255) + Val(U[..8]) % TWO255 + 38 * Val(U[8..])
    requires Val(W) == 38 * carry + 19 * (Val(V1) / TWO255) + Val(V1) % TWO255
    ensures Val(W) < 2 * P && Val(W) % P == Val(U) % P
  {
    LimbsBound(V1);
    LimbsBound(U[..8]);
    LimbsBound(U[8..]);
    LimbWeights();
    EvalSplit(U, 8, BASE);
    FoldValue(Val(U), Val(U[..8]), Val(U[8..]), Val(U[..8]) / TWO255, Val(U[..8]) % TWO255,
      carry, Val(V1), Val(V1) / TWO255, Val(V1) % TWO255);
  }

  /**
   * First folding pass: temp starts at 19 times bit 255, bit 255 is cleared,
   * and u[i] + 38·u[i+8] is added limb by limb; the carry out is returned.
   */
  method FoldHigh(u: array<int>) returns (carry: int)
    requires u.Length == 16 && IsLimbs(u[..])
    modifies u
    ensures IsLimbs(u[..]) && carry >= 0
    ensures Val(u[..8]) + carry * TWO256
      == 19 * (old(Val(u[..8])) / TWO255) + old(Val(u[..8])) % TWO255 + 38 * old(Val(u[8..]))
  {
    ghost var U := u[..];
    ghost var H := U[8..];
    TopBit(U[..8]);
    var temp := (u[7] / TOP) * 19;
    u[7] := u[7] % TOP;
    ghost var L := u[..8];
    assert L == U[..8][7 := U[7] % TOP];
    ghost var t0 := temp;
    var i := 0;
    while i < 8
      invariant 0 <= i <= 8
      invariant forall k :: i <= k < 8 ==> u[k] == L[k]
      invariant forall k :: 8 <= k < 16 ==> u[k] == H[k - 8]
      invariant IsLimbs(u[..i])
      invariant 0 <= temp
      invariant Val(u[..i]) + temp * Pow(BASE, i) == t0 + Val(L[..i]) + 38 * Val(H[..i])
    {
      ghost var before := u[..i];
      var d := u[i] + u[i + 8] * 38;
      u[i] := (temp + d) % BASE;
      assert u[..i + 1][..i] == before;
      Accumulate(u[..i + 1], i, temp, d, t0 + Val(L[..i]) + 38 * Val(H[..i]));
      FoldPrefix(L, H, i);
      temp := (temp + d) / BASE;
      i := i + 1;
    }
    assert L[..8] == L && H[..8] == H && u[..8][..8] == u[..8];
    assert u[8..] == H;
    assert IsLimbs(u[..]) by {
      assert u[..] == u[..8] + u[8..];
    }
    FinalCarry(u[..8], temp, t0 + Val(L) + 38 * Val(H));
    carry := temp;
  }

  /**
   * Second folding pass: temp = 38·carry + 19 times the new bit 255, bit 255
   * is cleared and temp is propagated through the low eight limbs; for
   * carry < 39 nothing is carried out of limb 7.
   */
  method FoldCarry(u: array<int>, carry: int)
    requires u.Length == 16 && IsLimbs(u[..8]) && 0 <= carry < 39
    modifies u
    ensures IsLimbs(u[..8])
    ensures Val(u[..8]) == 38 * carry + 19 * (old(Val(u[..8])) / TWO255) + old(Val(u[..8])) % TWO255
  {
    ghost var V1 := u[..8];
    TopBit(V1);
    var temp := carry * 38;
    temp := temp + (u[7] / TOP) * 19;
    u[7] := u[7] % TOP;
    ghost var L2 := u[..8];
    assert L2 == V1[7 := V1[7] % TOP];
    ghost var t1 := temp;
    var i := 0;
    while i < 8
      invariant 0 <= i <= 8
      invariant forall k :: i <= k < 8 ==> u[k] == L2[k]
      invariant IsLimbs(u[..i])
      invariant 0 <= temp
      invariant Val(u[..i]) + temp * Pow(BASE, i) == t1 + Val(L2[..i])
    {
      ghost var before := u[..i];
      var d := u[i];
      u[i] := (temp + d) % BASE;
      assert u[..i + 1][..i] == before;
      Accumulate(u[..i + 1], i, temp, d, t1 + Val(L2[..i]));
      EvalPrefix(L2, i, BASE);
      temp := (temp + d) / BASE;
      i := i + 1;
    }
    assert L2[..8] == L2 && u[..8][..8] == u[..8];
    LimbsBound(L2);
    LimbWeights();
    FinalCarry(u[..8], temp, t1 + Val(L2));
  }

  /** The first pass carries at most 38 out of limb 7. */
  lemma FoldCarryBound(lo: int, hi: int, v1: int, carry: int)
    requires 0 <= lo < TWO256 && 0 <= hi < TWO256 && 0 <= v1 < TWO256
    requires v1 + carry * TWO256 == 19 * (lo / TWO255) + lo % TWO255 + 38 * hi
    ensures carry < 39
  {
    assert lo / TWO255 <= 1;
    assert carry * TWO256 < 39 * TWO256;
  }

  lemma FoldPrefix(l: seq<int>, h: seq<int>, i: nat)
    requires i < |l| && i < |h|
    ensures Val(l[..i + 1]) + 38 * Val(h[..i + 1]) == Val(l[..i]) + 38 * Val(h[..i]) + (l[i] + h[i] * 38) * Pow(BASE, i)
  {
    EvalPrefix(l, i, BASE);
    EvalPrefix(h, i, BASE);
  }

  /** The arithmetic of the two folding passes. */
  lemma FoldValue(x: int, lo: int, hi: int, q0: int, l: int, carry: int, v1: int, q1: int, l2: int)
    requires x == lo + TWO256 * hi && 0 <= lo < TWO256 && 0 <= hi < TWO256
    requires q0 == lo / TWO255 && l == lo % TWO255
    requires 0 <= v1 < TWO256 && v1 + carry * TWO256 == 19 * q0 + l + 38 * hi
    requires q1 == v1 / TWO255 && l2 == v1 % TWO255
    requires carry < 39
    ensures 38 * carry + 19 * q1 + l2 < 2 * P
    ensures (38 * carry + 19 * q1 + l2) % P == x % P
  {
    assert q1 <= 1;
    ModMultiple(x, 38 * carry + 19 * q1 + l2, q0 + 2 * hi + 2 * carry + q1);
  }

  /** curve25519Mul: R = A·B mod p, canonical, for every pair of 256-bit inputs. */
  method Mul(r: array<int>, a: array<int>, b: array<int>)
    requires r.Length == 8 && IsElem(a) && IsElem(b)
    modifies r
    ensures IsElem(r) && Val(r[..]) == FMul(Value(old(a[..])), Value(old(b[..])))
  {
    var u := new int[16];
    Comba(u, a, b);
    Fold(u);
    Red(r, u);
  }

  /** curve25519Sqr: the same limbs as curve25519Mul(r, a, a). */
  method Sqr(r: array<int>, a: array<int>)
    requires r.Length == 8 && IsElem(a)
    modifies r
    ensures IsElem(r) && Val(r[..]) == FMul(Value(old(a[..])), Value(old(a[..])))
  {
    Mul(r, a, a);
  }

  /**
   * curve25519Pwr2: one squaring of a, then n - 1 squarings in place, so
   * R = A^(2^n) mod p; with n = 0 the first squaring still happens and R = A^2.
   */
  method Pwr2(r: array<int>, a: array<int>, n: nat)
    requires r.Length == 8 && IsElem(a)
    modifies r
    ensures IsElem(r) && Val(r[..]) == Exp(Value(old(a[..])), Pow(2, if n == 0 then 1 else n)) % P
  {
    ghost var x := Value(a[..]);
    Sqr(r, a);
    SquareStep(x, 1);
    assert Exp(x, 1) == x;
    var i := 1;
    while i < n
      invariant 1 <= i <= (if n == 0 then 1 else n)
      invariant IsElem(r) && Val(r[..]) == Exp(x, Pow(2, i)) % P
    {
      Sqr(r, r);
      SquareStep(x, Pow(2, i));
      i := i + 1;
    }
  }
}
