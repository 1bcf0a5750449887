/**
 * The field formulas of ristretto255.c (RFC 9496, the ristretto255 group),
 * each routine given by the field values it leaves behind.  A field element
 * is the integer its eight limbs hold: below 2^256 and not necessarily
 * reduced.  fadd, fsub, fmul and pow2 (curve25519Sqr) are FAdd, FSub and
 * FMul of module Field, feq (curve25519Comp) is Comp, which is 0 when the
 * operands are EQUAL, and pack is curve25519Red followed by the 32
 * little-endian bytes.  These functions follow the C code as written,
 * including the comparison polarity; module RistrettoFixed holds the
 * intended versions of the routines where the two differ.
 */
module RistrettoMath {
  import opened Limbs
  import opened Bits
  import opened Field
  import ModL

  // ---- the constants of ristretto255_constants.h, as limbs and as values ----

  const F_MODULUS_LIMBS: seq<int> := [0xFFFFFFED, 0xFFFFFFFF, 0xFFFFFFFF, 0xFFFFFFFF, 0xFFFFFFFF, 0xFFFFFFFF, 0xFFFFFFFF, 0x7FFFFFFF]
  const SQRT_M1_LIMBS: seq<int> := [0x4A0EA0B0, 0xC4EE1B27, 0xAD2FE478, 0x2F431806, 0x3DFBD7A7, 0x2B4D0099, 0x4FC1DF0B, 0x2B832480]
  const EDWARDS_D_LIMBS: seq<int> := [0x135978A3, 0x75EB4DCA, 0x4141D8AB, 0x00700A4D, 0x7779E898, 0x8CC74079, 0x2B6FFE73, 0x52036CEE]
  const EDWARDS_D2_LIMBS: seq<int> := [0x26B2F159, 0xEBD69B94, 0x8283B156, 0x00E0149A, 0xEEF3D130, 0x198E80F2, 0x56DFFCE7, 0x2406D9DC]
  const INVSQRT_A_MINUS_D_LIMBS: seq<int> := [0x805D40EA, 0x99C8FDAA, 0x5A4172BE, 0x9D2F1617, 0xFE01D840, 0x16C27B91, 0xCFAFFCA2, 0x786C8905]
  const ONE_MINUS_D_SQ_LIMBS: seq<int> := [0x945FC176, 0xE27C09C1, 0xCD5E350F, 0x2C81A138, 0xBE70DFE4, 0x9994ABDD, 0xB2B3E0D7, 0x029072A8]
  const D_MINUS_ONE_SQ_LIMBS: seq<int> := [0x44ED4D20, 0x31AD5AAA, 0xB01E1999, 0xD29E4A2C, 0x529B4EEB, 0x4CDCD32F, 0xF66C2241, 0x5968B37A]
  const SQRT_AD_MINUS_ONE_LIMBS: seq<int> := [0x497B2E1B, 0x7E97F6A0, 0x1B7854BD, 0xAF9D8E0C, 0x31F5D1FD, 0x0F3CFCC9, 0x2B8348AC, 0x376931BF]

  const SQRT_M1: int := 0x2b8324804fc1df0b2b4d00993dfbd7a72f431806ad2fe478c4ee1b274a0ea0b0
  const EDWARDS_D: int := 0x52036cee2b6ffe738cc740797779e89800700a4d4141d8ab75eb4dca135978a3
  const EDWARDS_D2: int := 0x2406d9dc56dffce7198e80f2eef3d13000e0149a8283b156ebd69b9426b2f159
  const INVSQRT_A_MINUS_D: int := 0x786c8905cfaffca216c27b91fe01d8409d2f16175a4172be99c8fdaa805d40ea
  const ONE_MINUS_D_SQ: int := 0x29072a8b2b3e0d79994abddbe70dfe42c81a138cd5e350fe27c09c1945fc176
  const D_MINUS_ONE_SQ: int := 0x5968b37af66c22414cdcd32f529b4eebd29e4a2cb01e199931ad5aaa44ed4d20
  const SQRT_AD_MINUS_ONE: int := 0x376931bf2b8348ac0f3cfcc931f5d1fdaf9d8e0c1b7854bd7e97f6a0497b2e1b

  // The limb tables hold the values the formulas use.

  lemma FModulusLimbs()
    ensures IsLimbs(F_MODULUS_LIMBS) && Val(F_MODULUS_LIMBS) == P
  {
    ValOfEight(F_MODULUS_LIMBS);
  }

  lemma SqrtM1Limbs()
    ensures IsLimbs(SQRT_M1_LIMBS) && Val(SQRT_M1_LIMBS) == SQRT_M1
  {
    ValOfEight(SQRT_M1_LIMBS);
  }

  lemma EdwardsDLimbs()
    ensures IsLimbs(EDWARDS_D_LIMBS) && Val(EDWARDS_D_LIMBS) == EDWARDS_D
  {
    ValOfEight(EDWARDS_D_LIMBS);
  }

  lemma EdwardsD2Limbs()
    ensures IsLimbs(EDWARDS_D2_LIMBS) && Val(EDWARDS_D2_LIMBS) == EDWARDS_D2
  {
    ValOfEight(EDWARDS_D2_LIMBS);
  }

  lemma InvsqrtAMinusDLimbs()
    ensures IsLimbs(INVSQRT_A_MINUS_D_LIMBS) && Val(INVSQRT_A_MINUS_D_LIMBS) == INVSQRT_A_MINUS_D
  {
    ValOfEight(INVSQRT_A_MINUS_D_LIMBS);
  }

  lemma OneMinusDSqLimbs()
    ensures IsLimbs(ONE_MINUS_D_SQ_LIMBS) && Val(ONE_MINUS_D_SQ_LIMBS) == ONE_MINUS_D_SQ
  {
    ValOfEight(ONE_MINUS_D_SQ_LIMBS);
  }

  lemma DMinusOneSqLimbs()
    ensures IsLimbs(D_MINUS_ONE_SQ_LIMBS) && Val(D_MINUS_ONE_SQ_LIMBS) == D_MINUS_ONE_SQ
  {
    ValOfEight(D_MINUS_ONE_SQ_LIMBS);
  }

  lemma SqrtAdMinusOneLimbs()
    ensures IsLimbs(SQRT_AD_MINUS_ONE_LIMBS) && Val(SQRT_AD_MINUS_ONE_LIMBS) == SQRT_AD_MINUS_ONE
  {
    ValOfEight(SQRT_AD_MINUS_ONE_LIMBS);
  }

  /** The facts about the constants the formulas rely on: all reduced, d2 = 2d, and SQRT_M1^2 = -1. */
  lemma ConstantFacts()
    ensures SQRT_M1 < P && EDWARDS_D < P && EDWARDS_D2 < P && INVSQRT_A_MINUS_D < P
    ensures ONE_MINUS_D_SQ < P && D_MINUS_ONE_SQ < P && SQRT_AD_MINUS_ONE < P
    ensures EDWARDS_D2 == (2 * EDWARDS_D) % P
    ensures SQRT_M1 % 2 == 0
    ensures FMul(SQRT_M1, SQRT_M1) == P - 1
  {
  }

  /** A point in extended twisted-Edwards coordinates (ristretto255_point): X, Y, Z, T. */
  datatype Ext = Ext(x: int, y: int, z: int, t: int)

  /** Every coordinate fits in eight limbs. */
  predicate IsPoint(e: Ext)
  {
    IsFelem(e.x) && IsFelem(e.y) && IsFelem(e.z) && IsFelem(e.t)
  }

  /** The extended-coordinates relation X·Y = T·Z (mod p). */
  predicate Extended(e: Ext)
  {
    FMul(e.x, e.y) == FMul(e.t, e.z)
  }

  // ---- bytes, signs and negation ----

  /** pack: curve25519Red, then the limbs as 32 little-endian bytes. */
  function Pack(x: int): (b: seq<int>)
    requires IsFelem(x)
    ensures |b| == 32 && IsBytes(b) && ValBytes(b) == RedValue(x)
  {
    PackValue(RedValue(x));
    LeBytes(RedValue(x), 32)
  }

  lemma PackValue(v: int)
    requires IsFelem(v)
    ensures IsBytes(LeBytes(v, 32)) && ValBytes(LeBytes(v, 32)) == v
  {
    LeBytesValue(v, 32);
    BytePowIsLimbPow(8);
    LimbWeights();
    DivModUnique(v, TWO256, 0, v);
  }

  /** is_neg_bytes: in[0] & 1, the parity of the number the bytes write. */
  function IsNegBytes(b: seq<int>): (r: int)
    requires |b| == 32 && IsBytes(b)
    ensures r == ValBytes(b) % 2
  {
    AndLow(b[0], 1, 8);
    ByteParity(b);
    And(b[0], 1, 8)
  }

  lemma ByteParity(b: seq<int>)
    requires |b| > 0
    ensures ValBytes(b) % 2 == b[0] % 2
  {
    EvalSplit(b, 1, 256);
    assert b[..1] == [b[0]];
    EvalPrefix(b[..1], 0, 256);
    assert b[..1][..0] == [];
    assert Pow(256, 1) == 256;
    ModAddMultiple(b[0], 2, 128 * ValBytes(b[1..]));
  }

  /** is_neg: bit 0 of pack(x), so the parity of x reduced by curve25519Red. */
  function IsNeg(x: int): (r: int)
    requires IsFelem(x)
    ensures r == RedValue(x) % 2
  {
    IsNegBytes(Pack(x))
  }

  /**
   * fneg: fsub(out, F_MODULUS, in), with no reduction afterwards.  For a
   * reduced input it is p - x, so the negation of 0 is p itself, a
   * non-canonical zero.
   */
  function FNeg(x: int): (r: int)
    requires IsFelem(x)
    ensures IsFelem(r)
    ensures x < P ==> r == P - x
    ensures x <= 2 * P ==> (r + x) % P == 0
  {
    NegValue(x);
    FSub(P, x)
  }

  lemma NegValue(x: int)
    requires IsFelem(x)
    ensures x < P ==> FSub(P, x) == P - x
    ensures x <= 2 * P ==> (FSub(P, x) + x) % P == 0
  {
    var r := FSub(P, x);
    if x <= 2 * P {
      assert r % P == (P - x) % P;
      ModAddMultiple(P - x, P, 0);
      assert (r + x) % P == 0 by {
        ModSum(r, x, P - x);
      }
    }
    if 0 < x < P {
      assert r == RedValue(2 * P - x);
    }
  }

  lemma ModSum(r: int, x: int, y: int)
    requires r % P == y % P
    ensures (r + x) % P == (y + x) % P
  {
    DivModUnique(r + x, P, r / P + (y + x) / P - y / P, (y + x) % P);
  }

  /** For a nonzero reduced x, x and its negation have opposite signs. */
  lemma NegFlipsSign(x: int)
    requires 0 < x < P
    ensures IsNeg(FNeg(x)) == 1 - IsNeg(x)
  {
    var n := FNeg(x);
    assert n == P - x;
    assert RedValue(n) == n && RedValue(x) == x;
    var a, b := IsNeg(n), IsNeg(x);
    assert a == n % 2 && b == x % 2;
    assert x + n == P;
    OddModulus();
    ParitySum(x, n);
    assert a == 1 - b;
  }

  lemma OddModulus()
    ensures P % 2 == 1
  {
  }

  /** The negation of 0 is p, whose sign is 0. */
  lemma NegZero()
    ensures FNeg(0) == P && IsNeg(FNeg(0)) == 0
  {
  }

  /**
   * fabsolute(x, x), the only way it is called: fneg overwrites the shared
   * buffer before is_neg reads it, so the sign tested is that of -x, and x
   * comes back when -x is negative, -x otherwise.
   */
  function Abs(x: int): (r: int)
    requires IsFelem(x)
    ensures IsFelem(r)
    ensures x < P ==> IsNeg(r) == 0 && (r == x || r == P - x)
  {
    AbsSign(x);
    var n := FNeg(x);
    if IsNeg(n) == 1 then x else n
  }

  lemma AbsSign(x: int)
    requires IsFelem(x)
    ensures x < P && IsNeg(FNeg(x)) == 1 ==> IsNeg(x) == 0
  {
    if 0 < x < P {
      NegFlipsSign(x);
    } else if x == 0 {
      NegZero();
    }
  }

  /**
   * fabsolute(out, in) with two different buffers: is_neg then reads x
   * itself, so x comes back when x is negative and -x otherwise, and every
   * nonzero reduced x gives a negative result.
   */
  function AbsSeparate(x: int): (r: int)
    requires IsFelem(x)
    ensures IsFelem(r)
    ensures 0 < x < P ==> IsNeg(r) == 1 && (r == x || r == P - x)
  {
    SeparateSign(x);
    if IsNeg(x) == 1 then x else FNeg(x)
  }

  lemma SeparateSign(x: int)
    requires IsFelem(x)
    ensures 0 < x < P && IsNeg(x) == 0 ==> IsNeg(FNeg(x)) == 1
  {
    if 0 < x < P {
      NegFlipsSign(x);
    }
  }

  // ---- the exponent chains ----

  /** pow3: pow2 then fmul, giving a^3 mod p. */
  function Pow3(a: int): (r: int)
    ensures r == Exp(a, 3) % P
  {
    PowerSteps(a);
    FMul(FMul(a, a), a)
  }

  /** pow7: pow3, pow2 then fmul, giving a^7 mod p. */
  function Pow7(a: int): (r: int)
    ensures r == Exp(a, 7) % P
  {
    PowerSteps(a);
    FMul(FMul(Pow3(a), Pow3(a)), a)
  }

  lemma PowerSteps(a: int)
    ensures FMul(FMul(a, a), a) == Exp(a, 3) % P
    ensures FMul(FMul(Exp(a, 3) % P, Exp(a, 3) % P), a) == Exp(a, 7) % P
  {
    assert Exp(a, 1) == a;
    MultiplyStep(a, 1);
    assert FMul(a, a) == Exp(a, 2) % P;
    MultiplyStep(a, 2);
    SquareStep(a, 3);
    MultiplyStep(a, 6);
  }

  /** The exponent of pow2523: (p - 5) / 8 = 2^252 - 3. */
  const P58: nat := (P - 5) / 8

  /** What pow2523 computes: x^((p-5)/8) mod p. */
  function Pow58(x: int): (r: int)
    ensures 0 <= r < P
  {
    Exp(x, P58) % P
  }

  // ---- inv_sqrt (SQRT_RATIO_M1 of RFC 9496, section 4.2) ----

  /** The flag and the root inv_sqrt returns. */
  datatype SqrtRatio = SqrtRatio(wasSquare: int, root: int)

  /** int a | int b on two flags: 1 when either is 1, and the bitwise OR on 0/1 flags. */
  function FlagOr(a: int, b: int): (f: int)
    ensures f == 0 || f == 1
    ensures 0 <= a <= 1 && 0 <= b <= 1 ==> f == Or32(a, b)
  {
    OrZero(0, 31);
    if a == 1 || b == 1 then 1 else 0
  }

  /** r = (u·v^3)·(u·v^7)^((p-5)/8): the candidate root before the sign checks. */
  function Candidate(u: int, v: int): (r: int)
    ensures 0 <= r < P
    ensures r == (Exp(u * Exp(v, 7), P58) * (u * Exp(v, 3))) % P
  {
    var w, z := u * Exp(v, 7), u * Exp(v, 3);
    MulModRight(u, Exp(v, 7));
    MulModRight(u, Exp(v, 3));
    ExpMod(w, P58);
    MulMod(Exp(w, P58), z);
    FMul(Pow58(FMul(u, Pow7(v))), FMul(u, Pow3(v)))
  }

  /** check = v·r^2. */
  function Check(v: int, r: int): (c: int)
    ensures 0 <= c < P && c == (v * (r * r)) % P
  {
    MulModRight(v, r * r);
    FMul(v, FMul(r, r))
  }

  /** r multiplied by SQRT_M1 when rotate is set, then made non-negative. */
  function Root(r: int, rotate: int): (s: int)
    requires 0 <= r < P
    ensures 0 <= s <= P && IsNeg(s) == 0
  {
    NonNegative(if rotate == 1 then FMul(r, SQRT_M1) else r)
  }

  /**
   * inv_sqrt as written.  Because feq is 0 on equality, correct_sign_sqrt
   * and flipped_sign_sqrt are 1 when check DIFFERS from u and from -u, so
   * the flag it returns is 1 for every reduced u (the two cannot both be
   * equal to check), and the rotation by SQRT_M1 is applied when check
   * differs from -u or from -u·SQRT_M1.
   */
  function InvSqrt(u: int, v: int): (r: SqrtRatio)
    requires IsFelem(u) && IsFelem(v)
    ensures r.wasSquare == 0 || r.wasSquare == 1
    ensures 0 <= r.root <= P && IsNeg(r.root) == 0
  {
    var r2 := Candidate(u, v);
    var check := Check(v, r2);
    var uNeg := FNeg(u);
    var correct := Comp(check, u);
    var flipped := Comp(check, uNeg);
    var flippedI := Comp(check, FMul(uNeg, SQRT_M1));
    SqrtRatio(FlagOr(correct, flipped), Root(r2, FlagOr(flipped, flippedI)))
  }

  /** r_is_negative = is_neg(r); swap r with fneg(r) when it is set. */
  function NonNegative(r: int): (s: int)
    requires 0 <= r < P
    ensures 0 <= s <= P && IsNeg(s) == 0 && (s == r || s == P - r)
  {
    if IsNeg(r) == 1 then
      NonZeroNegative(r);
      NegFlipsSign(r);
      FNeg(r)
    else
      r
  }

  lemma NonZeroNegative(r: int)
    requires 0 <= r < P && IsNeg(r) == 1
    ensures r > 0
  {
  }

  /**
   * The flag inv_sqrt returns is 1 for every reduced u, whether or not u/v
   * is a square.
   */
  lemma InvSqrtAlwaysSquare(u: int, v: int)
    requires IsFelem(u) && IsFelem(v) && u < P
    ensures InvSqrt(u, v).wasSquare == 1
  {
    FlagsDiffer(Check(v, Candidate(u, v)), u);
  }

  /**
   * inv_sqrt(1, 1): 1 is its own square root, yet the function returns
   * SQRT_M1, whose square is -1.
   */
  lemma InvSqrtOfOne()
    ensures InvSqrt(1, 1) == SqrtRatio(1, SQRT_M1)
    ensures Check(1, SQRT_M1) == P - 1
  {
    ConstantFacts();
    ExpOne(3);
    ExpOne(7);
    ExpOne(P58);
    assert Candidate(1, 1) == 1;
    assert FNeg(1) == P - 1;
    assert Check(1, 1) == 1;
    assert Comp(1, P - 1) == 1;
    assert FMul(1, SQRT_M1) == SQRT_M1;
    assert IsNeg(SQRT_M1) == 0;
  }

  lemma {:induction false} ExpOne(n: nat)
    ensures Exp(1, n) == 1
  {
    if n > 0 {
      ExpOne(n - 1);
    }
  }

  /** check cannot equal both u and -u: u = -u has no reduced solution, p being odd. */
  lemma FlagsDiffer(check: int, u: int)
    requires IsFelem(u)
    ensures u < P ==> Comp(check, u) == 1 || Comp(check, FNeg(u)) == 1
  {
  }

  // ---- ge25519_addition ----

  /**
   * ge25519_addition: the unified extended-coordinates addition of
   * TweetNaCl's add, with k = 2d.  Every temporary is computed from p and q
   * before any coordinate of the result is written.
   */
  function PointAdd(p: Ext, q: Ext): (r: Ext)
    requires IsPoint(p) && IsPoint(q)
    ensures IsPoint(r) && Extended(r)
  {
    var a := FMul(FSub(p.y, p.x), FSub(q.y, q.x));
    var b := FMul(FAdd(p.x, p.y), FAdd(q.x, q.y));
    var h := FAdd(b, a);
    var e := FSub(b, a);
    var d := FAdd(FMul(p.z, q.z), FMul(p.z, q.z));
    var c := FMul(FMul(p.t, q.t), EDWARDS_D2);
    var f := FSub(d, c);
    var g := FAdd(d, c);
    ExtendedProduct(e, f, h, g);
    Ext(FMul(e, f), FMul(h, g), FMul(g, f), FMul(e, h))
  }

  /** (e·f)(h·g) = (e·h)(g·f) modulo p: the four products of a result satisfy X·Y = T·Z. */
  lemma ExtendedProduct(e: int, f: int, h: int, g: int)
    ensures FMul(FMul(e, f), FMul(h, g)) == FMul(FMul(e, h), FMul(g, f))
  {
    MulMod(e * f, h * g);
    MulMod(e * h, g * f);
    assert (e * f) * (h * g) == (e * h) * (g * f);
  }

  /** The addition formula is symmetric in its two operands. */
  lemma PointAddCommutes(p: Ext, q: Ext)
    requires IsPoint(p) && IsPoint(q)
    ensures PointAdd(p, q) == PointAdd(q, p)
  {
    assert FMul(p.z, q.z) == FMul(q.z, p.z);
    assert FMul(p.t, q.t) == FMul(q.t, p.t);
    assert FMul(FSub(p.y, p.x), FSub(q.y, q.x)) == FMul(FSub(q.y, q.x), FSub(p.y, p.x));
    assert FMul(FAdd(p.x, p.y), FAdd(q.x, q.y)) == FMul(FAdd(q.x, q.y), FAdd(p.x, p.y));
  }

  // ---- MAP (the ristretto255 Elligator map, RFC 9496 section 4.3.4) ----

  /** r = SQRT_M1·t^2. */
  function MapR(t: int): (r: int)
    ensures 0 <= r < P
  {
    FMul(SQRT_M1, FMul(t, t))
  }

  /** u = (r + 1)·ONE_MINUS_D_SQ, the numerator handed to inv_sqrt. */
  function MapU(t: int): (u: int)
    ensures 0 <= u < P
  {
    FMul(FAdd(MapR(t), 1), ONE_MINUS_D_SQ)
  }

  /** v = (c - r·d)·(r + d) with c = -1, the denominator handed to inv_sqrt. */
  function MapV(t: int): (v: int)
    ensures 0 <= v < P
  {
    ConstantFacts();
    FMul(FSub(FNeg(1), FMul(MapR(t), EDWARDS_D)), FAdd(MapR(t), EDWARDS_D))
  }

  /**
   * MAP as written: u and v handed to inv_sqrt, then the point built from
   * its result.
   */
  function Map(t: int): (r: Ext)
    requires IsFelem(t)
    ensures IsPoint(r) && Extended(r)
  {
    MapPoint(t, InvSqrt(MapU(t), MapV(t)))
  }

  /**
   * The rest of MAP once inv_sqrt has answered: s and c swapped for s' and r
   * on wasnt_square = 1 - was_square, then the four products of w0..w3.
   */
  function MapPoint(t: int, sq: SqrtRatio): (r: Ext)
    requires IsFelem(t) && 0 <= sq.root <= P
    ensures IsPoint(r) && Extended(r)
  {
    ConstantFacts();
    var r0 := MapR(t);
    var v := MapV(t);
    var wasntSquare := 1 - sq.wasSquare;
    var s := if wasntSquare == 1 then FNeg(Abs(FMul(sq.root, t))) else sq.root;
    var c := if wasntSquare == 1 then r0 else FNeg(1);
    var n := FSub(FMul(FMul(FSub(r0, 1), c), D_MINUS_ONE_SQ), v);
    var ss := FMul(s, s);
    var w0 := FMul(FAdd(s, s), v);
    var w1 := FMul(n, SQRT_AD_MINUS_ONE);
    var w2 := FSub(1, ss);
    var w3 := FAdd(1, ss);
    ExtendedProduct(w0, w3, w2, w1);
    Ext(FMul(w0, w3), FMul(w2, w1), FMul(w1, w3), FMul(w0, w2))
  }

  // ---- ristretto255_decode (RFC 9496 section 4.3.1) ----

  /** The status decode returns (0 accepted, 1 rejected) and the point it leaves in ristretto_out. */
  datatype Decoded = Decoded(status: int, point: Ext)

  /** 32 bytes hold a value that fits in eight limbs. */
  lemma BytesFit(b: seq<int>)
    requires |b| == 32 && IsBytes(b)
    ensures IsFelem(ValBytes(b))
  {
    BytesBound(b);
    BytePowIsLimbPow(8);
    LimbWeights();
  }

  /**
   * bytes_eq_32(pack(unpack(b)), b): the encoding check decode makes.  It
   * accepts exactly the values below p and the values from 2^256 - 19 up,
   * which curve25519Red leaves unreduced.
   */
  function CanonicalAsWritten(b: seq<int>): (ok: bool)
    requires |b| == 32 && IsBytes(b)
    ensures ok <==> ValBytes(b) < P || TWO256 - 19 <= ValBytes(b)
  {
    BytesFit(b);
    PackRoundTrip(b);
    Pack(ValBytes(b)) == b
  }

  /**
   * pack(unpack(b)) gives b back exactly for the values below p and the
   * values from 2^256 - 19 up; in between curve25519Red subtracts p.
   */
  lemma PackRoundTrip(b: seq<int>)
    requires |b| == 32 && IsBytes(b)
    ensures IsFelem(ValBytes(b))
    ensures Pack(ValBytes(b)) == b <==> ValBytes(b) < P || TWO256 - 19 <= ValBytes(b)
  {
    BytesFit(b);
    var s := ValBytes(b);
    assert Pack(s) == LeBytes(RedValue(s), 32);
    if s < P || TWO256 - 19 <= s {
      LeBytesOfValBytes(b);
    } else {
      RedMiddle(s);
      assert ValBytes(Pack(s)) != ValBytes(b);
    }
  }

  /**
   * ristretto255_decode as written: on a failed encoding check the output
   * point is left as it was (out); otherwise the point recovered from s is
   * written and the status decided by DecodeStatus.
   */
  function Decode(b: seq<int>, out: Ext): (r: Decoded)
    requires |b| == 32 && IsBytes(b)
    ensures r.status == 0 || r.status == 1
    ensures !CanonicalAsWritten(b) || IsNegBytes(b) == 1 ==> r == Decoded(1, out)
    ensures CanonicalAsWritten(b) && IsNegBytes(b) == 0 ==> IsPoint(r.point) && Extended(r.point) && r.point.z == 1
  {
    BytesFit(b);
    if !CanonicalAsWritten(b) || IsNegBytes(b) == 1 then Decoded(1, out)
    else
      var s := ValBytes(b);
      var sq := InvSqrt(1, DecodeRatio(s));
      var point := DecodePoint(s, sq.root);
      Decoded(DecodeStatus(sq.wasSquare, point), point)
  }

  /**
   * The three rejections at the end of decode as written: flag 0, t
   * negative, and feq(y, 0) = 1, which is y DIFFERENT from zero.
   */
  function DecodeStatus(wasSquare: int, point: Ext): (status: int)
    requires IsFelem(point.t)
    ensures status == 0 <==> wasSquare != 0 && IsNeg(point.t) == 0 && point.y == 0
    ensures status == 0 || status == 1
  {
    if wasSquare == 0 then 1
    else if IsNeg(point.t) == 1 then 1
    else if Comp(point.y, 0) == 1 then 1
    else 0
  }

  /** u1 = 1 - s^2. */
  function DecodeU1(s: int): (u1: int)
    ensures IsFelem(u1)
  {
    FSub(1, FMul(s, s))
  }

  /** u2 = 1 + s^2. */
  function DecodeU2(s: int): (u2: int)
    ensures IsFelem(u2)
  {
    FAdd(1, FMul(s, s))
  }

  /** v = -(d·u1^2) - u2^2. */
  function DecodeV(s: int): (v: int)
    ensures IsFelem(v)
  {
    FSub(FNeg(FMul(EDWARDS_D, FMul(DecodeU1(s), DecodeU1(s)))), FMul(DecodeU2(s), DecodeU2(s)))
  }

  /** v·u2^2, the denominator decode hands to inv_sqrt with numerator 1. */
  function DecodeRatio(s: int): (r: int)
    ensures IsFelem(r)
  {
    FMul(DecodeV(s), FMul(DecodeU2(s), DecodeU2(s)))
  }

  /** x = |2·s·Dx|, y = u1·Dy, z = 1, t = x·y, with Dx = I·u2 and Dy = I·Dx·v. */
  function DecodePoint(s: int, i: int): (p: Ext)
    requires IsFelem(s) && IsFelem(i)
    ensures IsPoint(p) && Extended(p) && p.z == 1 && p.t == FMul(p.x, p.y)
  {
    var dx := FMul(i, DecodeU2(s));
    var sDx := FMul(s, dx);
    var x := Abs(FAdd(sDx, sDx));
    var y := FMul(DecodeU1(s), FMul(i, FMul(dx, DecodeV(s))));
    MulOne(FMul(x, y));
    Ext(x, y, 1, FMul(x, y))
  }

  lemma MulOne(t: int)
    requires 0 <= t < P
    ensures FMul(t, 1) == t
  {
    assert t * 1 == t;
  }

  /** Between p and 2^256 - 19 curve25519Red subtracts p once. */
  lemma RedMiddle(s: int)
    requires P <= s < TWO256 - 19
    ensures RedValue(s) == s - P
  {
    DivModUnique(s + 19, TWO256, 0, s + 19);
  }

  /** The bytes of 2^256 - 2 are even and pass the check, though they exceed p. */
  lemma NonCanonicalAccepted()
    ensures IsBytes(LeBytes(TWO256 - 2, 32)) && |LeBytes(TWO256 - 2, 32)| == 32
    ensures ValBytes(LeBytes(TWO256 - 2, 32)) == TWO256 - 2 > P
    ensures CanonicalAsWritten(LeBytes(TWO256 - 2, 32)) && IsNegBytes(LeBytes(TWO256 - 2, 32)) == 0
  {
    PackValue(TWO256 - 2);
    PackRoundTrip(LeBytes(TWO256 - 2, 32));
  }

  /**
   * Past the encoding checks, decode as written accepts exactly when the
   * recovered y is zero.
   */
  lemma DecodeAcceptsZeroY(b: seq<int>, out: Ext)
    requires |b| == 32 && IsBytes(b) && CanonicalAsWritten(b) && IsNegBytes(b) == 0
    ensures Decode(b, out).status == 0 <==> Decode(b, out).point.y == 0
  {
    BytesFit(b);
    var s := ValBytes(b);
    var sq := InvSqrt(1, DecodeRatio(s));
    InvSqrtAlwaysSquare(1, DecodeRatio(s));
    var p := DecodePoint(s, sq.root);
    assert Decode(b, out) == Decoded(DecodeStatus(sq.wasSquare, p), p);
    StatusZeroY(p);
  }

  /** With the flag set, the status is 0 exactly when y is zero (t = x·y is then zero too). */
  lemma StatusZeroY(p: Ext)
    requires IsFelem(p.x) && p.t == FMul(p.x, p.y)
    ensures DecodeStatus(1, p) == 0 <==> p.y == 0
  {
    if p.y == 0 {
      MulZero(p.x);
    } else {
      assert Comp(p.y, 0) == 1;
    }
  }

  lemma MulZero(x: int)
    ensures FMul(x, 0) == 0 && IsNeg(0) == 0
  {
    assert x * 0 == 0;
  }

  /** s = p - 1 (the encoding of -1) gives y = 0, and decode as written accepts it. */
  lemma DecodeMinusOne(out: Ext)
    ensures IsBytes(LeBytes(P - 1, 32)) && |LeBytes(P - 1, 32)| == 32
    ensures Decode(LeBytes(P - 1, 32), out).status == 0
    ensures Decode(LeBytes(P - 1, 32), out).point.y == 0
  {
    var b := LeBytes(P - 1, 32);
    PackValue(P - 1);
    PackRoundTrip(b);
    assert CanonicalAsWritten(b);
    MinusOneSquare();
    assert DecodeU1(P - 1) == 0;
    DecodeAcceptsZeroY(b, out);
  }

  lemma MinusOneSquare()
    ensures FMul(P - 1, P - 1) == 1
  {
    assert (P - 1) * (P - 1) == (P - 2) * P + 1;
    ModMultiple((P - 1) * (P - 1), 1, P - 2);
  }

  // ---- ristretto255_encode (RFC 9496 section 4.3.2) ----

  /** u1 = (z + y)·(z - y). */
  function EncodeU1(p: Ext): (u1: int)
    requires IsPoint(p)
    ensures IsFelem(u1)
  {
    FMul(FAdd(p.z, p.y), FSub(p.z, p.y))
  }

  /** u1·u2^2 with u2 = x·y, the denominator encode hands to inv_sqrt with numerator 1. */
  function EncodeRatio(p: Ext): (r: int)
    requires IsPoint(p)
    ensures IsFelem(r)
  {
    FMul(EncodeU1(p), FMul(FMul(p.x, p.y), FMul(p.x, p.y)))
  }

  /**
   * ristretto255_encode as written: inv_sqrt(1, u1·u2^2), then the value s
   * of EncodeWith packed.
   */
  function Encode(p: Ext): (b: seq<int>)
    requires IsPoint(p)
    ensures |b| == 32 && IsBytes(b) && ValBytes(b) < P && IsNegBytes(b) == 0
  {
    var s := EncodeWith(p, InvSqrt(1, EncodeRatio(p)).root);
    EncodedSign(s);
    Pack(s)
  }

  /**
   * The rest of encode given the inverse square root i: the rotation when
   * t·z_inv is NOT negative (rot = 1 - is_neg), which together with the
   * swapped names iX and iY is the RFC's rotation, then s = |den·(z - y)|.
   */
  function EncodeWith(p: Ext, i: int): (s: int)
    requires IsPoint(p)
    ensures 0 <= s <= P && IsNeg(s) == 0
  {
    var d1 := FMul(EncodeU1(p), i);
    var d2 := FMul(FMul(p.x, p.y), i);
    var zInv := FMul(FMul(d1, d2), p.t);
    var rotate := 1 - IsNeg(FMul(p.t, zInv));
    var x := if rotate == 1 then p.x else FMul(p.y, SQRT_M1);
    var y := if rotate == 1 then p.y else FMul(p.x, SQRT_M1);
    var den := if rotate == 1 then d2 else FMul(d1, INVSQRT_A_MINUS_D);
    Unrotated(p.z, zInv, x, y, den)
  }

  /** y negated when x·z_inv is negative, then s = |den·(z - y)|. */
  function Unrotated(z: int, zInv: int, x: int, y: int, den: int): (s: int)
    requires IsFelem(z) && IsFelem(y)
    ensures 0 <= s <= P && IsNeg(s) == 0
  {
    var y' := if IsNeg(FMul(x, zInv)) == 1 then FNeg(y) else y;
    Abs(FMul(den, FSub(z, y')))
  }

  /** A value of at most p with sign 0 packs to a canonical, even encoding. */
  lemma EncodedSign(s: int)
    requires 0 <= s <= P && IsNeg(s) == 0
    ensures ValBytes(Pack(s)) < P && IsNegBytes(Pack(s)) == 0
  {
  }

  // ---- hash_to_group (RFC 9496 section 4.3.4) ----

  /**
   * hash_to_group: the two 32-byte halves with bit 7 of their last byte
   * cleared (t[31] &= 0x7F), each mapped, the two points added, the sum
   * encoded.
   */
  function HashToGroup(h: seq<int>): (b: seq<int>)
    requires |h| == 64 && IsBytes(h)
    ensures |b| == 32 && IsBytes(b) && ValBytes(b) < P && IsNegBytes(b) == 0
    ensures b == Encode(PointAdd(Map(ValBytes(h[..32]) % TWO255), Map(ValBytes(h[32..]) % TWO255)))
  {
    var t1 := MaskTop(h[..32]);
    var t2 := MaskTop(h[32..]);
    BytesFit(t1);
    BytesFit(t2);
    Encode(PointAdd(Map(ValBytes(t1)), Map(ValBytes(t2))))
  }

  /** t[31] &= 0x7F on one half. */
  function MaskTop(t: seq<int>): (m: seq<int>)
    requires |t| == 32 && IsBytes(t)
    ensures |m| == 32 && IsBytes(m) && ValBytes(m) == ValBytes(t) % TWO255
  {
    AndLow(t[31], 7, 8);
    assert Pow(2, 7) == 0x80;
    var m := t[31 := And(t[31], 0x7F, 8)];
    MaskValue(t, m);
    m
  }

  lemma MaskValue(t: seq<int>, m: seq<int>)
    requires |t| == 32 && IsBytes(t) && m == t[31 := t[31] % 0x80]
    ensures IsBytes(m) && ValBytes(m) == ValBytes(t) % TWO255
  {
    var w := Pow(256, 31);
    LastByte(t, 31);
    LastByte(m, 31);
    assert m[..31] == t[..31];
    BytesBound(t[..31]);
    BytePowIsLimbPow(8);
    LimbWeights();
    ByteWeights(31);
    MaskTopBits(ValBytes(t[..31]), t[31], w);
  }

  /** A byte string is its bytes below k plus its last byte, k, weighted by 256^k. */
  lemma LastByte(t: seq<int>, k: nat)
    requires |t| == k + 1
    ensures ValBytes(t) == ValBytes(t[..k]) + Pow(256, k) * t[k]
  {
    EvalPrefix(t, k, 256);
    assert t[..k + 1] == t;
  }

  /** Clearing bit 7 of the top byte reduces modulo 2^255. */
  lemma MaskTopBits(low: int, top: int, w: int)
    requires 0 <= low < w && 0 <= top < 0x100 && w * 0x80 == TWO255
    ensures (low + w * top) % TWO255 == low + w * (top % 0x80)
  {
    var hi, lo := top / 0x80, top % 0x80;
    assert low + w * top == low + w * lo + TWO255 * hi;
    assert low + w * lo < TWO255 by {
      MulLe(lo, 0x7F, w);
    }
    DivModUnique(low + w * top, TWO255, hi, low + w * lo);
  }

  // ---- ristretto255_scalarmult: the Montgomery ladder ----

  /**
   * An addition on points that keeps points in extended coordinates. The
   * ladder is stated over any such addition, ge25519_addition being the one
   * ristretto255_scalarmult uses, so that its structure can be reasoned
   * about apart from the formula.
   */
  ghost predicate IsAddition(add: (Ext, Ext) --> Ext)
  {
    forall p, q :: IsPoint(p) && IsPoint(q) ==> add.requires(p, q) && IsPoint(add(p, q)) && Extended(add(p, q))
  }

  lemma PointAddIsAddition()
    ensures IsAddition(PointAdd)
  {
  }

  /** Bit i of n, peeled off one halving at a time. */
  function LadderBit(n: nat, i: nat): (b: int)
    ensures b == 0 || b == 1
  {
    if i == 0 then n % 2 else LadderBit(n / 2, i - 1)
  }

  /** The ladder's bit is bit i of the scalar's value, as scalar_bit reads it. */
  lemma {:induction false} LadderBitIsBit(n: nat, i: nat)
    ensures LadderBit(n, i) == ModL.Bit(n, i)
    decreases i
  {
    if i > 0 {
      LadderBitIsBit(n / 2, i - 1);
      PowPositive(2, i - 1);
      assert Pow(2, i) == 2 * Pow(2, i - 1);
      ModL.DivDiv(n, 2, Pow(2, i - 1));
    }
  }

  /**
   * One rung of the Montgomery ladder on (R0, R1): bit 1 makes it
   * (R0 + R1, 2·R1), bit 0 makes it (2·R0, R0 + R1).
   */
  function Rung(add: (Ext, Ext) --> Ext, bit: int, r0: Ext, r1: Ext): (r: (Ext, Ext))
    requires IsAddition(add) && IsPoint(r0) && IsPoint(r1)
    ensures IsPoint(r.0) && IsPoint(r.1) && Extended(r.0) && Extended(r.1)
  {
    if bit == 1 then (add(r0, r1), add(r1, r1)) else (add(r0, r0), add(r0, r1))
  }

  /** The pair the ladder holds after the rungs for the bits of n from i - 1 down to 0, from (r0, r1). */
  function LadderWith(add: (Ext, Ext) --> Ext, n: nat, i: nat, r0: Ext, r1: Ext): (r: (Ext, Ext))
    requires IsAddition(add) && IsPoint(r0) && IsPoint(r1)
    ensures IsPoint(r.0) && IsPoint(r.1)
    ensures i > 0 ==> Extended(r.0) && Extended(r.1)
    decreases i
  {
    if i == 0 then (r0, r1)
    else
      var next := Rung(add, LadderBit(n, i - 1), r0, r1);
      LadderWith(add, n, i - 1, next.0, next.1)
  }

  /** The ladder of ristretto255_scalarmult, on ge25519_addition. */
  function Ladder(n: nat, i: nat, r0: Ext, r1: Ext): (r: (Ext, Ext))
    requires IsPoint(r0) && IsPoint(r1)
    ensures IsPoint(r.0) && IsPoint(r.1)
    ensures i > 0 ==> Extended(r.0) && Extended(r.1)
  {
    PointAddIsAddition();
    LadderWith(PointAdd, n, i, r0, r1)
  }

  /** The point (0, 1) of ristretto_scalarmult's start, X = T = 0 and Y = Z = 1. */
  const NEUTRAL: Ext := Ext(0, 1, 1, 0)

  /**
   * X = T = 0 and Y = Z below p: the neutral element (0, 1) in projective
   * form, Y being the scaling (the model does not track that it is nonzero).
   */
  predicate IsNeutral(e: Ext)
  {
    e.x == 0 && e.t == 0 && e.y == e.z && 0 <= e.y < P
  }

  /** O + O = O: the sum of two neutral points is neutral. */
  lemma NeutralAdd(p: Ext, q: Ext)
    requires IsNeutral(p) && IsNeutral(q)
    ensures IsNeutral(PointAdd(p, q))
  {
    var a := FMul(p.y, q.y);
    var d := FAdd(a, a);
    AddZero(p.y);
    AddZero(q.y);
    AddZero(d);
    ZeroTimes(0);
    ZeroTimes(d);
    ZeroTimes(EDWARDS_D2);
  }

  /** Adding or subtracting 0 leaves a reduced element unchanged. */
  lemma AddZero(y: int)
    requires 0 <= y < P
    ensures FSub(y, 0) == y && FAdd(0, y) == y && FAdd(y, 0) == y
  {
  }

  lemma ZeroTimes(x: int)
    ensures FMul(0, x) == 0
  {
    assert 0 * x == 0;
  }

  /** With an addition that keeps neutral points neutral, the ladder from two neutral points stays neutral. */
  lemma {:induction false} LadderWithNeutral(add: (Ext, Ext) --> Ext, n: nat, i: nat, r0: Ext, r1: Ext)
    requires IsAddition(add) && IsNeutral(r0) && IsNeutral(r1)
    requires forall p, q {:trigger add(p, q)} :: IsNeutral(p) && IsNeutral(q) ==> IsNeutral(add(p, q))
    ensures IsNeutral(LadderWith(add, n, i, r0, r1).0) && IsNeutral(LadderWith(add, n, i, r0, r1).1)
    decreases i
  {
    if i > 0 {
      var next := Rung(add, LadderBit(n, i - 1), r0, r1);
      LadderWithNeutral(add, n, i - 1, next.0, next.1);
    }
  }

  /** k·O = O: the ladder from two neutral points holds two neutral points, whatever the scalar. */
  lemma LadderOfNeutral(n: nat, i: nat, r0: Ext, r1: Ext)
    requires IsNeutral(r0) && IsNeutral(r1)
    ensures IsNeutral(Ladder(n, i, r0, r1).0) && IsNeutral(Ladder(n, i, r0, r1).1)
  {
    PointAddIsAddition();
    forall p, q | IsNeutral(p) && IsNeutral(q)
      ensures IsNeutral(PointAdd(p, q))
    {
      NeutralAdd(p, q);
    }
    LadderWithNeutral(PointAdd, n, i, r0, r1);
  }

  /** The ladder over i bits is the rung for bit i - 1 followed by the ladder over the bits below. */
  lemma LadderStep(add: (Ext, Ext) --> Ext, n: nat, i: nat, r0: Ext, r1: Ext)
    requires IsAddition(add) && IsPoint(r0) && IsPoint(r1) && i > 0
    ensures LadderWith(add, n, i, r0, r1)
      == LadderWith(add, n, i - 1, Rung(add, LadderBit(n, i - 1), r0, r1).0, Rung(add, LadderBit(n, i - 1), r0, r1).1)
  {
  }

  /** With a zero scalar every rung doubles R0, so an addition that keeps O + O neutral leaves R0 neutral. */
  lemma {:induction false} LadderWithZero(add: (Ext, Ext) --> Ext, i: nat, r0: Ext, r1: Ext)
    requires IsAddition(add) && IsNeutral(r0) && IsPoint(r1)
    requires forall p {:trigger add(p, p)} :: IsNeutral(p) ==> IsNeutral(add(p, p))
    ensures IsNeutral(LadderWith(add, 0, i, r0, r1).0)
    decreases i
  {
    if i > 0 {
      BitOfZero(i - 1);
      LadderStep(add, 0, i, r0, r1);
      var next := Rung(add, 0, r0, r1);
      assert next.0 == add(r0, r0);
      LadderWithZero(add, i - 1, next.0, next.1);
    }
  }

  /** 0·Q = O: with a zero scalar, R0 only ever doubles the neutral start. */
  lemma LadderOfZero(i: nat, r0: Ext, r1: Ext)
    requires IsNeutral(r0) && IsPoint(r1)
    ensures IsNeutral(Ladder(0, i, r0, r1).0)
  {
    PointAddIsAddition();
    forall p | IsNeutral(p)
      ensures IsNeutral(PointAdd(p, p))
    {
      NeutralAdd(p, p);
    }
    LadderWithZero(PointAdd, i, r0, r1);
  }

  lemma {:induction false} BitOfZero(i: nat)
    ensures LadderBit(0, i) == 0
    decreases i
  {
    if i > 0 {
      BitOfZero(i - 1);
    }
  }
}
