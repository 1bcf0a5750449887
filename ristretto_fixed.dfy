/**
 * The ristretto255 routines as RFC 9496 defines them, where ristretto255.c
 * differs: the comparisons of inv_sqrt read feq's 0 as EQUAL (CT_EQ of the
 * RFC), decode's encoding check reduces fully modulo p, and decode rejects
 * the points whose y is zero.  Everything else is shared with RistrettoMath.
 */
module RistrettoFixed {
  import opened Limbs
  import opened Field
  import opened RistrettoMath

  /** CT_EQ: 1 when the two elements are equal, the opposite of feq. */
  function CtEq(a: int, b: int): (r: int)
    ensures r == 0 || r == 1
    ensures r == 1 <==> a == b
  {
    1 - Comp(a, b)
  }

  // ---- SQRT_RATIO_M1 (RFC 9496 section 4.2) ----

  /**
   * inv_sqrt with CT_EQ in place of feq: the flag is correct_sign_sqrt OR
   * flipped_sign_sqrt, and r is rotated by SQRT_M1 when check is -u or
   * -u·SQRT_M1.
   */
  function InvSqrt(u: int, v: int): (r: SqrtRatio)
    requires IsFelem(u) && IsFelem(v)
    ensures r.wasSquare == 0 || r.wasSquare == 1
    ensures 0 <= r.root <= P && IsNeg(r.root) == 0
  {
    Ratio(u, v, Candidate(u, v))
  }

  /** The sign checks of inv_sqrt on a candidate r2 < p. */
  function Ratio(u: int, v: int, r2: int): (r: SqrtRatio)
    requires IsFelem(u) && 0 <= r2 < P
    ensures r.wasSquare == 0 || r.wasSquare == 1
    ensures 0 <= r.root <= P && IsNeg(r.root) == 0
  {
    var check := Check(v, r2);
    var uNeg := FNeg(u);
    var correct := CtEq(check, u);
    var flipped := CtEq(check, uNeg);
    var flippedI := CtEq(check, FMul(uNeg, SQRT_M1));
    SqrtRatio(FlagOr(correct, flipped), Root(r2, FlagOr(flipped, flippedI)))
  }

  /**
   * When the flag is set the root is a square root of u/v: v·root^2 = u,
   * and it is the non-negative one.
   */
  lemma InvSqrtSquares(u: int, v: int)
    requires IsFelem(u) && IsFelem(v) && u < P
    ensures InvSqrt(u, v).wasSquare == 1 ==> Check(v, InvSqrt(u, v).root) == u
    ensures IsNeg(InvSqrt(u, v).root) == 0
  {
    RatioSquares(u, v, Candidate(u, v));
  }

  /** Whatever the candidate, a set flag means v·root^2 = u. */
  lemma RatioSquares(u: int, v: int, r2: int)
    requires 0 <= u < P && 0 <= r2 < P
    ensures Ratio(u, v, r2).wasSquare == 1 ==> Check(v, Ratio(u, v, r2).root) == u
  {
    var check := Check(v, r2);
    var uNeg := FNeg(u);
    var m := FMul(uNeg, SQRT_M1);
    var flipped := CtEq(check, uNeg);
    var rotate := FlagOr(flipped, CtEq(check, m));
    var wasSquare := FlagOr(CtEq(check, u), flipped);
    assert Ratio(u, v, r2) == SqrtRatio(wasSquare, Root(r2, rotate));
    if wasSquare == 1 {
      if rotate == 0 {
        RootPlain(v, r2);
      } else {
        RotatedCases(u, v, r2, check == uNeg);
      }
    }
  }

  /**
   * With the rotation the root squares to -check, which is u when check is
   * -u, and also when check is u and -u·SQRT_M1 at once, u being then zero.
   */
  lemma RotatedCases(u: int, v: int, r2: int, flipped: bool)
    requires 0 <= u < P && 0 <= r2 < P
    requires flipped <==> Check(v, r2) == FNeg(u)
    requires flipped || (Check(v, r2) == u && Check(v, r2) == FMul(FNeg(u), SQRT_M1))
    ensures Check(v, Root(r2, 1)) == u
  {
    ConstantFacts();
    RootRotated(v, r2, SQRT_M1);
    if flipped {
      NegOfNeg(u, Check(v, r2));
    } else {
      RotationFixesOnlyZero(u, FNeg(u));
    }
  }

  /** -(-u) = u for a reduced u. */
  lemma NegOfNeg(u: int, check: int)
    requires 0 <= u < P && check == FNeg(u)
    ensures (P - check) % P == u
  {
    ModMultiple(P - (P - u), u, 0);
  }

  /** Without the rotation the root squares back to check. */
  lemma RootPlain(v: int, r: int)
    requires 0 <= r < P
    ensures Check(v, Root(r, 0)) == Check(v, r)
  {
    var s := Root(r, 0);
    assert s == NonNegative(r);
    assert FMul(s, s) == FMul(r, r) by {
      if s != r {
        SquareOfNeg(r);
      }
    }
  }

  /** With the rotation by a square root i of -1 the root squares to -check. */
  lemma RootRotated(v: int, r: int, i: int)
    requires 0 <= r < P && i == SQRT_M1 && FMul(i, i) == P - 1
    ensures Check(v, Root(r, 1)) == (P - Check(v, r)) % P
  {
    var w := FMul(r, i);
    var s := NonNegative(w);
    assert Root(r, 1) == s;
    SquareOfNeg(w);
    assert s == w || s == P - w;
    assert FMul(s, s) == FMul(w, w);
    RotatedSquare(v, r, i);
  }

  /** (p - r)^2 = r^2 modulo p. */
  lemma SquareOfNeg(r: int)
    ensures FMul(P - r, P - r) == FMul(r, r)
  {
    assert (P - r) * (P - r) == r * r + (P - 2 * r) * P;
    ModMultiple((P - r) * (P - r), r * r, P - 2 * r);
  }

  /** (r·i)^2 = -r^2 modulo p when i^2 = -1, so v·(r·i)^2 = -(v·r^2). */
  lemma RotatedSquare(v: int, r: int, i: int)
    requires FMul(i, i) == P - 1
    ensures Check(v, FMul(r, i)) == (P - Check(v, r)) % P
  {
    var rr := r * r;
    var w := FMul(r, i);
    assert FMul(w, w) == (-rr) % P by {
      var ri, ii := r * i, i * i;
      MulMod(ri, ri);
      Rearrange(r, i);
      MulMod(rr, ii);
      assert (ri * ri) % P == ((rr % P) * (P - 1)) % P;
      MulMod(rr, P - 1);
      assert (P - 1) % P == P - 1;
      MinusOneTimes(rr);
    }
    MulModRight(v, -rr);
    assert v * -rr == -(v * rr);
    assert Check(v, w) == (-(v * rr)) % P;
    MulModRight(v, rr);
    assert Check(v, r) == (v * rr) % P;
    var x := v * rr;
    ModMultiple(P - x % P, -x, x / P + 1);
  }

  lemma Rearrange(r: int, i: int)
    ensures (r * i) * (r * i) == (r * r) * (i * i)
  {
  }

  /** x·(p - 1) = -x modulo p. */
  lemma MinusOneTimes(x: int)
    ensures (x * (P - 1)) % P == (-x) % P
  {
    assert x * (P - 1) == -x + x * P;
    ModMultiple(x * (P - 1), -x, x);
  }

  /** The inverse of 1 + SQRT_M1 modulo p. */
  const INV_ONE_PLUS_SQRT_M1: int := 19107441620975295877489206599677705955594462908448195928492385465416367517599

  /**
   * A nonzero reduced u is never -u·SQRT_M1: u = -u·i would give
   * u·(1 + i) = 0, and 1 + i has an inverse.
   */
  lemma RotationFixesOnlyZero(u: int, uNeg: int)
    requires 0 <= u < P && uNeg == FNeg(u) && FMul(uNeg, SQRT_M1) == u
    ensures u == 0
  {
    assert uNeg == P - u;
    var s, inv := SQRT_M1, INV_ONE_PLUS_SQRT_M1;
    var k := 6495377093813435969149639730571491823233096835999833659606323616940912449254;
    assert (1 + s) * inv == k * P + 1;
    var q := ((P - u) * s) / P;
    assert (P - u) * s == q * P + u;
    RotationTimesUnit(u, s, q, P);
    UnitCancel(u, s, inv, k, q, P);
    MultipleOfP(u, (s - q) * inv - u * k);
  }

  /** From (p - u)·s = q·p + u: u·(1 + s) is the multiple (s - q)·p. */
  lemma RotationTimesUnit(u: int, s: int, q: int, p: int)
    requires (p - u) * s == q * p + u
    ensures u * (1 + s) == (s - q) * p
  {
    assert u * (1 + s) == u + u * s;
    assert (p - u) * s == p * s - u * s;
    assert (s - q) * p == s * p - q * p;
  }

  /** When (1 + s)·inv = k·p + 1, a u with u·(1 + s) = (s - q)·p is a multiple of p. */
  lemma UnitCancel(u: int, s: int, inv: int, k: int, q: int, p: int)
    requires (1 + s) * inv == k * p + 1 && u * (1 + s) == (s - q) * p
    ensures u == ((s - q) * inv - u * k) * p
  {
    assert u * ((1 + s) * inv) == u * (k * p + 1);
    assert u * ((1 + s) * inv) == (u * (1 + s)) * inv;
    assert u * (k * p + 1) == u * k * p + u;
    assert (u * (1 + s)) * inv == (s - q) * p * inv;
    assert ((s - q) * inv - u * k) * p == (s - q) * p * inv - u * k * p;
  }

  lemma MultipleOfP(u: int, m: int)
    requires 0 <= u < P && u == m * P
    ensures u == 0
  {
    DivModUnique(u, P, 0, u);
    DivModUnique(u, P, m, 0);
  }

  /** SQRT_RATIO_M1(1, 1) = (TRUE, p - 1): the non-negative square root of 1 is -1, as p - 1 is even. */
  lemma InvSqrtOfOne()
    ensures InvSqrt(1, 1) == SqrtRatio(1, P - 1)
    ensures Check(1, P - 1) == 1
  {
    CandidateOfOne();
    assert InvSqrt(1, 1) == Ratio(1, 1, 1);
    RatioOfOne();
    MinusOneSquare();
    MulOne(1);
  }

  /** The candidate root for u = v = 1 is 1. */
  lemma CandidateOfOne()
    ensures Candidate(1, 1) == 1
  {
    ExpOne(3);
    ExpOne(7);
    ExpOne(P58);
    assert Pow3(1) == 1 && Pow7(1) == 1 && Pow58(1) == 1;
    MulOne(1);
  }

  /** With r2 = 1 = check = u the flag is set, nothing rotates, and 1 (odd) is replaced by p - 1. */
  lemma RatioOfOne()
    ensures Ratio(1, 1, 1) == SqrtRatio(1, P - 1)
  {
    ConstantFacts();
    MulOne(1);
    assert Check(1, 1) == 1;
    assert FNeg(1) == P - 1;
    var m := FMul(P - 1, SQRT_M1);
    assert m == P - SQRT_M1 by {
      ModMultiple((P - 1) * SQRT_M1, P - SQRT_M1, SQRT_M1 - 1);
    }
    assert CtEq(1, P - 1) == 0 && CtEq(1, m) == 0 && CtEq(1, 1) == 1;
    RootOfOne();
  }

  /** 1 is odd, so its non-negative form is p - 1. */
  lemma RootOfOne()
    ensures Root(1, 0) == P - 1
  {
    assert RedValue(1) == 1;
    assert IsNeg(1) == 1;
    assert FNeg(1) == P - 1;
  }

  // ---- decode (RFC 9496 section 4.3.1) ----

  /**
   * The intended encoding check: b is the encoding of its value fully
   * reduced modulo p.  It accepts exactly the values below p.
   */
  function Canonical(b: seq<int>): (ok: bool)
    requires |b| == 32 && IsBytes(b)
    ensures ok <==> ValBytes(b) < P
  {
    ReducedEncoding(b);
    LeBytes(ValBytes(b) % P, 32) == b
  }

  /** b re-encodes its value reduced modulo p exactly when that value is below p. */
  lemma ReducedEncoding(b: seq<int>)
    requires |b| == 32 && IsBytes(b)
    ensures LeBytes(ValBytes(b) % P, 32) == b <==> ValBytes(b) < P
  {
    BytesFit(b);
    if ValBytes(b) < P {
      LeBytesOfValBytes(b);
      assert ValBytes(b) % P == ValBytes(b);
    } else {
      ReducedDiffers(b);
    }
  }

  lemma ReducedDiffers(b: seq<int>)
    requires |b| == 32 && IsBytes(b) && ValBytes(b) >= P
    ensures LeBytes(ValBytes(b) % P, 32) != b
  {
    BytesFit(b);
    PackValue(ValBytes(b) % P);
  }

  /**
   * decode as RFC 9496 has it: an encoding of a value not below p (one
   * that is not Canonical) or of a negative value leaves
   * out untouched; otherwise the point is recovered with the intended
   * inv_sqrt and rejected when the flag is 0, t is negative or y is zero.
   */
  function Decode(b: seq<int>, out: Ext): (r: Decoded)
    requires |b| == 32 && IsBytes(b)
    ensures r.status == 0 || r.status == 1
    ensures ValBytes(b) >= P || IsNegBytes(b) == 1 ==> r == Decoded(1, out)
    ensures r.status == 0 ==> ValBytes(b) < P && ValBytes(b) % 2 == 0
    ensures r.status == 0 ==> IsPoint(r.point) && Extended(r.point) && r.point.z == 1
    ensures r.status == 0 ==> r.point.y != 0 && IsNeg(r.point.t) == 0
  {
    BytesFit(b);
    if ValBytes(b) >= P || IsNegBytes(b) == 1 then Decoded(1, out)
    else DecodeFrom(ValBytes(b))
  }

  /** What decode does once the encoding has passed its checks: recover the point and test it. */
  function DecodeFrom(s: int): (r: Decoded)
    requires IsFelem(s)
    ensures r.status == 0 || r.status == 1
    ensures r.status == 0 ==> IsPoint(r.point) && Extended(r.point) && r.point.z == 1
    ensures r.status == 0 ==> r.point.y != 0 && IsNeg(r.point.t) == 0
  {
    var sq := InvSqrt(1, DecodeRatio(s));
    var point := DecodePoint(s, sq.root);
    Decoded(Status(sq.wasSquare, point), point)
  }

  /** The three final rejections of the RFC: not a square, t negative, y zero. */
  function Status(wasSquare: int, point: Ext): (status: int)
    requires IsFelem(point.t)
    ensures status == 0 <==> wasSquare != 0 && IsNeg(point.t) == 0 && point.y != 0
    ensures status == 0 || status == 1
  {
    if wasSquare == 0 then 1
    else if IsNeg(point.t) == 1 then 1
    else if CtEq(point.y, 0) == 1 then 1
    else 0
  }

  /** The encoding of -1 (s = p - 1) gives y = 0 and is rejected. */
  lemma DecodeMinusOne(out: Ext)
    ensures IsBytes(LeBytes(P - 1, 32)) && |LeBytes(P - 1, 32)| == 32
    ensures Decode(LeBytes(P - 1, 32), out).status == 1
  {
    var b := LeBytes(P - 1, 32);
    PackValue(P - 1);
    MinusOneSquare();
    assert DecodeU1(P - 1) == 0;
    var i := InvSqrt(1, DecodeRatio(P - 1)).root;
    assert DecodePoint(P - 1, i).y == 0 by {
      var dx := FMul(i, DecodeU2(P - 1));
      MulZero(FMul(i, FMul(dx, DecodeV(P - 1))));
      assert 0 * FMul(i, FMul(dx, DecodeV(P - 1))) == 0;
    }
  }

  // ---- MAP, encode and hash_to_group with the intended inv_sqrt ----

  /** MAP with the intended inv_sqrt: s' and r replace s and c when u/v is not a square. */
  function Map(t: int): (r: Ext)
    requires IsFelem(t)
    ensures IsPoint(r) && Extended(r)
  {
    MapPoint(t, InvSqrt(MapU(t), MapV(t)))
  }

  /** encode with the intended inv_sqrt. */
  function Encode(p: Ext): (b: seq<int>)
    requires IsPoint(p)
    ensures |b| == 32 && IsBytes(b) && ValBytes(b) < P && IsNegBytes(b) == 0
  {
    var s := EncodeWith(p, InvSqrt(1, EncodeRatio(p)).root);
    EncodedSign(s);
    Pack(s)
  }

  /** hash_to_group with the intended MAP and encode. */
  function HashToGroup(h: seq<int>): (b: seq<int>)
    requires |h| == 64 && IsBytes(h)
    ensures |b| == 32 && IsBytes(b) && ValBytes(b) < P && IsNegBytes(b) == 0
    ensures b == Encode(PointAdd(Map(ValBytes(h[..32]) % TWO255), Map(ValBytes(h[32..]) % TWO255)))
  {
    var t1 := MaskTop(h[..32]);
    var t2 := MaskTop(h[32..]);
    BytesFit(t1);
    BytesFit(t2);
    Encode(PointAdd(Map(ValBytes(t1)), Map(ValBytes(t2))))
  }
}
