/**
 * The routines of ristretto255.c that work in place on limb arrays and on
 * points: pack and unpack, bytes_eq_32, fneg, is_neg, fabsolute, pow3, pow7,
 * pow2523, ge25519_addition, cswap and ristretto255_scalarmult.  Each is
 * proved to leave the value the formulas of module RistrettoMath give, so
 * the properties proved there carry over to the arrays.  A byte buffer is an
 * array of 32 ints, each below 256; a field element an array of eight 32-bit
 * limbs, as in module Curve25519.
 */
module Ristretto255 {
  import opened Limbs
  import opened Bits
  import opened Field
  import opened Curve25519
  import RistrettoMath
  import ModL

  /** A limb table of ristretto255_constants.h in an array of its own. */
  method Constant(limbs: seq<int>) returns (a: array<int>)
    requires |limbs| == 8 && IsLimbs(limbs)
    ensures fresh(a) && IsElem(a) && a[..] == limbs
  {
    a := new int[8](i => if 0 <= i < 8 then limbs[i] else 0);
  }

  // ---- bytes ----

  /**
   * pack: curve25519Red into a local copy, then each limb as four bytes,
   * least significant first.  The bytes are the canonical encoding of the
   * element the limbs hold (below p when they hold less than 2p).
   */
  method Pack(out: array<int>, inp: array<int>)
    requires out.Length == 32 && IsElem(inp)
    modifies out
    ensures IsBytes(out[..]) && ValBytes(out[..]) == RedValue(Value(old(inp[..])))
    ensures out[..] == RistrettoMath.Pack(Value(old(inp[..])))
  {
    assert inp[..8] == inp[..];
    var limbs := new int[8];
    Red(limbs, inp);
    StoreLimbs(out, limbs);
    LeBytesOfValBytes(out[..]);
  }

  /** The loop of pack: limb i as bytes 4i .. 4i + 3, least significant first. */
  method StoreLimbs(out: array<int>, limbs: array<int>)
    requires out.Length == 32 && IsElem(limbs)
    modifies out
    ensures IsBytes(out[..]) && ValBytes(out[..]) == Val(limbs[..])
  {
    var i := 0;
    while i < 8
      invariant 0 <= i <= 8
      invariant IsBytes(out[..4 * i]) && ValBytes(out[..4 * i]) == Val(limbs[..i])
    {
      ghost var before := out[..4 * i];
      var w := limbs[i];
      out[i * 4 + 3] := (w / 0x100_0000) % 0x100;
      out[i * 4 + 2] := (w / 0x1_0000) % 0x100;
      out[i * 4 + 1] := (w / 0x100) % 0x100;
      out[i * 4 + 0] := w % 0x100;
      assert out[..4 * i + 4] == before + ModL.StoreLe(w);
      ModL.AppendWord(before, ModL.StoreLe(w), limbs[..], i);
      i := i + 1;
    }
    assert out[..4 * 8] == out[..] && limbs[..8] == limbs[..];
  }

  /** unpack: limb i is bytes 4i .. 4i + 3, least significant first, so the limbs hold the number the bytes write. */
  method Unpack(out: array<int>, inp: array<int>)
    requires out.Length == 8 && inp.Length == 32 && IsBytes(inp[..])
    modifies out
    ensures IsElem(out) && Val(out[..]) == ValBytes(inp[..])
  {
    var i := 0;
    while i < 8
      invariant 0 <= i <= 8
      invariant IsLimbs(out[..i]) && Val(out[..i]) == ValBytes(inp[..4 * i])
    {
      ghost var before := out[..i];
      var b := inp[4 * i..4 * i + 4];
      ModL.FourBytes(b);
      out[i] := inp[i * 4 + 3] * 0x100_0000 + inp[i * 4 + 2] * 0x1_0000 + inp[i * 4 + 1] * 0x100 + inp[i * 4 + 0];
      assert out[i] == ModL.LoadLe(b);
      assert out[..i + 1] == before + [out[i]];
      assert inp[..4 * i + 4] == inp[..4 * i] + b;
      ModL.AppendLimb(before, out[i], inp[..4 * i], b, i);
      i := i + 1;
    }
    assert out[..8] == out[..] && inp[..4 * 8] == inp[..];
  }

  /** bytes_eq_32: 1 when the two 32-byte strings are equal, 0 otherwise. */
  method BytesEq32(a: array<int>, b: array<int>) returns (r: int)
    requires a.Length == 32 && b.Length == 32
    ensures r == 0 || r == 1
    ensures r == 1 <==> a[..] == b[..]
  {
    r := 1;
    var i := 0;
    while i < 32
      invariant 0 <= i <= 32
      invariant r == 0 || r == 1
      invariant r == 1 <==> a[..i] == b[..i]
    {
      assert a[..i + 1] == a[..i] + [a[i]] && b[..i + 1] == b[..i] + [b[i]];
      r := And(r, if a[i] == b[i] then 1 else 0, 1);
      i := i + 1;
    }
    assert a[..32] == a[..] && b[..32] == b[..];
  }

  /** Decode's canonicity test as written: pack(unpack(b)) compared with b. */
  method IsCanonical(inp: array<int>) returns (r: int)
    requires inp.Length == 32 && IsBytes(inp[..])
    ensures r == 1 <==> RistrettoMath.CanonicalAsWritten(inp[..])
  {
    var s := new int[8];
    Unpack(s, inp);
    var checked := new int[32];
    Pack(checked, s);
    r := BytesEq32(checked, inp);
  }

  // ---- signs and negation ----

  /** fneg: out = F_MODULUS - in through curve25519Sub. */
  method Neg(out: array<int>, inp: array<int>)
    requires out.Length == 8 && IsElem(inp)
    modifies out
    ensures IsElem(out) && Val(out[..]) == RistrettoMath.FNeg(Value(old(inp[..])))
  {
    var modulus := Constant(RistrettoMath.F_MODULUS_LIMBS);
    RistrettoMath.FModulusLimbs();
    Sub(out, modulus, inp);
  }

  /** is_neg: bit 0 of byte 0 of pack(in), the parity of the reduced element. */
  method IsNeg(inp: array<int>) returns (r: int)
    requires IsElem(inp)
    ensures r == RedValue(Value(inp[..])) % 2
  {
    var temp := new int[32];
    Pack(temp, inp);
    r := RistrettoMath.IsNegBytes(temp[..]);
  }

  /**
   * fabsolute: temp = in, out = fneg(temp), then out and temp swapped when
   * is_neg(in).  When out is in, as at every call site, the sign tested is
   * that of -x and the non-negative one of x and -x comes back; with two
   * buffers the sign tested is that of x, and the negative one comes back.
   */
  method Absolute(out: array<int>, inp: array<int>)
    requires out.Length == 8 && IsElem(inp)
    modifies out
    ensures IsElem(out)
    ensures out == inp ==> Val(out[..]) == RistrettoMath.Abs(Value(old(inp[..])))
    ensures out != inp ==> Val(out[..]) == RistrettoMath.AbsSeparate(Value(old(inp[..])))
  {
    ghost var x := Value(inp[..]);
    var temp := new int[8];
    assert inp[..8] == inp[..];
    Copy(temp, inp);
    assert Val(temp[..]) == x;
    Neg(out, temp);
    ghost var n := Val(out[..]);
    assert n == RistrettoMath.FNeg(x);
    var c := IsNeg(inp);
    assert c == RistrettoMath.IsNeg(if out == inp then n else x);
    Swap(out, temp, c);
  }

  // ---- the exponent chains ----

  /** pow3: pow2(out, a), then fmul(out, out, a). */
  method Pow3(out: array<int>, a: array<int>)
    requires out.Length == 8 && IsElem(a) && out != a
    modifies out
    ensures IsElem(out) && Val(out[..]) == Exp(Value(a[..]), 3) % P
  {
    Sqr(out, a);
    Mul(out, out, a);
    RistrettoMath.PowerSteps(Value(a[..]));
  }

  /** pow7: pow3, pow2 in place, then fmul by a. */
  method Pow7(out: array<int>, a: array<int>)
    requires out.Length == 8 && IsElem(a) && out != a
    modifies out
    ensures IsElem(out) && Val(out[..]) == Exp(Value(a[..]), 7) % P
  {
    Pow3(out, a);
    Sqr(out, out);
    Mul(out, out, a);
    RistrettoMath.PowerSteps(Value(a[..]));
  }

  /**
   * pow2523: c = i, then for a = 250 down to 0 one squaring and, except at
   * a = 1, one multiplication by i.  The exponent's bits are 1, then 251
   * bits all set but bit 1, so o = i^(2^252 - 3) = i^((p - 5)/8) mod p.
   */
  method Pow2523(o: array<int>, i: array<int>)
    requires o.Length == 8 && IsElem(i)
    modifies o
    ensures IsElem(o) && Val(o[..]) == Exp(Value(old(i[..])), RistrettoMath.P58) % P
  {
    ghost var x := Value(i[..]);
    var c := new int[8];
    assert i[..8] == i[..];
    Copy(c, i);
    ghost var e: nat := 1;
    var a := 250;
    while a >= 0
      invariant -1 <= a <= 250
      invariant IsElem(c) && i[..] == old(i[..])
      invariant a == 250 ==> Val(c[..]) == x
      invariant a < 250 ==> Val(c[..]) == Exp(x, e) % P
      invariant e == ChainExponent(a)
      decreases a + 1
    {
      ChainStep(Val(c[..]), x, e);
      Sqr(c, c);
      if a != 1 {
        Mul(c, c, i);
        e := 2 * e + 1;
      } else {
        e := 2 * e;
      }
      a := a - 1;
    }
    ChainEnd(a);
    assert e == RistrettoMath.P58;
    ghost var result := Val(c[..]);
    assert result == Exp(x, RistrettoMath.P58) % P;
    assert c[..8] == c[..];
    Copy(o, c);
  }

  /** The exponent pow2523 has reached when a is the next step to take: 1 before the first. */
  ghost function ChainExponent(a: int): nat
    requires -1 <= a <= 250
    decreases 250 - a
  {
    if a == 250 then 1
    else 2 * ChainExponent(a + 1) + (if a + 1 == 1 then 0 else 1)
  }

  /** Until step a = 1 every step sets one more bit: after the steps above a the exponent is 2^(251 - a) - 1. */
  lemma {:induction false} ChainOnes(a: int)
    requires 1 <= a <= 250
    ensures ChainExponent(a) + 1 == Pow(2, 251 - a)
    decreases 250 - a
  {
    if a < 250 {
      ChainOnes(a + 1);
      assert Pow(2, 251 - a) == 2 * Pow(2, 251 - (a + 1));
    }
  }

  /** After the last step the exponent is 2^252 - 3 = (p - 5) / 8. */
  lemma ChainEnd(a: int)
    requires a == -1
    ensures ChainExponent(a) == RistrettoMath.P58
  {
    ChainOnes(1);
    assert ChainExponent(a) == 4 * ChainExponent(1) + 1;
    ModL.TwoPow253();
    assert Pow(2, 253) == 8 * Pow(2, 250) by {
      PowAdd(2, 250, 3);
    }
  }

  /** One step of the chain: squaring x^e gives x^(2e), and multiplying that by x gives x^(2e + 1). */
  lemma ChainStep(v: int, x: int, e: nat)
    requires (v == x && e == 1) || v == Exp(x, e) % P
    ensures FMul(v, v) == Exp(x, 2 * e) % P
    ensures FMul(FMul(v, v), x) == Exp(x, 2 * e + 1) % P
  {
    assert Exp(x, 1) == x;
    MulMod(v, v);
    MulMod(Exp(x, e), Exp(x, e));
    ExpDouble(x, e);
    MultiplyStep(x, 2 * e);
  }

  // ---- points ----

  /** ristretto255_point: the four coordinates X, Y, Z, T, each a field element of its own. */
  class Point {
    const x: array<int>
    const y: array<int>
    const z: array<int>
    const t: array<int>

    /** Four distinct arrays of eight limbs each. */
    ghost predicate Valid()
      reads x, y, z, t
    {
      IsElem(x) && IsElem(y) && IsElem(z) && IsElem(t) &&
      x != y && x != z && x != t && y != z && y != t && z != t
    }

    /** The arrays the point is made of. */
    ghost function Repr(): set<object>
    {
      {x, y, z, t}
    }

    /** The coordinates' values. */
    ghost function Model(): (e: RistrettoMath.Ext)
      requires Valid()
      reads x, y, z, t
      ensures RistrettoMath.IsPoint(e)
    {
      RistrettoMath.Ext(Value(x[..]), Value(y[..]), Value(z[..]), Value(t[..]))
    }

    /** A point with every limb zero. */
    constructor ()
      ensures Valid() && fresh(Repr()) && Model() == RistrettoMath.Ext(0, 0, 0, 0)
    {
      x := new int[8](_ => 0);
      y := new int[8](_ => 0);
      z := new int[8](_ => 0);
      t := new int[8](_ => 0);
      new;
      SmallLimbs(x[..], 0);
      SmallLimbs(y[..], 0);
      SmallLimbs(z[..], 0);
      SmallLimbs(t[..], 0);
    }
  }

  /** Two points that share no array. */
  ghost predicate Separate(p: Point, q: Point)
  {
    p.Repr() !! q.Repr()
  }

  /** cswap: curve25519Swap on each coordinate, so p and q are exchanged when b = 1 and left as they are when b = 0. */
  method CSwap(p: Point, q: Point, b: int)
    requires p.Valid() && q.Valid() && (p == q || Separate(p, q)) && (b == 0 || b == 1)
    modifies p.Repr(), q.Repr()
    ensures p.Valid() && q.Valid()
    ensures p.Model() == if b == 1 then old(q.Model()) else old(p.Model())
    ensures q.Model() == if b == 1 then old(p.Model()) else old(q.Model())
  {
    Swap(p.x, q.x, b);
    Swap(p.y, q.y, b);
    Swap(p.z, q.z, b);
    Swap(p.t, q.t, b);
  }

  /**
   * ge25519_addition: the temporaries of the formula first, then the four
   * coordinates of r.  Every read of p and q comes before the first write to
   * r, so r may be p or q, as in ristretto255_scalarmult.
   */
  method AddPoints(r: Point, p: Point, q: Point)
    requires r.Valid() && p.Valid() && q.Valid()
    modifies r.Repr()
    ensures r.Valid()
    ensures r.Model() == RistrettoMath.PointAdd(old(p.Model()), old(q.Model()))
  {
    var temp5, temp4, temp2, temp3 := Terms(p, q);
    Products(r, temp5, temp4, temp2, temp3);
  }

  /** The temporaries of ge25519_addition: e in temp5, f in temp4, h in temp2 and g in temp3. */
  method Terms(p: Point, q: Point) returns (e: array<int>, f: array<int>, h: array<int>, g: array<int>)
    requires p.Valid() && q.Valid()
    ensures fresh(e) && fresh(f) && fresh(h) && fresh(g)
    ensures IsElem(e) && IsElem(f) && IsElem(h) && IsElem(g)
    ensures var a := FMul(FSub(p.Model().y, p.Model().x), FSub(q.Model().y, q.Model().x));
            var b := FMul(FAdd(p.Model().x, p.Model().y), FAdd(q.Model().x, q.Model().y));
            Val(h[..]) == FAdd(b, a) && Val(e[..]) == FSub(b, a)
    ensures var d := FAdd(FMul(p.Model().z, q.Model().z), FMul(p.Model().z, q.Model().z));
            var c := FMul(FMul(p.Model().t, q.Model().t), RistrettoMath.EDWARDS_D2);
            Val(f[..]) == FSub(d, c) && Val(g[..]) == FAdd(d, c)
  {
    e, f, h, g := new int[8], new int[8], new int[8], new int[8];
    FirstHalf(h, e, p, q);
    SecondHalf(f, g, p, q);
  }

  /** a = (Y1 - X1)(Y2 - X2) and b = (X1 + Y1)(X2 + Y2), then h = b + a and e = b - a. */
  method FirstHalf(h: array<int>, e: array<int>, p: Point, q: Point)
    requires p.Valid() && q.Valid() && h.Length == 8 && e.Length == 8 && h != e
    modifies h, e
    ensures IsElem(h) && IsElem(e)
    ensures var a := FMul(FSub(old(p.Model()).y, old(p.Model()).x), FSub(old(q.Model()).y, old(q.Model()).x));
            var b := FMul(FAdd(old(p.Model()).x, old(p.Model()).y), FAdd(old(q.Model()).x, old(q.Model()).y));
            Val(h[..]) == FAdd(b, a) && Val(e[..]) == FSub(b, a)
  {
    var temp1, temp3 := new int[8], new int[8];
    Sums(temp1, temp3, p, q);
    SumAndDifference(h, e, temp3, temp1);
  }

  /** d = 2·Z1·Z2 and c = T1·T2·2d, then f = d - c and g = d + c, c being kept in g's buffer. */
  method SecondHalf(f: array<int>, g: array<int>, p: Point, q: Point)
    requires p.Valid() && q.Valid() && f.Length == 8 && g.Length == 8 && f != g
    requires g !in p.Repr() && g !in q.Repr()
    modifies f, g
    ensures IsElem(f) && IsElem(g)
    ensures var d := FAdd(FMul(old(p.Model()).z, old(q.Model()).z), FMul(old(p.Model()).z, old(q.Model()).z));
            var c := FMul(FMul(old(p.Model()).t, old(q.Model()).t), RistrettoMath.EDWARDS_D2);
            Val(f[..]) == FSub(d, c) && Val(g[..]) == FAdd(d, c)
  {
    var temp1 := new int[8];
    Weights(temp1, g, p, q);
    DifferenceAndSum(f, g, temp1, g);
  }

  /** h = b + a, then e = b - a. */
  method SumAndDifference(h: array<int>, e: array<int>, b: array<int>, a: array<int>)
    requires h.Length == 8 && e.Length == 8 && IsElem(b) && IsElem(a) && h != b && h != a && h != e
    modifies h, e
    ensures IsElem(h) && Val(h[..]) == FAdd(Value(old(b[..])), Value(old(a[..])))
    ensures IsElem(e) && Val(e[..]) == FSub(Value(old(b[..])), Value(old(a[..])))
  {
    Add(h, b, a);
    Sub(e, b, a);
  }

  /** f = d - c, then g = d + c; g may be c itself. */
  method DifferenceAndSum(f: array<int>, g: array<int>, d: array<int>, c: array<int>)
    requires f.Length == 8 && g.Length == 8 && IsElem(d) && IsElem(c) && f != d && f != c && f != g
    modifies f, g
    ensures IsElem(f) && Val(f[..]) == FSub(Value(old(d[..])), Value(old(c[..])))
    ensures IsElem(g) && Val(g[..]) == FAdd(Value(old(d[..])), Value(old(c[..])))
  {
    Sub(f, d, c);
    Add(g, d, c);
  }

  /** The first half of ge25519_addition: a = (Y1 - X1)(Y2 - X2) and b = (X1 + Y1)(X2 + Y2). */
  method Sums(a: array<int>, b: array<int>, p: Point, q: Point)
    requires p.Valid() && q.Valid() && a.Length == 8 && b.Length == 8 && a != b
    requires a !in p.Repr() && a !in q.Repr() && b !in p.Repr() && b !in q.Repr()
    modifies a, b
    ensures IsElem(a) && Val(a[..]) == FMul(FSub(p.Model().y, p.Model().x), FSub(q.Model().y, q.Model().x))
    ensures IsElem(b) && Val(b[..]) == FMul(FAdd(p.Model().x, p.Model().y), FAdd(q.Model().x, q.Model().y))
  {
    var t := new int[8];
    Sub(a, p.y, p.x);
    Sub(t, q.y, q.x);
    Mul(a, a, t);
    Add(b, p.x, p.y);
    Add(t, q.x, q.y);
    Mul(b, b, t);
  }

  /** The second half of ge25519_addition: d = 2·Z1·Z2 and c = T1·T2·2d. */
  method Weights(d: array<int>, c: array<int>, p: Point, q: Point)
    requires p.Valid() && q.Valid() && d.Length == 8 && c.Length == 8 && d != c
    requires d !in p.Repr() && d !in q.Repr() && c !in p.Repr() && c !in q.Repr()
    modifies d, c
    ensures IsElem(d) && Val(d[..]) == FAdd(FMul(p.Model().z, q.Model().z), FMul(p.Model().z, q.Model().z))
    ensures IsElem(c) && Val(c[..]) == FMul(FMul(p.Model().t, q.Model().t), RistrettoMath.EDWARDS_D2)
  {
    Mul(d, p.z, q.z);
    Add(d, d, d);
    Mul(c, p.t, q.t);
    var d2 := Constant(RistrettoMath.EDWARDS_D2_LIMBS);
    RistrettoMath.EdwardsD2Limbs();
    Mul(c, c, d2);
  }

  /** The writes of ge25519_addition: X = e·f, Y = h·g, Z = g·f, T = e·h. */
  method Products(r: Point, e: array<int>, f: array<int>, h: array<int>, g: array<int>)
    requires r.Valid() && IsElem(e) && IsElem(f) && IsElem(h) && IsElem(g)
    requires e !in r.Repr() && f !in r.Repr() && h !in r.Repr() && g !in r.Repr()
    modifies r.Repr()
    ensures r.Valid()
    ensures r.Model() == RistrettoMath.Ext(FMul(Val(e[..]), Val(f[..])), FMul(Val(h[..]), Val(g[..])),
                                           FMul(Val(g[..]), Val(f[..])), FMul(Val(e[..]), Val(h[..])))
  {
    Mul(r.x, e, f);
    Mul(r.y, h, g);
    Mul(r.z, g, f);
    Mul(r.t, e, h);
  }

  /** The start of ristretto255_scalarmult: p = (0, 1, 1, 0) through fcopy of F_ZERO and F_ONE. */
  method SetNeutral(p: Point)
    requires p.Valid()
    modifies p.Repr()
    ensures p.Valid() && p.Model() == RistrettoMath.NEUTRAL
  {
    var zero := Constant([0, 0, 0, 0, 0, 0, 0, 0]);
    var one := Constant([1, 0, 0, 0, 0, 0, 0, 0]);
    assert zero[..8] == zero[..] && one[..8] == one[..];
    Copy(p.x, zero);
    Copy(p.y, one);
    Copy(p.z, one);
    Copy(p.t, zero);
    SmallLimbs(p.x[..], 0);
    SmallLimbs(p.y[..], 1);
    SmallLimbs(p.z[..], 1);
    SmallLimbs(p.t[..], 0);
  }

  /** Limbs that are v and then seven zeros, as in F_ZERO and F_ONE, hold v. */
  lemma SmallLimbs(s: seq<int>, v: int)
    requires 0 <= v < BASE && s == [v, 0, 0, 0, 0, 0, 0, 0]
    ensures IsLimbs(s) && Value(s) == v
  {
    ValOfEight(s);
  }

  /**
   * ristretto255_scalarmult: p starts as (0, 1, 1, 0); then, for bit i of s
   * from 255 down to 0, one rung.  The pair left in p and q is the one the
   * Montgomery ladder over the 256 bits of s reaches from (O, q).
   */
  method ScalarMult(p: Point, q: Point, s: array<int>)
    requires p.Valid() && q.Valid() && Separate(p, q)
    requires s.Length == 32 && IsBytes(s[..]) && s !in p.Repr() && s !in q.Repr()
    modifies p.Repr(), q.Repr()
    ensures p.Valid() && q.Valid()
    ensures 0 <= ValBytes(s[..])
    ensures (p.Model(), q.Model()) == RistrettoMath.Ladder(ValBytes(s[..]), 256, RistrettoMath.NEUTRAL, old(q.Model()))
  {
    BytesBound(s[..]);
    ghost var n: nat := ValBytes(s[..]);
    ghost var Q := q.Model();
    ghost var target := RistrettoMath.Ladder(n, 256, RistrettoMath.NEUTRAL, Q);
    SetNeutral(p);
    ghost var add := RistrettoMath.PointAdd;
    RistrettoMath.PointAddIsAddition();
    Passes(p, q, s, n, add, target);
    LadderDone(n, p.Model(), q.Model());
  }

  /**
   * add agrees with ge25519_addition on points.  The loop states the ladder
   * over add, so that only a pass, where points are added, looks into the
   * addition formula.
   */
  ghost predicate IsPointAdd(add: (RistrettoMath.Ext, RistrettoMath.Ext) --> RistrettoMath.Ext)
  {
    RistrettoMath.IsAddition(add) &&
    forall a, b {:trigger RistrettoMath.PointAdd(a, b)} :: RistrettoMath.IsPoint(a) && RistrettoMath.IsPoint(b) ==> add(a, b) == RistrettoMath.PointAdd(a, b)
  }

  /**
   * The loop of ristretto255_scalarmult: for i from 255 down to 0, one pass
   * for bit i of s.  The pair the ladder over all 256 bits reaches from the
   * start is the pair left here, with no bits to go.
   */
  method Passes(p: Point, q: Point, s: array<int>, ghost n: nat, ghost add: (RistrettoMath.Ext, RistrettoMath.Ext) --> RistrettoMath.Ext, ghost target: (RistrettoMath.Ext, RistrettoMath.Ext))
    requires p.Valid() && q.Valid() && Separate(p, q) && IsPointAdd(add)
    requires s.Length == 32 && IsBytes(s[..]) && s !in p.Repr() && s !in q.Repr() && n == ValBytes(s[..])
    requires target == RistrettoMath.LadderWith(add, n, 256, p.Model(), q.Model())
    modifies p.Repr(), q.Repr()
    ensures p.Valid() && q.Valid()
    ensures target == RistrettoMath.LadderWith(add, n, 0, p.Model(), q.Model())
  {
    var i := 255;
    while i >= 0
      invariant -1 <= i <= 255
      invariant p.Valid() && q.Valid() && s[..] == old(s[..])
      invariant target == RistrettoMath.LadderWith(add, n, i + 1, p.Model(), q.Model())
      decreases i + 1
    {
      Pass(p, q, s, i, n, add, target);
      i := i - 1;
    }
  }

  /** One pass of the loop of ristretto255_scalarmult: b is bit i of s, then one rung of the ladder. */
  method Pass(p: Point, q: Point, s: array<int>, i: int, ghost n: nat, ghost add: (RistrettoMath.Ext, RistrettoMath.Ext) --> RistrettoMath.Ext, ghost target: (RistrettoMath.Ext, RistrettoMath.Ext))
    requires p.Valid() && q.Valid() && Separate(p, q) && IsPointAdd(add)
    requires s.Length == 32 && IsBytes(s[..]) && 0 <= i < 256 && n == ValBytes(s[..])
    requires target == RistrettoMath.LadderWith(add, n, i + 1, p.Model(), q.Model())
    modifies p.Repr(), q.Repr()
    ensures p.Valid() && q.Valid()
    ensures target == RistrettoMath.LadderWith(add, n, i, p.Model(), q.Model())
  {
    var b := ModL.ScalarBit(s[..], i);
    RistrettoMath.LadderBitIsBit(n, i);
    Rung(p, q, b);
  }

  /**
   * The rung a pass of ristretto255_scalarmult climbs: cswap(p, q, b),
   * q = q + p, p = p + p, cswap(p, q, b).  Bit 1 leaves (p + q, 2q), bit 0
   * leaves (2p, p + q).
   */
  method Rung(p: Point, q: Point, b: int)
    requires p.Valid() && q.Valid() && Separate(p, q) && (b == 0 || b == 1)
    modifies p.Repr(), q.Repr()
    ensures p.Valid() && q.Valid()
    ensures p.Model() == if b == 1 then RistrettoMath.PointAdd(old(p.Model()), old(q.Model()))
                         else RistrettoMath.PointAdd(old(p.Model()), old(p.Model()))
    ensures q.Model() == if b == 1 then RistrettoMath.PointAdd(old(q.Model()), old(q.Model()))
                         else RistrettoMath.PointAdd(old(p.Model()), old(q.Model()))
  {
    ghost var r0, r1 := p.Model(), q.Model();
    CSwap(p, q, b);
    AddPoints(q, q, p);
    AddPoints(p, p, p);
    CSwap(p, q, b);
    if b == 0 {
      RistrettoMath.PointAddCommutes(r0, r1);
    }
  }

  /** With no bits left the ladder leaves its pair as it is. */
  lemma LadderDone(n: nat, r0: RistrettoMath.Ext, r1: RistrettoMath.Ext)
    requires RistrettoMath.IsPoint(r0) && RistrettoMath.IsPoint(r1)
    ensures RistrettoMath.Ladder(n, 0, r0, r1) == (r0, r1)
  {
    RistrettoMath.PointAddIsAddition();
  }
}
