/**
 * Positional notation shared by the field, scalar and encoding code: a
 * sequence of digits in a given radix, least significant first.  Eight
 * 32-bit limbs (radix 2^32) hold a field element or a scalar; 32 bytes
 * (radix 256) hold its little-endian wire encoding.
 */
module Limbs {
  const BASE: int := 0x1_0000_0000
  const TWO224: int := 0x1_0000_0000_0000_0000_0000_0000_0000_0000_0000_0000_0000_0000_0000_0000
  const TWO255: int := 0x8000_0000_0000_0000_0000_0000_0000_0000_0000_0000_0000_0000_0000_0000_0000_0000
  const TWO256: int := 0x1_0000_0000_0000_0000_0000_0000_0000_0000_0000_0000_0000_0000_0000_0000_0000_0000

  function Pow(b: nat, n: nat): nat
  {
    if n == 0 then 1 else b * Pow(b, n - 1)
  }

  /** Every entry is a uint32_t value. */
  predicate IsLimbs(s: seq<int>)
  {
    IsDigits(s, BASE)
  }

  /** Every entry is a uint8_t value. */
  predicate IsBytes(s: seq<int>)
  {
    IsDigits(s, 256)
  }

  predicate IsDigits(s: seq<int>, radix: nat)
  {
    forall i :: 0 <= i < |s| ==> 0 <= s[i] < radix
  }

  /** The number written by the digits s, least significant first. */
  function Eval(s: seq<int>, radix: nat): int
  {
    if |s| == 0 then 0 else Eval(s[..|s| - 1], radix) + s[|s| - 1] * Pow(radix, |s| - 1)
  }

  /** value(limbs) = sum of limbs[i] * 2^(32 i). */
  function Val(s: seq<int>): int
  {
    Eval(s, BASE)
  }

  /** The little-endian value of a byte string. */
  function ValBytes(s: seq<int>): int
  {
    Eval(s, 256)
  }

  /** The n-byte little-endian encoding of v mod 256^n. */
  function LeBytes(v: int, n: nat): (r: seq<int>)
    ensures |r| == n
    decreases n
  {
    if n == 0 then [] else [v % 256] + LeBytes(v / 256, n - 1)
  }

  // ---- integer arithmetic facts used by every carry loop ----

  lemma MulLe(a: int, b: int, c: int)
    requires a <= b && c >= 0
    ensures a * c <= b * c
  {
  }

  /** Quotient and remainder are unique. */
  lemma DivModUnique(x: int, d: int, q: int, r: int)
    requires d > 0 && 0 <= r < d && x == q * d + r
    ensures x / d == q && x % d == r
  {
    var k := q - x / d;
    assert k * d == x % d - r;
    if k > 0 {
      MulLe(1, k, d);
    }
    if k < 0 {
      MulLe(k, -1, d);
    }
  }

  /** One more digit d below radix keeps a value e below w under radix * w. */
  lemma DigitStep(e: int, d: int, w: int, radix: nat)
    requires 0 <= e < w && 0 <= d < radix
    ensures 0 <= e + d * w < radix * w
  {
    MulLe(d, radix - 1, w);
    MulLe(0, d, w);
  }

  /** A value below w plus a multiple of w determines both parts. */
  lemma DigitUnique(e1: int, d1: int, e2: int, d2: int, w: int)
    requires 0 <= e1 < w && 0 <= e2 < w && e1 + d1 * w == e2 + d2 * w
    ensures d1 == d2 && e1 == e2
  {
    DivModUnique(e1 + d1 * w, w, d1, e1);
    DivModUnique(e2 + d2 * w, w, d2, e2);
  }

  /** v mod (w * m) splits into v mod w plus the next digit. */
  lemma ModSplit(v: int, w: int, m: int)
    requires v >= 0 && w > 0 && m > 0
    ensures v % (w * m) == v % w + ((v / w) % m) * w
  {
    var q := v / w;
    var t := q / m;
    assert v == q * w + v % w;
    assert q == t * m + q % m;
    assert q * w == t * (w * m) + (q % m) * w;
    DigitStep(v % w, q % m, w, m);
    assert m * w == w * m;
    DivModUnique(v, w * m, t, (q % m) * w + v % w);
  }

  /** The carry step of every limb loop: t = (t mod w) + w * (t div w). */
  lemma CarryStep(t: int, d: int, w: int)
    requires d > 0
    ensures (t % d) * w + (t / d) * (d * w) == t * w
  {
    assert t == (t / d) * d + t % d;
    assert t * w == ((t / d) * d) * w + (t % d) * w;
  }

  // ---- powers ----

  lemma {:induction false} PowPositive(b: nat, n: nat)
    requires b > 0
    ensures Pow(b, n) > 0
  {
    if n > 0 {
      PowPositive(b, n - 1);
    }
  }

  lemma {:induction false} PowAdd(b: nat, m: nat, n: nat)
    ensures Pow(b, m + n) == Pow(b, m) * Pow(b, n)
  {
    if n > 0 {
      PowAdd(b, m, n - 1);
      assert Pow(b, m + n) == b * Pow(b, m + n - 1);
      assert Pow(b, n) == b * Pow(b, n - 1);
      MulSwap(b, Pow(b, m), Pow(b, n - 1));
    }
  }

  lemma MulSwap(a: int, b: int, c: int)
    ensures a * (b * c) == b * (a * c)
  {
  }

  lemma {:induction false} PowMonotone(b: nat, m: nat, n: nat)
    requires b > 0 && m <= n
    ensures Pow(b, m) <= Pow(b, n)
  {
    if m < n {
      PowMonotone(b, m, n - 1);
      PowPositive(b, n - 1);
      MulLe(1, b, Pow(b, n - 1));
    }
  }

  /** Four bytes make one limb: 256^(4 i) == (2^32)^i. */
  lemma {:induction false} BytePowIsLimbPow(i: nat)
    ensures Pow(256, 4 * i) == Pow(BASE, i)
  {
    if i > 0 {
      BytePowIsLimbPow(i - 1);
      PowAdd(256, 4 * (i - 1), 4);
      assert Pow(256, 1) == 256;
      assert Pow(256, 2) == 0x1_0000;
      assert Pow(256, 3) == 0x100_0000;
      assert Pow(256, 4) == BASE;
    }
  }

  /** The weights of the eight limbs, as numbers. */
  lemma LimbWeights()
    ensures Pow(BASE, 1) == BASE
    ensures Pow(BASE, 2) == 0x1_0000_0000_0000_0000
    ensures Pow(BASE, 3) == 0x1_0000_0000_0000_0000_0000_0000
    ensures Pow(BASE, 4) == 0x1_0000_0000_0000_0000_0000_0000_0000_0000
    ensures Pow(BASE, 5) == 0x1_0000_0000_0000_0000_0000_0000_0000_0000_0000_0000
    ensures Pow(BASE, 6) == 0x1_0000_0000_0000_0000_0000_0000_0000_0000_0000_0000_0000_0000
    ensures Pow(BASE, 7) == TWO224
    ensures Pow(BASE, 8) == TWO256
  {
    assert Pow(BASE, 1) == BASE * Pow(BASE, 0);
    assert Pow(BASE, 2) == BASE * Pow(BASE, 1);
    assert Pow(BASE, 3) == BASE * Pow(BASE, 2);
    assert Pow(BASE, 4) == BASE * Pow(BASE, 3);
    assert Pow(BASE, 5) == BASE * Pow(BASE, 4);
    assert Pow(BASE, 6) == BASE * Pow(BASE, 5);
    assert Pow(BASE, 7) == BASE * Pow(BASE, 6);
    assert Pow(BASE, 8) == BASE * Pow(BASE, 7);
  }

  // ---- positional values ----

  lemma EvalPrefix(s: seq<int>, i: int, radix: nat)
    requires 0 <= i < |s|
    ensures Eval(s[..i + 1], radix) == Eval(s[..i], radix) + s[i] * Pow(radix, i)
  {
    assert s[..i + 1][..i] == s[..i];
  }

  lemma {:induction false} EvalBound(s: seq<int>, radix: nat)
    requires radix > 1 && IsDigits(s, radix)
    ensures 0 <= Eval(s, radix) < Pow(radix, |s|)
  {
    if |s| > 0 {
      var n := |s| - 1;
      EvalBound(s[..n], radix);
      DigitStep(Eval(s[..n], radix), s[n], Pow(radix, n), radix);
    }
  }

  lemma LimbsBound(s: seq<int>)
    requires IsLimbs(s)
    ensures 0 <= Val(s) < Pow(BASE, |s|)
  {
    EvalBound(s, BASE);
  }

  lemma BytesBound(s: seq<int>)
    requires IsBytes(s)
    ensures 0 <= ValBytes(s) < Pow(256, |s|)
  {
    EvalBound(s, 256);
  }

  lemma {:induction false} EvalAppend(a: seq<int>, b: seq<int>, radix: nat)
    ensures Eval(a + b, radix) == Eval(a, radix) + Pow(radix, |a|) * Eval(b, radix)
    decreases |b|
  {
    if |b| == 0 {
      assert a + b == a;
    } else {
      var n := |b| - 1;
      assert (a + b)[..|a + b| - 1] == a + b[..n];
      EvalAppend(a, b[..n], radix);
      PowAdd(radix, |a|, n);
      Distribute(Pow(radix, |a|), Eval(b[..n], radix), b[n], Pow(radix, n));
    }
  }

  lemma Distribute(w: int, e: int, d: int, p: int)
    ensures w * (e + d * p) == w * e + d * (w * p)
  {
  }

  /** Splitting digits at k splits the value at radix^k. */
  lemma EvalSplit(s: seq<int>, k: int, radix: nat)
    requires 0 <= k <= |s|
    ensures Eval(s, radix) == Eval(s[..k], radix) + Pow(radix, k) * Eval(s[k..], radix)
  {
    assert s == s[..k] + s[k..];
    EvalAppend(s[..k], s[k..], radix);
  }

  /** Two digit strings of one length with the same value are equal. */
  lemma {:induction false} EvalInjective(a: seq<int>, b: seq<int>, radix: nat)
    requires radix > 1 && |a| == |b| && IsDigits(a, radix) && IsDigits(b, radix)
    requires Eval(a, radix) == Eval(b, radix)
    ensures a == b
  {
    if |a| > 0 {
      var n := |a| - 1;
      EvalBound(a[..n], radix);
      EvalBound(b[..n], radix);
      DigitUnique(Eval(a[..n], radix), a[n], Eval(b[..n], radix), b[n], Pow(radix, n));
      EvalInjective(a[..n], b[..n], radix);
      assert a == a[..n] + [a[n]] && b == b[..n] + [b[n]];
    }
  }

  /** The encoding of v has v mod 256^n as its value. */
  lemma {:induction false} LeBytesValue(v: int, n: nat)
    requires v >= 0
    ensures IsBytes(LeBytes(v, n))
    ensures Pow(256, n) > 0 && ValBytes(LeBytes(v, n)) == v % Pow(256, n)
  {
    PowPositive(256, n);
    if n > 0 {
      var rest := LeBytes(v / 256, n - 1);
      LeBytesValue(v / 256, n - 1);
      EvalAppend([v % 256], rest, 256);
      assert Eval([v % 256], 256) == v % 256 by {
        assert [v % 256][..0] == [];
      }
      ModSplit(v, 256, Pow(256, n - 1));
    }
  }

  /** Decoding then re-encoding a byte string gives it back. */
  lemma LeBytesOfValBytes(s: seq<int>)
    requires IsBytes(s)
    ensures LeBytes(ValBytes(s), |s|) == s
  {
    var v := ValBytes(s);
    BytesBound(s);
    LeBytesValue(v, |s|);
    DivModUnique(v, Pow(256, |s|), 0, v);
    EvalInjective(LeBytes(v, |s|), s, 256);
  }

  /** Four consecutive bytes of a little-endian string make one limb. */
  lemma BytesOfLimb(s: seq<int>, i: nat)
    requires 4 * i + 4 <= |s|
    ensures ValBytes(s[..4 * i + 4])
         == ValBytes(s[..4 * i])
          + (s[4 * i] + 0x100 * s[4 * i + 1] + 0x1_0000 * s[4 * i + 2] + 0x100_0000 * s[4 * i + 3]) * Pow(BASE, i)
  {
    var k := 4 * i;
    var w := Pow(256, k);
    var e := ValBytes(s[..k]);
    EvalPrefix(s, k, 256);
    EvalPrefix(s, k + 1, 256);
    EvalPrefix(s, k + 2, 256);
    EvalPrefix(s, k + 3, 256);
    ByteWeights(k);
    assert ValBytes(s[..k + 4]) == e + s[k] * w + s[k + 1] * (0x100 * w) + s[k + 2] * (0x1_0000 * w) + s[k + 3] * (0x100_0000 * w);
    FourTerms(s[k], s[k + 1], s[k + 2], s[k + 3], w);
    BytePowIsLimbPow(i);
  }

  lemma ByteWeights(k: nat)
    ensures Pow(256, k + 1) == 0x100 * Pow(256, k)
    ensures Pow(256, k + 2) == 0x1_0000 * Pow(256, k)
    ensures Pow(256, k + 3) == 0x100_0000 * Pow(256, k)
  {
    assert Pow(256, k + 2) == 256 * Pow(256, k + 1);
    assert Pow(256, k + 3) == 256 * Pow(256, k + 2);
  }

  lemma FourTerms(b0: int, b1: int, b2: int, b3: int, w: int)
    ensures b0 * w + b1 * (0x100 * w) + b2 * (0x1_0000 * w) + b3 * (0x100_0000 * w)
         == (b0 + 0x100 * b1 + 0x1_0000 * b2 + 0x100_0000 * b3) * w
  {
  }

  /**
   * One step of a carry loop: writing t mod 2^32 as limb i and carrying t / 2^32
   * keeps "limbs written so far + carry at weight i" equal to the old total plus t.
   */
  lemma LimbStep(s: seq<int>, i: nat, t: int)
    requires |s| == i + 1 && s[i] == t % BASE
    ensures Val(s) + (t / BASE) * Pow(BASE, i + 1) == Val(s[..i]) + t * Pow(BASE, i)
  {
    EvalPrefix(s, i, BASE);
    assert s[..i + 1] == s;
    CarryStep(t, BASE, Pow(BASE, i));
  }

  /** LimbStep for a running total: adding d to the carry at limb i adds d at weight i. */
  lemma Accumulate(s: seq<int>, i: nat, temp: int, d: int, x: int)
    requires |s| == i + 1 && s[i] == (temp + d) % BASE
    requires Val(s[..i]) + temp * Pow(BASE, i) == x
    ensures Val(s) + ((temp + d) / BASE) * Pow(BASE, i + 1) == x + d * Pow(BASE, i)
  {
    LimbStep(s, i, temp + d);
    var w := Pow(BASE, i);
    assert (temp + d) * w == temp * w + d * w;
  }

  /** The end of a carry loop over eight limbs: the carry left over is the quotient by 2^256. */
  lemma FinalCarry(s: seq<int>, temp: int, x: int)
    requires |s| == 8 && IsLimbs(s)
    requires Val(s) + temp * Pow(BASE, 8) == x
    ensures Val(s) == x % TWO256 && temp == x / TWO256
  {
    LimbsBound(s);
    LimbWeights();
    DivModUnique(x, TWO256, temp, Val(s));
  }

  /** Extending two prefixes by one limb each. */
  lemma PrefixPair(a: seq<int>, b: seq<int>, i: nat)
    requires i < |a| && i < |b|
    ensures Val(a[..i + 1]) + Val(b[..i + 1]) == Val(a[..i]) + Val(b[..i]) + (a[i] + b[i]) * Pow(BASE, i)
    ensures Val(a[..i + 1]) - Val(b[..i + 1]) == Val(a[..i]) - Val(b[..i]) + (a[i] - b[i]) * Pow(BASE, i)
  {
    EvalPrefix(a, i, BASE);
    EvalPrefix(b, i, BASE);
  }

  /** The value of eight limbs, with the weights written out. */
  lemma ValOfEight(s: seq<int>)
    requires |s| == 8
    ensures Val(s) == s[0] + s[1] * BASE + s[2] * 0x1_0000_0000_0000_0000
                    + s[3] * 0x1_0000_0000_0000_0000_0000_0000
                    + s[4] * 0x1_0000_0000_0000_0000_0000_0000_0000_0000
                    + s[5] * 0x1_0000_0000_0000_0000_0000_0000_0000_0000_0000_0000
                    + s[6] * 0x1_0000_0000_0000_0000_0000_0000_0000_0000_0000_0000_0000_0000
                    + s[7] * TWO224
  {
    LimbWeights();
    assert Pow(BASE, 0) == 1;
    EvalPrefix(s, 0, BASE);
    EvalPrefix(s, 1, BASE);
    EvalPrefix(s, 2, BASE);
    EvalPrefix(s, 3, BASE);
    EvalPrefix(s, 4, BASE);
    EvalPrefix(s, 5, BASE);
    EvalPrefix(s, 6, BASE);
    EvalPrefix(s, 7, BASE);
    assert s[..8] == s;
  }

  lemma DivAddMultiple(x: int, a: int, k: int)
    requires a > 0
    ensures (x + a * k) / a == x / a + k
  {
    DivModUnique(x + a * k, a, x / a + k, x % a);
  }

  /** (x + a * k) % a = x % a. */
  lemma ModAddMultiple(x: int, a: int, k: int)
    requires a > 0
    ensures (x + a * k) % a == x % a
  {
    DivModUnique(x + a * k, a, x / a + k, x % a);
  }
}
