/**
 * The column sums of a schoolbook product, in the order Comba's method
 * accumulates them: column k is the sum of a[j]·b[k-j] over the digits of a,
 * and the columns weighted by BASE^k add up to the product of the two values.
 */
module Products {
  import opened Limbs

  /** Digit i of s, zero outside s. */
  function Digit(s: seq<int>, i: int): int
  {
    if 0 <= i < |s| then s[i] else 0
  }

  /** Column k restricted to the digits of a: the sum of a[j]·b[k-j] for j < |a|. */
  function Conv(a: seq<int>, b: seq<int>, k: int): int
    decreases |a|
  {
    if |a| == 0 then 0 else Conv(a[..|a| - 1], b, k) + a[|a| - 1] * Digit(b, k - (|a| - 1))
  }

  /** The first n columns, column k weighted by BASE^k. */
  function Columns(a: seq<int>, b: seq<int>, n: nat): int
  {
    if n == 0 then 0 else Columns(a, b, n - 1) + Conv(a, b, n - 1) * Pow(BASE, n - 1)
  }

  /** The first n columns of b shifted up by s digits. */
  function Shifted(b: seq<int>, s: nat, n: nat): int
  {
    if n == 0 then 0 else Shifted(b, s, n - 1) + Digit(b, n - 1 - s) * Pow(BASE, n - 1)
  }

  /** Extending a prefix of a by one digit adds that digit's term to the column. */
  lemma ConvStep(a: seq<int>, b: seq<int>, k: int, j: int)
    requires 0 <= j < |a|
    ensures Conv(a[..j + 1], b, k) == Conv(a[..j], b, k) + a[j] * Digit(b, k - j)
  {
    assert a[..j + 1][..j] == a[..j];
  }

  /** Digits of a below k - |b| + 1 meet only digits of b above its top: they contribute nothing. */
  lemma {:induction false} ConvLowZero(a: seq<int>, b: seq<int>, k: int, j: int)
    requires 0 <= j <= |a| && j <= k - |b| + 1
    ensures Conv(a[..j], b, k) == 0
  {
    if j > 0 {
      ConvLowZero(a, b, k, j - 1);
      ConvStep(a, b, k, j - 1);
    }
  }

  /** Digits of a above k meet only negative digit positions of b: they contribute nothing. */
  lemma {:induction false} ConvHighFull(a: seq<int>, b: seq<int>, k: int, j: int)
    requires 0 <= j <= |a| && k + 1 <= j
    ensures Conv(a[..j], b, k) == Conv(a, b, k)
    decreases |a| - j
  {
    if j < |a| {
      ConvStep(a, b, k, j);
      ConvHighFull(a, b, k, j + 1);
    } else {
      assert a[..j] == a;
    }
  }

  /** Splitting off the top digit x of a splits every column sum into the rest plus x times b shifted. */
  lemma {:induction false} ColumnsSplit(a: seq<int>, b: seq<int>, n: nat)
    requires |a| > 0
    ensures Columns(a, b, n) == Columns(a[..|a| - 1], b, n) + a[|a| - 1] * Shifted(b, |a| - 1, n)
  {
    if n > 0 {
      var m := |a| - 1;
      var x, w, d := a[m], Pow(BASE, n - 1), Digit(b, n - 1 - m);
      var k := Conv(a[..m], b, n - 1);
      ColumnsSplit(a, b, n - 1);
      assert Conv(a, b, n - 1) == k + x * d;
      assert Columns(a, b, n) == Columns(a, b, n - 1) + (k + x * d) * w;
      assert Columns(a[..m], b, n) == Columns(a[..m], b, n - 1) + k * w;
      assert Shifted(b, m, n) == Shifted(b, m, n - 1) + d * w;
      SplitStep(Columns(a, b, n - 1), Columns(a[..m], b, n - 1), Shifted(b, m, n - 1), k, x, d, w);
    }
  }

  lemma SplitStep(c: int, c1: int, sh: int, k: int, x: int, d: int, w: int)
    requires c == c1 + x * sh
    ensures c + (k + x * d) * w == c1 + k * w + x * (sh + d * w)
  {
  }

  function Clip(n: nat, s: nat, len: nat): nat
  {
    if n <= s then 0 else if n - s >= len then len else n - s
  }

  lemma {:induction false} ShiftedPrefix(b: seq<int>, s: nat, n: nat)
    ensures Shifted(b, s, n) == Pow(BASE, s) * Val(b[..Clip(n, s, |b|)])
  {
    if n == 0 {
      assert b[..0] == [];
    } else {
      ShiftedPrefix(b, s, n - 1);
      if n - 1 < s || n - 1 - s >= |b| {
        assert Digit(b, n - 1 - s) == 0;
        assert Clip(n, s, |b|) == Clip(n - 1, s, |b|);
      } else {
        var i := n - 1 - s;
        assert Clip(n - 1, s, |b|) == i && Clip(n, s, |b|) == i + 1;
        var w, u, v, d := Pow(BASE, s), Pow(BASE, i), Val(b[..i]), b[i];
        assert Shifted(b, s, n) == w * v + d * Pow(BASE, n - 1);
        PowAdd(BASE, s, i);
        assert Pow(BASE, n - 1) == w * u;
        EvalPrefix(b, i, BASE);
        assert Val(b[..i + 1]) == v + d * u;
        Distribute(w, v, d, u);
      }
    }
  }

  lemma ShiftedValue(b: seq<int>, s: nat, n: nat)
    requires s + |b| <= n
    ensures Shifted(b, s, n) == Pow(BASE, s) * Val(b)
  {
    ShiftedPrefix(b, s, n);
    assert b[..|b|] == b;
  }

  /**
   * Once n reaches |a| + |b| - 1 columns, the weighted column sums are exactly
   * the product of the two values.
   */
  lemma {:induction false} ColumnsProduct(a: seq<int>, b: seq<int>, n: nat)
    requires |a| + |b| <= n + 1
    ensures Columns(a, b, n) == Val(a) * Val(b)
    decreases |a|
  {
    if |a| == 0 {
      ColumnsEmpty(a, b, n);
    } else {
      var m := |a| - 1;
      var x, e, w, vb := a[m], Val(a[..m]), Pow(BASE, m), Val(b);
      ColumnsSplit(a, b, n);
      ColumnsProduct(a[..m], b, n);
      ShiftedValue(b, m, n);
      assert Columns(a, b, n) == e * vb + x * (w * vb);
      EvalPrefix(a, m, BASE);
      assert a[..m + 1] == a;
      assert Val(a) == e + x * w;
      Factor(e, x, w, vb);
    }
  }

  lemma Factor(e: int, d: int, p: int, w: int)
    ensures e * w + d * (p * w) == (e + d * p) * w
  {
  }

  lemma {:induction false} ColumnsEmpty(a: seq<int>, b: seq<int>, n: nat)
    requires |a| == 0
    ensures Columns(a, b, n) == 0
  {
    if n > 0 {
      ColumnsEmpty(a, b, n - 1);
    }
  }
}
