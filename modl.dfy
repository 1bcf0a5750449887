/**
 * Arithmetic modulo the group order L = 2^252 + 27742317777372353535851937790883648493
 * as modl.c computes it on eight 32-bit limbs: the schoolbook product, the
 * conditional subtraction of L, Barrett's full reduction of a 512-bit value,
 * Montgomery's reduction, and the two exponentiation chains that compute the
 * inverse in^(L-2) mod L.  Read-only operands are passed as sequences; in the
 * C code they are arrays the routine only reads, or arrays it reads at limb i
 * before writing limb i, so a snapshot of their contents behaves the same.
 */
module ModL {
  import opened Limbs
  import opened Bits
  import opened Field

  const L: int := 0x1000_0000_0000_0000_0000_0000_0000_0000_14de_f9de_a2f7_9cd6_5812_631a_5cf5_d3ed
  const TWO512: int := TWO256 * TWO256

  /** The limbs of L. */
  const L_LIMBS: seq<int> := [0x5cf5d3ed, 0x5812631a, 0xa2f79cd6, 0x14def9de, 0, 0, 0, 0x10000000]

  /** Barrett's constant floor(2^512 / L), nine limbs. */
  const BARRETT_LIMBS: seq<int> :=
    [0x0a2c131b, 0xed9ce5a3, 0x086329a7, 0x2106215d, 0xffffffeb, 0xffffffff, 0xffffffff, 0xffffffff, 0xf]
  const BARRETT: int := 0xf_ffff_ffff_ffff_ffff_ffff_ffff_ffff_ffeb_2106_215d_0863_29a7_ed9c_e5a3_0a2c_131b

  /** Montgomery's constant k with k * L = -1 (mod 2^256). */
  const MONT_K_LIMBS: seq<int> :=
    [0x12547e1b, 0xd2b51da3, 0xfdba84ff, 0xb1a206f2, 0xffa36bea, 0x14e75438, 0x6fe91836, 0x9db6c6f2]
  const MONT_K: int := 0x9db6_c6f2_6fe9_1836_14e7_5438_ffa3_6bea_b1a2_06f2_fdba_84ff_d2b5_1da3_1254_7e1b

  /** One in Montgomery form: 2^256 mod L. */
  const MONT_ONE_LIMBS: seq<int> :=
    [0x8d98951d, 0xd6ec3174, 0x737dcf70, 0xc6ef5bf4, 0xfffffffe, 0xffffffff, 0xffffffff, 0x0fffffff]
  const MONT_ONE: int := 0xfff_ffff_ffff_ffff_ffff_ffff_ffff_fffe_c6ef_5bf4_737d_cf70_d6ec_3174_8d98_951d

  /** The inverse of 2^256 modulo L; it appears only in proofs. */
  const MONT_R_INV: int := 4458503529701987551646482192314240623644693141688353256590997718326214331684

  /** The exponent L - 2 as 32 little-endian bytes. */
  const LM2: seq<int> := [
    0xeb, 0xd3, 0xf5, 0x5c, 0x1a, 0x63, 0x12, 0x58,
    0xd6, 0x9c, 0xf7, 0xa2, 0xde, 0xf9, 0xde, 0x14,
    0x00, 0x00, 0x00, 0x00, 0x00, 0x00, 0x00, 0x00,
    0x00, 0x00, 0x00, 0x00, 0x00, 0x00, 0x00, 0x10]

  /** Which of the two inverse chains config.h selects. */
  datatype Reduction = Barrett | Montgomery

  // ---- the constants ----

  lemma LimbConstants()
    ensures IsLimbs(L_LIMBS) && Val(L_LIMBS) == L
    ensures IsLimbs(BARRETT_LIMBS) && Val(BARRETT_LIMBS) == BARRETT
    ensures IsLimbs(MONT_K_LIMBS) && Val(MONT_K_LIMBS) == MONT_K
    ensures IsLimbs(MONT_ONE_LIMBS) && Val(MONT_ONE_LIMBS) == MONT_ONE
  {
    ValOfEight(L_LIMBS);
    ValOfEight(MONT_K_LIMBS);
    ValOfEight(MONT_ONE_LIMBS);
    ValOfEight(BARRETT_LIMBS[..8]);
    LimbWeights();
    EvalPrefix(BARRETT_LIMBS, 8, BASE);
    assert BARRETT_LIMBS[..9] == BARRETT_LIMBS;
  }

  /** The facts about the constants that the reductions rely on. */
  lemma ScalarConstants()
    ensures 0 < L && 2 * L < TWO256 && TWO512 == TWO256 * TWO256
    ensures BARRETT == TWO512 / L
    ensures (MONT_K * L + 1) % TWO256 == 0
    ensures MONT_ONE == TWO256 % L
    ensures (TWO256 * MONT_R_INV) % L == 1
  {
  }

  lemma ExponentConstant()
    ensures IsBytes(LM2) && ValBytes(LM2) == L - 2
  {
    var w := [0x5cf5d3eb, 0x5812631a, 0xa2f79cd6, 0x14def9de, 0, 0, 0, 0x10000000];
    ExponentBytes();
    ExponentLimbs(w);
    BytesAsLimbs(LM2, w, 8);
    ValOfEight(w);
  }

  lemma ExponentBytes()
    ensures IsBytes(LM2)
  {
  }

  lemma ExponentLimbs(w: seq<int>)
    requires w == [0x5cf5d3eb, 0x5812631a, 0xa2f79cd6, 0x14def9de, 0, 0, 0, 0x10000000]
    ensures forall i :: 0 <= i < 8 ==> w[i] == LM2[4 * i] + 0x100 * LM2[4 * i + 1] + 0x1_0000 * LM2[4 * i + 2] + 0x100_0000 * LM2[4 * i + 3]
  {
  }

  /** Four bytes read little-endian per limb: the byte string and the limbs have the same value. */
  lemma {:induction false} BytesAsLimbs(s: seq<int>, w: seq<int>, n: nat)
    requires |s| == 4 * n && |w| == n
    requires forall i :: 0 <= i < n ==> w[i] == s[4 * i] + 0x100 * s[4 * i + 1] + 0x1_0000 * s[4 * i + 2] + 0x100_0000 * s[4 * i + 3]
    ensures ValBytes(s) == Val(w)
  {
    if n > 0 {
      var s', w' := s[..4 * (n - 1)], w[..n - 1];
      BytesAsLimbs(s', w', n - 1);
      BytesOfLimb(s, n - 1);
      assert s[..4 * (n - 1) + 4] == s;
      EvalPrefix(w, n - 1, BASE);
      assert w[..n] == w;
      assert ValBytes(s) == Val(w') + w[n - 1] * Pow(BASE, n - 1);
    }
  }

  // ---- byte order (store32_le, load32_le and their buffer loops) ----

  /** store32_le: a word as four bytes, least significant first. */
  function StoreLe(w: int): (b: seq<int>)
    requires IsWord(w)
    ensures |b| == 4 && IsBytes(b) && ValBytes(b) == w
  {
    var b := [w % 0x100, (w / 0x100) % 0x100, (w / 0x1_0000) % 0x100, (w / 0x100_0000) % 0x100];
    WordBytes(w);
    FourBytes(b);
    b
  }

  /**
   * load32_le: four bytes, least significant first, as one word.  The shifted
   * bytes occupy disjoint bits, so or-ing them is adding them.
   */
  function LoadLe(b: seq<int>): (w: int)
    requires |b| == 4 && IsBytes(b)
    ensures IsWord(w) && w == ValBytes(b)
  {
    FourBytes(b);
    b[0] + 0x100 * b[1] + 0x1_0000 * b[2] + 0x100_0000 * b[3]
  }

  lemma FourBytes(b: seq<int>)
    requires |b| == 4
    ensures ValBytes(b) == b[0] + 0x100 * b[1] + 0x1_0000 * b[2] + 0x100_0000 * b[3]
  {
    BytesOfLimb(b, 0);
    assert b[..4] == b && b[..0] == [];
    assert Pow(BASE, 0) == 1;
  }

  /** A word is the sum of its four bytes at their weights. */
  lemma WordBytes(w: int)
    requires IsWord(w)
    ensures w == w % 0x100 + 0x100 * ((w / 0x100) % 0x100) + 0x1_0000 * ((w / 0x1_0000) % 0x100) + 0x100_0000 * ((w / 0x100_0000) % 0x100)
  {
    var q1 := w / 0x100;
    var q2 := q1 / 0x100;
    var q3 := q2 / 0x100;
    DivDiv(w, 0x100, 0x100);
    DivDiv(w, 0x1_0000, 0x100);
    assert w / 0x1_0000 == q2 && w / 0x100_0000 == q3;
    assert q3 < 0x100;
  }

  /** Storing a word and loading it back gives the word; loading four bytes and storing the word gives the bytes. */
  lemma LoadStore(w: int, b: seq<int>)
    requires IsWord(w) && |b| == 4 && IsBytes(b)
    ensures LoadLe(StoreLe(w)) == w
    ensures StoreLe(LoadLe(b)) == b
  {
    EvalInjective(StoreLe(LoadLe(b)), b, 256);
  }

  /** store32_le_buf: the limbs of src, each as four little-endian bytes, fill dst. */
  method StoreLeBuf(dst: array<int>, src: seq<int>)
    requires IsLimbs(src) && dst.Length == 4 * |src|
    modifies dst
    ensures dst[..] == LeBytes(Val(src), 4 * |src|)
  {
    var i := 0;
    while i < |src|
      invariant 0 <= i <= |src|
      invariant IsBytes(dst[..4 * i]) && ValBytes(dst[..4 * i]) == Val(src[..i])
    {
      ghost var before := dst[..4 * i];
      var b := StoreLe(src[i]);
      dst[4 * i] := b[0];
      dst[4 * i + 1] := b[1];
      dst[4 * i + 2] := b[2];
      dst[4 * i + 3] := b[3];
      assert dst[..4 * i + 4] == before + b;
      AppendWord(before, b, src, i);
      i := i + 1;
    }
    assert dst[..4 * |src|] == dst[..] && src[..|src|] == src;
    LeBytesOfValBytes(dst[..]);
  }

  lemma AppendWord(before: seq<int>, b: seq<int>, src: seq<int>, i: nat)
    requires i < |src| && |before| == 4 * i && IsBytes(before) && ValBytes(before) == Val(src[..i])
    requires |b| == 4 && IsBytes(b) && ValBytes(b) == src[i]
    ensures IsBytes(before + b) && ValBytes(before + b) == Val(src[..i + 1])
  {
    EvalAppend(before, b, 256);
    BytePowIsLimbPow(i);
    EvalPrefix(src, i, BASE);
  }

  /** load32_le_buf: n words, each read from four little-endian bytes of src, fill dst[off..off + n]. */
  method LoadLeBuf(dst: array<int>, off: nat, src: seq<int>, n: nat)
    requires IsBytes(src) && |src| == 4 * n && off + n <= dst.Length
    modifies dst
    ensures dst[..off] == old(dst[..off]) && dst[off + n..] == old(dst[off + n..])
    ensures IsLimbs(dst[off..off + n]) && Val(dst[off..off + n]) == ValBytes(src)
  {
    var i := 0;
    while i < n
      invariant 0 <= i <= n
      invariant forall k :: 0 <= k < dst.Length && !(off <= k < off + i) ==> dst[k] == old(dst[k])
      invariant IsLimbs(dst[off..off + i]) && Val(dst[off..off + i]) == ValBytes(src[..4 * i])
    {
      ghost var before := dst[off..off + i];
      var b := src[4 * i..4 * i + 4];
      var w := LoadLe(b);
      dst[off + i] := w;
      assert dst[off..off + i + 1] == before + [w];
      assert src[..4 * i + 4] == src[..4 * i] + b;
      AppendLimb(before, w, src[..4 * i], b, i);
      i := i + 1;
    }
    assert src[..4 * n] == src;
  }

  lemma AppendLimb(before: seq<int>, w: int, bytes: seq<int>, b: seq<int>, i: nat)
    requires |before| == i && IsLimbs(before) && |bytes| == 4 * i && Val(before) == ValBytes(bytes)
    requires IsWord(w) && |b| == 4 && w == ValBytes(b)
    ensures IsLimbs(before + [w]) && Val(before + [w]) == ValBytes(bytes + b)
  {
    EvalPrefix(before + [w], i, BASE);
    assert (before + [w])[..i] == before && (before + [w])[..i + 1] == before + [w];
    EvalAppend(bytes, b, 256);
    BytePowIsLimbPow(i);
  }

  /**
   * scalar_bit: 0 for a negative position, otherwise bit i of the
   * little-endian number the 32 bytes write (bit i & 7 of byte i >> 3).
   */
  function ScalarBit(s: seq<int>, i: int): (r: int)
    requires |s| == 32 && IsBytes(s) && i < 256
    ensures r == if i < 0 then 0 else Bit(ValBytes(s), i)
  {
    if i < 0 then 0
    else
      BitOfBytes(s, i);
      PowPositive(2, i % 8);
      (s[i / 8] / Pow(2, i % 8)) % 2
  }

  /** Bit i of a natural number. */
  function Bit(v: int, i: nat): int
  {
    PowPositive(2, i);
    (v / Pow(2, i)) % 2
  }

  lemma BitOfBytes(s: seq<int>, i: nat)
    requires i < 8 * |s| && IsBytes(s)
    ensures Pow(2, i % 8) > 0 && Bit(ValBytes(s), i) == (s[i / 8] / Pow(2, i % 8)) % 2
  {
    var k, j := i / 8, i % 8;
    var v, hi := ValBytes(s), ValBytes(s[k + 1..]);
    var a, c := Pow(256, k), Pow(2, j);
    ByteAt(s, k);
    PowPositive(2, j);
    BitWeight(k, j);
    assert i == 8 * k + j;
    assert Pow(2, i) == a * c;
    var q := v / a;
    assert q == s[k] + 256 * hi;
    DivDiv(v, a, c);
    assert v / Pow(2, i) == q / c;
    BitInByte(s[k], hi, j);
    assert Bit(v, i) == (q / c) % 2;
  }

  /** Byte k splits the value: v / 256^k = s[k] + 256 * (the bytes above k). */
  lemma ByteAt(s: seq<int>, k: nat)
    requires k < |s| && IsBytes(s)
    ensures ValBytes(s) >= 0 && Pow(256, k) > 0
    ensures ValBytes(s) / Pow(256, k) == s[k] + 256 * ValBytes(s[k + 1..])
  {
    var lo, a, rest := ValBytes(s[..k]), Pow(256, k), ValBytes(s[k..]);
    EvalSplit(s, k, 256);
    HeadByte(s[k..]);
    assert s[k..][1..] == s[k + 1..] && s[k..][0] == s[k];
    BytesBound(s[..k]);
    BytesBound(s[k..]);
    LowQuotient(ValBytes(s), lo, a, rest);
  }

  /** Below the weight a, the low part drops out of the quotient. */
  lemma LowQuotient(v: int, lo: int, a: int, rest: int)
    requires v == lo + a * rest && 0 <= lo < a && 0 <= rest
    ensures v >= 0 && v / a == rest
  {
    DivModUnique(lo, a, 0, lo);
    DivAddMultiple(lo, a, rest);
  }

  lemma HeadByte(s: seq<int>)
    requires |s| > 0
    ensures ValBytes(s) == s[0] + 256 * ValBytes(s[1..])
  {
    EvalSplit(s, 1, 256);
    assert s[..1] == [s[0]];
    assert Eval([s[0]], 256) == s[0] by { assert [s[0]][..0] == []; }
    assert Pow(256, 1) == 256;
  }

  lemma BitWeight(k: nat, j: nat)
    ensures Pow(2, 8 * k + j) == Pow(256, k) * Pow(2, j)
  {
    PowAdd(2, 8 * k, j);
    PowMul(2, 8, k);
    assert Pow(2, 8) == 256;
  }

  /** Bits 0..7 of x + 256 * hi are the bits of x. */
  lemma BitInByte(x: int, hi: int, j: nat)
    requires 0 <= x && 0 <= hi && j < 8
    ensures Pow(2, j) > 0 && ((x + 256 * hi) / Pow(2, j)) % 2 == (x / Pow(2, j)) % 2
  {
    PowPositive(2, j);
    ByteWeight(j);
    LowDivision(x, hi, Pow(2, j), Pow(2, 7 - j));
  }

  lemma LowDivision(x: int, hi: int, c: int, e: int)
    requires 0 <= x && 0 <= hi && c > 0 && 256 == c * (2 * e)
    ensures ((x + 256 * hi) / c) % 2 == (x / c) % 2
  {
    var t := 2 * (e * hi);
    assert 256 * hi == c * t;
    DivAddMultiple(x, c, t);
    ModAddMultiple(x / c, 2, e * hi);
  }

  lemma ByteWeight(j: nat)
    requires j < 8
    ensures 256 == Pow(2, j) * (2 * Pow(2, 7 - j))
  {
    PowAdd(2, j, 8 - j);
    assert Pow(2, 8 - j) == 2 * Pow(2, 7 - j);
    assert Pow(2, 8) == 256;
  }

  /** (b^m)^n = b^(m n). */
  lemma {:induction false} PowMul(b: nat, m: nat, n: nat)
    ensures Pow(b, m * n) == Pow(Pow(b, m), n)
  {
    if n > 0 {
      var k := m * (n - 1);
      PowMul(b, m, n - 1);
      PowAdd(b, k, m);
      MulSucc(m, n - 1);
      assert Pow(Pow(b, m), n) == Pow(b, m) * Pow(Pow(b, m), n - 1);
    }
  }

  lemma MulSucc(m: int, k: int)
    ensures m * (k + 1) == m * k + m
  {
  }

  lemma DivDiv(v: int, a: int, c: int)
    requires v >= 0 && a > 0 && c > 0
    ensures v / (a * c) == (v / a) / c
  {
    var q, r := (v / a) / c, v % a + a * ((v / a) % c);
    assert v == (v / a) * a + v % a;
    assert v / a == q * c + (v / a) % c;
    assert v == q * (a * c) + r;
    assert r < a * c by {
      MulLe((v / a) % c, c - 1, a);
    }
    DivModUnique(v, a * c, q, r);
  }

  // ---- the schoolbook product ----

  /**
   * One row of a schoolbook product as the inner loops of multiply, mod_l and
   * redc run it: p[i..i + n] += ai * b[..n] with a running carry, which is
   * returned rather than stored.
   */
  method MulRow(p: array<int>, ai: int, b: seq<int>, i: nat, n: nat) returns (carry: int)
    requires IsWord(ai) && IsLimbs(b) && n <= |b| && i + n <= p.Length && IsLimbs(p[..])
    modifies p
    ensures IsLimbs(p[..]) && 0 <= carry
    ensures p[..i] == old(p[..i]) && p[i + n..] == old(p[i + n..])
    ensures Val(p[..i + n]) + carry * Pow(BASE, i + n) == old(Val(p[..i + n])) + ai * Val(b[..n]) * Pow(BASE, i)
  {
    ghost var Q := p[..];
    carry := 0;
    var j := 0;
    assert b[..0] == [];
    while j < n
      invariant 0 <= j <= n
      invariant RowInvariant(p[..], Q, ai, b, i, j, carry)
    {
      ghost var before := p[..];
      var t := carry + p[i + j] + ai * b[j];
      p[i + j] := t % BASE;
      RowNext(before, Q, ai, b, i, j, carry);
      carry := t / BASE;
      j := j + 1;
    }
    assert Q[..i + n] == old(p[..i + n]);
  }

  /** What holds after j steps of a row that started from q. */
  ghost predicate RowInvariant(p: seq<int>, q: seq<int>, ai: int, b: seq<int>, i: nat, j: nat, carry: int)
  {
    |p| == |q| && i + j <= |p| && j <= |b|
    && IsLimbs(p) && 0 <= carry
    && p[..i] == q[..i] && p[i + j..] == q[i + j..]
    && Val(p[..i + j]) + carry * Pow(BASE, i + j) == Val(q[..i + j]) + ai * Val(b[..j]) * Pow(BASE, i)
  }

  lemma RowNext(p: seq<int>, q: seq<int>, ai: int, b: seq<int>, i: nat, j: nat, carry: int)
    requires RowInvariant(p, q, ai, b, i, j, carry) && i + j < |p| && j < |b| && IsWord(ai) && IsLimbs(b)
    ensures RowInvariant(p[i + j := (carry + p[i + j] + ai * b[j]) % BASE], q, ai, b, i, j + 1,
                         (carry + p[i + j] + ai * b[j]) / BASE)
  {
    var t := carry + p[i + j] + ai * b[j];
    var p' := p[i + j := t % BASE];
    assert p[i + j] == q[i + j] by { assert p[i + j..][0] == q[i + j..][0]; }
    assert p'[..i + j + 1] == p[..i + j] + [t % BASE];
    assert p'[..i + j + 1][..i + j] == p[..i + j];
    RowStep(p'[..i + j + 1], q, b, ai, carry, i, j);
    assert p'[..i] == q[..i];
    assert p'[i + j + 1..] == p[i + j..][1..];
  }

  lemma RowStep(s: seq<int>, q: seq<int>, b: seq<int>, ai: int, c: int, i: nat, j: nat)
    requires i + j < |q| && j < |b| && |s| == i + j + 1
    requires s[i + j] == (c + q[i + j] + ai * b[j]) % BASE
    requires Val(s[..i + j]) + c * Pow(BASE, i + j) == Val(q[..i + j]) + ai * Val(b[..j]) * Pow(BASE, i)
    ensures Val(s) + ((c + q[i + j] + ai * b[j]) / BASE) * Pow(BASE, i + j + 1)
         == Val(q[..i + j + 1]) + ai * Val(b[..j + 1]) * Pow(BASE, i)
  {
    var d := q[i + j] + ai * b[j];
    Accumulate(s, i + j, c, d, Val(q[..i + j]) + ai * Val(b[..j]) * Pow(BASE, i));
    EvalPrefix(q, i + j, BASE);
    EvalPrefix(b, j, BASE);
    PowAdd(BASE, i, j);
    RowTerms(Val(q[..i + j]), q[i + j], ai, Val(b[..j]), b[j], Pow(BASE, i), Pow(BASE, j));
  }

  lemma RowTerms(vq: int, qk: int, ai: int, vb: int, bj: int, wi: int, wj: int)
    ensures vq + ai * vb * wi + (qk + ai * bj) * (wi * wj) == (vq + qk * (wi * wj)) + ai * (vb + bj * wj) * wi
  {
  }

  /**
   * multiply: the schoolbook product of a (rows) and b (columns) added to the
   * low |b| limbs of p.  Row i stores its final carry in limb i + |b|, which no
   * earlier row has written, so the top |a| limbs of p are overwritten, not
   * added to; every caller zeroes p first.  mod_l's first loop is the same
   * loop with nine rows over sixteen columns.
   */
  method Multiply(p: array<int>, a: seq<int>, b: seq<int>)
    requires IsLimbs(a) && IsLimbs(b) && p.Length == |a| + |b| && IsLimbs(p[..])
    modifies p
    ensures IsLimbs(p[..]) && Val(p[..]) == old(Val(p[..|b|])) + Val(a) * Val(b)
  {
    ghost var P0 := p[..];
    var i := 0;
    assert a[..0] == [];
    while i < |a|
      invariant 0 <= i <= |a|
      invariant IsLimbs(p[..])
      invariant Val(p[..i + |b|]) == Val(P0[..|b|]) + Val(a[..i]) * Val(b)
    {
      var carry := MulRow(p, a[i], b, i, |b|);
      ghost var before := p[..];
      assert b[..|b|] == b;
      RowEnd(before[..i + |b|], carry, P0[..|b|], a, b, i);
      p[i + |b|] := carry % BASE;
      StoreLimb(before, p[..], i + |b|, carry);
      i := i + 1;
    }
    assert p[..|a| + |b|] == p[..] && a[..|a|] == a;
  }

  /** Storing a word at limb k extends the limbs below k by that word. */
  lemma StoreLimb(before: seq<int>, after: seq<int>, k: nat, c: int)
    requires k < |before| && IsLimbs(before) && IsWord(c) && after == before[k := c]
    ensures IsLimbs(after) && after[..k + 1] == before[..k] + [c]
  {
  }

  /**
   * The end of a row: with every value below its limb count's power, the
   * carry fits one limb, and storing it completes the product of one more row.
   */
  lemma RowEnd(mid: seq<int>, carry: int, pb: seq<int>, a: seq<int>, b: seq<int>, i: nat)
    requires IsLimbs(mid) && |mid| == i + |b| && i < |a| && IsLimbs(a) && IsLimbs(b)
    requires IsLimbs(pb) && |pb| == |b| && 0 <= carry
    requires Val(mid) + carry * Pow(BASE, i + |b|) == Val(pb) + Val(a[..i]) * Val(b) + a[i] * Val(b) * Pow(BASE, i)
    ensures carry < BASE && carry % BASE == carry
    ensures IsLimbs(mid + [carry]) && Val(mid + [carry]) == Val(pb) + Val(a[..i + 1]) * Val(b)
  {
    EvalPrefix(a, i, BASE);
    LimbsBound(pb);
    LimbsBound(a[..i + 1]);
    LimbsBound(b);
    LimbsBound(mid);
    PowAdd(BASE, i, |b|);
    PowAdd(BASE, i, 1);
    assert Pow(BASE, 1) == BASE;
    RowCarry(Val(mid), carry, Val(pb), Val(a[..i]), a[i], Val(b), Pow(BASE, i), Pow(BASE, |b|));
    EvalPrefix(mid + [carry], i + |b|, BASE);
    assert (mid + [carry])[..i + |b|] == mid && (mid + [carry])[..i + |b| + 1] == mid + [carry];
  }

  lemma RowCarry(low: int, carry: int, pb: int, va: int, ai: int, vb: int, wi: int, wb: int)
    requires 0 <= low && 0 <= carry && 0 <= pb < wb && 0 <= vb < wb && wi > 0
    requires 0 <= va + ai * wi < BASE * wi
    requires low + carry * (wi * wb) == pb + va * vb + ai * vb * wi
    ensures carry < BASE && carry % BASE == carry
    ensures low + carry * (wi * wb) == pb + (va + ai * wi) * vb
  {
    var v := va + ai * wi;
    assert pb + v * vb == pb + va * vb + ai * vb * wi;
    MulLe(v, BASE * wi - 1, vb);
    MulLe(vb, wb - 1, BASE * wi - 1);
    assert pb + v * vb < BASE * wi * wb;
    if carry >= BASE {
      MulLe(BASE, carry, wi * wb);
      assert false;
    }
  }

  /**
   * The truncated product loop of mod_l and redc: p[..8] += a * b modulo
   * 2^256.  Row i runs over the first 8 - i limbs of b only and drops its
   * final carry, since everything above limb 7 vanishes modulo 2^256.
   */
  method MulLow(p: array<int>, a: seq<int>, b: seq<int>)
    requires |a| == 8 && |b| == 8 && IsLimbs(a) && IsLimbs(b) && p.Length >= 8 && IsLimbs(p[..])
    modifies p
    ensures IsLimbs(p[..]) && p[8..] == old(p[8..])
    ensures Val(p[..8]) == (old(Val(p[..8])) + Val(a) * Val(b)) % TWO256
  {
    ghost var P0 := p[..];
    LimbWeights();
    LimbsBound(P0[..8]);
    assert a[..0] == [];
    DivModUnique(Val(P0[..8]), TWO256, 0, Val(P0[..8]));
    var i := 0;
    while i < 8
      invariant 0 <= i <= 8 && IsLimbs(p[..]) && p[8..] == P0[8..]
      invariant Val(p[..8]) == (Val(P0[..8]) + Val(a[..i]) * Val(b)) % TWO256
    {
      ghost var Q := p[..];
      var carry := MulRow(p, a[i], b, i, 8 - i);
      assert p[8..] == Q[8..];
      LowRow(p[..8], Q[..8], carry, a, b, i, Val(P0[..8]));
      i := i + 1;
    }
    assert a[..8] == a;
  }

  lemma LowRow(s: seq<int>, q: seq<int>, carry: int, a: seq<int>, b: seq<int>, i: nat, v0: int)
    requires |s| == 8 && |q| == 8 && IsLimbs(s) && |a| == 8 && |b| == 8 && i < 8 && IsLimbs(b)
    requires Val(s) + carry * Pow(BASE, 8) == Val(q) + a[i] * Val(b[..8 - i]) * Pow(BASE, i)
    requires Val(q) == (v0 + Val(a[..i]) * Val(b)) % TWO256
    ensures Val(s) == (v0 + Val(a[..i + 1]) * Val(b)) % TWO256
  {
    LimbWeights();
    LimbsBound(s);
    var lo, hi := Val(b[..8 - i]), Val(b[8 - i..]);
    EvalSplit(b, 8 - i, BASE);
    PowAdd(BASE, 8 - i, i);
    EvalPrefix(a, i, BASE);
    var k := (v0 + Val(a[..i]) * Val(b)) / TWO256;
    LowTerms(Val(s), carry, Val(q), v0, Val(a[..i]), a[i], Val(b), lo, hi, Pow(BASE, i), Pow(BASE, 8 - i), k);
  }

  lemma LowTerms(vs: int, carry: int, vq: int, v0: int, va: int, ai: int, vb: int, lo: int, hi: int, wi: int, wr: int, k: int)
    requires 0 <= vs < TWO256 && wr * wi == TWO256
    requires vs + carry * TWO256 == vq + ai * lo * wi
    requires vq == v0 + va * vb - k * TWO256
    requires vb == lo + wr * hi
    ensures vs == (v0 + (va + ai * wi) * vb) % TWO256
  {
    assert (va + ai * wi) * vb == va * vb + ai * lo * wi + ai * hi * (wr * wi);
    assert v0 + (va + ai * wi) * vb == vs + (carry + k + ai * hi) * TWO256;
    DivModUnique(v0 + (va + ai * wi) * vb, TWO256, carry + k + ai * hi, vs);
  }

  // ---- comparison with L and the conditional subtraction ----

  /**
   * is_above_l: the carry out of x + (2^256 - L), computed as x + ~L + 1 word
   * by word (the & 0xffffffff keeps the 32 bits ~ produces), which is 1
   * exactly when x >= L.
   */
  method IsAboveL(x: seq<int>) returns (c: int)
    requires |x| == 8 && IsLimbs(x)
    ensures c == if Val(x) >= L then 1 else 0
  {
    LimbConstants();
    ghost var low: seq<int> := [];
    var carry := 1;
    var i := 0;
    assert x[..0] == [] && L_LIMBS[..0] == [];
    while i < 8
      invariant 0 <= i <= 8 && |low| == i && IsLimbs(low) && 0 <= carry
      invariant Val(low) + carry * Pow(BASE, i) == Val(x[..i]) + (Pow(BASE, i) - Val(L_LIMBS[..i]))
    {
      var t := carry + x[i] + Not32(L_LIMBS[i]);
      ghost var before := low;
      low := low + [t % BASE];
      assert low[..i] == before;
      CondSubStep(low, x, L_LIMBS, i, carry, 1);
      carry := t / BASE;
      i := i + 1;
    }
    assert x[..8] == x && L_LIMBS[..8] == L_LIMBS;
    LimbWeights();
    LimbsBound(x);
    FinalCarry(low, carry, Val(x) + (TWO256 - L));
    CarryOfDifference(Val(x), carry);
    c := carry;
  }

  lemma CarryOfDifference(v: int, carry: int)
    requires 0 <= v < TWO256 && carry == (v + (TWO256 - L)) / TWO256
    ensures carry == if v >= L then 1 else 0
    ensures (v + (TWO256 - L)) % TWO256 == if v >= L then v - L else v + (TWO256 - L)
  {
    ScalarConstants();
    if v >= L {
      DivModUnique(v + (TWO256 - L), TWO256, 1, v - L);
    } else {
      DivModUnique(v + (TWO256 - L), TWO256, 0, v + (TWO256 - L));
    }
  }

  /**
   * One word of x + above * (2^256 - y), the sum is_above_l, remove_l and
   * mod_l form with y = L or y = q L: the added word is above * ~y[i].
   */
  lemma CondSubStep(s: seq<int>, x: seq<int>, y: seq<int>, i: nat, carry: int, above: int)
    requires |s| == i + 1 && i < |x| && i < |y| && (above == 0 || above == 1)
    requires s[i] == (carry + x[i] + above * Not32(y[i])) % BASE
    requires Val(s[..i]) + carry * Pow(BASE, i) == Val(x[..i]) + above * (Pow(BASE, i) - Val(y[..i]))
    ensures Val(s) + ((carry + x[i] + above * Not32(y[i])) / BASE) * Pow(BASE, i + 1)
         == Val(x[..i + 1]) + above * (Pow(BASE, i + 1) - Val(y[..i + 1]))
  {
    var d := x[i] + above * Not32(y[i]);
    Accumulate(s, i, carry, d, Val(x[..i]) + above * (Pow(BASE, i) - Val(y[..i])));
    EvalPrefix(x, i, BASE);
    EvalPrefix(y, i, BASE);
    assert Pow(BASE, i + 1) == BASE * Pow(BASE, i);
    SubTerms(Val(x[..i]), x[i], Val(y[..i]), y[i], above, Pow(BASE, i));
  }

  lemma SubTerms(vx: int, xi: int, vl: int, li: int, above: int, w: int)
    ensures vx + above * (w - vl) + (xi + above * (ONES - li)) * w
         == (vx + xi * w) + above * (BASE * w - (vl + li * w))
  {
  }

  /** The mask ~carry + 1 of remove_l selects ~L[i] when carry is 1 and 0 when it is 0. */
  lemma MaskedWord(above: int, li: int)
    requires (above == 0 || above == 1) && IsWord(li)
    ensures (Not32(above) + 1) % BASE == (if above == 1 then ONES else 0)
    ensures And32(Not32(li), (Not32(above) + 1) % BASE) == above * Not32(li)
  {
    AndWord(Not32(li));
    if above == 1 {
      assert (Not32(above) + 1) % BASE == ONES;
    } else {
      assert (Not32(above) + 1) % BASE == 0;
    }
  }

  /**
   * remove_l: x - L when x >= L and x otherwise, so below 2L it leaves x mod L.
   * r may be the array x was read from: limb i of x is read before limb i of r is written.
   */
  method RemoveL(r: array<int>, x: seq<int>)
    requires |x| == 8 && IsLimbs(x) && r.Length >= 8 && IsLimbs(r[..])
    modifies r
    ensures IsLimbs(r[..]) && r[8..] == old(r[8..])
    ensures Val(r[..8]) == if Val(x) >= L then Val(x) - L else Val(x)
    ensures Val(x) < 2 * L ==> Val(r[..8]) == Val(x) % L
  {
    LimbConstants();
    var above := IsAboveL(x);
    var carry := above;
    var mask := (Not32(carry) + 1) % BASE;
    ghost var R0 := r[..];
    var i := 0;
    assert x[..0] == [] && L_LIMBS[..0] == [];
    while i < 8
      invariant 0 <= i <= 8 && IsLimbs(r[..]) && r[8..] == R0[8..] && 0 <= carry
      invariant Val(r[..i]) + carry * Pow(BASE, i) == Val(x[..i]) + above * (Pow(BASE, i) - Val(L_LIMBS[..i]))
    {
      MaskedWord(above, L_LIMBS[i]);
      var t := carry + x[i] + And32(Not32(L_LIMBS[i]), mask);
      ghost var before := r[..i];
      r[i] := t % BASE;
      assert r[..i + 1][..i] == before;
      CondSubStep(r[..i + 1], x, L_LIMBS, i, carry, above);
      carry := t / BASE;
      i := i + 1;
    }
    assert x[..8] == x && L_LIMBS[..8] == L_LIMBS;
    LimbWeights();
    LimbsBound(x);
    FinalCarry(r[..8], carry, Val(x) + above * (TWO256 - L));
    CarryOfDifference(Val(x), (Val(x) + (TWO256 - L)) / TWO256);
    RemovedValue(Val(x), Val(r[..8]));
  }

  lemma RemovedValue(v: int, r: int)
    requires 0 <= v && r == if v >= L then v - L else v
    ensures v < 2 * L ==> r == v % L
  {
    if v < 2 * L {
      if v >= L {
        DivModUnique(v, L, 1, v - L);
      } else {
        DivModUnique(v, L, 0, v);
      }
    }
  }

  // ---- Barrett reduction ----

  /**
   * mod_l: the 32-byte little-endian encoding of x mod L, for any 512-bit x.
   * With q = floor(x * floor(2^512 / L) / 2^512), x - q L lies in [0, 2L), so
   * computing it modulo 2^256 and subtracting L once more if needed is exact.
   */
  method ModL(reduced: array<int>, x: seq<int>)
    requires reduced.Length == 32 && |x| == 16 && IsLimbs(x)
    modifies reduced
    ensures reduced[..] == LeBytes(Val(x) % L, 32)
  {
    var xr := BarrettProduct(x);
    // xr = x - xr, modulo 2^256
    ghost var d := xr[..8];
    SubtractLow(xr, x[..8]);
    BarrettValue(x, Val(x) * BARRETT / TWO512, Val(xr[..8]), Val(d));
    // final reduction modulo L (conditional subtraction)
    RemoveL(xr, xr[..8]);
    StoreLeBuf(reduced, xr[..8]);
  }

  /**
   * The first half of mod_l: xr = x * r, then xr[0..8] = floor(xr / 2^512) * L
   * modulo 2^256; the quotient is read from limbs 16..23 of x * r.
   */
  method BarrettProduct(x: seq<int>) returns (xr: array<int>)
    requires |x| == 16 && IsLimbs(x)
    ensures fresh(xr) && xr.Length == 25 && IsLimbs(xr[..])
    ensures Val(xr[..8]) == (((Val(x) * BARRETT / TWO512) % TWO256) * L) % TWO256
  {
    LimbConstants();
    xr := BarrettQuotient(x);
    var q := xr[16..24];
    Zero(xr, 0, 8);
    ZerosValue(xr[..8]);
    MulLow(xr, q, L_LIMBS);
    assert Val(xr[..8]) == (0 + Val(q) * L) % TWO256;
  }

  /** The first half of the Barrett step: xr = x·r in 25 limbs, whose limbs 16..23 hold the quotient. */
  method BarrettQuotient(x: seq<int>) returns (xr: array<int>)
    requires |x| == 16 && IsLimbs(x)
    ensures fresh(xr) && xr.Length == 25 && IsLimbs(xr[..])
    ensures Val(xr[16..24]) == (Val(x) * BARRETT / TWO512) % TWO256
  {
    LimbConstants();
    LimbsBound(x);
    xr := new int[25](_ => 0);
    ZerosValue(xr[..16]);
    Multiply(xr, BARRETT_LIMBS, x);
    QuotientLimbs(xr[..], Val(x));
    assert xr[..][16..24] == xr[16..24];
  }

  /** ZERO(i, p + lo, hi - lo): limbs lo..hi-1 of p become 0. */
  method Zero(p: array<int>, lo: nat, hi: nat)
    requires lo <= hi <= p.Length && IsLimbs(p[..])
    modifies p
    ensures IsLimbs(p[..]) && p[..lo] == old(p[..lo]) && p[hi..] == old(p[hi..])
    ensures forall k :: lo <= k < hi ==> p[k] == 0
  {
    var i := lo;
    while i < hi
      invariant lo <= i <= hi && IsLimbs(p[..])
      invariant p[..lo] == old(p[..lo]) && p[hi..] == old(p[hi..])
      invariant forall k :: lo <= k < i ==> p[k] == 0
    {
      p[i] := 0;
      i := i + 1;
    }
  }

  /** COPY(i, dst, src, |src|): the first |src| limbs of dst become src. */
  method CopyLimbs(dst: array<int>, src: seq<int>)
    requires |src| <= dst.Length && IsLimbs(src) && IsLimbs(dst[..])
    modifies dst
    ensures IsLimbs(dst[..]) && dst[..|src|] == src && dst[|src|..] == old(dst[|src|..])
  {
    var i := 0;
    while i < |src|
      invariant 0 <= i <= |src| && IsLimbs(dst[..]) && dst[|src|..] == old(dst[|src|..])
      invariant dst[..i] == src[..i]
    {
      dst[i] := src[i];
      i := i + 1;
    }
  }

  /**
   * The subtraction loop of mod_l: p[..8] = x - p[..8] modulo 2^256, computed
   * as x + ~p + 1 word by word with the carry out of the top word dropped.
   */
  method SubtractLow(p: array<int>, x: seq<int>)
    requires |x| == 8 && IsLimbs(x) && p.Length >= 8 && IsLimbs(p[..])
    modifies p
    ensures IsLimbs(p[..]) && p[8..] == old(p[8..])
    ensures Val(p[..8]) == (Val(x) + (TWO256 - old(Val(p[..8])))) % TWO256
  {
    ghost var d := p[..8];
    var carry := 1;
    var i := 0;
    assert x[..0] == [] && d[..0] == [];
    while i < 8
      invariant 0 <= i <= 8 && IsLimbs(p[..]) && 0 <= carry && p[8..] == old(p[8..])
      invariant p[i..8] == d[i..]
      invariant Val(p[..i]) + carry * Pow(BASE, i) == Val(x[..i]) + (Pow(BASE, i) - Val(d[..i]))
    {
      assert p[i] == d[i] by { assert p[i..8][0] == d[i..][0]; }
      var t := carry + x[i] + Not32(p[i]);
      ghost var before := p[..i];
      p[i] := t % BASE;
      assert p[..i + 1][..i] == before;
      assert p[i + 1..8] == d[i + 1..];
      CondSubStep(p[..i + 1], x, d, i, carry, 1);
      carry := t / BASE;
      i := i + 1;
    }
    LimbWeights();
    assert d[..8] == d && x[..8] == x;
    FinalCarry(p[..8], carry, Val(x) + (TWO256 - Val(d)));
  }

  /**
   * What mod_l's subtraction leaves: the low 256 bits of x minus the low 256
   * bits of q L is x - q L itself, which Barrett's bound puts in [0, 2L).
   */
  lemma BarrettValue(x: seq<int>, quotient: int, r: int, ql: int)
    requires |x| == 16 && IsLimbs(x) && quotient == Val(x) * BARRETT / TWO512
    requires ql == ((quotient % TWO256) * L) % TWO256
    requires r == (Val(x[..8]) + (TWO256 - ql)) % TWO256
    ensures 0 <= r < 2 * L && r % L == Val(x) % L
  {
    ScalarConstants();
    LimbsBound(x);
    LimbWeights();
    PowAdd(BASE, 8, 8);
    BarrettBound(Val(x), TWO512, L, BARRETT, quotient);
    var v, lo, hi := Val(x), Val(x[..8]), Val(x[8..]);
    EvalSplit(x, 8, BASE);
    var k1, k2 := quotient / TWO256, ((quotient % TWO256) * L) / TWO256;
    assert lo + (TWO256 - ql) == (v - quotient * L) + TWO256 * (1 - hi + k2 + k1 * L);
    DivModUnique(lo + (TWO256 - ql), TWO256, 1 - hi + k2 + k1 * L, v - quotient * L);
    ModAddMultiple(r, L, quotient);
  }

  lemma ZerosValue(s: seq<int>)
    requires forall k :: 0 <= k < |s| ==> s[k] == 0
    ensures IsLimbs(s) && Val(s) == 0
  {
    if |s| > 0 {
      ZerosValue(s[..|s| - 1]);
    }
  }

  /** The limbs 16..23 of x * r hold the Barrett quotient modulo 2^256. */
  lemma QuotientLimbs(xr: seq<int>, v: int)
    requires |xr| == 25 && IsLimbs(xr) && Val(xr) == BARRETT * v && 0 <= v
    ensures Val(xr[16..24]) == (v * BARRETT / TWO512) % TWO256
  {
    var hi := xr[16..];
    LimbWeights();
    PowAdd(BASE, 8, 8);
    EvalSplit(xr, 16, BASE);
    LimbsBound(xr[..16]);
    DivModUnique(Val(xr), TWO512, Val(hi), Val(xr[..16]));
    EvalSplit(hi, 8, BASE);
    assert hi[..8] == xr[16..24];
    LimbsBound(hi[..8]);
    DivModUnique(Val(hi), TWO256, Val(hi[8..]), Val(hi[..8]));
  }

  /**
   * Barrett's bound: q = floor(v * floor(n / l) / n) undershoots v / l by
   * less than 2, for every v below n.
   */
  lemma BarrettBound(v: int, n: int, l: int, b: int, q: int)
    requires 0 < l && 0 <= v < n && b == n / l && q == v * b / n
    ensures 0 <= v - q * l < 2 * l
  {
    MulLe(0, v, b);
    DivBounds(n, l, b);
    DivBounds(v * b, n, q);
    BarrettLower(v, n, l, b, q);
    BarrettUpper(v, n, l, b, q);
  }

  /** Euclidean division brackets its dividend. */
  lemma DivBounds(x: int, d: int, q: int)
    requires 0 <= x && 0 < d && q == x / d
    ensures 0 <= q && q * d <= x < q * d + d
  {
  }

  lemma BarrettLower(v: int, n: int, l: int, b: int, q: int)
    requires 0 < l && 0 <= v < n && q * n <= v * b && b * l <= n && 0 <= b
    ensures q * l <= v
  {
    MulLe(q * n, v * b, l);
    assert (q * n) * l == (q * l) * n;
    assert (v * b) * l == v * (b * l);
    MulLe(b * l, n, v);
    assert (q * l) * n <= v * n;
    if q * l > v {
      MulLe(v + 1, q * l, n);
      assert false;
    }
  }

  lemma BarrettUpper(v: int, n: int, l: int, b: int, q: int)
    requires 0 < l && 0 <= v < n && v * b < q * n + n && n < b * l + l && 0 <= b
    ensures v < q * l + 2 * l
  {
    var vb, bl := v * b, b * l;
    MulLe(vb, q * n + n - 1, l);
    MulLe(n - l, bl, v);
    MulLe(v, n - 1, l);
    UpperTerms(v, n, l, b, q);
    assert v * n < (q + 2) * l * n;
    if (q + 2) * l <= v {
      MulLe((q + 2) * l, v, n);
      assert false;
    }
  }

  /** The ring identities behind BarrettUpper, one product at a time. */
  lemma UpperTerms(v: int, n: int, l: int, b: int, q: int)
    ensures (v * b) * l == (b * l) * v
    ensures (n - l) * v == v * n - v * l && v * l == l * v
    ensures (q * n + n - 1) * l == q * l * n + n * l - l
    ensures (n - 1) * l == n * l - l
    ensures (q + 2) * l * n == q * l * n + 2 * (n * l)
  {
  }

  // ---- Montgomery reduction ----

  /**
   * redc: for x < L * 2^256, u < L with u * 2^256 = x (mod L).  s = x k mod
   * 2^256 makes t = x + s L a multiple of 2^256 below 2L * 2^256, so t / 2^256
   * needs at most one subtraction of L.
   */
  method Redc(u: array<int>, x: seq<int>)
    requires u.Length == 8 && IsLimbs(u[..]) && |x| == 16 && IsLimbs(x) && Val(x) < L * TWO256
    modifies u
    ensures IsLimbs(u[..]) && Reduced(Val(u[..]), Val(x))
  {
    LimbConstants();
    // s = x * k (modulo 2^256)
    var s := new int[8](_ => 0);
    ZerosValue(s[..]);
    assert s[..8] == s[..];
    MulLow(s, x[..8], MONT_K_LIMBS);
    assert s[..8] == s[..];
    // t = s * L
    var t := new int[16](_ => 0);
    ZerosValue(t[..8]);
    Multiply(t, s[..], L_LIMBS);
    // t = t + x
    AddWide(t, x);
    RedcValue(x, Val(s[..]), t[..]);
    RemoveL(u, t[8..16]);
    assert u[..8] == u[..];
  }

  /** The addition loop of redc: t = t + x over sixteen limbs, the final carry dropped. */
  method AddWide(t: array<int>, x: seq<int>)
    requires t.Length == 16 && IsLimbs(t[..]) && |x| == 16 && IsLimbs(x)
    modifies t
    ensures IsLimbs(t[..]) && Val(t[..]) == (old(Val(t[..])) + Val(x)) % TWO512
  {
    ghost var t0 := t[..];
    var carry := 0;
    var i := 0;
    while i < 16
      invariant 0 <= i <= 16 && 0 <= carry
      invariant forall k :: i <= k < 16 ==> t[k] == t0[k]
      invariant IsLimbs(t[..i])
      invariant Val(t[..i]) + carry * Pow(BASE, i) == Val(t0[..i]) + Val(x[..i])
    {
      ghost var before := t[..i];
      var d := t[i] + x[i];
      t[i] := (carry + d) % BASE;
      assert t[..i + 1][..i] == before;
      Accumulate(t[..i + 1], i, carry, d, Val(t0[..i]) + Val(x[..i]));
      PrefixPair(t0, x, i);
      carry := (carry + d) / BASE;
      i := i + 1;
    }
    assert t[..16] == t[..] && t0[..16] == t0 && x[..16] == x;
    WideCarry(t[..], Val(t0) + Val(x), carry);
  }

  /** The carry out of a 512-bit sum is the part of the sum above 2^512. */
  lemma WideCarry(t: seq<int>, sum: int, carry: int)
    requires |t| == 16 && IsLimbs(t) && 0 <= carry && Val(t) + carry * Pow(BASE, |t|) == sum
    ensures Val(t) == sum % TWO512
  {
    LimbWeights();
    PowAdd(BASE, 8, 8);
    LimbsBound(t);
    DivModUnique(sum, TWO512, carry, Val(t));
  }

  /**
   * The value redc divides: t = s L + x is a multiple of 2^256 below
   * 2L * 2^256, and (t / 2^256) * 2^256 = x modulo L.
   */
  lemma RedcValue(x: seq<int>, s: int, t: seq<int>)
    requires |x| == 16 && IsLimbs(x) && Val(x) < L * TWO256
    requires s == (Val(x[..8]) * MONT_K) % TWO256
    requires |t| == 16 && IsLimbs(t)
    requires Val(t) == (s * L + Val(x)) % TWO512
    ensures IsLimbs(t[8..16]) && Val(t[8..16]) < 2 * L
    ensures (Val(t[8..16]) % L * TWO256) % L == Val(x) % L
  {
    var hi := RedcQuotient(x, s);
    SmallMod(Val(t), s * L + Val(x), TWO512);
    HighHalf(t, hi);
    RedcCongruence(hi, s, Val(x));
  }

  lemma SmallMod(v: int, total: int, n: int)
    requires 0 <= total < n && v == total % n
    ensures v == total
  {
    DivModUnique(total, n, 0, total);
  }

  /** Sixteen limbs worth 2^256 hi hold hi in their upper eight. */
  lemma HighHalf(t: seq<int>, hi: int)
    requires |t| == 16 && IsLimbs(t) && Val(t) == TWO256 * hi
    ensures IsLimbs(t[8..16]) && Val(t[8..16]) == hi
  {
    LimbWeights();
    EvalSplit(t, 8, BASE);
    assert t[8..] == t[8..16];
    LimbsBound(t[..8]);
    DivModUnique(Val(t), TWO256, Val(t[8..16]), Val(t[..8]));
    DivModUnique(Val(t), TWO256, hi, 0);
  }

  /** t = s L + x is 2^256 times a quotient below 2L. */
  lemma RedcQuotient(x: seq<int>, s: int) returns (hi: int)
    requires |x| == 16 && IsLimbs(x) && Val(x) < L * TWO256
    requires s == (Val(x[..8]) * MONT_K) % TWO256
    ensures s * L + Val(x) == TWO256 * hi && 0 <= hi < 2 * L
    ensures 0 <= s * L + Val(x) < TWO512
  {
    ScalarConstants();
    LimbWeights();
    var xlo, xhi := Val(x[..8]), Val(x[8..]);
    EvalSplit(x, 8, BASE);
    LimbsBound(x[..8]);
    LimbsBound(x);
    var total := s * L + Val(x);
    assert 0 <= total < TWO512 by {
      MulLe(s, TWO256 - 1, L);
    }
    var m := (MONT_K * L + 1) / TWO256;
    var k1 := (xlo * MONT_K) / TWO256;
    hi := xlo * m + xhi - k1 * L;
    MontTerms(xlo, xhi, MONT_K, L, m, k1, s, total);
    assert 0 <= hi by {
      if hi < 0 {
        MulLe(hi, -1, TWO256);
      }
    }
    assert hi < 2 * L by {
      if hi >= 2 * L {
        MulLe(2 * L, hi, TWO256);
      }
    }
  }

  /** When 2^256 hi = s L + v, hi mod L is the Montgomery form's preimage of v. */
  lemma RedcCongruence(hi: int, s: int, v: int)
    requires TWO256 * hi == s * L + v
    ensures (hi % L * TWO256) % L == v % L
  {
    ModAddMultiple(v, L, s);
    ModAddMultiple(hi % L * TWO256, L, hi / L * TWO256);
    assert hi * TWO256 == hi % L * TWO256 + L * (hi / L * TWO256);
  }

  lemma MontTerms(xlo: int, xhi: int, k: int, l: int, m: int, k1: int, s: int, total: int)
    requires k * l + 1 == TWO256 * m && s == xlo * k - k1 * TWO256
    requires total == s * l + xlo + TWO256 * xhi
    ensures total == TWO256 * (xlo * m + xhi - k1 * l)
  {
    assert s * l == xlo * (k * l) - k1 * l * TWO256;
  }

  // ---- the two inverse chains ----

  /**
   * multiply_mod_l: r = a * b mod L.  mod_l writes 32 bytes over r, which the
   * C code then reads as limbs on a little-endian machine; the model reads
   * them back explicitly.
   */
  method MultiplyModL(r: array<int>, a: seq<int>, b: seq<int>)
    requires r.Length == 8 && |a| == 8 && |b| == 8 && IsLimbs(a) && IsLimbs(b)
    modifies r
    ensures IsLimbs(r[..]) && Val(r[..]) == (Val(a) * Val(b)) % L
  {
    ghost var product := Val(a) * Val(b);
    var c := new int[16](_ => 0);
    ZerosValue(c[..8]);
    Multiply(c, a, b);
    assert Val(c[..]) == product;
    var bytes := new int[32];
    ModL(bytes, c[..]);
    ghost var m := product % L;
    assert bytes[..] == LeBytes(m, 32);
    ReadBack(m);
    LoadLeBuf(r, 0, bytes[..], 8);
    assert r[0..8] == r[..];
    assert Val(r[..]) == m;
  }

  /** 32 bytes written by LeBytes and read back give the value, for values below L. */
  lemma ReadBack(v: int)
    requires 0 <= v < L
    ensures IsBytes(LeBytes(v, 32)) && ValBytes(LeBytes(v, 32)) == v
  {
    ScalarConstants();
    LeBytesValue(v, 32);
    BytePowIsLimbPow(8);
    LimbWeights();
    DivModUnique(v, TWO256, 0, v);
  }

  /**
   * inverse_mod_l: in^(L-2) mod L by square-and-multiply over bits 252..0 of
   * L - 2, starting from 1.  The input is used as it is, not reduced first.
   */
  method InverseModL(out: array<int>, inp: seq<int>)
    requires out.Length == 32 && |inp| == 32 && IsBytes(inp)
    modifies out
    ensures out[..] == LeBytes(Exp(ValBytes(inp), L - 2) % L, 32)
  {
    var a := new int[8];
    LoadLeBuf(a, 0, inp, 8);
    assert a[0..8] == a[..];
    var m := PowerModL(a[..]);
    StoreLeBuf(out, m[..]);
  }

  /** Square-and-multiply over the bits of L - 2, from bit 252 down to bit 0. */
  method PowerModL(a: seq<int>) returns (m: array<int>)
    requires |a| == 8 && IsLimbs(a)
    ensures m.Length == 8 && IsLimbs(m[..]) && Val(m[..]) == Exp(Val(a), L - 2) % L
  {
    ExponentConstant();
    ghost var v := Val(a);
    m := new int[8](k => if k == 0 then 1 else 0);
    InitialExponent(m[..], v);
    var i := 252;
    while i >= 0
      invariant -1 <= i <= 252
      invariant IsLimbs(m[..]) && Val(m[..]) == Exp(v, High(L - 2, i + 1)) % L
    {
      var bit := ScalarBit(LM2, i);
      ExponentStep(L - 2, i);
      ExponentStepModL(m, a, bit, v, High(L - 2, i + 1));
      i := i - 1;
    }
    assert High(L - 2, 0) == L - 2;
  }

  /** One step of the square-and-multiply loop: m = m^2, then m = m * a when the bit is set. */
  method ExponentStepModL(m: array<int>, a: seq<int>, bit: int, ghost v: int, ghost e: nat)
    requires m.Length == 8 && |a| == 8 && IsLimbs(a) && Val(a) == v
    requires bit == 0 || bit == 1
    requires IsLimbs(m[..]) && Val(m[..]) == Exp(v, e) % L
    modifies m
    ensures IsLimbs(m[..]) && Val(m[..]) == Exp(v, 2 * e + bit) % L
  {
    MultiplyModL(m, m[..], m[..]);
    SquareModL(v, e);
    if bit == 1 {
      MultiplyModL(m, m[..], a);
      MulReduced(Exp(v, 2 * e), v, Exp(v, 2 * e + 1));
    }
  }

  /** Before the first step the exponent (L - 2) / 2^253 is 0, and [1, 0, ...] is x^0. */
  lemma InitialExponent(m: seq<int>, v: int)
    requires m == [1, 0, 0, 0, 0, 0, 0, 0]
    ensures IsLimbs(m) && Val(m) == Exp(v, High(L - 2, 253)) % L
  {
    ValOfEight(m);
    TwoPow253();
    DivModUnique(L - 2, Pow(2, 253), 0, L - 2);
  }

  lemma TwoPow253()
    ensures Pow(2, 253) == TWO256 / 8
  {
    TwoPowers();
    PowMul(2, 32, 8);
    LimbWeights();
    PowAdd(2, 253, 3);
    assert Pow(2, 3) == 8;
  }

  /** The bits of v from bit k up, as a number: v / 2^k. */
  function High(v: nat, k: nat): nat
  {
    PowPositive(2, k);
    v / Pow(2, k)
  }

  /** The exponent prefix grows by one bit: n / 2^i = 2 (n / 2^(i+1)) + bit i of n. */
  lemma ExponentStep(n: nat, i: nat)
    ensures High(n, i) == 2 * High(n, i + 1) + Bit(n, i)
  {
    PowPositive(2, i);
    assert Pow(2, i + 1) == 2 * Pow(2, i);
    DivDiv(n, Pow(2, i), 2);
    assert Pow(2, i) * 2 == Pow(2, i + 1);
  }

  lemma SquareModL(v: int, e: nat)
    ensures (Exp(v, e) % L) * (Exp(v, e) % L) % L == Exp(v, 2 * e) % L
  {
    ModProduct(Exp(v, e), Exp(v, e), L);
    ExpDouble(v, e);
  }


  /** Multiplying x mod L by v gives x·v mod L: the multiply half of a square-and-multiply step. */
  lemma MulReduced(x: int, v: int, y: int)
    requires y == x * v
    ensures (x % L) * v % L == y % L
  {
    ModProduct(x, v, L);
    ModProduct(x % L, v, L);
    assert (x % L) % L == x % L;
  }

  /** Reducing the factors of a product does not change it modulo m. */
  lemma ModProduct(a: int, b: int, m: int)
    requires m > 0
    ensures (a * b) % m == ((a % m) * (b % m)) % m
  {
    var qa, qb, ra, rb := a / m, b / m, a % m, b % m;
    assert a == qa * m + ra && b == qb * m + rb;
    assert a * b == ra * rb + m * (qa * b + ra * qb) by {
      assert a * b == (qa * m + ra) * b;
      assert ra * b == ra * (qb * m + rb);
    }
    ModAddMultiple(ra * rb, m, qa * b + ra * qb);
  }

  /**
   * crypto_x25519_inverse: in^(L-2) mod L with every product kept in
   * Montgomery form x·2^256 mod L.  The input is brought in by reducing
   * in·2^256 with mod_l (written through out, then read back), the chain
   * starts from 1 in Montgomery form, and a last redc of the result padded
   * with zeros takes it out again.
   */
  method X25519Inverse(out: array<int>, inp: seq<int>)
    requires out.Length == 32 && |inp| == 32 && IsBytes(inp)
    modifies out
    ensures out[..] == LeBytes(Exp(ValBytes(inp), L - 2) % L, 32)
  {
    LimbConstants();
    ghost var v := ValBytes(inp);
    var mInv := new int[8](k => if 0 <= k < 8 then MONT_ONE_LIMBS[k] else 0);
    assert mInv[..] == MONT_ONE_LIMBS;
    InitialMontgomery(v);
    var mScl := MontgomeryForm(out, inp);
    var product := new int[16](_ => 0);
    MontPower(mInv, product, mScl, v);
    FromMontgomery(mInv, product, Exp(v, L - 2));
    StoreLeBuf(out, mInv[..]);
  }

  /**
   * The loop of crypto_x25519_inverse: over bits 252..0 of L - 2, square the
   * form of v^e and multiply by the form of v when the bit is set.
   */
  method MontPower(mInv: array<int>, product: array<int>, mScl: array<int>, ghost v: int)
    requires mInv.Length == 8 && product.Length == 16 && mScl.Length == 8
    requires mInv != product && mScl != product && mScl != mInv
    requires IsLimbs(product[..]) && IsLimbs(mInv[..]) && Val(mInv[..]) < L && MontForm(Val(mInv[..]), Exp(v, High(L - 2, 253)))
    requires IsLimbs(mScl[..]) && Val(mScl[..]) < L && MontForm(Val(mScl[..]), v)
    modifies mInv, product
    ensures IsLimbs(product[..]) && IsLimbs(mInv[..]) && Val(mInv[..]) < L
    ensures MontForm(Val(mInv[..]), Exp(v, L - 2))
  {
    ExponentConstant();
    var i := 252;
    while i >= 0
      invariant -1 <= i <= 252 && IsLimbs(product[..])
      invariant IsLimbs(mInv[..]) && Val(mInv[..]) < L
      invariant MontForm(Val(mInv[..]), Exp(v, High(L - 2, i + 1)))
    {
      var bit := ScalarBit(LM2, i);
      ExponentStep(L - 2, i);
      MontLadderStep(mInv, product, mScl, bit, v, High(L - 2, i + 1));
      i := i - 1;
    }
    assert High(L - 2, 0) == L - 2;
  }

  /**
   * One turn of the loop of crypto_x25519_inverse: redc(m_inv, m_inv^2), then
   * redc(m_inv, m_inv·m_scl) when the exponent bit is set, taking the form
   * of v^e to the form of v^(2e + bit).
   */
  method MontLadderStep(mInv: array<int>, product: array<int>, mScl: array<int>, bit: int, ghost v: int, ghost e: nat)
    requires mInv.Length == 8 && product.Length == 16 && mScl.Length == 8
    requires mInv != product && mScl != product && mScl != mInv
    requires bit == 0 || bit == 1
    requires IsLimbs(product[..]) && IsLimbs(mInv[..]) && Val(mInv[..]) < L && MontForm(Val(mInv[..]), Exp(v, e))
    requires IsLimbs(mScl[..]) && Val(mScl[..]) < L && MontForm(Val(mScl[..]), v)
    modifies mInv, product
    ensures IsLimbs(product[..]) && IsLimbs(mInv[..]) && Val(mInv[..]) < L
    ensures MontForm(Val(mInv[..]), Exp(v, 2 * e + bit))
  {
    ghost var m0 := Val(mInv[..]);
    MontMultiply(mInv, product, mInv[..], mInv[..]);
    MontSquareStep(Val(mInv[..]), m0, v, e);
    if bit == 1 {
      ghost var m2 := Val(mInv[..]);
      MontMultiply(mInv, product, mInv[..], mScl[..]);
      // Multiplying the form of v^(2e) by the form of v gives the form of v^(2e+1).
      MontProduct(Val(mInv[..]), m2, Val(mScl[..]), Exp(v, 2 * e), v);
      assert Exp(v, 2 * e + 1) == Exp(v, 2 * e) * v;
    }
  }

  /**
   * The last block of crypto_x25519_inverse: COPY(product, m_inv, 8),
   * ZERO(product + 8, 8), redc(m_inv, product) turns the form of e into e mod L.
   */
  method FromMontgomery(mInv: array<int>, product: array<int>, ghost e: int)
    requires mInv.Length == 8 && product.Length == 16 && mInv != product
    requires IsLimbs(mInv[..]) && IsLimbs(product[..]) && Val(mInv[..]) < L && MontForm(Val(mInv[..]), e)
    modifies mInv, product
    ensures IsLimbs(mInv[..]) && Val(mInv[..]) == e % L
  {
    ghost var mont := Val(mInv[..]);
    CopyLimbs(product, mInv[..]);
    Zero(product, 8, 16);
    PaddedValue(product[..], mInv[..]);
    ScalarConstants();
    Redc(mInv, product[..]);
    MontLeave(Val(mInv[..]), mont, e);
  }

  /**
   * The first block of crypto_x25519_inverse: m_scl = in·2^256 mod L, through
   * a 16-limb buffer whose low half is zero and a round trip through out.
   */
  method MontgomeryForm(out: array<int>, inp: seq<int>) returns (mScl: array<int>)
    requires out.Length == 32 && |inp| == 32 && IsBytes(inp)
    modifies out
    ensures fresh(mScl) && mScl.Length == 8
    ensures IsLimbs(mScl[..]) && Val(mScl[..]) < L && MontForm(Val(mScl[..]), ValBytes(inp))
  {
    var tmp := new int[16](_ => 0);
    Zero(tmp, 0, 8);
    LoadLeBuf(tmp, 8, inp, 8);
    ShiftedInput(tmp[..], ValBytes(inp));
    ModL(out, tmp[..]);
    ScalarConstants();
    ReadBack((ValBytes(inp) * TWO256) % L);
    mScl := new int[8](_ => 0);
    LoadLeBuf(mScl, 0, out[..], 8);
    assert mScl[0..8] == mScl[..];
  }

  /**
   * ZERO(product, 16); multiply(product, a, b); redc(m, product): the step
   * the Montgomery chain repeats.  For a, b below L it leaves m = a·b/2^256
   * modulo L.
   */
  method MontMultiply(m: array<int>, product: array<int>, a: seq<int>, b: seq<int>)
    requires m.Length == 8 && product.Length == 16 && m != product
    requires IsLimbs(m[..]) && IsLimbs(product[..])
    requires |a| == 8 && |b| == 8 && IsLimbs(a) && IsLimbs(b) && Val(a) < L && Val(b) < L
    modifies m, product
    ensures IsLimbs(m[..]) && IsLimbs(product[..]) && Reduced(Val(m[..]), Val(a) * Val(b))
  {
    Zero(product, 0, 16);
    ZerosValue(product[..8]);
    Multiply(product, a, b);
    ScalarConstants();
    LimbsBound(a);
    LimbsBound(b);
    assert Val(a) * Val(b) < L * TWO256 by {
      MulLe(Val(a), L, Val(b));
      MulLe(Val(b), TWO256, L);
    }
    Redc(m, product[..]);
  }

  /** Eight zero limbs below the limbs of v make v·2^256. */
  lemma ShiftedInput(t: seq<int>, v: int)
    requires |t| == 16 && IsLimbs(t[8..16]) && Val(t[8..16]) == v
    requires forall k :: 0 <= k < 8 ==> t[k] == 0
    ensures IsLimbs(t) && Val(t) == v * TWO256
  {
    ZerosValue(t[..8]);
    EvalSplit(t, 8, BASE);
    LimbWeights();
    assert t[8..] == t[8..16];
    assert t == t[..8] + t[8..];
  }

  /** Eight limbs followed by eight zeros have the value of the eight limbs. */
  lemma PaddedValue(t: seq<int>, s: seq<int>)
    requires |t| == 16 && |s| == 8 && IsLimbs(t) && t[..8] == s
    requires forall k :: 8 <= k < 16 ==> t[k] == 0
    ensures Val(t) == Val(s)
  {
    EvalSplit(t, 8, BASE);
    ZerosValue(t[8..]);
  }

  /** 1 in Montgomery form is 2^256 mod L, the start of the chain. */
  lemma InitialMontgomery(v: int)
    ensures MONT_ONE < L && MontForm(MONT_ONE, Exp(v, High(L - 2, 253)))
  {
    ScalarConstants();
    TwoPow253();
    DivModUnique(L - 2, Pow(2, 253), 0, L - 2);
  }

  /** Multiplying by 2^256 is injective modulo L: 2^256 has the inverse MONT_R_INV. */
  lemma MontCancel(x: int, y: int)
    requires (x * TWO256) % L == (y * TWO256) % L
    ensures x % L == y % L
  {
    ScalarConstants();
    MontUnit(x);
    MontUnit(y);
  }

  /** x mod L = (x·2^256 mod L)·MONT_R_INV mod L. */
  lemma MontUnit(x: int)
    ensures x % L == ((x * TWO256) % L * MONT_R_INV) % L
  {
    ScalarConstants();
    var r := TWO256 * MONT_R_INV;
    ModProduct(x, r, L);
    assert (x % L) * (r % L) == x % L;
    assert x * r == (x * TWO256) * MONT_R_INV;
    ModProduct(x * TWO256, MONT_R_INV, L);
    assert MONT_R_INV % L == MONT_R_INV;
  }

  /** m is x in Montgomery form: x·2^256 mod L. */
  ghost predicate MontForm(m: int, x: int)
  {
    m == (x * TWO256) % L
  }

  /** u is what redc leaves from the wide value t: below L, and u·2^256 = t (mod L). */
  ghost predicate Reduced(u: int, t: int)
  {
    0 <= u < L && (u * TWO256) % L == t % L
  }

  /** A Montgomery product of the forms of x and y is the form of x·y. */
  lemma MontProduct(u: int, a: int, b: int, x: int, y: int)
    requires Reduced(u, a * b) && MontForm(a, x) && MontForm(b, y)
    ensures MontForm(u, x * y)
  {
    var xw, yw, m := x * TWO256, y * TWO256, x * y * TWO256;
    ModProduct(xw, yw, L);
    assert xw % L == a && yw % L == b;
    Regroup(x, y, TWO256);
    assert (m * TWO256) % L == (u * TWO256) % L;
    MontCancel(u, m);
    assert u % L == u;
  }

  lemma Regroup(x: int, y: int, w: int)
    ensures (x * w) * (y * w) == (x * y * w) * w
  {
  }

  /** Squaring the form of v^e gives the form of v^(2e). */
  lemma MontSquareStep(u: int, m: int, v: int, e: nat)
    requires Reduced(u, m * m) && MontForm(m, Exp(v, e))
    ensures MontForm(u, Exp(v, 2 * e))
  {
    MontProduct(u, m, m, Exp(v, e), Exp(v, e));
    ExpDouble(v, e);
  }


  /** Leaving Montgomery form: redc of the form of e is e mod L. */
  lemma MontLeave(u: int, m: int, e: int)
    requires Reduced(u, m) && MontForm(m, e)
    ensures u == e % L
  {
    ScalarConstants();
    assert m % L == m;
    MontCancel(u, e);
  }

  /**
   * modl_l_inverse: config.h picks one of the two chains at compile time;
   * either leaves the same 32 bytes.
   */
  method Inverse(out: array<int>, inp: seq<int>, reduction: Reduction)
    requires out.Length == 32 && |inp| == 32 && IsBytes(inp)
    modifies out
    ensures out[..] == LeBytes(Exp(ValBytes(inp), L - 2) % L, 32)
  {
    match reduction {
      case Barrett => InverseModL(out, inp);
      case Montgomery => X25519Inverse(out, inp);
    }
  }
}
