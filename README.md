# Ristretto255 in C, modelled in Dafny

This project models the arithmetic and encoding core of a small C implementation of the Ristretto255 prime-order group (RFC 9496). The core has three layers.

- **The field GF(p), p = 2^255 − 19, on eight 32-bit limbs** (`curve25519.c`, and its renamed copy `gf25519.c`).
  - Addition and subtraction with a final conditional reduction.
  - Comba multiplication followed by a two-pass fold (2^255 ≡ 19, 2^256 ≡ 38).
  - Squaring, repeated squaring, conditional reduction, copy, constant-time swap, select and compare.
- **Scalars modulo the group order L = 2^252 + 27742317777372353535851937790883648493** (`modl.c`).
  - The schoolbook product and the conditional subtraction of L.
  - Barrett's full reduction `mod_l` and Montgomery's `redc`.
  - The two exponentiation chains computing in^(L−2) mod L: one by Barrett, one in the Montgomery domain.
- **The Ristretto255 layer** (`ristretto255.c`).
  - `pack`/`unpack`, the sign helpers, `fneg` and `fabsolute`.
  - The exponent chains `pow3`, `pow7` and `pow2523`.
  - `inv_sqrt` (SQRT_RATIO_M1).
  - The Elligator map `MAP` and `hash_to_group`.
  - `ristretto255_decode` and `ristretto255_encode`.
  - The unified extended-coordinates addition `ge25519_addition`, `cswap`, and the 256-step ladder `ristretto255_scalarmult`.

## How it is modelled

**Numbers.** A limb array is a Dafny `array<int>` whose entries are 32-bit words. A byte buffer is an `array<int>` of 32 entries, each below 256. `Limbs.Val` and `Limbs.ValBytes` give the integer such a buffer holds, least significant digit first.

**The field layer.** Module `Field` gives each field routine as the exact integer it leaves behind, for every 256-bit input:
- `RedValue` is `curve25519Red`. It drops the carry of A + 19, just as the C code does. So a value from 2^256 − 19 up comes back unchanged.
- `FAdd` and `FSub` are the wrapped sum or difference, followed by `RedValue`.
- `FMul` is the product modulo p.

**The field routines.** The routines of `curve25519.c` are methods of module `Curve25519`, working in place on arrays. The output may be the same array as an input, as `ristretto255.c` relies on. Each method is proved to leave the value the `Field` function gives.

**The gf25519 copy.** Module `Gf25519` models `gf25519.c`. Its build switch `USE_GF25519SELECT` is the parameter `Strategy`, and both settings are proved to give the same result.

**Scalars.** Module `ModL` models `modl.c`. The switch `MONTGOMERY_MODL_INVERSE_FLAG` is the parameter `Reduction` of `ModL.Inverse`, and both chains are proved to give the same 32 bytes.

**The Ristretto layer.** This layer is split in three modules.
- `RistrettoMath` holds the straight-line formula bodies as functions over field values: `inv_sqrt`, `MAP`, `ge25519_addition`, `decode`, `encode`, `hash_to_group` and the ladder. They follow the code as written, including its comparison polarity.
- `Ristretto255` holds the routines that loop over, or mutate, limb arrays and points: `pack`, `unpack`, `bytes_eq_32`, `fneg`, `is_neg`, `fabsolute`, `pow3`, `pow7`, `pow2523`, `ge25519_addition`, `cswap` and `ristretto255_scalarmult`. A point is a class with four limb arrays. Each method is proved to leave the value the `RistrettoMath` function gives.
- `RistrettoFixed` holds the corrected definitions for the findings below, with their intended properties proved.

**Comparisons.** `feq` is `curve25519Comp`, which returns 0 when its operands are EQUAL and 1 otherwise. The model keeps that polarity everywhere the C code uses it.

**`fabsolute`.** It is modelled for both call shapes.
- With one buffer, as at every call site, `fneg` overwrites the input before `is_neg` reads it. The sign tested is then that of −x, and the result is always non-negative.
- With two buffers, the sign of x itself decides. Every nonzero result is then negative.

## Model

| member | source | states |
|---|---|---|
| Field.RedValue | curve25519.c:234-253 | for every 256-bit A: the result is congruent to A mod p; it is A mod p when A < 2p; it is A itself when A ≥ 2^256 − 19, because the carry of A + 19 is dropped; otherwise it is A or A − p |
| Field.FAdd | curve25519.c:57-73 | the sum wraps modulo 2^256 and is then reduced: congruent to a + b when nothing wraps, and (a + b) mod p for reduced operands |
| Field.FSub | curve25519.c:83-102 | a − b + p wrapped modulo 2^256 and then reduced: congruent to a − b when it fits, and (a − b) mod p for reduced operands |
| Field.SubShape | curve25519.c:89-98 | starting the borrow chain at −19 and adding 2^255 at the top is adding p modulo 2^256 |
| Curve25519.SumLimbs | curve25519.c:63-69 | the carry loop of curve25519Add leaves (a + b) mod 2^256, even when r is a or b |
| Curve25519.Add | curve25519.c:57-73 | r holds FAdd(a, b): (a + b) mod p for a, b < p; r may alias a or b |
| Curve25519.DiffLimbs | curve25519.c:85-98 | the borrow loop started at −19, plus 2^31 on the top limb, leaves (a − b + p) mod 2^256 |
| Curve25519.TopAdd | curve25519.c:98 | adding 0x80000000 to limb 7 adds 2^255 to the value modulo 2^256 |
| Curve25519.Sub | curve25519.c:83-102 | r holds FSub(a, b): (a − b) mod p for a, b < p; r may alias a or b |
| Curve25519.RedCandidate | curve25519.c:240-249 | B = ((A + 19) mod 2^256 + 2^255) mod 2^256, the 2^255 standing for the wrapping subtraction of 0x80000000 |
| Curve25519.RedChoice | curve25519.c:249-252 | the top bit of B is 0 or 1, and choosing B on 0 and A on 1 yields RedValue(A) |
| Curve25519.TopBit | curve25519.c:252 | bit 31 of limb 7 is the value's bit 255, and masking it off reduces the value modulo 2^255 |
| Curve25519.Red | curve25519.c:234-253 | r holds RedValue(A); hence A mod p < p for A < 2p, so a second reduction leaves it unchanged |
| Curve25519.Select | curve25519.c:309-324 | c = 0 gives r = a and c = 1 gives r = b, limb by limb |
| Curve25519.Copy | curve25519.c:262-271 | a receives b's eight limbs and b is unchanged |
| Curve25519.Swap | curve25519.c:281-298 | c = 1 exchanges all eight limbs of a and b and c = 0 leaves both as they were, so two swaps with the same c restore both |
| Curve25519.SwapWord | curve25519.c:294-296 | dummy = mask & (a ^ b) applied to both words exchanges them for the all-ones mask and keeps them for the zero mask |
| Curve25519.Comp | curve25519.c:334-351 | returns 0 exactly when all eight limbs are equal and 1 otherwise (feq's polarity) |
| Curve25519.EvalInjectiveLimbs | curve25519.c:343-350 | limb strings that differ hold different values, so Comp's answer is also value equality |
| Curve25519.Comba | curve25519.c:126-156 | the 16-limb intermediate u equals a·b exactly, before any folding |
| Curve25519.Column | curve25519.c:129-155 | one column of Comba adds the column's products to the running (temp, c) pair without losing any carry |
| Products.ColumnsProduct | curve25519.c:126-156 | once every column is in, the column sums weighted by 2^(32k) add up to exactly a·b |
| Curve25519.ProductFits | curve25519.c:156 | a product of an m-limb and an n-limb value fits in m + n limbs, so after the sixteenth column no carry is left |
| Curve25519.FoldHigh | curve25519.c:159-170 | bit 255 is folded in as 19 and the high eight limbs as 38 times their value: the low limbs plus the carry out equal 19·bit255 + (low mod 2^255) + 38·high |
| Curve25519.FoldCarry | curve25519.c:173-185 | the second pass folds the carry as 38 and bit 255 as 19 into the low eight limbs |
| Curve25519.FirstPassBound | curve25519.c:164-170 | the carry out of the first pass is below 39 |
| Curve25519.FoldValue | curve25519.c:158-185 | the two passes leave a value below 2p that is congruent to the 512-bit product |
| Curve25519.Fold | curve25519.c:158-185 | the low eight limbs hold a value below 2p congruent to the 16-limb input modulo p |
| Curve25519.Mul | curve25519.c:113-189 | r holds (a·b) mod p; r may alias a or b |
| Curve25519.Sqr | curve25519.c:199-203 | r holds (a·a) mod p: it is curve25519Mul(r, a, a) |
| Curve25519.Pwr2 | curve25519.c:213-225 | r holds a^(2^n) mod p after the first squaring and n − 1 more; for n = 0 the first squaring still happens, giving a^2 |
| Gf25519.Red | gf25519.c:268-292 | both builds (Select, or Copy then Swap on the negated bit) leave RedValue(A): they give identical limbs for every A |
| Gf25519.Add | gf25519.c:81-97 | r holds FAdd(a, b), the same value curve25519Add leaves, under either build |
| Gf25519.Sub | gf25519.c:109-128 | r holds FSub(a, b), the same value curve25519Sub leaves |
| Gf25519.Mul | gf25519.c:141-217 | r holds (a·b) mod p, as curve25519Mul |
| Gf25519.Sqr | gf25519.c:229-233 | r holds (a·a) mod p |
| Gf25519.Pwr2 | gf25519.c:245-257 | r holds a^(2^n) mod p, and a^2 for n = 0 |
| ModL.LimbConstants | modl.c:62-65 | the limbs of L, of the Barrett constant, of redc's k and of 1 in Montgomery form hold those numbers |
| ModL.ScalarConstants | modl.c:111-121 | the Barrett constant is ⌊2^512 / L⌋; k·L ≡ −1 mod 2^256; the Montgomery one is 2^256 mod L; and the inverse of 2^256 mod L is as used |
| ModL.ExponentConstant | modl.c:315-320 | the bytes Lm2 encode L − 2 |
| ModL.StoreLe | modl.c:37-42 | four bytes, least significant first, whose value is the word |
| ModL.LoadLe | modl.c:169-176 | the word whose value is the four little-endian bytes |
| ModL.LoadStore | modl.c:169-176 | load32_le and store32_le are inverse to each other on words and on 4-byte strings |
| ModL.StoreLeBuf | modl.c:44-47 | dst is the 4n-byte little-endian encoding of the n-limb value |
| ModL.LoadLeBuf | modl.c:178-181 | the n limbs written at dst + off hold the value of the 4n bytes, and nothing else in dst changes |
| ModL.ScalarBit | modl.c:50-53 | 0 for i < 0, and bit i of the 32-byte little-endian scalar otherwise |
| ModL.BitOfBytes | modl.c:52 | bit i of the value is bit i mod 8 of byte i / 8 |
| ModL.MulRow | modl.c:72-77 | one row adds a[i]·b, shifted by i limbs, into p, leaving its carry out |
| ModL.Multiply | modl.c:68-79 | p holds the old low \|b\| limbs of p plus a·b: each row's carry overwrites limb i + \|b\| instead of adding to it, so p = a·b when p starts zeroed, as every caller arranges |
| ModL.MulLow | modl.c:138-145 | the truncated product loop adds a·b into the low eight limbs modulo 2^256 and leaves the rest |
| ModL.IsAboveL | modl.c:81-91 | returns 1 exactly when x ≥ L and 0 otherwise |
| ModL.CarryOfDifference | modl.c:85-89 | the carry out of x + (2^256 − L) is 1 exactly when x ≥ L |
| ModL.RemoveL | modl.c:97-106 | subtracts L exactly when x ≥ L, so r = x mod L for x < 2L |
| ModL.BarrettQuotient | modl.c:118-132 | limbs 16..23 of xr hold ⌊x·r / 2^512⌋ mod 2^256 |
| ModL.BarrettProduct | modl.c:133-145 | the low limbs of xr hold (quotient · L) mod 2^256 |
| ModL.SubtractLow | modl.c:146-152 | xr = x − xr modulo 2^256 on the low eight limbs |
| ModL.BarrettBound | modl.c:133-136 | x − ⌊x·⌊2^512/L⌋ / 2^512⌋·L lies in [0, 2L) |
| ModL.BarrettValue | modl.c:133-152 | the Barrett remainder is below 2L and congruent to x modulo L |
| ModL.ModL | modl.c:109-158 | reduced is the 32-byte little-endian encoding of x mod L, for every 512-bit x |
| ModL.Zero | modl.c:137 | ZERO clears the limbs lo..hi and leaves the others |
| ModL.CopyLimbs | modl.c:293 | COPY puts src at the start of dst and leaves the rest |
| ModL.AddWide | modl.c:228-234 | t = (t + x) mod 2^512 |
| ModL.RedcQuotient | modl.c:196-199 | s·L + x is a multiple of 2^256 whose quotient is below 2L |
| ModL.RedcValue | modl.c:236-239 | the high half of t is below 2L and is x·2^(−256) modulo L |
| ModL.Redc | modl.c:200-243 | for x < L·2^256: u < L and u·2^256 ≡ x (mod L) |
| ModL.MultiplyModL | modl.c:305-310 | r = (a·b) mod L |
| ModL.ExponentStepModL | modl.c:324-329 | one step squares and, on a set bit, multiplies: in^e becomes in^(2e + bit) |
| ModL.MulReduced | modl.c:326-328 | multiplying x mod L by v gives x·v mod L, the multiply half of a square-and-multiply step |
| ModL.ExponentStep | modl.c:323-330 | the bits of L − 2 read from 252 down to 0 rebuild the exponent one bit at a time |
| ModL.PowerModL | modl.c:321-330 | starting from 1, the 253 steps leave in^(L−2) mod L |
| ModL.InverseModL | modl.c:314-334 | out is the 32-byte encoding of in^(L−2) mod L |
| ModL.MontgomeryForm | modl.c:260-271 | m_scl is below L and is in·2^256 mod L |
| ModL.MontMultiply | modl.c:279-281 | multiply on a zeroed product followed by redc gives (a·b)·2^(−256) mod L |
| ModL.MontProduct | modl.c:280-281 | the Montgomery product of the forms of x and y is the form of x·y |
| ModL.InitialMontgomery | modl.c:255-258 | m_inv's start 2^256 mod L is the Montgomery form of 1 |
| ModL.MontLadderStep | modl.c:277-288 | one step keeps m_inv the Montgomery form of in^e, with e becoming 2e + bit |
| ModL.MontPower | modl.c:277-288 | the loop leaves m_inv in Montgomery form of in^(L−2) |
| ModL.MontLeave | modl.c:289-295 | redc of the form padded with zeros gives the plain value modulo L |
| ModL.FromMontgomery | modl.c:289-295 | m_inv holds in^(L−2) mod L after leaving the Montgomery domain |
| ModL.X25519Inverse | modl.c:246-300 | out is the 32-byte encoding of in^(L−2) mod L |
| ModL.Inverse | modl.h:56-62 | either build of modl_l_inverse produces the same 32 bytes, in^(L−2) mod L |
| RistrettoMath.ConstantFacts | ristretto255_constants.h:29-38 | every constant is reduced; EDWARDS_D2 = 2·EDWARDS_D mod p; SQRT_M1 is even and squares to −1 |
| RistrettoMath.SqrtM1Limbs | ristretto255_constants.h:32 | the limbs of SQRT_M1 hold the number the formulas use (likewise FModulusLimbs, EdwardsDLimbs and the rest) |
| RistrettoMath.Pack | ristretto255.c:52-61 | 32 bytes whose value is RedValue(x) |
| RistrettoMath.IsNegBytes | ristretto255.c:114-116 | in[0] & 1 is the parity of the number the bytes write |
| RistrettoMath.IsNeg | ristretto255.c:108-112 | the parity of RedValue(x), the value pack writes |
| RistrettoMath.FNeg | ristretto255.c:97-101 | p − x for reduced x, so fneg(0) is p, a non-canonical zero; x + fneg(x) ≡ 0 for x ≤ 2p |
| RistrettoMath.NegFlipsSign | ristretto255.c:97-112 | for 0 < x < p, is_neg(fneg(x)) = 1 − is_neg(x) |
| RistrettoMath.NegZero | ristretto255.c:97-101 | fneg(0) = p, whose sign is 0 |
| RistrettoMath.Abs | ristretto255.c:122-128 | fabsolute(x, x): for reduced x the result is x or p − x and its sign is 0 |
| RistrettoMath.AbsSeparate | ristretto255.c:122-128 | fabsolute(out, in) with two buffers: for 0 < x < p the result is x or p − x and its sign is 1 |
| RistrettoMath.Pow3 | ristretto255.c:133-137 | a^3 mod p |
| RistrettoMath.Pow7 | ristretto255.c:140-144 | a^7 mod p |
| RistrettoMath.Pow58 | ristretto255.c:148-159 | x^((p−5)/8) mod p, the reduced value pow2523 is proved to leave |
| RistrettoMath.PowerSteps | ristretto255.c:133-144 | squaring then multiplying gives a^3, and squaring a^3 then multiplying gives a^7 |
| RistrettoMath.InvSqrt | ristretto255.c:169-234 | inv_sqrt as written: the flag is 0 or 1 and the root is at most p with sign 0 |
| RistrettoMath.Candidate | ristretto255.c:180-193 | r2 = (u·v^3)·(u·v^7)^((p−5)/8) mod p: the reductions pow3, pow7, fmul and pow2523 make along the way do not change the value mod p |
| RistrettoMath.Check | ristretto255.c:195-198 | check = v·r2^2 mod p, a reduced value |
| RistrettoMath.FlagOr | ristretto255.c:220-230 | the C int OR (flipped_sign_sqrt \| flipped_sign_sqrt_i and correct_sign_sqrt \| flipped_sign_sqrt) is 0 or 1, 1 when either flag is 1, and equals the bitwise OR for 0/1 flags |
| RistrettoMath.Root | ristretto255.c:213-225 | the rotated or plain candidate, made non-negative: at most p, sign 0 |
| RistrettoMath.NonNegative | ristretto255.c:221-225 | r or p − r, whichever has sign 0 |
| RistrettoMath.FlagsDiffer | ristretto255.c:205-206 | for reduced u, feq(check, u) and feq(check, −u) are never both 0 |
| RistrettoMath.InvSqrtAlwaysSquare | ristretto255.c:205-227 | the flag is 1 for every reduced u, whether or not u/v is a square |
| RistrettoMath.InvSqrtOfOne | ristretto255.c:169-234 | inv_sqrt(1, 1) returns (1, SQRT_M1), and 1·SQRT_M1^2 = p − 1, not 1 |
| RistrettoMath.PointAdd | ristretto255.c:318-357 | the result is a point in extended coordinates: X·Y = T·Z |
| RistrettoMath.ExtendedProduct | ristretto255.c:353-356 | (e·f)(h·g) = (e·h)(g·f) modulo p, for any four temporaries |
| RistrettoMath.PointAddCommutes | ristretto255.c:318-357 | ge25519_addition(p, q) = ge25519_addition(q, p) |
| RistrettoMath.PointAddIsAddition | ristretto255.c:318-357 | ge25519_addition is defined on all points and returns points with X·Y = T·Z |
| RistrettoMath.MapR | ristretto255.c:256-258 | r = SQRT_M1·t^2 is reduced |
| RistrettoMath.MapU | ristretto255.c:259-261 | u = (r + 1)·ONE_MINUS_D_SQ is reduced |
| RistrettoMath.MapV | ristretto255.c:262-267 | v = (−1 − r·d)·(r + d) is reduced |
| RistrettoMath.MapPoint | ristretto255.c:272-305 | the point MAP builds from inv_sqrt's answer satisfies X·Y = T·Z |
| RistrettoMath.Map | ristretto255.c:247-308 | MAP as written returns a point with X·Y = T·Z |
| RistrettoMath.CanonicalAsWritten | ristretto255.c:383-389 | bytes_eq_32(pack(unpack(b)), b) holds exactly for the values below p and the values from 2^256 − 19 up |
| RistrettoMath.RedMiddle | curve25519.c:241-252 | between p and 2^256 − 19, curve25519Red subtracts p once |
| RistrettoMath.NonCanonicalAccepted | ristretto255.c:383-397 | the even bytes of 2^256 − 2 > p pass both of decode's encoding checks |
| RistrettoMath.DecodeU1 | ristretto255.c:406-407 | u1 = 1 − s^2, as an eight-limb value |
| RistrettoMath.DecodeU2 | ristretto255.c:408 | u2 = 1 + s^2, as an eight-limb value |
| RistrettoMath.DecodeV | ristretto255.c:411-425 | v = −(d·u1^2) − u2^2, as an eight-limb value |
| RistrettoMath.DecodeRatio | ristretto255.c:426-430 | the denominator v·u2^2 handed to inv_sqrt |
| RistrettoMath.DecodePoint | ristretto255.c:432-453 | x = \|2·s·Dx\|, y = u1·Dy, z = 1, t = x·y: a point with X·Y = T·Z |
| RistrettoMath.DecodeStatus | ristretto255.c:455-473 | 0 or 1, and 0 exactly when the flag is set, t is non-negative and y is ZERO, because feq(y, 0) is 1 for y ≠ 0 |
| RistrettoMath.Decode | ristretto255.c:373-474 | status 0 or 1; non-canonical or odd bytes return 1 and leave the point untouched; otherwise the point written has z = 1 and X·Y = T·Z |
| RistrettoMath.StatusZeroY | ristretto255.c:467-473 | with the flag set, the status is 0 exactly when y = 0 |
| RistrettoMath.DecodeAcceptsZeroY | ristretto255.c:430-473 | past the encoding checks, decode as written accepts exactly when the recovered y is zero |
| RistrettoMath.DecodeMinusOne | ristretto255.c:373-474 | the encoding of p − 1 decodes to y = 0 and is accepted |
| RistrettoMath.EncodeU1 | ristretto255.c:489-491 | u1 = (z + y)·(z − y), as an eight-limb value |
| RistrettoMath.EncodeRatio | ristretto255.c:493-499 | the denominator u1·u2^2 handed to inv_sqrt, with u2 = x·y |
| RistrettoMath.EncodeWith | ristretto255.c:503-554 | whatever inverse square root is given, s is at most p and has sign 0 |
| RistrettoMath.Unrotated | ristretto255.c:535-554 | s = \|den·(z − y')\| has sign 0 |
| RistrettoMath.EncodedSign | ristretto255.c:554-556 | a value of at most p with sign 0 packs to bytes below p whose bit 0 is clear |
| RistrettoMath.Encode | ristretto255.c:480-560 | 32 bytes, below p, with bit 0 of byte 0 clear |
| RistrettoMath.MaskTop | ristretto255.c:593-594 | t[31] &= 0x7F reduces the half modulo 2^255 |
| RistrettoMath.MaskValue | ristretto255.c:593 | clearing bit 7 of byte 31 takes the value modulo 2^255 |
| RistrettoMath.HashToGroup | ristretto255.c:575-610 | the encoding of MAP(h[0..32] mod 2^255) + MAP(h[32..64] mod 2^255): 32 bytes below p with bit 0 clear |
| RistrettoMath.LadderBit | ristretto255.c:621 | each rung's bit is 0 or 1 |
| RistrettoMath.LadderBitIsBit | ristretto255.c:621 | (s[i/8] >> (i & 7)) & 1 is bit i of the scalar's value |
| RistrettoMath.Rung | ristretto255.c:622-625 | bit 1 gives (R0 + R1, 2·R1) and bit 0 gives (2·R0, R0 + R1), both points with X·Y = T·Z |
| RistrettoMath.LadderWith | ristretto255.c:620-626 | the pair after the rungs for bits i − 1 down to 0 are points, with X·Y = T·Z after at least one rung |
| RistrettoMath.Ladder | ristretto255.c:620-626 | the same, on ge25519_addition |
| RistrettoMath.NeutralAdd | ristretto255.c:318-357 | adding two points of the form (0, Y, Y, 0) gives one of that form |
| RistrettoMath.LadderWithNeutral | ristretto255.c:620-626 | for any addition that keeps neutral points neutral, the ladder from two neutral points stays neutral |
| RistrettoMath.LadderOfNeutral | ristretto255.c:615-627 | k·O = O: from two neutral points the ladder ends on two neutral points, whatever the scalar |
| RistrettoMath.LadderWithZero | ristretto255.c:620-626 | with a zero scalar every rung doubles R0, which stays neutral |
| RistrettoMath.LadderOfZero | ristretto255.c:615-627 | 0·Q = O: with a zero scalar R0 ends neutral, whatever Q |
| RistrettoFixed.CtEq | ristretto255.c:205-209 | 1 exactly when the operands are equal: the comparison inv_sqrt needs |
| RistrettoFixed.Ratio | ristretto255.c:203-232 | the sign checks of inv_sqrt with CT_EQ: flag 0 or 1, root at most p with sign 0 |
| RistrettoFixed.InvSqrt | ristretto255.c:169-234 | the intended inv_sqrt: flag 0 or 1, root non-negative |
| RistrettoFixed.RatioSquares | ristretto255.c:203-232 | whatever the candidate, a set flag means v·root^2 = u |
| RistrettoFixed.InvSqrtSquares | ristretto255.c:169-234 | when the flag is set, v·root^2 = u, and the root is the non-negative one |
| RistrettoFixed.RotatedCases | ristretto255.c:208-216 | with the rotation, the root squares to u, both when check = −u and when check = u = −u·SQRT_M1 |
| RistrettoFixed.RootPlain | ristretto255.c:221-225 | making r non-negative does not change v·r^2 |
| RistrettoFixed.RootRotated | ristretto255.c:213-225 | multiplying r by SQRT_M1 negates v·r^2 |
| RistrettoFixed.RotationFixesOnlyZero | ristretto255.c:208-209 | a reduced u equal to −u·SQRT_M1 is 0 |
| RistrettoFixed.InvSqrtOfOne | ristretto255.c:169-234 | SQRT_RATIO_M1(1, 1) = (1, p − 1): the non-negative root of 1 is p − 1, which squares to 1 |
| RistrettoFixed.Canonical | ristretto255.c:383-389 | the intended encoding check holds exactly for the values below p |
| RistrettoFixed.Status | ristretto255.c:455-473 | 0 exactly when the flag is set, t is non-negative and y is nonzero |
| RistrettoFixed.DecodeFrom | ristretto255.c:399-474 | an accepted point has z = 1, X·Y = T·Z, y ≠ 0 and t non-negative |
| RistrettoFixed.Decode | ristretto255.c:373-474 | values ≥ p or odd leave the point untouched and return 1; an accepted encoding is below p and even, and its point has z = 1, X·Y = T·Z, y ≠ 0 and t non-negative |
| RistrettoFixed.DecodeMinusOne | ristretto255.c:467-472 | the encoding of p − 1 is rejected |
| RistrettoFixed.Map | ristretto255.c:247-308 | MAP with the intended inv_sqrt returns a point with X·Y = T·Z |
| RistrettoFixed.Encode | ristretto255.c:480-560 | encode with the intended inv_sqrt: 32 bytes below p with bit 0 clear |
| RistrettoFixed.HashToGroup | ristretto255.c:575-610 | hash_to_group over the intended MAP and encode: the encoding of the sum of the two masked halves' images |
| Ristretto255.Constant | ristretto255_constants.h:31-38 | a fresh eight-limb array holding one of the constant field_elem tables, limb for limb |
| Ristretto255.Pack | ristretto255.c:52-61 | out holds RistrettoMath.Pack of the input: 32 bytes whose value is RedValue(x) |
| Ristretto255.StoreLimbs | ristretto255.c:55-60 | the four byte stores per limb write the limbs' value little-endian |
| Ristretto255.Unpack | ristretto255.c:63-70 | limb i is bytes 4i..4i+3 little-endian, so the limbs' value is the bytes' value |
| Ristretto255.BytesEq32 | ristretto255.c:78-86 | returns 1 exactly when all 32 bytes are equal, and 0 otherwise |
| Ristretto255.IsCanonical | ristretto255.c:383-389 | unpack, pack and bytes_eq_32 give 1 exactly when RistrettoMath's check holds |
| Ristretto255.Neg | ristretto255.c:97-101 | out holds fneg(in), p − in for reduced in |
| Ristretto255.IsNeg | ristretto255.c:108-112 | returns the parity of RedValue(in) |
| Ristretto255.Absolute | ristretto255.c:122-128 | in place it leaves RistrettoMath.Abs(in); with two buffers it leaves RistrettoMath.AbsSeparate(in) |
| Ristretto255.Pow3 | ristretto255.c:133-137 | out holds a^3 mod p |
| Ristretto255.Pow7 | ristretto255.c:140-144 | out holds a^7 mod p |
| Ristretto255.ChainOnes | ristretto255.c:152-156 | down to step a = 1 every step sets one more exponent bit: 2^(251 − a) − 1 |
| Ristretto255.ChainEnd | ristretto255.c:152-156 | the exponent after the last step is 2^252 − 3 = (p − 5)/8 |
| Ristretto255.ChainStep | ristretto255.c:154-155 | squaring x^e gives x^(2e), and multiplying that by x gives x^(2e+1) |
| Ristretto255.Pow2523 | ristretto255.c:150-159 | o holds i^((p−5)/8) mod p after 251 squarings and a multiplication on every step but a = 1 |
| Ristretto255.CSwap | ristretto255.c:361-366 | b = 1 exchanges the two points and b = 0 leaves both as they were |
| Ristretto255.Sums | ristretto255.c:325-330 | a = (y1 − x1)(y2 − x2) and b = (x1 + y1)(x2 + y2) |
| Ristretto255.SumAndDifference | ristretto255.c:334-335 | h = b + a and e = b − a |
| Ristretto255.Weights | ristretto255.c:340-344 | d = 2·z1·z2 and c = t1·t2·2d |
| Ristretto255.DifferenceAndSum | ristretto255.c:346-348 | f = d − c and g = d + c |
| Ristretto255.FirstHalf | ristretto255.c:325-335 | h and e from the inputs' x and y |
| Ristretto255.SecondHalf | ristretto255.c:340-348 | f and g from the inputs' z and t |
| Ristretto255.Terms | ristretto255.c:319-348 | all four temporaries are computed from p and q alone, before r is written |
| Ristretto255.Products | ristretto255.c:353-356 | r = (e·f, h·g, g·f, e·h) |
| Ristretto255.AddPoints | ristretto255.c:318-357 | r holds ge25519_addition of the old p and q, even when r is p or q |
| Ristretto255.SetNeutral | ristretto255.c:616-619 | p becomes (0, 1, 1, 0) |
| Ristretto255.Rung | ristretto255.c:622-625 | cswap, q = q + p, p = p + p, cswap: bit 1 leaves (p + q, 2q) and bit 0 leaves (2p, p + q) |
| Ristretto255.Pass | ristretto255.c:620-626 | one pass reads the scalar's bit i and climbs one rung of the ladder |
| Ristretto255.Passes | ristretto255.c:620-626 | the loop climbs the rungs for bits 255 down to 0 |
| Ristretto255.LadderDone | ristretto255.c:626 | with no bits left the ladder leaves the pair as it is |
| Ristretto255.ScalarMult | ristretto255.c:615-627 | from (0, 1, 1, 0), 256 rungs for bits 255 down to 0 of s, whatever s, leave (p, q) = Ladder(s, 256, O, q) |
| Ristretto255.Point.constructor | ristretto255.c:576-583 | a point made of four fresh, distinct limb arrays |

## Left out

- Timing: the constant-time claims and the mask-based selection are modelled by the values they compute only.
- Group law: the model does not state that ge25519_addition is Edwards addition, that the ladder computes [s]Q, or that decode and encode are inverse on the group. These need elliptic-curve theory well beyond the limb-level proofs. The ladder is stated over ge25519_addition's own formula.
- RistrettoFixed.InvSqrtSquares: states that a set flag gives v·root^2 = u. It does not state the converse (u/v a square gives flag 1), nor that v·root^2 = SQRT_M1·u when the flag is 0. Both follow from Euler's criterion for p ≡ 5 (mod 8), which needs the primality of p, and are not proved.
- ModL.Inverse, ModL.InverseModL, ModL.X25519Inverse: the contracts give out = in^(L−2) mod L. That out·in ≡ 1 (mod L) for in ≢ 0 follows from Fermat's little theorem, which needs the primality of L, and is not proved.
- gf25519Copy, gf25519Swap, gf25519Select, gf25519Comp (gf25519.c:303-401): their text is identical to the curve25519.c routines, so module Gf25519 runs Curve25519.Copy, Swap, Select and Comp, whose rows cite curve25519.c.
- Gf25519.Add: the final carry out of the loop is dropped for all inputs, as the C code drops it. The model does not state separately that this carry is zero for reduced inputs.
- Ristretto255.Pow3, Ristretto255.Pow7: these require out and a to be different arrays. With out == a, the C code squares a into a first and so computes a^4 or a^8 instead. Every caller passes different buffers.
- Ristretto255.ScalarMult: requires p, q and s to share no storage. The C caller passes two distinct points and a separate scalar.
- RistrettoMath.Decode, Encode, Map, HashToGroup, InvSqrt: these are modelled as functions on field values. The C bodies reuse temporaries through #define; each fmul, fadd and fsub there reads its operands before writing, as Curve25519.Mul, Add and Sub are proved to allow. The returns of encode and hash_to_group, always 0, are not modelled.
- hash_to_group copies the halves with b_copy through uint32_t casts (ristretto255.c:588-589); the model takes the two 32-byte slices directly.
- The little-endian pointer casts of modl.c:308 and :332 are modelled as explicit little-endian conversion. The big-endian build (BIGENDIAN_FLAG in config.h) is not modelled.
- WIPE_BUFFER and crypto_wipe, which clear stack buffers, are treated as having no effect on values.
- The functions curve25519.h declares but never defines (curve25519Sqrt, Inv, Import, Export, SetInt, AddInt, SubInt, MulInt) are not part of this model.
- DEBUG_FLAG / DDEBUG_FLAG printf reporting in decode is output only and is not modelled.
- main.c (the test driver and its vectors), prng.c, utils.c, xxhash.h, py_modl_l_inverse.py and update_version.py are not part of this model.
- Integer widths: limbs and bytes are unbounded integers kept in range by the contracts. Each u64 carry, u32 truncation and wrapping subtraction of the C code is written out as explicit % and / on these values.

## Findings

| source | as written | input that shows it | evidently intended | confidence | as-written member | corrected member |
|---|---|---|---|---|---|---|
| ristretto255.c:383-389 | the canonicity test is bytes_eq_32(pack(unpack(b)), b), and pack's curve25519Red leaves values from 2^256 − 19 up unreduced, because it drops the carry of A + 19 | the even bytes fe ff … ff (2^256 − 2, above p) pass both encoding checks | accept exactly the encodings of values below p (RFC 9496, section 4.3.1) | proved in the model; not executed | RistrettoMath.NonCanonicalAccepted | RistrettoFixed.Canonical |
| ristretto255.c:205-209 | correct_sign_sqrt, flipped_sign_sqrt and flipped_sign_sqrt_i come from feq, which is 0 on EQUALITY, so each flag is set when check DIFFERS | inv_sqrt(1, 1) returns flag 1 and root SQRT_M1, whose square is −1, not 1; the flag is 1 for every reduced u | the flags of CT_EQ, 1 on equality (RFC 9496, section 4.2), under which a set flag means v·root^2 = u | proved in the model; not executed | RistrettoMath.InvSqrtOfOne | RistrettoFixed.InvSqrtSquares |
| ristretto255.c:467 | feq(y, F_ZERO) is 1 when y is NONZERO, so decode rejects every point with y ≠ 0 and accepts those with y = 0 | the bytes of p − 1 (ec ff … ff 7f) decode to y = 0 and return 0, where main.c:350-351 expects a rejection | reject exactly the points with y = 0 (RFC 9496, section 4.3.1) | proved in the model; not executed | RistrettoMath.DecodeMinusOne | RistrettoFixed.DecodeMinusOne |
