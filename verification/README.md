# A verified model of the IoT client SDK

The SDK authenticates a client with M-Pin Full, encrypts private messages with Sakai-Ohgishi-Kasahara keys and
AES-GCM, and talks to an MQTT broker. This project models, in Dafny, the code that every authentication and every
message runs through, and proves what it computes: the Milagro multi-precision arithmetic, the XTR exponentiation on
traces, signed-window scalar multiplication, the two key protocols, GCM and SHA-2 as they are streamed, the UTF-8 and
UTF-16 transcoders, and the session machine of the client.

`dafny verify dfyconfig.toml` checks the whole project. The configuration modelled is the default build: curve
BN254_CX, 32-bit chunks, 29-bit limbs, nine limbs to a BIG. Limb-level results are generic in the limb count, up to
16 where a bound on 64-bit accumulators is claimed.

- Arith, Algebra: integers modulo m; commutative rings and abelian groups as records of operations.
- Xtr, Fp4: exponentiation on traces over any carrier; the FP4 operations, and why they obey the trace recurrence.
- Words: machine words as bit strings: the masks and bit tricks that replace branches.
- Limbs, BigProduct, BigDiv, BigShift, BigInverse: limb arrays: carries, products, squares, shifts, shift-and-subtract
  division, inversion.
- Montgomery, FpField, Fp2, Fp2File, Fp4File: Montgomery reduction in both branches; the lazily reduced prime field; its
  extensions as programs on registers.
- FfValue, FfKaratsuba, FfInverse, FfPower: arrays of BIGs: Karatsuba in shared workspace, 2-adic inversion, modular powers.
- ScalarMul, MultiAffine: windowed scalar multiplication over any abelian group; tables made affine with one inversion.
- Pairing, MPin, Sok: the protocols over any bilinear pairing.
- KeyField: the session keys over the FP4 operations.
- Ghash, Gcm, GcmCounter, Sha2: the streamed hash and cipher modes over any block cipher and compression function.
- Utf8: decoding, validation, transcoding and repair.
- Json, JsonUnits, JsonText, JsonGrammar, Messages: JSON strings and documents as they are written and read; private
  messages.
- Session: the MQTT connection over the Paho client and the session machine.

How to read the contracts:

- Limbs, limb arrays and BIG arrays are `array<int>`. A method on them is specified through the integer that the
  limbs stand for (`Value`, `Seg`). `C32` and `C64` oblige a proof that an intermediate result fits its machine type.
- `Cong(a, b, m)` is congruence modulo m; `Times(g, n, x)` is n times x in the group g.
- Some definitions (`Prod`, `Term`, `Part`, `Seg`, `Times`, `Absorb`, ...) are pinned down by a predicate with a marker
  term. They are ordinary definitions, restated by a lemma named after them (`ProdIs`, `TermIs`, ...), and are only
  unfolded where that lemma is called.
- A ghost parameter such as the trace sequence `c` in `XtrPow` ranges over everything that satisfies the stated laws.

The outside world: random scalars, the random initialisation vector, hashing to curve points, the block cipher, the
compression function and the key derivation are parameters. The network, the broker and the authentication server are
a stream of answers in Session, over which the theorems range: any request may fail, and the connection may break in it.
The conversion of JSON numbers is a parameter. Nothing depends on a clock.

## What does not hold, and exactly when it does

- `MPIN_CLIENT_KEY` does not reduce the PIN by MAXPIN, while the extraction of the PIN does. So the two session keys
  are derived from one element exactly for the PINs of `KeyPinAgrees` (all PINs below MAXPIN among them);
  `KeyPinDiffers` gives an input for which they are not.
- `FF_dmod` is described as a reduction of any double-length number. For odd b it returns a mod b exactly under the
  condition of `DmodExact` (`DmodIff` for every b), so for all a below b*2^(256n) + 2^(256n) - b (`DmodSafe`), and that
  bound is sharp (`DmodFirstFailure`). `FF_randomnum` calls it for numbers of all sizes; its result is always below p.
- `FF_skpow` computes with 0 for every x above p, because `FF_nres` returns 0 there. The power is right exactly under
  the condition of `PowerExact`; `PowerFails` is a wrong one.
- `BIG_invmodp` returns exactly for a coprime to p (`ReturnsIff`): it never returns for 0. So a table with a last
  coordinate of zero, as infinity has in G2, cannot be made affine (`UnitsIff`).
- `FP4_xtr_pow2` ends exactly when both exponents are positive (`EndsIffPositive`), and so does `MPIN_CLIENT_KEY` when
  both parts of its split exponent are (`KeyStepEnds`).
- An encrypted private message with an empty payload is decrypted and then rejected (`SealedArrives`).
- The JSON writer drops a backslash, unless a backslash or a u follows it, and the reader turns a pair of them into two.
  So a string survives exactly if every run of backslashes in it has even length (`StringIff`, `PairedIff`), and a plain
  message exactly if that holds of its payload and of the sender's id (`SendAndReceive`); `BackslashLost` is a payload
  that does not arrive. At a lone backslash that ends a string the writer runs past it (`StaysIff`). Four characters that
  are no UTF-16 raise an exception that the client does not catch.
- The JSON reader takes the digits of a unit escape as decimal ones. So an escape gives the unit that it names exactly
  if none of its digits is a letter (`UnitIff`); `WrongUnit` is one that does not.
- `ECP_toOctet` and `ECP2_toOctet` ignore that a point is at infinity and write octets of indeterminate coordinates. A
  run that has to send one has no certain outcome; `MPin.Run` and `Sok.Shares` speak of the others.
- The exception invalid_code_point of the UTF-8 reader always carries 0, not the code point found (`Utf8.Next8`).
- The comments on the table of `ECP_mul2` swap P+Q and P-Q; the model follows the code.

## Model

| member | source | states |
|---|---|---|
| `Xtr.XtrPow2` | lib/milagro-crypto-c/src/fp4.c:412-541 | for all positive a, b and every trace sequence c: from c(k), c(l), c(k-l), c(k-2l) the double exponentiation terminates with c(b*k + a*l) |
| `Xtr.XtrWalk` | lib/milagro-crypto-c/src/fp4.c:434-537 | the eight-branch main loop terminates with equal exponents, and the four traces still belong to indices (u, v) with d*u + e*v unmoved |
| `Xtr.StepDownTracks` | lib/milagro-crypto-c/src/fp4.c:436-485 | every branch for d > e keeps d*u + e*v and the four traces in step, keeps d and e positive and makes d + e smaller |
| `Xtr.StepUpTracks` | lib/milagro-crypto-c/src/fp4.c:486-536 | the same for every branch for d < e |
| `Xtr.StripTwos` | lib/milagro-crypto-c/src/fp4.c:427-433 | the opening loop takes out 2^f2 and keeps (d*k + e*l)*2^f2 == b*k + a*l |
| `Xtr.DoubleTimes` | lib/milagro-crypto-c/src/fp4.c:539 | the closing loop multiplies the index by 2^f2 |
| `Xtr.ExitIffPositive` | lib/milagro-crypto-c/src/fp4.c:434-537 | from exponents that are not both zero, finitely many turns make them equal if and only if both are positive: the exact working domain of the loop |
| `Xtr.EndsIffPositive` | lib/milagro-crypto-c/src/fp4.c:427-537 | opening and main loop together end if and only if both exponents are positive, for all exponents that are not negative |
| `Xtr.XtrPow` | lib/milagro-crypto-c/src/fp4.c:359-408 | for every n > 0 the single exponentiation returns the n-th trace |
| `Xtr.PowTurn` | lib/milagro-crypto-c/src/fp4.c:385-404 | one turn takes the traces at 2k, 2k+1, 2k+2 to those at 2k', 2k'+1, 2k'+2 for k' = 2k + bit |
| `Xtr.XtrPowAt` | lib/milagro-crypto-c/src/fp4.c:359-408 | started from the trace of g^m it returns the trace of g^(m*n) |
| `Fp4.Fp4Lawful` | lib/milagro-crypto-c/src/fp4.c:323-355 | the FP4 operations satisfy the trace recurrence on every sequence of power sums of three elements with product one, so both exponentiations apply to them |
| `Fp4.TraceRecurrence` | lib/milagro-crypto-c/src/fp4.c:323-355 | c(u+v) = c(v)c(u) - c(-v)c(u-v) + c(u-2v) for sums of n-th powers of three ring elements with product one |
| `Fp4.XtrACorrect` | lib/milagro-crypto-c/src/fp4.c:325-342 | xtr_A is x*w - conj(x)*y + z |
| `Fp4.XtrDCorrect` | lib/milagro-crypto-c/src/fp4.c:346-355 | xtr_D is x*x - 2*conj(x) |
| `Fp4.MulCorrect` | lib/milagro-crypto-c/src/fp4.c:209-228 | the three-multiplication product is the product of FP2[i] |
| `Fp4.SqrCorrect` | lib/milagro-crypto-c/src/fp4.c:182-205 | the two-multiplication square is the product of an element with itself |
| `Fp4.NegCorrect` | lib/milagro-crypto-c/src/fp4.c:101-111 | one negation and three additions negate both halves |
| `Limbs.BigNorm` | lib/milagro-crypto-c/src/big.c:893-909 | the carry loop keeps the integer and leaves every limb but the top one in [0, 2^29), without leaving a 32-bit chunk |
| `Limbs.Unique` | lib/milagro-crypto-c/src/big.c:893-909 | normalised limbs are determined by the integer they stand for |
| `Limbs.BigAdd` | lib/milagro-crypto-c/src/big.c:417-426 | limb-wise addition adds the integers, also in place |
| `Limbs.BigSub` | lib/milagro-crypto-c/src/big.c:440-449 | limb-wise subtraction subtracts the integers, also in place |
| `BigProduct.BigMul` | lib/milagro-crypto-c/src/big.c:540-591 | the pseudo-Karatsuba columns give exactly the product of the two integers in reduced limbs; no partial sum leaves signed 64 bits |
| `BigProduct.MulColumn` | lib/milagro-crypto-c/src/big.c:573-588 | one outer turn: the running sum moves on by one diagonal product and the column is the convolution sum plus carry |
| `BigProduct.Column` | lib/milagro-crypto-c/src/big.c:577-585 | the inner loop turns a window of diagonal products into the column by adding (a[i]-a[k-i])*(b[k-i]-b[i]); every partial sum fits 64 bits |
| `BigProduct.ColumnsAreProduct` | lib/milagro-crypto-c/src/big.c:565-589 | the columns, weighted, add up to the product of the integers |
| `BigProduct.MulAdd` | lib/milagro-crypto-c/src/big.c:30-35 | x*y + c + r split into bottom limb and carry |
| `BigProduct.BigMulRows` | lib/milagro-crypto-c/src/big.c:593-604 | the schoolbook branch gives exactly the product in reduced limbs |
| `BigProduct.BranchesAgree` | lib/milagro-crypto-c/src/big.c:540-611 | both branches write the same limbs |
| `BigProduct.BigSqr` | lib/milagro-crypto-c/src/big.c:640-725 | the doubled half columns with the middle square give exactly the square |
| `BigProduct.Folded` | lib/milagro-crypto-c/src/big.c:660-724 | a column of a square is twice its lower half plus the middle term |
| `BigProduct.BigSmul` | lib/milagro-crypto-c/src/big.c:615-636 | the truncated row product is the product modulo 2^(29n), also for factors that still need normalising |
| `Words.MaskedIs` | lib/milagro-crypto-c/src/big.c:196-208 | on the bits of two words, f ^ ((f^g) & -d) is g for d = 1 and f for d = 0 |
| `Words.Move` | lib/milagro-crypto-c/src/big.c:196-208 | the xor-masked move of one signed chunk |
| `Words.Swap` | lib/milagro-crypto-c/src/big.c:178-193 | the xor-masked swap of two signed chunks |
| `Words.NotSign` | lib/milagro-crypto-c/src/big.c:1013-1014 | one minus the sign bit is 1 exactly for a number that is not negative |
| `Words.Magnitude` | lib/milagro-crypto-c/src/ecp.c:82-102 | (b ^ m) - m with m the spread sign bit is the magnitude of b, and m & 1 says whether b is negative |
| `Words.Teq` | lib/milagro-crypto-c/src/ecp.c:72-77 | the sign bit of (b ^ c) - 1 is 1 exactly if b = c |
| `Words.OrIsSum` | lib/milagro-crypto-c/src/big.c:777-845 | two pieces that share no bits, or-ed, are their sum |
| `Words.LogB2Word` | lib/milagro-crypto-c/src/fp.c:447-460 | the smear-and-count tricks give the bit length plus one, on every word that an excess can be |
| `Words.LogB2` | lib/milagro-crypto-c/src/fp.c:447-460 | hence logb2 of a number below 128 is one more than its number of bits |
| `BigDiv.BigCmove` | lib/milagro-crypto-c/src/big.c:196-208 | the masked move copies every limb exactly when d is 1, through the xor masks of its words |
| `BigDiv.BigCswap` | lib/milagro-crypto-c/src/big.c:178-193 | the masked swap exchanges every limb exactly when d is 1 |
| `BigDiv.BigComp` | lib/milagro-crypto-c/src/big.c:929-939 | the sign of the result is the sign of the difference of the integers |
| `BigDiv.BigShl` | lib/milagro-crypto-c/src/big.c:777-804 | a shift by fewer than 29 bits, with its or-ed pieces, multiplies by that power of two and stays normalised |
| `BigDiv.BigShr` | lib/milagro-crypto-c/src/big.c:824-845 | a shift by fewer than 29 bits, with its or-ed pieces, divides by that power of two rounding down and returns the remainder |
| `BigShift.BigShrBy` | lib/milagro-crypto-c/src/big.c:809-819 | a shift by whole limbs and bits divides by the power of two, rounding down, and keeps reduced limbs reduced |
| `BigShift.BigShlBy` | lib/milagro-crypto-c/src/big.c:756-772 | a shift by whole limbs and bits multiplies the limbs that stay by the power of two; the upper limbs are lost, and the top limb is cut when only one stays |
| `BigDiv.BigMod` | lib/milagro-crypto-c/src/big.c:993-1025 | b becomes b mod c, and the divisor that is shifted in place comes back limb for limb |
| `BigDiv.BigDmod` | lib/milagro-crypto-c/src/big.c:1029-1066 | a = b mod c for a double-length b |
| `BigDiv.BigDdiv` | lib/milagro-crypto-c/src/big.c:1071-1113 | a = b div c for a double-length b whose quotient fits; the remainder is left in b |
| `BigDiv.BigSdiv` | lib/milagro-crypto-c/src/big.c:1117-1159 | a = a div c |
| `BigDiv.Divide` | lib/milagro-crypto-c/src/big.c:1083-1112 | the shift-and-subtract loop yields Euclidean quotient and remainder |
| `BigDiv.SubtractIfFits` | lib/milagro-crypto-c/src/big.c:1013-1015 | sign bit and masked move together refine: subtract if the result is not negative |
| `BigInverse.BigInvmodp` | lib/milagro-crypto-c/src/big.c:1362-1423 | for every odd p > 1 and every a coprime to p: r in [0, p) with r*a = 1 mod p |
| `BigInverse.ReturnsIff` | lib/milagro-crypto-c/src/big.c:1362-1423 | for odd p > 1 the loop exits if and only if a is coprime to p: for every other a, 0 among them, the source does not return |
| `BigInverse.EuclidLoop` | lib/milagro-crypto-c/src/big.c:1372-1418 | the loop terminates with x1*a = 1 or x2*a = 1, including the exit where u has become 0 and v is 1 |
| `BigInverse.EuclidTurn` | lib/milagro-crypto-c/src/big.c:1374-1417 | one turn keeps x1*a = u, x2*a = v and gcd(u, v) = 1, and makes u + v smaller |
| `BigInverse.HalveWhileEven` | lib/milagro-crypto-c/src/big.c:1374-1383 | halving u with x modulo p keeps x*a = u and coprimality, and ends with u odd |
| `BigInverse.SubtractBoth` | lib/milagro-crypto-c/src/big.c:1394-1405 | subtracting both pairs keeps x*a = u |
| `Montgomery.FpMod` | lib/milagro-crypto-c/src/fp.c:199-246 | the Comba reduction of d returns r with r*R = d + v*p for a v in [0, R), in reduced limbs and below 2^(MODBITS+1); no 64-bit accumulator overflows |
| `Montgomery.LowTurn` | lib/milagro-crypto-c/src/fp.c:226-235 | one turn of the first loop finds the digit v[k] that clears column k modulo 2^29 |
| `Montgomery.HighColumns` | lib/milagro-crypto-c/src/fp.c:236-243 | the second loop writes the result limbs of the columns above R |
| `Montgomery.LowProductExact` | lib/milagro-crypto-c/src/fp.c:221-222 | the wrapped 32-bit product with MConst agrees with the exact one modulo 2^29 |
| `Montgomery.FpModRows` | lib/milagro-crypto-c/src/fp.c:252-270 | the schoolbook branch satisfies the same equation |
| `Montgomery.ReducesUnique` | lib/milagro-crypto-c/src/fp.c:199-272 | there is only one such r, so both branches return the same integer |
| `Montgomery.ReducesCong` | lib/milagro-crypto-c/src/fp.c:199-272 | the result times R is congruent to d modulo p |
| `Montgomery.RedcNres` | lib/milagro-crypto-c/src/fp.c:176-194 | reducing the Montgomery form of a gives a mod p |
| `Montgomery.MontgomeryProduct` | lib/milagro-crypto-c/src/fp.c:310-340 | reducing the product of two Montgomery forms gives the Montgomery form of the product |
| `Montgomery.ModulusCoprime` | lib/milagro-crypto-c/src/fp.c:176-194 | a modulus with a Montgomery constant is coprime to every power of the radix |
| `FpField.ModulusFacts` | lib/milagro-crypto-c/src/rom.c:296-297 | the constants of BN254_CX meet what the reduction needs: 254 bits, MConst*p = -1 mod 2^29, p coprime to R |
| `FpField.ModulusIsBn` | lib/milagro-crypto-c/src/rom.c:296-301 | modulus and group order are the Barreto-Naehrig polynomials 36u^4+36u^3+24u^2+6u+1 and 36u^4+36u^3+18u^2+6u+1 at minus the constant CURVE_Bnx, and the modulus is 3 modulo 8 |
| `FpField.FpRoundTrip` | lib/milagro-crypto-c/src/fp.c:176-194 | FP_redc after FP_nres maps every reduced number a to a mod p |
| `FpField.FpNres` | lib/milagro-crypto-c/src/fp.c:176-184 | a becomes a*R mod p |
| `FpField.FpRedc` | lib/milagro-crypto-c/src/fp.c:188-194 | a becomes a/R modulo p, below p if a was |
| `FpField.Execute` | lib/milagro-crypto-c/src/fp.c:310-500 | every straight-line program of mul, sqr, add, sub, neg, copy, norm and reduce over a file of registers, with shared operands and any aliasing, leaves in every register an element of its tracked degree that represents the exact integer value modulo p |
| `FpField.Perform` | lib/milagro-crypto-c/src/fp.c:310-500 | one instruction keeps that invariant for the whole file |
| `FpField.PrepareFactors` | lib/milagro-crypto-c/src/fp.c:310-332 | the factors are normalised and at most one reduced, after which their product is in the domain of the Montgomery reduction |
| `Fp2.MulFinal` | lib/milagro-crypto-c/src/fp2.c:211-232 | three field products give (a+ib)(c+id), also when the destination is an operand or both operands are one; all intermediate sums fit their chunks |
| `Fp2.Multiply` | lib/milagro-crypto-c/src/fp2.c:211-232 | the same on limb arrays |
| `Fp2.SqrFinal` | lib/milagro-crypto-c/src/fp2.c:192-206 | two field products give (a+ib)^2, also in place |
| `Fp2.Square` | lib/milagro-crypto-c/src/fp2.c:192-206 | the same on limb arrays |
| `Fp2.NegFinal` | lib/milagro-crypto-c/src/fp2.c:136-147 | one field negation negates both halves, also in place |
| `Fp2.Negate` | lib/milagro-crypto-c/src/fp2.c:136-147 | the same on limb arrays |
| `Fp2File.Execute2` | lib/milagro-crypto-c/src/fp2.c:136-232 | every program of FP2 operations over a file of registers, with any sharing and aliasing, leaves field elements that stand for the exact Gaussian integers |
| `Fp2File.Compiles` | lib/milagro-crypto-c/src/fp2.c:136-232 | each FP2 operation on any registers is the chain of field operations of fp2.c on them, and touches nothing else |
| `Fp4File.XtrARuns` | lib/milagro-crypto-c/src/fp4.c:325-342 | FP4_xtr_A on normalised elements: no sum outgrows a chunk, the result is normalised and is the formula of xtr_A |
| `Fp4File.XtrDRuns` | lib/milagro-crypto-c/src/fp4.c:346-355 | FP4_xtr_D likewise, also in place; its sums reach exactly the largest degree that a chunk can hold |
| `Fp4File.MulRuns` | lib/milagro-crypto-c/src/fp4.c:209-228 | FP4_mul for any lazily reduced operands and any place of the result |
| `Fp4File.SqrRuns` | lib/milagro-crypto-c/src/fp4.c:182-205 | FP4_sqr for any lazily reduced operand, also in place |
| `Fp4File.XtrA` | lib/milagro-crypto-c/src/fp4.c:325-342 | on limb arrays: x*w - conj(x)*y + z |
| `Fp4File.XtrD` | lib/milagro-crypto-c/src/fp4.c:346-355 | on limb arrays: x*x - 2*conj(x) |
| `Fp4File.Multiply` | lib/milagro-crypto-c/src/fp4.c:209-228 | on limb arrays: the product of FP2[i] |
| `Fp4File.Square` | lib/milagro-crypto-c/src/fp4.c:182-205 | on limb arrays: the square |
| `FpField.FpMul` | lib/milagro-crypto-c/src/fp.c:310-340 | r*R = a*b mod p with r reduced below 2^255: the excess test always reduces in time; a and b are left reduced limbs of congruent numbers, so they can be shared |
| `FpField.FpSqr` | lib/milagro-crypto-c/src/fp.c:378-404 | r*R = a*a mod p, in the same range, and a is left congruent |
| `FpField.FpAdd` | lib/milagro-crypto-c/src/fp.c:408-424 | r = a + b mod p, and r stays an element in [0, R) |
| `FpField.FpSub` | lib/milagro-crypto-c/src/fp.c:428-433 | r = a - b mod p, and r stays an element in [0, R), also for a and b one array; b is left normalised with its value |
| `FpField.FpNeg` | lib/milagro-crypto-c/src/fp.c:464-500 | r = -a mod p, non-negative and in range: the shifted modulus always exceeds a |
| `FpField.FpReduce` | lib/milagro-crypto-c/src/fp.c:437-442 | full reduction modulo p |
| `FpField.LogB2Shift` | lib/milagro-crypto-c/src/fp.c:447-460 | shifting by logb2 of an excess e multiplies by a power of two that is at least 2(e+1) |
| `FpField.NegMultiple` | lib/milagro-crypto-c/src/fp.c:464-500 | the multiple of p that FP_neg subtracts from exceeds the element and fits the top limb |
| `FfValue.Rnorm` | lib/milagro-crypto-c/src/ff.c:304-323 | carrying keeps the integer; all entries but the last become digits in radix 2^256 |
| `FfValue.RnormTruncate` | lib/milagro-crypto-c/src/ff.c:304-323 | truncation makes every entry a digit and drops exactly a multiple of 2^(256n) |
| `FfValue.Radd` | lib/milagro-crypto-c/src/ff.c:241-246 | entry-wise addition adds the integers; nothing else is written |
| `FfValue.Rinc` | lib/milagro-crypto-c/src/ff.c:249-272 | entry-wise increment and decrement; nothing else is written |
| `FfKaratsuba.Karmul` | lib/milagro-crypto-c/src/ff.c:410-433 | for every n = 2^j the segment of z is exactly x*y; only 2n entries of z and 2n entries of workspace are written, also when z and t are one array |
| `FfKaratsuba.ThreeProducts` | lib/milagro-crypto-c/src/ff.c:421-428 | the three half-size products land in their places in shared workspace |
| `FfKaratsuba.KaratsubaParts` | lib/milagro-crypto-c/src/ff.c:410-433 | x*y from the products of the halves and the product of their sums |
| `FfKaratsuba.Karsqr` | lib/milagro-crypto-c/src/ff.c:435-452 | the segment of z is exactly x*x, within the same workspace bounds |
| `FfKaratsuba.KarmulLower` | lib/milagro-crypto-c/src/ff.c:454-471 | the low half: x*y minus a multiple of 2^(256n), in digits for n >= 2 |
| `FfKaratsuba.KarmulUpper` | lib/milagro-crypto-c/src/ff.c:473-495 | from the low half of x*y, the full product is rebuilt with two half-size products |
| `FfKaratsuba.LowRebuilt` | lib/milagro-crypto-c/src/ff.c:486-490 | the low half of x0*y0 is recovered from the low half of x*y and x0*y0 + x0*y1 + x1*y0 |
| `FfKaratsuba.FfMul` | lib/milagro-crypto-c/src/ff.c:498-508 | z = x*y |
| `FfKaratsuba.FfSqr` | lib/milagro-crypto-c/src/ff.c:551-560 | z = x*x |
| `FfKaratsuba.FfLmul` | lib/milagro-crypto-c/src/ff.c:511-521 | z = x*y mod 2^(256n), in digits for n >= 2 |
| `FfInverse.Invmod256` | lib/milagro-crypto-c/src/ff.c:25-63 | for every odd byte a: U*a = 1 mod 256 |
| `FfInverse.BigInvmod2m` | lib/milagro-crypto-c/src/ff.c:66-104 | for every odd a below 2^256: r*a = 1 mod 2^256 |
| `FfInverse.NumberStep` | lib/milagro-crypto-c/src/ff.c:74-99 | one Arazi-Qi doubling: an inverse modulo m becomes an inverse modulo m*m |
| `FfInverse.InverseTurn` | lib/milagro-crypto-c/src/ff.c:736-752 | one turn on BIG arrays: an inverse modulo R^i becomes an inverse modulo R^2i |
| `FfInverse.FfInvmod2m` | lib/milagro-crypto-c/src/ff.c:718-756 | for every odd a: U*a = 1 mod 2^(256n) |
| `FfPower.FfComp` | lib/milagro-crypto-c/src/ff.c:229-238 | the sign of the result is the sign of the difference |
| `FfPower.FfShl` | lib/milagro-crypto-c/src/ff.c:331-344 | doubles the integer |
| `FfPower.FfShr` | lib/milagro-crypto-c/src/ff.c:347-357 | halves the integer, rounding down |
| `FfPower.FfMod` | lib/milagro-crypto-c/src/ff.c:524-548 | b becomes b mod c, and the divisor shifted in place is restored |
| `FfPower.FfDmod` | lib/milagro-crypto-c/src/ff.c:590-619 | the exact number that it returns for every double-length a and every b |
| `FfPower.DmodIff` | lib/milagro-crypto-c/src/ff.c:590-619 | for every b the result is a mod b if and only if a <= b*2^(256n) or b divides (a+b) div 2^(256n) times 2^(256n) |
| `FfPower.DmodSafe` | lib/milagro-crypto-c/src/ff.c:590-619 | the result is a mod b for every a below b*2^(256n) + 2^(256n) - b |
| `FfPower.DmodFirstFailure` | lib/milagro-crypto-c/src/ff.c:590-619 | that bound is sharp: for every odd b > 1 the number at the bound gets a wrong result |
| `FfPower.FfRandomnum` | lib/milagro-crypto-c/src/ff.c:770-783 | always below p; it reduces numbers of all sizes, and its result is the remainder exactly under the condition of FF_dmod |
| `FfPower.DmodExact` | lib/milagro-crypto-c/src/ff.c:590-619 | for odd b the result is a mod b if and only if a <= b*2^(256n) or b divides (a+b) div 2^(256n) |
| `FfPower.DmodCutOff` | lib/milagro-crypto-c/src/ff.c:590-619 | a concrete wrong result: 4*2^256 - 3 modulo 3 |
| `FfPower.FfNres` | lib/milagro-crypto-c/src/ff.c:692-702 | a becomes a*2^(256n) modulo m if a <= m, and 0 for every larger a |
| `FfPower.FfReduce` | lib/milagro-crypto-c/src/ff.c:563-584 | r*2^(256n) = T - m*N + N*2^(256n) for an m in [0, 2^(256n)) |
| `FfPower.ReduceMeaning` | lib/milagro-crypto-c/src/ff.c:563-584 | hence r*2^(256n) = T mod N and r > 0, and r < 2N whenever T < N*2^(256n) |
| `FfPower.FfModmul` | lib/milagro-crypto-c/src/ff.c:785-808 | z*2^(256n) = x*y mod p; x is replaced at most by a congruent number |
| `FfPower.FfModsqr` | lib/milagro-crypto-c/src/ff.c:810-831 | in place: z*2^(256n) = x*x mod p |
| `FfPower.FfRedc` | lib/milagro-crypto-c/src/ff.c:704-715 | out of Montgomery form, fully reduced |
| `FfPower.FfCswap` | lib/milagro-crypto-c/src/ff.c:401-407 | the swap exchanges both numbers exactly when d is 1 and touches nothing else |
| `FfPower.LadderTurn` | lib/milagro-crypto-c/src/ff.c:851-858 | the swapped turn takes x^k, x^(k+1) to x^(2k+bit), x^(2k+bit+1) |
| `FfPower.ExponentBit` | lib/milagro-crypto-c/src/ff.c:851 | bit i of the array is bit i mod 256 of entry i/256 |
| `FfPower.FfSkpow` | lib/milagro-crypto-c/src/ff.c:834-862 | for odd p: r = x^e mod p if x <= p, and 0^e mod p for every larger x; p is left as it was |
| `FfPower.PowerExact` | lib/milagro-crypto-c/src/ff.c:834-862 | so the power is right if and only if x <= p, or e = 0, or p divides x^e |
| `FfPower.PowerExactUnit` | lib/milagro-crypto-c/src/ff.c:834-862 | for x coprime to p: if and only if x <= p or e = 0 |
| `FfPower.PowerFails` | lib/milagro-crypto-c/src/ff.c:834-862 | a concrete wrong power: 4^1 modulo 3 |
| `ScalarMul.Mul` | lib/milagro-crypto-c/src/ecp.c:903-1013 | in every abelian group: e*P for every scalar below 2^256 |
| `ScalarMul.WindowMul` | lib/milagro-crypto-c/src/ecp2.c:484-550 | the same for the windowed method itself; the parity correction is exactly undone |
| `ScalarMul.OddMul` | lib/milagro-crypto-c/src/ecp.c:953-1009 | for an odd scalar the digits fit the 67 entries of w, index the right table entries and sum back to the scalar |
| `ScalarMul.Windows` | lib/milagro-crypto-c/src/ecp.c:990-998 | the recoded digits are odd, lie in (-16, 16), and rebuild the scalar from the top digit 1 |
| `ScalarMul.TakeDigit` | lib/milagro-crypto-c/src/ecp.c:993-996 | one signed digit: t = b*r + d with d odd, -b < d < b and r odd |
| `ScalarMul.Select` | lib/milagro-crypto-c/src/ecp.c:82-102 | magnitude and equality tests on the bits, and eight conditional moves, pick the entry for the magnitude of d and negate it for d < 0 |
| `ScalarMul.Accumulate` | lib/milagro-crypto-c/src/ecp.c:1000-1009 | double-and-add from the top digit ends at the value of all digits |
| `ScalarMul.MakeOdd` | lib/milagro-crypto-c/src/ecp.c:975-986 | the scalar is made odd by adding 1 or 2, and C is the same multiple of P |
| `ScalarMul.Multiples` | lib/milagro-crypto-c/src/ecp.c:955-966 | W[i] = (2i+1)*P |
| `ScalarMul.Mul2` | lib/milagro-crypto-c/src/ecp.c:1020-1115 | e*P + f*Q for all scalars below 2^256 |
| `ScalarMul.PairWindows` | lib/milagro-crypto-c/src/ecp.c:1090-1103 | both scalars are recoded in radix 4 and packed into one digit each turn |
| `ScalarMul.FillPairs` | lib/milagro-crypto-c/src/ecp.c:1036-1056 | the table entry for 4a + b is a*P + b*Q |
| `ScalarMul.Mul4` | lib/milagro-crypto-c/src/ecp2.c:569-653 | the sum of four multiples for all scalars below 2^256 |
| `ScalarMul.QuadWindows` | lib/milagro-crypto-c/src/ecp2.c:629-641 | all four scalars are recoded with digits +1 and -1 and packed into one odd digit each turn |
| `ScalarMul.OddQuad` | lib/milagro-crypto-c/src/ecp2.c:611-625 | even scalars get 1 added, and C is exactly what that adds to the sum |
| `ScalarMul.QuadMul` | lib/milagro-crypto-c/src/fp12.c:363-447 | table, recoding and loop for odd scalars; the digits fit the 262 entries of w |
| `ScalarMul.PinMul` | lib/milagro-crypto-c/src/ecp.c:877-898 | the swapped ladder over bts bits gives (e mod 2^bts)*P, in two's complement for negative e |
| `MultiAffine.Normalise` | lib/milagro-crypto-c/src/ecp.c:834-871 | with one inversion every Jacobian point of a table becomes its own affine form |
| `MultiAffine.Inverses` | lib/milagro-crypto-c/src/ecp2.c:443-480 | the backward pass turns the running products into the inverse of every last coordinate |
| `MultiAffine.OneOfAll` | lib/milagro-crypto-c/src/ecp.c:846-859 | the inverse of one coordinate is the product of all others times the inverse of the product of all |
| `MultiAffine.UnitsIff` | lib/milagro-crypto-c/src/ecp.c:834-844 | the product of all can be inverted if and only if every last coordinate can |
| `MPin.Run` | lib/milagro-crypto-c/src/mpin.c:535-786 | an enrolment and a login, for any x, y, s, PINs, with or without time permit: if no point that must be sent is the point at infinity, the result is 0 if and only if (x+y) times the PIN error kills e(Q, H(ID)), and otherwise -19 with E = F^(-error) |
| `MPin.Login` | lib/milagro-crypto-c/src/mpin.c:535-786 | in groups of prime order: an enrolment and a login, with PINs that are not negative and points that are finite, ends with 0 if the two PINs agree modulo 10000, which below 10000 means that they are equal, and with -19 otherwise |
| `MPin.VerdictMeans` | lib/milagro-crypto-c/src/mpin.c:692-786 | the result of a finished run says which of the two PIN multiples is meant: 0 if they are equal, -19 if not |
| `MPin.AlphaNatural` | lib/milagro-crypto-c/include/mpin.h:37-48 | a PIN that is not negative stands for its remainder by 10000, whatever the 14 bits of the scalar |
| `MPin.CRemIs` | lib/milagro-crypto-c/src/mpin.c:403-424 | the remainder of C: it has the sign of the dividend, is smaller than the divisor and differs from the dividend by a multiple of it |
| `MPin.AcceptedIff` | lib/milagro-crypto-c/src/mpin.c:692-786 | in groups of prime order a complete run is accepted if and only if the two PINs stand for the same multiple |
| `MPin.CheckOfRun` | lib/milagro-crypto-c/src/mpin.c:535-786 | everything that depends on the master secret cancels from the check value |
| `MPin.ClueOfRun` | lib/milagro-crypto-c/src/mpin.c:754-781 | E is F to the power of minus the PIN error |
| `MPin.ExtractPin` | lib/milagro-crypto-c/src/mpin.c:403-424 | the token is the secret minus the PIN multiple of H(ID); a token that is no point is refused |
| `MPin.Client1` | lib/milagro-crypto-c/src/mpin.c:535-606 | the secret is put together from token, PIN and permit; x*H(ID) and x*(H(ID)+H(T,ID)) are sent; bad octets are refused |
| `MPin.Client2` | lib/milagro-crypto-c/src/mpin.c:427-446 | minus (x+y) times the secret, although the sum is reduced modulo the order first |
| `MPin.ClientSide` | lib/milagro-crypto-c/src/mpin.c:427-606 | both client passes together send -(x+y)(s*D + error*H(ID)), x*H(ID) and x*D |
| `MPin.ServerSide` | lib/milagro-crypto-c/src/mpin.c:660-786 | from what the client sends both server passes reach the right verdict, 0 or -19 |
| `MPin.Server2` | lib/milagro-crypto-c/src/mpin.c:692-786 | 0 if and only if e(Q, V)*e(sQ, U + y*H) is the unity; otherwise -19, with E if asked for, and F with it exactly if the octets of the identity are points; -14 exactly if needed octets are no points |
| `MPin.Enrol` | lib/milagro-crypto-c/src/mpin.c:403-654 | token, time permit and server secret of one master secret, whenever they are finite points |
| `MPin.SessionKeys` | lib/milagro-crypto-c/src/mpin.c:875-1029 | both sides of an honest session hash the same point x*w*A; the traces are those of s*(r+h) and (s + d)*(r+h) times e(Q, A), with d the pin that the key step uses minus the one that was extracted |
| `MPin.KeyPinAgrees` | lib/milagro-crypto-c/src/mpin.c:923-982 | the PIN of the key step equals the extracted one if and only if the quotient discarded by the reduction by MAXPIN is a multiple of 1024 |
| `MPin.SameElementIff` | lib/milagro-crypto-c/src/mpin.c:923-1029 | in groups of prime order both sides take the trace of one element for exactly those PINs |
| `MPin.KeyPinDiffers` | lib/milagro-crypto-c/src/mpin.c:923-982 | a PIN of MAXPIN is an input for which they differ |
| `MPin.ClientKey` | lib/milagro-crypto-c/src/mpin.c:923-982 | the trace of (g1*g2^pin)^z through the double exponentiation, and the point x*W; a bad octet is refused |
| `MPin.KeyStepEnds` | lib/milagro-crypto-c/src/mpin.c:952-979 | the double exponentiation of the key step ends if and only if both parts of the split exponent are positive |
| `MPin.KeyBase` | lib/milagro-crypto-c/src/mpin.c:875-968 | the token pairing times the PIN power of the identity pairing is e(Q, A) to the master secret plus the difference of the two PINs |
| `KeyField.Fp4KeyLaws` | lib/milagro-crypto-c/src/fp4.c:323-541 | the FP4 operations on traces of three conjugates with product one satisfy all that the key agreement assumes |
| `KeyField.SessionKeysInFp4` | lib/milagro-crypto-c/src/mpin.c:875-1029 | so, computed in FP4, both key inputs of an honest session are equal for every PIN below MAXPIN |
| `MPin.ServerKey` | lib/milagro-crypto-c/src/mpin.c:987-1029 | the trace of e(sQ, Z + h*A), and the point w*U; bad octets are refused |
| `MPin.SplitExponent` | lib/milagro-crypto-c/src/mpin.c:952-960 | g^(a + b*p) is g^z for z = a + b*(p mod r) |
| `Pairing.ScalarRight` | lib/milagro-crypto-c/src/mpin.c:692-786 | scalars move out of the second argument of any bilinear pairing |
| `Pairing.ScalarLeft` | lib/milagro-crypto-c/src/mpin.c:692-786 | scalars move out of the first argument of any bilinear pairing |
| `Gcm.SealOpen` | lib/milagro-crypto-c/src/gcm.c:152-300 | decryption returns the plaintext and the same tag, for any block cipher, key, IV, header and message, however either side cuts header and text into whole-block pieces |
| `Gcm.Seal` | lib/milagro-crypto-c/src/gcm.c:152-300 | ciphertext and tag are those of section 7.1 of NIST SP 800-38D, whatever the pieces |
| `Gcm.Open` | lib/milagro-crypto-c/src/gcm.c:152-300 | plaintext and tag are those of section 7.2 of NIST SP 800-38D, whatever the pieces |
| `Gcm.EncryptTwice` | lib/milagro-crypto-c/src/gcm.c:214-276 | counter mode undoes itself |
| `Gcm.HashOfState` | lib/milagro-crypto-c/src/gcm.c:112-148 | the streamed state with the length block is GHASH of padded header, padded text and lengths |
| `GcmCounter.CounterIs` | lib/milagro-crypto-c/src/gcm.c:164-173 | for an IV of 96 bits counter block n is the IV followed by the number n+1 modulo 2^32 in four bytes, high byte first |
| `GcmCounter.CountersDiffer` | lib/milagro-crypto-c/src/gcm.c:222-228 | from any first block, 2^32 counter blocks in a row are different |
| `GcmCounter.KeyStreamIs` | lib/milagro-crypto-c/src/gcm.c:222-232 | block i of the key stream is the cipher of counter number i+2, and within 2^32 blocks of none that was used before, that of the tag included |
| `GcmCounter.CipherByte` | lib/milagro-crypto-c/src/gcm.c:214-242 | byte k of the ciphertext is byte k of the text plus byte k mod 16 of the cipher of the IV with counter number k/16 + 2 |
| `GcmCounter.TagIsPolynomial` | lib/milagro-crypto-c/src/gcm.c:112-148 | the tag is the cipher of the IV with counter number 1, plus a polynomial at the cipher of the block of zeros, whose coefficients are the blocks that are hashed |
| `GcmCounter.HashedIs` | lib/milagro-crypto-c/src/gcm.c:112-148 | which are header and text, each completed by fewer than 16 zero bytes, and the length block |
| `GcmCounter.LengthBlockIs` | lib/milagro-crypto-c/src/gcm.c:112-128 | the length block holds two numbers of 64 bits, high byte first: the bits of the header, then the bits of the text |
| `GcmCounter.ReductionWordIs` | lib/milagro-crypto-c/src/gcm.c:81 | the word added for a bit that falls out is 0xE1000000 |
| `Gcm.State.constructor` | lib/milagro-crypto-c/src/gcm.c:152-188 | the counter block is J0 for every IV, of 96 bits or hashed; the table and an empty hash are ready |
| `Gcm.State.AddHeader` | lib/milagro-crypto-c/src/gcm.c:192-210 | accepted exactly in the header phase and appended to the hashed header; otherwise nothing changes |
| `Gcm.State.AddPlain` | lib/milagro-crypto-c/src/gcm.c:214-242 | accepted exactly in the header and text phases; the output is the next piece of counter mode and is what the hash absorbs; otherwise nothing changes |
| `Gcm.State.AddCipher` | lib/milagro-crypto-c/src/gcm.c:246-276 | the same, with the input absorbed |
| `Gcm.State.Finish` | lib/milagro-crypto-c/src/gcm.c:280-300 | the tag, if wanted, is the encrypted J0 added to GHASH of all that was absorbed, and the state is wiped; a second call yields the wiped cipher on what is left |
| `Gcm.State.Precompute` | lib/milagro-crypto-c/src/gcm.c:63-83 | row i of the table is H*x^i in GF(2^128) |
| `Gcm.State.Gf2mul` | lib/milagro-crypto-c/src/gcm.c:86-109 | the table look-up product is the bitwise product of section 6.3 of NIST SP 800-38D |
| `Gcm.State.Wrap` | lib/milagro-crypto-c/src/gcm.c:112-128 | the length block of both two-word counters is absorbed |
| `Gcm.State.AbsorbLoop` | lib/milagro-crypto-c/src/gcm.c:130-148 | the byte loop absorbs 16 bytes a turn and counts every byte |
| `Ghash.NextRowIsTimesX` | lib/milagro-crypto-c/src/gcm.c:71-82 | shifting four words with carries and the reduction word multiplies by x |
| `Ghash.MulCommutes` | lib/milagro-crypto-c/src/gcm.c:86-109 | the product is commutative: it does not matter which operand is scanned |
| `Ghash.MulAssociates` | lib/milagro-crypto-c/src/gcm.c:86-109 | the product is associative |
| `Ghash.Polynomial` | lib/milagro-crypto-c/src/gcm.c:63-109 | bit i stands for the i-th power of x, and the 128th power is 1 + x + x^2 + x^7: with the laws above, the product in GF(2^128) |
| `Ghash.FoldIsWeighted` | lib/milagro-crypto-c/src/gcm.c:130-148 | GHASH is a polynomial in the subkey: the block that is k-th from the end times its k-th power, summed |
| `Ghash.MulLinearLeft` | lib/milagro-crypto-c/src/gcm.c:86-109 | the product is linear in the scanned operand |
| `Ghash.AbsorbIsFold` | lib/milagro-crypto-c/src/gcm.c:130-148 | absorbing bytes is GHASH of the zero-padded bytes |
| `Ghash.AbsorbSplit` | lib/milagro-crypto-c/src/gcm.c:130-148 | bytes may arrive in any whole-block pieces |
| `Ghash.CtrTwice` | lib/milagro-crypto-c/src/gcm.c:214-276 | adding the key stream twice restores the text |
| `Ghash.CtrSplit` | lib/milagro-crypto-c/src/gcm.c:214-276 | text may arrive in whole-block pieces |
| `Ghash.LengthWordsValue` | lib/milagro-crypto-c/src/gcm.c:112-128 | the shifted two-word byte counter is the length in bits modulo 2^64 |
| `Sok.KeysAgree` | lib/milagro-crypto-c/src/sok.c:120-278 | sender and receiver derive one key, with or without time permits |
| `Sok.Symmetric` | lib/milagro-crypto-c/src/sok.c:120-278 | e(b, s*a) = e(s*b, a) |
| `Sok.Pair1` | lib/milagro-crypto-c/src/sok.c:120-197 | the key of e(H(B), s*H(A)), with time permits added if a date is given; octets that are no points are refused |
| `Sok.Pair2` | lib/milagro-crypto-c/src/sok.c:200-278 | the key of e(s*H(B), H(A)), likewise |
| `Sok.Shares` | lib/milagro-crypto-c/src/sok.c:337-426 | two finite shares of a secret recombine to the multiple by the sum |
| `Sok.SokEncrypt` | src/crypto.cpp:256-287 | AES-GCM under the pairing key, with the sender's id as header; a key of the wrong size or no point is refused |
| `Sok.SokDecrypt` | src/crypto.cpp:289-320 | the plaintext if and only if the tag matches; a key of the wrong size or no point is refused |
| `Sok.HexEncode` | src/utils.cpp:12-25 | two lower-case digits a byte, in order |
| `Sok.HexDecode` | src/utils.cpp:27-80 | the bytes of an even number of hexadecimal digits of either case, and the empty string for anything else |
| `Sok.UnhexHex` | src/utils.cpp:12-80 | decoding undoes encoding |
| `Sok.HexIsNumber` | src/utils.cpp:12-25 | the two characters of a byte are its value in base 16, high digit first |
| `Sok.HexAlphabet` | src/utils.cpp:8-80 | the digits are 0 to 9 and a to f, a to f count from 10, and capitals count as small letters |
| `Sok.ByteOfIsNumber` | src/utils.cpp:64-72 | two digits are read as the byte whose value they have in base 16 |
| `Sok.HexAt` | src/utils.cpp:12-25 | characters 2i and 2i+1 belong to byte i |
| `Messages.SendAndReceive` | src/client.cpp:385-440 | between users keyed by share sums under the same master secrets: a plain payload arrives with the sender's id if and only if every run of backslashes in either has even length; an encrypted one if and only if that holds of the id and the payload is not empty; an empty one is decrypted and then rejected |
| `Messages.Deliver` | src/client.cpp:385-440 | the same for any two keys that pair to one value |
| `Messages.PlainArrives` | src/client.cpp:397-430 | the text of a plain message is read back as that message if and only if JSON carries both strings |
| `Messages.SealedArrives` | src/client.cpp:391-427 | the text of an encrypted message likewise: only the id can be altered on the way |
| `Messages.BackslashLost` | src/client.cpp:397-430 | a concrete loss: a payload of a backslash and a b arrives as a b |
| `Messages.Serialize` | src/client.cpp:385-402 | the JSON text of the fields in both modes, no defined behaviour where the writer leaves a string, and the error of a bad key |
| `Messages.PlainWire` | src/client.cpp:385-402 | the text of a plain message, name by name and mark by mark: a line each for the sender, the flag false and the data, in this order |
| `Messages.SealedWire` | src/client.cpp:385-402 | and that of an encrypted one: the sender, the flag true, IV, ciphertext and tag |
| `Messages.Parse` | src/client.cpp:404-440 | which texts give a message, a crypto error, a JSON error or an exception that is not caught |
| `Messages.Unpack` | src/client.cpp:411-430 | the sender and the payload; an encrypted one is decrypted, and an empty part is rejected only then |
| `Json.StringIff` | lib/cajun-2.0.2/json/reader.inl:320-365 | a string written and read, whatever follows it, comes back and no more is read than was written, if and only if its backslashes come in pairs |
| `Json.PairedIff` | lib/cajun-2.0.2/json/writer.inl:133-161 | which is so if and only if every run of backslashes has even length |
| `Json.StaysIff` | lib/cajun-2.0.2/json/writer.inl:133-161 | the writer stays within the string if and only if no odd run of backslashes ends it |
| `Json.WriteString` | lib/cajun-2.0.2/json/writer.inl:133-161 | the loop writes quoted pieces: a backslash is dropped, unless a u follows; at a last lone backslash it passes the end |
| `Json.MatchString` | lib/cajun-2.0.2/json/reader.inl:305-365 | the loop reads escapes and four-character units as UTF-16, with an escaped character put before the units that precede it; which texts it rejects, and which raise invalid_utf16 |
| `Json.PairedReads` | lib/cajun-2.0.2/json/reader.inl:320-365 | paired strings are read as they were written |
| `Json.Loses` | lib/cajun-2.0.2/json/writer.inl:133-161 | a lone backslash makes what is read, up to the closing quote, shorter than the string |
| `Json.Shrinks` | lib/cajun-2.0.2/json/reader.inl:305-365 | from wherever a unit has left the reader in the text of a string, the rest gives at most so many characters |
| `Json.Follow` | lib/cajun-2.0.2/json/reader.inl:305-365 | where the reader stops: at the closing quote, at a quote inside, past the closing quote, or at an unknown escape |
| `Json.ReadIsPaired` | lib/cajun-2.0.2/json/reader.inl:320-365 | a string read from a text without unit escapes, such as a user id, is always paired |
| `Json.LostBackslash` | lib/cajun-2.0.2/json/writer.inl:142-159 | a backslash and a b are written as a b |
| `Json.EscapeTable` | lib/cajun-2.0.2/json/writer.inl:142-159 | which character is written for which, and read back for which, by character: those of section 7 of RFC 8259 |
| `JsonUnits.UnitIff` | lib/cajun-2.0.2/json/reader.inl:305-315 | four hexadecimal digits give the unit that they name if and only if none of them is a letter |
| `JsonUnits.WrongUnit` | lib/cajun-2.0.2/json/reader.inl:305-315 | 00e9 is read as 0359 |
| `JsonText.ObjectIff` | lib/cajun-2.0.2/json/reader.inl:170-480 | the text of an object of strings and booleans is read back with the same names and flags, and each string if and only if it is paired; with only paired strings it is never rejected |
| `JsonText.Astray` | lib/cajun-2.0.2/json/reader.inl:190-278 | a string that is not read up to its own closing quote makes the whole text be rejected |
| `JsonText.GuardedFails` | lib/cajun-2.0.2/json/reader.inl:190-278 | because what is left of it, scanned outside of a string, never leads to the end |
| `JsonText.ScanText` | lib/cajun-2.0.2/json/reader.inl:190-278 | the tokens of any text, or its rejection |
| `JsonText.ParseText` | lib/cajun-2.0.2/json/reader.inl:170-188 | the value of any text: scanned, parsed, with nothing left over |
| `JsonGrammar.GrammarIff` | lib/cajun-2.0.2/json/reader.inl:385-558 | the parser accepts exactly the token sequences of the grammar, nested to any depth, with names that differ within each object and numbers that convert, and gives the value that they spell |
| `JsonGrammar.SpellParses` | lib/cajun-2.0.2/json/reader.inl:385-558 | every such value is read from its tokens, whatever follows them |
| `JsonGrammar.ParsedIsSpelled` | lib/cajun-2.0.2/json/reader.inl:385-558 | whatever is read was spelled by the tokens that were taken |
| `JsonText.Punctuation` | lib/cajun-2.0.2/json/reader.inl:190-278 | the six structural characters and the three names |
| `JsonText.NumberTokenIs` | lib/cajun-2.0.2/json/reader.inl:368-380 | a number token starts with a digit or a minus and is the longest run of digits, signs, dots, exponent letters and zero characters |
| `JsonText.SpaceSkipped` | lib/cajun-2.0.2/json/reader.inl:281-286 | blank, tab, line feed and carriage return are skipped |
| `JsonText.TailParses` | lib/cajun-2.0.2/json/reader.inl:441-480 | the parser takes back the members that a line each has written |
| `JsonText.WriteObject` | lib/cajun-2.0.2/json/writer.inl:94-121 | an object in lines, each with a name and a value |
| `Sha2.HashMessage` | lib/milagro-crypto-c/src/hash.c:120-178 | byte-at-a-time hashing is the compression function folded over the message padded as in section 5.1 of FIPS 180-4, for both word sizes and every length |
| `Sha2.PaddingIs` | lib/milagro-crypto-c/src/hash.c:336-354 | the padded bytes are the message, the byte 0x80 and as few zeros as leave two words free |
| `Sha2.LengthAtEnd` | lib/milagro-crypto-c/src/hash.c:169-170 | the last two words, high word first, are the length in bits modulo 2^(16l) |
| `Sha2.ValueOfFour` | lib/milagro-crypto-c/src/hash.c:324-325 | four bytes make a word with the first byte on top |
| `Sha2.ValueOfEight` | lib/milagro-crypto-c/src/hash.c:324-325 | and so do eight |
| `Sha2.WordsOfBytes` | lib/milagro-crypto-c/src/hash.c:348-352 | cutting the digest into words again gives back the chaining value: bytes go out as they come in, and a shorter digest is a prefix |
| `Sha2.Hash.Process` | lib/milagro-crypto-c/src/hash.c:139-156 | a byte extends the parsed message by that byte, whatever the words held before |
| `Sha2.Hash.Finish` | lib/milagro-crypto-c/src/hash.c:336-354 | the digest is that of the bytes processed, and the structure starts afresh |
| `Sha2.Hash.PadOut` | lib/milagro-crypto-c/src/hash.c:343-344 | the padding loop stops exactly at the end of the padding |
| `Sha2.Hash.constructor` | lib/milagro-crypto-c/src/hash.c:298-315 | a valid structure for the empty message |
| `Sha2.PadTest` | lib/milagro-crypto-c/src/hash.c:344 | the test on the bit counter holds exactly after the last zero byte |
| `Sha2.PaddedWhole` | lib/milagro-crypto-c/src/hash.c:336-354 | the padded message is a whole number of 16-word blocks |
| `Sha2.WordIndex` | lib/milagro-crypto-c/src/hash.c:322 | the low counter word gives the index of the word being filled and the place in the block |
| `Sha2.BlockEnds` | lib/milagro-crypto-c/src/hash.c:333 | the counter test holds exactly when a block is full |
| `Sha2.CountByte` | lib/milagro-crypto-c/src/hash.c:327-332 | the two counter words hold the length in bits modulo 2^(16l) |
| `Sha2.LowBytesFull` | lib/milagro-crypto-c/src/hash.c:324-325 | once a word has been filled nothing stale is left in it |
| `Sha2.LastBlock` | lib/milagro-crypto-c/src/hash.c:345-347 | compressing the last 14 words with the length words gives the hash value |
| `Utf8.ValidateNext` | lib/cajun-2.0.2/utf8/core.h:223-273 | accepts exactly if the octets of some code point come next, and then returns it and moves past it; otherwise the error and the original position |
| `Utf8.AcceptedIff` | lib/cajun-2.0.2/utf8/core.h:99-273 | lead, trails, range and shortest form together accept exactly what append can write |
| `Utf8.EncIsChar` | lib/cajun-2.0.2/utf8/checked.h:72-96 | what append writes is a character of section 4 of RFC 3629 and decodes to its code point |
| `Utf8.CharIsEnc` | lib/cajun-2.0.2/utf8/checked.h:72-96 | every character of section 4 of RFC 3629 is what append writes for one valid code point |
| `Utf8.EncIsTable` | lib/cajun-2.0.2/utf8/checked.h:72-96 | the bits of a code point are laid out as in the table of section 3 of RFC 3629 |
| `Utf8.Enc16IsPair` | lib/cajun-2.0.2/utf8/checked.h:233-246 | a code point above 0xFFFF becomes the pair of section 2.1 of RFC 2781, any other the word itself |
| `Utf8.AcceptedIsChar` | lib/cajun-2.0.2/utf8/core.h:99-133 | a sequence that passes all tests is a character of section 4 of RFC 3629 |
| `Utf8.GetSequence` | lib/cajun-2.0.2/utf8/core.h:152-219 | the assembled code point, or the error of the first octet that is missing or no trail |
| `Utf8.FindInvalid` | lib/cajun-2.0.2/utf8/core.h:288-298 | everything before the result is well-formed, and the result is the end if and only if the whole is |
| `Utf8.Next8` | lib/cajun-2.0.2/utf8/checked.h:136-154 | the next code point, or the exception of the error found there |
| `Utf8.Utf8to16` | lib/cajun-2.0.2/utf8/checked.h:233-246 | throws exactly on ill-formed input, and then the exception that the first offending octets deserve; otherwise the same code points in UTF-16 |
| `Utf8.Utf16to8` | lib/cajun-2.0.2/utf8/checked.h:206-231 | throws exactly on ill-formed input, and then invalid_utf16 with the offending word; otherwise the same code points in UTF-8 |
| `Utf8.Next16` | lib/cajun-2.0.2/utf8/checked.h:210-226 | reads a surrogate pair or a plain word; a lone surrogate is refused |
| `Utf8.Back8` | lib/cajun-2.0.2/utf8/checked.h:206-246 | UTF-8 to UTF-16 and back is the identity on well-formed text, and throws on anything else |
| `Utf8.Back16` | lib/cajun-2.0.2/utf8/checked.h:206-246 | UTF-16 to UTF-8 and back is the identity on well-formed text, and throws on anything else |
| `Utf8.ReplaceInvalid` | lib/cajun-2.0.2/utf8/checked.h:98-127 | the output is the input with every broken piece of its one cut replaced by one mark; it is well-formed, and equal to well-formed input; for a valid mark not_enough_room is thrown if and only if the input ends inside a sequence; for an invalid mark only well-formed input is returned |
| `Utf8.SkipBroken` | lib/cajun-2.0.2/utf8/checked.h:111-123 | the piece that is replaced is the one that the cut prescribes, is no character, and skips no sequence that the input ends in |
| `Utf8.PathUnique` | lib/cajun-2.0.2/utf8/checked.h:98-127 | an input has only one cut into characters and broken pieces, so the number of marks is determined |
| `Utf8.TextInjective` | lib/cajun-2.0.2/utf8/checked.h:206-246 | equal encoded forms belong to equal texts, in either encoding |
| `Session.Client.RestoreSubscriptions` | src/client.cpp:372-383 | the loop subscribes in order up to the first refusal |
| `Session.RunsAreRight` | src/client.cpp:118-247 | in every run of calls in any order, against every stream of answers of network and broker: within a session OnConnected and OnConnectionLost alternate, OnConnected first, and a good CheckState with persistence off means every subscription is accepted on the current connection |
| `Session.EveryRun` | src/client.cpp:118-247 | every run keeps the invariant, from any state that has it; in particular the MQTT layer is down outside the connected state |
| `Session.Drive` | src/client.cpp:118-247 | the client object does in every run exactly what the machine does, hence all of this; and while a session is on its persistence is what the call that began it asked for |
| `Session.CheckKeeps` | src/client.cpp:278-320 | CheckState keeps the invariant, is true exactly in the connected state, and then with persistence off every subscription is accepted |
| `Session.CheckReports` | src/client.cpp:278-320 | which events CheckState reports from which state; each OnConnected after the first stands for exactly one new connection |
| `Session.CheckIff` | src/client.cpp:278-383 | a session that has been connected is found good if and only if both layers are up, which is never so in the disconnected state, or authentication, TLS and MQTT succeed anew and the session is still there or every topic is accepted: every call tries again |
| `Session.FirstIff` | src/client.cpp:278-293 | and when exactly the first connection succeeds, which with persistence on is made twice |
| `Session.RestoreIff` | src/client.cpp:372-383 | the subscriptions are made again if and only if the broker accepts every one while TLS stays up |
| `Session.Recovers` | src/client.cpp:118-383 | no state is a dead end: after any calls in any environment one call is enough once the environment is friendly |
| `Session.RefusedOnce` | src/client.cpp:118-383 | a run in which a topic is refused after a loss: that call fails, the next makes a third connection and the subscription on it |
| `Session.Mqtt.Subscribe` | lib/paho.mqtt.embedded-c-master/MQTTClient/src/MQTTClient.h:742-790 | a request that is not accepted takes the MQTT layer down, over a connection that stays or breaks |
| `Session.Recorded` | src/client.cpp:159-191 | a topic is recorded, or forgotten, exactly on success, which means connected and accepted, or taken back, by the broker |
| `Session.EndIsEnd` | src/client.cpp:139-147 | EndSession after any calls leaves no session, no subscriptions and no connection |
| `Session.StartAndEnd` | src/client.cpp:118-147 | StartSession begins a session with the configured persistence and changes nothing in one that is on; EndSession ends it; no other call does either, or changes the persistence |
| `Session.StartDecides` | src/client.cpp:118-147 | in every run a session that is on was begun by one call of StartSession, and its persistence is that of the call |
| `Session.Resumes` | src/mqtt_tls_client.cpp:85-145 | with persistence on the first connection is a clean one and then one that resumes it; a later one resumes, and if the session is still there nothing is subscribed again and nothing lost |
| `Session.Cleans` | src/mqtt_tls_client.cpp:85-145 | with persistence off every connection is clean, and after a reconnection exactly the recorded topics are accepted |
| `Session.Answers` | src/client.cpp:149-247 | what each call returns: IsConnected, that both layers are up; the others, that the state is good and the request was served, or that the loop did not break the connection |
| `Session.Failures` | src/mqtt_tls_client.cpp:187-245 | what a call that fails leaves: a request that was not served has taken the MQTT layer down, a message too long has not, the message loop fails only with TLS down; the session and its topics stay |
| `Session.LessIff` | src/client.cpp:159-191 | the order of the topics: the first character that differs decides, and a proper prefix comes first |
| `Session.AgainAccepts` | src/client.cpp:359-370 | success of Reconnect means one new connection on which, with persistence off, every subscription has been accepted |
| `Session.RestoreAccepts` | src/client.cpp:372-383 | success means every topic is accepted; nothing accepted is lost and nothing else gained; failure takes the MQTT layer down |
| `Session.FirstConnects` | src/mqtt_tls_client.cpp:85-131 | success means one new clean connection, or with persistence on a clean one followed by one that resumes it, without subscriptions; failure leaves both layers down |
| `Session.InsertAscends` | src/client.cpp:159-191 | the subscriptions stay in string order without repetition |

## Left out

- XtrPow: exponents are positive; for 0 the source computes with a negative number.
- XtrPow2: both exponents are positive; `EndsIffPositive` shows that the source does not return otherwise.
- ClientKey: both parts of the split exponent are positive; `KeyStepEnds` shows that the source does not return otherwise.
- BigInvmodp: a is coprime to p; `ReturnsIff` shows that the source does not return otherwise.
- FpAdd: the degrees that bound un-normalised limbs are ghost parameters; sums of degree above 4 are outside the contract because they can leave a chunk.
- BigMul: the claim that no partial sum leaves 64 bits is made for up to 16 limbs.
- Karmul: entries are unbounded integers, so the number of carries that the limbs of one BIG can hold in deep recursion is not modelled.
- FfSkpow: n is at least 2, since for n = 1 the upper product has no half-size part.
- FfCswap: entries are whole BIGs here, so the xor masks are not seen; `BigCswap` is the swap of limbs with them.
- XtrA: one call; that the arrays of a whole exponentiation go from call to call is not stated.
- Mul: the group law is abstract, so Jacobian addition formulas and the GLV and GS decompositions used by PAIR_G1mul and PAIR_G2mul are not modelled.
- QuadMul: FP12_pow4 is the same recoding in multiplicative notation; its unitary inversions are group negations here.
- Normalise: every last coordinate is invertible, which is when the product is (`UnitsIff`); the infinity flag is not a field of the point.
- Mul4: table entries at infinity are group elements like others; the source does not return from making such a table affine in G2.
- Run: what a login in which a point at infinity is sent ends with is not promised.
- Shares: nor what shares at infinity recombine to.
- Server2: the pairing is abstract; Miller loop, final exponentiation and Frobenius are not modelled.
- Check: with persistence on and a session reported as present, what the broker holds is not tracked.
- Do: callbacks of the event listener do not re-enter the client.
- BigShrBy: fewer limbs are dropped than there are.
- MQTT packets, received messages, TLS, TCP, HTTP and timers: calls into libraries, with only their success or failure modelled.
- AES rounds and SHA compression rounds: finite table facts; both functions are parameters.
- MPIN_KANGAROO, Elligator encoding, prime generation and all random generation: probabilistic or dependent on entropy.
- BIG_toBytes, BIG_fromBytes, FP_pow, FP12_pow, FF_pow and the other variants of exponentiation: easier forms of what is proved.
- `prior`, `advance`, `distance` and the UTF-32 conversions of the UTF-8 library: they follow from `ValidateNext`.
- WriteObject: only objects of strings and booleans are written here; numbers, arrays and nesting are read but not written.
- MatchString: char is signed, as on the desktop targets; where it is not, unit escapes of characters above 127 give other code points.
- Pseudo-Mersenne and Montgomery-friendly moduli, 16-bit and 64-bit chunks, Montgomery and Edwards curves: other builds than the default.
- Constant-time behaviour.
