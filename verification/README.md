# FIDO2 key: verified models of ML-DSA, the Keccak sponge, CTAPHID and CBOR

The firmware signs with ML-DSA (FIPS 204), hashes with SHAKE (FIPS 202), talks to the host in CTAPHID packets
(section 11.2 of FIDO CTAP 2.1) and encodes its messages in CBOR (RFC 8949). These four components are modelled here
in Dafny and proved correct.

**ML-DSA** is modelled once for the three parameter sets (`Params.Params`), since `ntt.c`, `reduce.c`, `packing.c`,
`polyvec.c` and `sign.c` are the same in the three directories; both variants of `rounding.c` and of the eta, z and w1
formats of `poly.c` are covered. There are three layers:

- *Machine arithmetic and kernels.* `Reduce` and `Rounding` hold the scalar code on 32- and 64-bit values. `Ntt`,
  `PolyOps`, `Sampling`, `InBall` and `PackOps` hold the loops over arrays, `PolyVecs` the vector operations, `KeyOps`
  and `SignOps` the encodings and the three entry points. Array elements have type `Int32`, so each addition,
  subtraction and shift carries a proof obligation that it fits 32 bits, and each reduction that its argument is in
  its domain; `SignOps` discharges all of them for key generation, every pass of the rejection loop, and verification.
- *Functions on values* that these loops refine: `NttSpec`, `NttInverse`, `NttProduct`, `PolySpec`, `BitPack`,
  `HintCode`, `Encodings`, `Scheme`.
- *Meaning.* The table of zetas is shown to hold the powers of 1753; the transforms evaluate and interpolate; products
  are products modulo X^256 + 1 (`NttProduct`, `MatrixProduct`). `IdealKeys`, `IdealSign` and `Ideal` say what key
  generation, signing and verification give, from the seed, the message and the random bytes to every byte of the
  result, in terms of hashes and polynomials alone: which bytes of which hash go where (`Streams`), where the
  coefficients of a challenge end up (`ChallengeLaw`), and which bits of keys and signatures hold what (`BitLaw`,
  `Layouts`). Every signature that signing emits is accepted (`Completeness`).

**Keccak** (`LaneOps`, `Keccak`, `SpongeOps`, `Shakes`): the incremental interface with its position word, the block-
wise one-shot interface, and their agreement for every way of cutting input and output. The permutation is a
parameter. `Shakes.ShakeHash` turns it into the hash functions of the scheme, `SignOps` hashes through the incremental
object, and `ShakeLaw` shows that the output is that of FIPS 202: pad, absorb, squeeze.

**CTAPHID** (`CtapHid`, `CtapRuns`): the sender, the receiver as a state machine and as an object with its buffers,
safety over all packet sequences, what each packet does in each state, and the round trip through other traffic.

**CBOR** (`Cbor`, `CborGrammar`): the writers, the readers and the recursive skipper, and the grammar it accepts.

Randomness, the clock, the host's acceptance of reports and the Keccak permutation are parameters. The unbounded
rejection loops take a bound on the stream or on the attempts; what is proved about a finished run holds for every
bound, and runs with a larger bound give the same result (`Sampling.UniformPolyAgree`, `InBall.ChallengeAgree`,
`Completeness.MatrixAgree`).

Where comments in the program and its code disagree, the model follows the code:

- `montgomery_reduce` gives r = Q at a = 2^31 * Q, so its range is half-open (`Reduce.MontgomeryRange`).
- `reduce32` reaches -6283009, at one input (`Reduce.Reduce32Range`).
- `polyveck_invntt_tomont` documents inputs below 2 * Q; sums of the last layer then leave 32 bits (`NttBounds.InverseDomain`).
- `skipValue` takes a break byte for a complete value anywhere, and a length of 2^64 - 1 written out in eight bytes for
  an indefinite length; `Cbor.Skip` does the same, and `CborGrammar.SkipAccepts` says exactly what that accepts.
- A CTAPHID message without payload is never delivered, and a cancellation replaces a pending command of any channel
  (`CtapRuns.RoundTrip`, `CtapRuns.InitializationEffect`).

## Model

| member | source | states |
|---|---|---|
| Reduce.MontgomeryReduce | lib/ML-DSA44/reduce.c:15-21 | with the truncating casts written out, on -2^31 Q <= a < 2^31 Q the result times 2^32 is congruent to a modulo Q and below Q in magnitude |
| Reduce.TruncationIsCommonResidue | lib/ML-DSA44/reduce.c:18 | casting the unsigned 64-bit product to int32 keeps the residue modulo 2^32 of the exact product, for every a |
| Reduce.MontgomeryRange | lib/ML-DSA44/reduce.c:5-21 | on the documented closed range the documented bound holds if and only if a is not the upper end |
| Reduce.Reduce32 | lib/ML-DSA44/reduce.c:33-39 | the result is congruent to a and in [-6283009, 6283008], without overflow on the way |
| Reduce.Reduce32Range | lib/ML-DSA44/reduce.c:23-39 | the documented lower bound holds if and only if a is not -2143289344 |
| Reduce.Freeze | lib/ML-DSA44/reduce.c:65-69 | the result is exactly a modulo Q |
| Zetas.ZetaIsPower | lib/ML-DSA44/ntt.c:6-39 | entry k of the table is congruent to 2^32 * 1753^brv8(k) modulo Q, for entries 1 to 255, the ones the loops read |
| NttSpec.ForwardEvaluates | lib/ML-DSA44/ntt.c:49-64 | output j of the forward transform is congruent to the value of the polynomial at 1753^(2 brv8(j) + 1), a root of X^256 + 1 |
| NttSpec.NodeEval | lib/ML-DSA44/ntt.c:54-62 | the layers below any block evaluate the block's residue at the roots of its modulus X^(2 len) - root |
| Ntt.NttBlock | lib/ML-DSA44/ntt.c:56-61 | the inner loop is the butterfly layer on its block and nothing else; coefficients grow by less than Q and stay in 32 bits |
| Ntt.NttLayer | lib/ML-DSA44/ntt.c:54-63 | one pass of the middle loop, with the running zeta index, is one layer |
| Ntt.Ntt | lib/ML-DSA44/ntt.c:49-64 | the in-place triple loop evaluates the polynomial at all 256 roots; eight layers grow coefficients by at most 8 (Q - 1) and never leave 32 bits |
| NttInverse.InverseOfForward | lib/ML-DSA44/ntt.c:77-98 | the inverse transform of anything congruent to c times a forward transform is 2^32 * c times the input |
| NttInverse.ForwardOfInverse | lib/ML-DSA44/ntt.c:77-98 | the forward transform of the inverse transform is 2^32 times the input, so each undoes the other |
| Ntt.InvNttBlock | lib/ML-DSA44/ntt.c:86-91 | the inner loop is the inverse butterfly layer on its block; magnitudes at most double |
| Ntt.InvNttToMont | lib/ML-DSA44/ntt.c:77-98 | in place, for inputs below Q: transforming the result forward gives 2^32 times the input, every sum fits 32 bits, and outputs are at most 4211177 |
| NttBounds.ForwardBound | lib/ML-DSA44/poly.c:111-125 | coefficients grow by at most 8 (Q - 1) in the forward transform |
| NttBounds.InverseBound | lib/ML-DSA44/ntt.c:66-98 | outputs of the inverse transform are at most 4211177, about 0.503 Q, tighter than documented |
| NttBounds.InverseDomain | lib/ML-DSA44/polyvec.c:272-288 | inputs up to b keep every sum and difference of all eight layers in 32 bits if and only if b <= 8388607, for every b: the documented 2 Q is too large |
| Ranges.ReducedRoundTrip | lib/ML-DSA44/polyvec.c:180-288 | transform, reduce, inverse transform gives 2^32 times the input, at most 4211177 |
| NttProduct.NegMulIsConvolution | lib/ML-DSA44/poly.c:145-164 | Horner multiplication modulo X^n + 1 is the schoolbook sum with sign change at the wrap |
| NttProduct.NttMultiplies | lib/ML-DSA44/poly.c:119-164 | transform, pointwise product, inverse transform is congruent to the schoolbook product modulo X^256 + 1, coefficient by coefficient |
| MatrixProduct.RowTimesMultiplies | lib/ML-DSA44/polyvec.c:123-134 | the accumulated pointwise products of a row, reduced and transformed back, are congruent to the sum of polynomial products |
| MatrixProduct.RowMinusMultiplies | lib/ML-DSA44/sign.c:294-303 | the verifier's row is congruent to the sum of polynomial products minus c * t1 * 2^13 |
| MatrixProduct.RowHasPolynomials | lib/ML-DSA44/polyvec.c:16-24 | every sampled row is the transform of some polynomials modulo Q |
| Rounding.Power2Round | lib/ML-DSA44/rounding.c:17-23 | a = a1 * 2^13 + a0 with a0 in (-4096, 4096] and a1 in [0, 1023] |
| Rounding.Decompose | lib/ML-DSA44/rounding.c:39-49 | the multiply and shift gives the decomposition of the standard, wrapped top bucket included, for every a in [0, Q) and both values of GAMMA2 |
| Rounding.DecompositionUnique | lib/ML-DSA65/rounding.c:39-49 | that decomposition is the only one |
| Rounding.Nearest88 | lib/ML-DSA44/rounding.c:42-43 | the multiplier 11275 finds the nearest multiple of 2 * GAMMA2 |
| Rounding.Nearest32 | lib/ML-DSA65/rounding.c:42-43 | the multiplier 1025 finds the nearest multiple of 2 * GAMMA2 |
| Rounding.HintRecovers | lib/ML-DSA44/rounding.c:62-98 | for a congruent to a1 * 2 GAMMA2 + r with magnitude of r below 2 GAMMA2, use_hint(a, make_hint(r, a1)) = a1, and the hint is 0 exactly when the high part of a already is a1 |
| Rounding.UseHintIs | lib/ML-DSA44/rounding.c:82-98 | a set hint moves to the next of the 44 or 16 buckets around the circle, up if the low part of the decomposition is positive and down otherwise; a clear one keeps the high part |
| PolyOps.PolyPointwise | lib/ML-DSA44/poly.c:155-164 | in place, aliasing allowed, on every pair whose products montgomery_reduce accepts: the reduced products, below Q |
| PolyOps.PolyChkNorm | lib/ML-DSA44/poly.c:270-295 | reports a violation if and only if the bound exceeds (Q - 1) / 8 or some coefficient reaches it in magnitude, with the masked absolute value in 32 bits |
| PolyOps.PolyMakeHint | lib/ML-DSA44/poly.c:226-238 | writes the hints and returns how many coefficients are set |
| PolyOps.PolyDecompose | lib/ML-DSA44/poly.c:202-211 | both parts of every coefficient, also when the high part overwrites the input |
| PolyOps.PolyReduce | lib/ML-DSA44/poly.c:20-29 | reduces every coefficient in place; the outputs are at most 6283009 in magnitude |
| PolyOps.PolyAdd | lib/ML-DSA44/poly.c:59-69 | the coefficientwise sum of the old inputs, also when the output is one of them, whenever all sums fit 32 bits |
| PolyOps.PolySub | lib/ML-DSA44/poly.c:81-91 | the coefficientwise difference of the old inputs, also when the output is one of them, whenever all differences fit 32 bits |
| PolyOps.PolyShiftl | lib/ML-DSA44/poly.c:100-109 | multiplies by 2^13 within 32 bits, for coefficients below 2^18 |
| PolyOps.PolyPower2Round | lib/ML-DSA44/poly.c:178-187 | both parts of every coefficient, also when the high part overwrites the input |
| PolyOps.PolyUseHint | lib/ML-DSA44/poly.c:248-257 | corrects every coefficient, also in place |
| PolyVecs.PointwiseAcc | lib/ML-DSA44/polyvec.c:123-134 | the accumulated product of up to seven terms, below 7 (Q - 1) + 1, with no addition leaving 32 bits |
| PolyVecs.PolyVec.Add | lib/ML-DSA44/polyvec.c:72-78 | the sum of two vectors, also when it replaces a summand, with bounds that add |
| PolyVecs.PolyVec.Sub | lib/ML-DSA44/polyvec.c:233-239 | the difference of two vectors, also when it replaces an operand |
| PolyVecs.PolyVec.MatrixPointwise | lib/ML-DSA44/polyvec.c:26-32 | every row of the matrix times the vector |
| PolyVecs.PolyVec.MakeHint | lib/ML-DSA44/polyvec.c:379-389 | the hint vector and its number of ones |
| PolyVecs.PolyVec.ChkNorm | lib/ML-DSA44/polyvec.c:148-158 | reports a violation if and only if some polynomial violates the bound |
| PolyVecs.PolyVec.NttAll | lib/ML-DSA44/polyvec.c:88-94 | transforms every polynomial; inputs up to Q stay below 9 Q |
| PolyVecs.PolyVec.InvNttAll | lib/ML-DSA44/polyvec.c:282-288 | transforms every polynomial back; inputs below Q end at most at 4211177 |
| PolyVecs.PolyVec.Shiftl | lib/ML-DSA44/polyvec.c:249-255 | multiplies the 10-bit coefficients of t1 by 2^13, at most Q |
| PolyVecs.PolyVec.PointwisePoly | lib/ML-DSA44/polyvec.c:104-110 | multiplies every polynomial by one, also in place; the products are below Q |
| PolyVecs.PolyVec.UseHint | lib/ML-DSA44/polyvec.c:401-407 | corrects every polynomial in place |
| BitPack.OrIsBitwise | lib/ML-DSA44/poly.c:594-630 | the sum that the model uses for or-ing shifted fields is the bitwise or |
| BitPack.PolyRoundTrip | lib/ML-DSA44/poly.c:526-848 | unpacking what was packed gives the polynomial back, for every format and all in-range coefficients |
| BitPack.Eta2RoundTrip | lib/ML-DSA44/poly.c:526-582 | eight 3-bit fields in three bytes |
| BitPack.Eta4RoundTrip | lib/ML-DSA65/poly.c:524-558 | two 4-bit fields in a byte |
| BitPack.T0RoundTrip | lib/ML-DSA44/poly.c:641-741 | eight 13-bit fields in thirteen bytes |
| BitPack.T1RoundTrip | lib/ML-DSA44/poly.c:594-630 | four 10-bit fields in five bytes |
| BitPack.Z18RoundTrip | lib/ML-DSA44/poly.c:753-822 | four 18-bit fields in nine bytes |
| BitPack.Z20RoundTrip | lib/ML-DSA65/poly.c:729-780 | two 20-bit fields in five bytes |
| BitPack.W6RoundTrip | lib/ML-DSA44/poly.c:834-848 | four 6-bit fields in three bytes: no two values of w1 share an encoding |
| BitPack.PolyCanonical | lib/ML-DSA44/poly.c:753-822 | every byte string is the packing of in-range response coefficients, so unpacking and packing again changes nothing |
| BitPack.UnpackBound | lib/ML-DSA44/poly.c:557-822 | whatever the bytes, unpacked coefficients stay in the range of their fields |
| BitPack.ShiftsDivide | lib/ML-DSA44/poly.c:526-848 | the shifts and masks of the packing code are quotient and remainder |
| BitLaw.UnpackIs | lib/ML-DSA44/poly.c:557-822 | unpacking gives p if and only if the bytes, as a number with the least significant byte first, have the bit fields of the coefficients of p as digits, for every format and all bytes |
| BitLaw.PackIs | lib/ML-DSA44/poly.c:526-848 | the bytes written are that number, with fields offset from ETA, 2^12 or GAMMA1 where coefficients can be negative |
| BitLaw.DigitsUnique | lib/ML-DSA44/poly.c:526-848 | the digits of a number are unique, so the two before leave nothing open |
| PackOps.PackPolyAt | lib/ML-DSA44/poly.c:526-848 | the packing loop writes the packed polynomial at its offset and nothing else |
| PackOps.UnpackPolyAt | lib/ML-DSA44/poly.c:557-822 | the unpacking loop reads the polynomial at its offset |
| HintCode.HintsRoundTrip | lib/ML-DSA44/packing.c:187-203 | decoding the encoded hints gives them back, for every hint vector with at most OMEGA ones |
| HintCode.HintsCanonical | lib/ML-DSA44/packing.c:232-258 | whatever decodes has at most OMEGA ones and is byte for byte the encoding of what it decodes to |
| HintCode.DecodesIs | lib/ML-DSA44/packing.c:232-258 | bytes decode to h if and only if the totals ascend within OMEGA, between two totals stand the positions of the ones of a row in strictly ascending order, and zeros follow |
| HintCode.EncodesIs | lib/ML-DSA44/packing.c:187-203 | what is encoded has this form |
| PackOps.EncodeHintsInto | lib/ML-DSA44/packing.c:187-203 | the loop with the running index writes positions, zeros and totals |
| PackOps.DecodeHintsFrom | lib/ML-DSA44/packing.c:232-258 | the loop with its three rejections accepts exactly the well-formed hint encodings |
| Encodings.PkRoundTrip | lib/ML-DSA44/packing.c:16-53 | unpacking a packed public key gives rho and t1 |
| Encodings.SkRoundTrip | lib/ML-DSA44/packing.c:68-156 | unpacking a packed secret key gives rho, key, tr, s1, s2 and t0 |
| Encodings.SigRoundTrip | lib/ML-DSA44/packing.c:169-261 | unpacking a packed signature gives c, z and h, for z in range and at most OMEGA ones |
| Encodings.SigCanonical | lib/ML-DSA44/packing.c:215-261 | whenever unpacking succeeds, packing the result reproduces the input bytes: a signature has one encoding |
| Layouts.PublicKeyIs | lib/ML-DSA44/packing.c:40-53 | a public key unpacks to k if and only if rho is its first 32 bytes and t1 stands behind it, 320 bytes a polynomial |
| Layouts.SecretKeyIs | lib/ML-DSA44/packing.c:120-156 | a secret key unpacks to k if and only if rho, key, tr, s1, s2 and t0 stand at their offsets, bit by bit |
| Layouts.SignatureIs | lib/ML-DSA44/packing.c:215-261 | bytes unpack to s if and only if the seed, the response and the hints stand at their offsets, bit by bit |
| KeyOps.PackSecretKey | lib/ML-DSA44/packing.c:68-106 | the six consecutive writes produce the packed secret key |
| KeyOps.PackSignature | lib/ML-DSA44/packing.c:169-204 | the three consecutive writes produce the packed signature |
| KeyOps.UnpackSignature | lib/ML-DSA44/packing.c:215-261 | reads a signature or reports malformed hints |
| KeyOps.PackPublicKey | lib/ML-DSA44/packing.c:16-28 | the two consecutive writes produce the packed public key |
| KeyOps.UnpackPublicKey | lib/ML-DSA44/packing.c:40-53 | reads rho and t1 at their offsets |
| KeyOps.UnpackSecretKey | lib/ML-DSA44/packing.c:120-156 | reads the six parts of a secret key at their offsets |
| PackOps.PackVecAt | lib/ML-DSA44/packing.c:25-27 | writes the polynomials one after the other and nothing else |
| PackOps.UnpackVecAt | lib/ML-DSA44/packing.c:50-52 | reads the polynomials one after the other |
| Sampling.CandidateIs | lib/ML-DSA44/poly.c:320-327 | three bytes yield their 23-bit little-endian number if it is below Q, and nothing otherwise |
| Sampling.EtaCandidateIs | lib/ML-DSA44/poly.c:396-408 | each short coefficient comes from exactly three half bytes for ETA = 2, one for ETA = 4 |
| Streams.AcceptedIs | lib/ML-DSA44/poly.c:311-333 | three more bytes add the number in their lowest 23 bits if it is below Q, behind what the bytes before gave |
| Streams.WholeThrees | lib/ML-DSA44/poly.c:320-330 | one or two bytes left over give nothing |
| Streams.EtaAcceptedIs | lib/ML-DSA44/poly.c:387-413 | one more byte adds what its low half gives, then what its high half gives |
| Sampling.RejUniform | lib/ML-DSA44/poly.c:311-333 | takes the first len accepted candidates of the buffer, in order, and touches nothing else |
| Sampling.PolyUniform | lib/ML-DSA44/poly.c:347-371 | the block-wise loop with its carried bytes gives the first 256 coefficients that one pass over the whole stream accepts |
| Sampling.AcceptedCarry | lib/ML-DSA44/poly.c:360-368 | moving up to two unused bytes in front of the next block changes nothing in what is accepted |
| Sampling.UniformPolyAgree | lib/ML-DSA44/poly.c:347-371 | a longer stream gives the same polynomial |
| Sampling.RejEta | lib/ML-DSA44/poly.c:387-413 | takes the first len accepted halves of the buffer, low half first, with the check before the second half |
| Sampling.PolyUniformEta | lib/ML-DSA44/poly.c:426-446 | the block-wise loop gives the first 256 coefficients of one pass over the whole stream |
| InBall.ChallengeWeight | lib/ML-DSA44/poly.c:480-515 | every challenge has exactly TAU nonzero coefficients, all 1 or -1 |
| InBall.StepWeight | lib/ML-DSA44/poly.c:510-512 | each swap adds one nonzero coefficient and keeps everything above it zero |
| InBall.PolyChallenge | lib/ML-DSA44/poly.c:480-515 | the loop with its 136-byte buffer computes the challenge of the unbuffered stream |
| InBall.ReadIndex | lib/ML-DSA44/poly.c:501-508 | reads bytes, refilling the buffer where it ends, until one is at most i |
| InBall.ChallengeAgree | lib/ML-DSA44/poly.c:480-515 | a longer stream gives the same challenge |
| ChallengeLaw.ChallengeIs | lib/ML-DSA44/poly.c:480-515 | the challenge is c if and only if there are stream positions, each the first byte behind the one before that is at most 256 - TAU + t, such that every coefficient of c is the sign of the last step that named it, or what that position held when its own step moved it, or 0 |
| ChallengeLaw.ChallengeSigns | lib/ML-DSA44/poly.c:491-512 | as many coefficients are -1 as there are ones among the first TAU bits of the stream |
| ChallengeLaw.LittleEndianBit | lib/ML-DSA44/poly.c:491-494 | shifting the sign word bit by bit reads the bits of the eight bytes, lowest first |
| Ranges.RowTimesBound | lib/ML-DSA44/sign.c:138-142 | on the way to A * y: products accumulate to at most 7 (Q - 1), the reduction is in range, the result is at most 4211177 |
| Ranges.RowMinusBound | lib/ML-DSA44/sign.c:294-303 | on the way to A * z - c * t1 * 2^13: at most 8 (Q - 1) before the reduction, at most 4211177 after the inverse transform |
| Ranges.ChallengeProductBound | lib/ML-DSA44/sign.c:159-179 | products with the challenge are at most 4211177 after the inverse transform, without a reduction |
| SignAlgebra.VerifierPolynomial | lib/ML-DSA44/sign.c:291-303 | the verifier's row is congruent to the signer's w - c * s2 + c * t0, given the key equation and z = y + c * s1 |
| Scheme.KeyVectorCanonical | lib/ML-DSA44/sign.c:47-58 | A * s1 + s2 needs only caddq to be in [0, Q) |
| Scheme.MessageInputInjective | lib/ML-DSA44/sign.c:113-123 | the hashed string determines key hash, context and message |
| Streams.MatrixOfIs | lib/ML-DSA44/polyvec.c:16-24 | the sampled matrix belongs to polynomials a if and only if the values of a[i][j] at the roots are the first 256 numbers accepted from SHAKE128 of rho, j, i |
| Streams.MaskNonceIs | lib/ML-DSA44/polyvec.c:46-52 | with the 16-bit nonce that wraps around, polynomial i of mask e is read from the stream with the two low bytes of L * e + i |
| SignOps.ExpandMatrix | lib/ML-DSA44/polyvec.c:16-24 | samples entry (i, j) with nonce 256 i + j for every row and column |
| SignOps.ExpandMask | lib/ML-DSA44/polyvec.c:46-52 | unpacks polynomial i from the stream with the 16-bit nonce L * nonce + i |
| SignOps.ExpandEta | lib/ML-DSA44/polyvec.c:38-44 | samples polynomial i with nonce first + i |
| SignOps.ComputeKeyVector | lib/ML-DSA44/sign.c:46-58 | the in-place operations give A * s1 + s2 in [0, Q), every intermediate value in 32 bits |
| SignOps.ComputeCommitment | lib/ML-DSA44/sign.c:138-145 | the in-place operations give A * y in [0, Q), every intermediate value in 32 bits |
| SignOps.ComputeChallengeSeed | lib/ML-DSA44/sign.c:147-154 | packs w1 and hashes it behind mu |
| SignOps.ComputeResponse | lib/ML-DSA44/sign.c:159-162 | the in-place operations give the reduced y + c * s1 |
| SignOps.UpdateLow | lib/ML-DSA44/sign.c:169-172 | the in-place operations turn w0 into the reduced w0 - c * s2 |
| SignOps.ComputeHintPart | lib/ML-DSA44/sign.c:178-180 | the in-place operations give the reduced c * t0 |
| SignOps.KeyPairFrom | lib/ML-DSA44/sign.c:23-65 | key generation by the in-place operations gives the key pair of the specification; no operation leaves its range |
| SignOps.RespondWith | lib/ML-DSA44/sign.c:156-189 | the four checks of a signing attempt, in order, on the vectors overwritten in place |
| SignOps.AttemptWith | lib/ML-DSA44/sign.c:133-189 | one pass of the rejection loop for any nonce, from the mask to the verdict |
| SignOps.RejectionLoop | lib/ML-DSA44/sign.c:133-189 | the rejection loop with its 16-bit nonce returns the first signature that passes |
| SignOps.SignMessage | lib/ML-DSA44/sign.c:84-195 | signing by the in-place operations and the incremental hash gives the signature of the specification |
| SignOps.RecomputeSeed | lib/ML-DSA44/sign.c:291-317 | verification's arithmetic, for every well-formed signature and every public key, stays in range and recomputes the challenge seed |
| SignOps.VerifyMessage | lib/ML-DSA44/sign.c:248-326 | verification by the in-place operations gives the verdict of the specification, for arbitrary input bytes |
| Scheme.SecretBound | lib/ML-DSA44/packing.c:120-157 | whatever the secret key bytes, the unpacked vectors are small enough to transform |
| Completeness.KeyGenCorrect | lib/ML-DSA44/sign.c:23-65 | the written keys read back as t1, t0, s1, s2 in their ranges with t1 * 2^13 + t0 congruent to A * s1 + s2, and tr is the hash of the public key |
| Completeness.HighBitsRestored | lib/ML-DSA44/sign.c:169-189 | under the signer's checks, use_hint on the verifier's vector gives exactly the w1 that was hashed |
| Completeness.Complete | lib/ML-DSA44/sign.c:84-326 | every signature that signing emits with a generated secret key is accepted with the public key, for every parameter set, hash, seed, message, context and randomness; with streams shorter than the signer's, verification may be undecided but never rejects |
| Ideal.KeyIdeal | lib/ML-DSA44/sign.c:47-58 | key generation computes A * s1 + s2 modulo Q and X^256 + 1 exactly |
| Ideal.CommitmentIdeal | lib/ML-DSA44/sign.c:138-145 | signing computes A * y modulo Q and X^256 + 1 exactly |
| Ideal.ResponseIdeal | lib/ML-DSA44/sign.c:159-162 | z is congruent to y + c * s1 |
| Ideal.VerifyAcceptsIff | lib/ML-DSA44/sign.c:248-326 | verification accepts if and only if the bytes encode a signature with short z whose seed is the hash of mu and of use_hint(h, A * z - c * t1 * 2^13), where mu hashes the hash of the key, 0, the length of the context, context and message, A belongs to rho, and A, z, c and t1 are multiplied as polynomials |
| IdealKeys.KeyGenIs | lib/ML-DSA44/sign.c:23-65 | key generation finishes exactly when every stream yields 256 short coefficients; then bytes 0-31 of SHAKE256(seed, K, L) start both keys, bytes 96-127 are the signing secret, s1 and s2 are the first coefficients accepted from the streams 0 to K + L - 1 of bytes 32-95, and t1 and t0 split A * s1 + s2 as polynomials |
| IdealKeys.KeyGenMatrix | lib/ML-DSA44/sign.c:40-42 | whenever key generation finishes there are polynomials A that belong to rho |
| IdealSign.AttemptIs | lib/ML-DSA44/sign.c:133-189 | a pass of the loop emits, rejects or gets stuck exactly as the trial in polynomials does: mask from the stream, seed from the high bits of A * y, centred y + c * s1, w0 - c * s2 and c * t0, and the four bounds |
| IdealSign.LoopIs | lib/ML-DSA44/sign.c:133-189 | the loop ends with s if and only if the first trial that is not refused gives s, across the wrap-around of the 16-bit nonce |
| IdealSign.SignIs | lib/ML-DSA44/sign.c:84-195 | signing emits sig if and only if sig encodes the signature of the first passing trial, for mu = SHAKE256(tr, 0, context length, context, message) and masks from SHAKE256(key, rnd, mu) |
| IdealSign.SignNeeds | lib/ML-DSA44/sign.c:84-130 | signing emits nothing without a complete matrix or with a context above 255 bytes |
| LaneOps.LanesAreBytes | lib/commons/fips202.c:27-34 | xoring loaded 64-bit lanes is xoring the bytes one by one |
| Keccak.AbsorbAgrees | lib/commons/fips202.c:349-380 | block-wise absorption with the padded last block leaves the state of byte-wise absorption and finalization |
| Keccak.SqueezeAgrees | lib/commons/fips202.c:395-405 | block-wise squeezing gives the bytes of byte-wise squeezing |
| Keccak.FeedConcat | lib/commons/fips202.c:440-464 | absorbing in two pieces is absorbing their concatenation |
| Keccak.DrainConcat | lib/commons/fips202.c:498-523 | squeezing in two pieces is squeezing their total, in output and in the state left |
| Keccak.IncrementalIsOneShot | lib/commons/fips202.c:417-523 | for every list of absorbed pieces and of squeezed sizes, the incremental output is the one-shot output on the whole message |
| Keccak.FeedPos | lib/commons/fips202.c:440-464 | while absorbing, the position word is the number of absorbed bytes modulo the rate |
| Keccak.AfterPos | lib/commons/fips202.c:498-523 | while squeezing, the position word counts down modulo the rate |
| Keccak.PositionWord | lib/commons/fips202.c:417-523 | over a whole run, however input and output are cut: bytes absorbed modulo the rate, then minus the bytes squeezed modulo the rate |
| SpongeOps.Sponge.Absorb | lib/commons/fips202.c:440-464 | the object follows the byte-wise sponge state and keeps the position word below the rate |
| SpongeOps.Sponge.Finalize | lib/commons/fips202.c:477-483 | pads at the position word and sets it to zero |
| SpongeOps.Sponge.Squeeze | lib/commons/fips202.c:498-523 | the object gives out the next bytes, follows the byte-wise squeezing state and keeps the position word at most the rate |
| SpongeOps.AbsorbOnce | lib/commons/fips202.c:349-380 | keccak_absorb with its padding buffer |
| SpongeOps.SqueezeOnce | lib/commons/fips202.c:395-405 | keccak_squeezeblocks, and the state it leaves |
| SpongeOps.Shake | lib/commons/fips202.c:695-745 | shake128 and shake256 give the requested bytes, partial last block included |
| Shakes.StreamIsDrain | lib/commons/fips202.c:498-523 | any stretch of the output stream is what squeezing gives there |
| Shakes.HashPieces | lib/ML-DSA44/sign.c:113-123 | absorbing in pieces and squeezing once is the hash of the concatenation |
| ShakeLaw.ShakeIs | lib/commons/fips202.c:349-405 | byte i of output block j is byte i of the state after absorbing the padded message block by block and j + 1 permutations |
| ShakeLaw.HashIs | lib/commons/fips202.c:695-745 | the two hash functions are that construction with rates of 168 and 136 bytes and the padding 0x1F, 0x80 |
| CtapHid.SendCtapResponse | src/FIDO2Manager.cpp:295-349 | sends the packets of the message in order, up to the first that the host does not take |
| CtapRuns.PacketLayout | src/FIDO2Manager.cpp:295-349 | every byte of every packet sent, and how many packets there are |
| CtapRuns.ShortEffect | src/FIDO2Manager.cpp:3463-3465 | a packet below seven bytes does nothing, whatever the state |
| CtapRuns.ContinuationEffect | src/FIDO2Manager.cpp:3530-3582 | what a continuation does in every state: nothing without a live transfer or on another channel than the live one, error 4 for a wrong number, error 1 for a short packet, otherwise the next fragment or the complete message |
| CtapRuns.InitializationEffect | src/FIDO2Manager.cpp:3463-3528 | what an initialization does in every state: a cancellation replaces the pending command; with a command pending, silence on its channel and error 5 on others; otherwise error 1 above 7609 bytes, or a new message |
| CtapRuns.RoundTrip | src/FIDO2Manager.cpp:295-349 | for every payload of up to 65535 bytes, with any continuations of other channels, short packets and polls between its packets: sent in time to a receiver with no pending command, it is pending after the last packet and not before if and only if it has 1 to 7609 bytes |
| CtapRuns.DeliveredOnce | src/FIDO2Manager.cpp:3585-3609 | the poll after the last packet hands on exactly this message, and nothing was handed on before |
| CtapHid.RunSound | src/FIDO2Manager.cpp:3463-3583 | after every sequence of packets and polls, what is being received is the payload of one initialization packet and continuations 0, 1, 2, ... of the same channel, no gap over 500 ms, each fragment as long as its share |
| CtapHid.DeliverySound | src/FIDO2Manager.cpp:3463-3609 | whatever polling hands on is a cancellation for which a cancel packet of its channel came in, or exactly such a payload of the announced length, whatever other packets came between |
| CtapHid.AssembledMore | src/FIDO2Manager.cpp:3530-3563 | a continuation that passes the checks extends the fragments by one |
| CtapHid.Receiver.OnOutput | src/FIDO2Manager.cpp:3463-3583 | the object with its buffers makes exactly the step of the state machine and sends its answer; received <= expected <= capacity always |
| CtapHid.Receiver.Continue | src/FIDO2Manager.cpp:3530-3563 | the continuation branch; its capacity checks never fire |
| CtapHid.Receiver.TakePending | src/FIDO2Manager.cpp:3585-3609 | hands on the pending command once |
| CtapHid.Receiver.Begin | src/FIDO2Manager.cpp:3496-3528 | the initialization branch: length check, growing buffer, short packet, first fragment |
| CtapHid.Receiver.Complete | src/FIDO2Manager.cpp:3565-3582 | a complete message becomes the pending command, copied to a buffer that fits it |
| CtapHid.Receiver.Cancel | src/FIDO2Manager.cpp:3477-3483 | a cancellation replaces whatever is pending and leaves the transfer alone |
| CtapHid.Receiver.ExpireTransfer | src/FIDO2Manager.cpp:3466-3470 | a transfer is dropped if and only if its last packet is more than 500 ms old on the 32-bit clock |
| Cbor.HeadRoundTrip | src/CborEngine.cpp:4-145 | reading a written head gives its major type and value and ends right behind it |
| Cbor.HeadShortest | src/CborEngine.cpp:108-145 | no shorter head is read as the same value: the writers' heads are shortest |
| Cbor.ReadHead | src/CborEngine.cpp:108-145 | the offset never passes the end, and a success moves it on |
| Cbor.SkipItem | src/CborEngine.cpp:196-259 | the skipper accepts a written item if and only if it nests to depth 16 at most with at most 256 elements or pairs each, and then stops exactly at its end |
| CborGrammar.SkipAccepts | src/CborEngine.cpp:196-259 | on arbitrary bytes: the skipper succeeds if and only if a value within the limits of depth and size stands at the position, strings, arrays and maps of indefinite length up to their break byte and nested in any way included, and then stops right behind it |
| CborGrammar.SkipData | src/CborEngine.cpp:196-259 | where any such value stands, the skipper succeeds if and only if the value is within the limits |
| CborGrammar.SkipParses | src/CborEngine.cpp:196-259 | whatever the skipper accepts has a parse tree that ends where it stops |
| CborGrammar.LeadRead | src/CborEngine.cpp:108-145 | a head of any size, shortest or not, is read as its major type and argument |
| CborGrammar.LeadFound | src/CborEngine.cpp:108-145 | reading fails only where no head stands |
| CborGrammar.ArgumentIs | src/CborEngine.cpp:120-142 | arguments have the most significant byte first |
| Cbor.Skip | src/CborEngine.cpp:196-259 | on arbitrary bytes the skipper ends inside the buffer, and the number of calls is at most the bytes passed plus one |
| Cbor.ItemUnique | src/CborEngine.cpp:4-106 | at most one written item, nested ones included, stands at a position of a buffer |
| Cbor.EncodePrefixFree | src/CborEngine.cpp:4-106 | the encoding of whole items is one to one, and no encoding is a prefix of another |
| Cbor.Parser.SkipValue | src/CborEngine.cpp:196-259 | the recursive method with the shared offset does what the function says, call for call |
| Cbor.Parser.ReadTypeAndValue | src/CborEngine.cpp:108-145 | the value, and the offset it leaves also on failure |
| Cbor.Parser.ReadByteString | src/CborEngine.cpp:147-166 | gives back exactly the bytes written if they fit; any failure restores the offset |
| Cbor.Parser.ReadTextString | src/CborEngine.cpp:171-194 | gives back the characters written and a terminating zero if both fit; any failure restores the offset |
| Cbor.Encoder.WriteHead | src/CborEngine.cpp:4-62 | writes the shortest head if it fits, and otherwise changes nothing |
| Cbor.Encoder.WriteUnsignedInt | src/CborEngine.cpp:4-38 | all or nothing: appends the encoded integer if and only if it fits |
| Cbor.Encoder.WriteNegativeInt | src/CborEngine.cpp:288-331 | all or nothing: appends -1 - value as major type 1 if and only if the value is negative and fits |
| Cbor.Encoder.WriteByteString | src/CborEngine.cpp:64-86 | all or nothing: appends head and bytes if and only if three more bytes than the string stay below the capacity and the length fits 16 bits |
| Cbor.Encoder.WriteTextString | src/CborEngine.cpp:88-106 | all or nothing, for up to 255 characters |
| Cbor.Encoder.WriteMapHeader | src/CborEngine.cpp:40-62 | all or nothing, for up to 65535 pairs |
| Cbor.Encoder.WriteArrayHeader | src/CborEngine.cpp:261-275 | all or nothing, for up to 255 elements |
| Cbor.Encoder.WriteBoolean | src/CborEngine.cpp:277-282 | all or nothing: one byte |
| Cbor.Encoder.WriteItem | src/FIDO2Manager.cpp:692-803 | the writer calls for a whole nested item append exactly its encoding if all of them succeed, and with three bytes more room than the encoding all do |
| Cbor.Encoder.WriteNull | src/CborEngine.cpp:333-337 | all or nothing: one byte |

## Left out

- The Keccak round function: the permutation is a parameter, and nothing about its randomness is stated.
- Termination of the samplers and of the rejection loop: the methods take a bound and say when it was not enough.
- Polynomial vectors are objects that hold their polynomials as values; a vector operation loads one polynomial into an
  array, works on it in place and stores it back, so overlap between polynomials inside a vector is not modelled.
- Packing and sampling loops take bytes from sequences where the program advances through its buffers; the signature
  buffer that the program also uses as scratch is a separate value here.
- `crypto_sign`, `crypto_sign_open` and the wrappers with an empty context only copy bytes around the modelled calls.
- Sizes in CBOR and packet lengths are unbounded naturals; the wrap-around of `size_t` near 2^32 is not modelled.
- Allocation failure, waiting for the host between reports, and the interleaving of the USB callback with `poll` inside
  one call: each call is one step.
- The processing of delivered commands (`processCborCommand`, `processU2fCommand`), storage, backup, cryptographic
  coprocessors, display and fingerprint hardware, the browser extension and the host tools.
- Memory wiping and constant-time behaviour, and SHA-2 and SHA-3 beyond the sponge they share with SHAKE.
