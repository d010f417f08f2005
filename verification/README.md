# Verified models of the curve library, the signatures and the swap maker

These files model, in Dafny, two parts of the repository and prove what they promise.

**The cryptographic core** (`deps/curve25519-dalek-v3`, `deps/ed25519-dalek`). Every fast algorithm is
proved to compute its simple definition, and the pieces are composed up to signatures:

- `Field`: the addition chains, inversion, and the merged inversion, square root and square test.
- `Recoding`: the three signed recodings of a scalar, on 64-bit words and bytes with their wrap-around.
- `Edwards`, `EdwardsLaw`, `EdwardsGroup`, `EdwardsAssociativity`, `CurveModels`: encoding and decoding of points;
  the addition law is complete, closed and associative, so that the points form an abelian group;
  the formulas of the program in projective, completed, extended and cached coordinates compute it.
- `ScalarMul`, `Multiscalar`, `LinearCombinations`, `Straus`, `Pippenger`: tables of multiples,
  multiplication of a base point, double-base and multiscalar multiplication.
- `Montgomery`, `MontgomeryAlgebra`, `Twist`, `Ladder`, `MontgomeryCurve`: the birational conversions, and the
  ladder on the u-coordinates of the curve and of its quadratic twist, which together are all field elements.
- `RistrettoEquality`, `Ristretto`, `RistrettoNorm`, `RistrettoRoundTrip`: equality is equality modulo
  the points of order dividing four; encoding and decoding are mutually inverse, exactly on a subgroup
  that holds every decoded point, every double and every point of odd order.
- `ScalarArithmetic`, `ScalarLimbs`, `ScalarInversion`, `BatchInversion`: Montgomery reduction on
  integers and on limbs of 52 bits in 64- and 128-bit words, the addition chain modulo the group order,
  and Montgomery's trick.
- `ByteStrings`, `SecretKeys`, `Signatures`, `Signing`, `Basepoint`, `BatchVerification`: clamping, the
  encoding of signatures, signing, verification, the base point, and verification of batches: which batches are
  accepted, and how few choices of the z let a wrong one pass.

**The swap maker** (`swap/src/asb`, `swap/src/beldex.rs`): `Quotes` (prices and solvent quotes),
`EventLoop`, `EventLoopRuns`, `EncryptedSignatures`, `EventLoopTraces`, `EventLoopMachine` (routing of transfer
proofs and encrypted signatures), `Rendezvous`, `RendezvousProgress`, `RendezvousDialling`,
`RendezvousMachine` (registration with rendezvous nodes). One arm of the loop, or one callback, is one step; the
objects that the program updates in place are classes whose methods are proved to perform these steps and to
keep the safety properties. What the state is after any run is also stated in terms of the events alone.

`Congruence`, `Primes` (Euclid's lemma and Fermat's theorem, proved), `SquareRoots`, `Digits`, `Groups`,
`ByteConversion` and `Options` hold the mathematics that the rest uses.

## Representation

- A field element is an integer that stands for its residue class modulo p = 2^255 - 19; it is reduced
  where the program reduces it (comparisons, signs, encodings). A 32-byte string is the integer below
  2^256 that it spells.
- `CurvePoint` is a point in canonical affine coordinates, and `TwistPoint` one of the twist. Ghost parameters
  of the methods name the points that representatives stand for; they have no part in the computation.
- Tables that the program stores as constants (the multiples of the base point) are parameters that
  satisfy what the table constructors are proved to establish.
- The swarm and the channels of the event loop are represented by what was done with them. Request ids
  count the requests, as in the swarm. What the swaps and the database do is an event of its own.
- Some definitions have a counter that does not affect their value. It keeps proofs from unfolding them; a
  lemma beside each gives the body.

## Hypotheses

Each appears as a `requires` clause.

- `IsPrime(P)` and `IsPrime(L)`: p and l are prime. All else about the field and the curve is proved
  from the first: Fermat's theorem, that d has no root, that the law is complete and associative, and that
  the constants are what they should be.
- `HasOrderL(b)`: l b = 0 for the base point b, and for the keys where a batch is verified; where the
  converse matters, also that b is not the identity.
- The hash function is an arbitrary function to 64 bytes, and the z of a batch are arbitrary scalars.

## Observations on the program

Where it differs from its comments, and what the proofs brought up:

- `Scalar::to_radix_2w` explains the fold of the last carry for w < 8 by a bound on the digits that would
  not suffice; the carry is always zero there (`Recoding.Radix2wDone`).
- `Scalar::batch_invert` demands nonzero inputs; without the debug assertion, a multiple of l among
  them makes all results zero, which is what the model states.
- `RistrettoPoint::compress` says that a value is always square. It is exactly for the points with a root of
  1 - y^2. Decoded points, the base point and all their sums, negatives and multiples have one
  (`RistrettoNorm.NormOfSum`, `RistrettoRoundTrip.CombinationRoundTrip`,
  `Basepoint.BasepointHasSquareNorm`); points of order eight, which are
  no representatives of Ristretto points, have none (`RistrettoNorm.EighthLacksNorm`).
- A public key made from an expanded key is clamped once more, so that it need not fit a key that was not
  clamped (`Signing.ExpandedKeyAcceptedIff`, `Signing.UnclampedKeyIsRejected`).
- `MontgomeryPoint::to_edwards` is said to give nothing for the coordinates of the twist. It does not reject 0,
  which points of both curves have (`Twist.ToEdwardsRejectsTwist`, `MontgomeryCurve.ConvertedIff`).
- Verification of a batch decodes R, whereas verification of one signature compares encodings: a signature with
  another than the canonical encoding of its R passes in a batch and is refused on its own
  (`BatchVerification.AcceptsIffCanonical`, `BatchVerification.BatchAcceptsOtherIdentity`).
- The event loop acknowledges an encrypted signature to its sender also when the swap dropped it without
  having received it (`EncryptedSignatures.AnswerConfirmsIff`).
- A second setup with the swap id of a running swap is refused by the database, but only after the receiver
  of the running swap has been replaced (`EncryptedSignatures.WaitingSwapIsServedIff`).
- The rendezvous client looks up the first node of a peer when a registration is reported, so that a second
  node with the same peer registers once and never again (`RendezvousProgress.DuplicateRegistersOnce`).
- A rendezvous node whose registration expires while it is disconnected is queued by two checks, and dialled twice
  (`RendezvousDialling.QueuedTwiceIff`, `RendezvousDialling.ExpiredIsDialledTwice`).

## Model

| member | source | states |
|---|---|---|
| `Field.Pow22501IsPower` | deps/curve25519-dalek-v3/src/field.rs:99-135 | The chain shared by inversion and the square root computes x^(2^250 - 1) and x^11, for every x. |
| `Field.InvertIsPower` | deps/curve25519-dalek-v3/src/field.rs:178-187 | `invert` is x^(p - 2), for every x. |
| `Field.PowP58IsPower` | deps/curve25519-dalek-v3/src/field.rs:190-199 | `pow_p58` is x^((p - 5) / 8), for every x. |
| `Field.InvertIsInverse` | deps/curve25519-dalek-v3/src/field.rs:172-187 | `invert` gives the inverse of every nonzero element, and zero for zero. |
| `Field.SqrtRatioIContract` | deps/curve25519-dalek-v3/src/field.rs:201-259 | For every u and v: the flag says whether u / v has a root (u = 0 counts as one); then the result is a root; otherwise it is a root of i u / v, or zero where v is zero; it is never negative. |
| `Field.RootIsUnique` | deps/curve25519-dalek-v3/src/field.rs:204-212 | Two roots of u / v are equal up to sign, so that the one that is not negative is the only one. |
| `Field.AbsoluteValue` | deps/curve25519-dalek-v3/src/field.rs:252-254 | The conditional negation at the end leaves an element that is not negative and has the same square. |
| `BatchInversion.FieldBatchInvert` | deps/curve25519-dalek-v3/src/field.rs:139-170 | Every element of a slice of nonzero elements is replaced, in place, by its inverse, for every length. |
| `Recoding.NonAdjacentForm` | deps/curve25519-dalek-v3/src/scalar.rs:897-952 | For every scalar below 2^255 and 2 <= w <= 8: 256 digits whose sum with weights 2^i is the scalar; nonzero digits are odd and below 2^(w-1) in absolute value; any w neighbours hold at most one nonzero digit. |
| `Recoding.ReadWindow` | deps/curve25519-dalek-v3/src/scalar.rs:916-929 | The window read from one word or across two words is the w bits of the scalar from the position on. |
| `Recoding.OddWindow` | deps/curve25519-dalek-v3/src/scalar.rs:940-948 | An odd window keeps the state of the loop: its digit goes to a zero place with w - 1 zeros after it, and the remaining value accounts for the carry. |
| `Recoding.SignedDigit` | deps/curve25519-dalek-v3/src/scalar.rs:940-948 | The digit of an odd window is the window, less the width from half the width on; the wrapping subtraction of signed bytes is exact. |
| `Recoding.OrOfDisjoint` | deps/curve25519-dalek-v3/src/scalar.rs:919-927 | The bitwise or of the two words that share a window is their sum, because their bits do not overlap. |
| `Recoding.NoCarryPast255` | deps/curve25519-dalek-v3/src/scalar.rs:931-949 | No carry is pending when the loop passes bit 255. |
| `Recoding.ToRadix16` | deps/curve25519-dalek-v3/src/scalar.rs:960-986 | For every scalar below 2^255: 64 digits in [-8, 8), the last in [-8, 8], whose sum with weights 16^i is the scalar. |
| `Recoding.ToRadix2w` | deps/curve25519-dalek-v3/src/scalar.rs:1025-1080 | For every scalar below 2^255 and w in 6..8: 43 signed bytes in [-2^(w-1), 2^(w-1)) whose sum with weights 2^(w i) is the scalar, with zeros from the size hint on. |
| `Recoding.Radix2wDone` | deps/curve25519-dalek-v3/src/scalar.rs:1066-1077 | For w = 6 and 7 the final carry is zero, whatever the loop leaves, so that the truncating fold into the last digit has no effect. |
| `Recoding.Radix256Done` | deps/curve25519-dalek-v3/src/scalar.rs:1069-1077 | For w = 8 the final carry becomes the extra digit. |
| `Recoding.CarryOutOfRadix256` | deps/curve25519-dalek-v3/src/scalar.rs:1069-1075 | For w = 8 the extra digit is one exactly for the scalars above 127 (2^256 - 1) / 255, the largest value of 32 digits, and zero for the others. |
| `Edwards.DHasNoRoot` | deps/curve25519-dalek-v3/src/backend/serial/u64/constants.rs:28-35 | The curve constant d has no root modulo p. |
| `Edwards.DecompressContract` | deps/curve25519-dalek-v3/src/edwards.rs:183-200 | For every string: a point comes back exactly when the encoded y belongs to a point of the curve; it is valid, has that y, and its x has the encoded sign unless it is zero. |
| `Edwards.CompressRoundTrip` | deps/curve25519-dalek-v3/src/edwards.rs:183-200 | Every valid representative survives compression and decompression as the same point. |
| `Edwards.CompressDecidesEquality` | deps/curve25519-dalek-v3/src/edwards.rs:402-413 | Two valid representatives have the same encoding exactly when `ct_eq` accepts them. |
| `Edwards.CtEqTransitive` | deps/curve25519-dalek-v3/src/edwards.rs:402-413 | `ct_eq` is transitive through a representative with nonzero Z. |
| `CurveModels.CtEqIsEquality` | deps/curve25519-dalek-v3/src/edwards.rs:402-413 | `ct_eq` accepts two representatives exactly when they stand for the same point. |
| `CurveModels.ValidDenotes` | deps/curve25519-dalek-v3/src/edwards.rs:373-385 | Every representative that passes the validity check stands for a point of the curve. |
| `CurveModels.ExtendsIsValid` | deps/curve25519-dalek-v3/src/edwards.rs:373-385 | Every representative of a point of the curve passes the validity check. |
| `EdwardsLaw.LawIsComplete` | deps/curve25519-dalek-v3/src/backend/serial/curve_models/mod.rs:404-424 | The denominators of the addition law never vanish on a curve whose d has no root, modulo any odd prime for which -1 has one. |
| `EdwardsLaw.LawIsClosed` | deps/curve25519-dalek-v3/src/edwards.rs:513-517 | The sum of two points satisfies the curve equation, for every such d. |
| `EdwardsLaw.LawAssociates` | deps/curve25519-dalek-v3/src/edwards.rs:513-517 | The two ways to add three points give the same point, for every such d. |
| `EdwardsGroup.Complete` | deps/curve25519-dalek-v3/src/backend/serial/curve_models/mod.rs:404-424 | The denominators never vanish on the curve of the program, whose d is shown to have no root. |
| `EdwardsGroup.CurveIsAbelian` | deps/curve25519-dalek-v3/src/edwards.rs:513-517 | The points of the curve form an abelian group under the addition law. |
| `CurveModels.CompletedMeaning` | deps/curve25519-dalek-v3/src/backend/serial/curve_models/mod.rs:342-367 | Leaving completed coordinates keeps the point, in projective and in extended coordinates. |
| `CurveModels.ProjectiveMeaning` | deps/curve25519-dalek-v3/src/backend/serial/curve_models/mod.rs:327-340 | Extending projective coordinates keeps the point. |
| `CurveModels.NielsMeaning` | deps/curve25519-dalek-v3/src/edwards.rs:429-439 | The cached form of a representative stands for its point. |
| `CurveModels.AffineNielsMeaning` | deps/curve25519-dalek-v3/src/edwards.rs:452-463 | The affine cached form of a representative stands for its point. |
| `CurveModels.DoubleCorrect` | deps/curve25519-dalek-v3/src/backend/serial/curve_models/mod.rs:373-391 | Doubling in projective coordinates is doubling in the group. |
| `CurveModels.AddProjectiveNielsCorrect` | deps/curve25519-dalek-v3/src/backend/serial/curve_models/mod.rs:404-424 | Adding a cached point is addition in the group, for all points. |
| `CurveModels.SubProjectiveNielsCorrect` | deps/curve25519-dalek-v3/src/backend/serial/curve_models/mod.rs:426-446 | Subtracting a cached point is subtraction in the group, for all points. |
| `CurveModels.AffineNielsCorrect` | deps/curve25519-dalek-v3/src/backend/serial/curve_models/mod.rs:448-516 | Adding, subtracting and negating an affine cached point are the operations of the group. |
| `CurveModels.AddExtendedCorrect` | deps/curve25519-dalek-v3/src/edwards.rs:513-517 | Addition of two extended points is addition in the group. |
| `ScalarMul.LookupTable` | deps/curve25519-dalek-v3/src/window.rs:96-106 | The table of a point p holds 1 p, ..., 8 p. |
| `ScalarMul.Select` | deps/curve25519-dalek-v3/src/window.rs:50-72 | For -8 <= x <= 8 the scan of the table and the conditional negation give x p. |
| `ScalarMul.MulByPow2` | deps/curve25519-dalek-v3/src/edwards.rs:853-863 | k successive doublings give 2^k p, for every k > 0. |
| `ScalarMul.CreateBasepointTable` | deps/curve25519-dalek-v3/src/edwards.rs:826-836 | The i-th of the 32 tables is the table of 256^i p. |
| `ScalarMul.Pass` | deps/curve25519-dalek-v3/src/edwards.rs:789-797 | A pass over the digits of one parity adds their value in radix 256 times p. |
| `ScalarMul.StridedSum` | deps/curve25519-dalek-v3/src/edwards.rs:783-800 | Sixteen times the odd digits plus the even digits, in radix 256, is the value of all digits in radix 16. |
| `ScalarMul.BasepointMul` | deps/curve25519-dalek-v3/src/edwards.rs:783-800 | For every point p and every scalar below 2^255, multiplication through the table of p gives the multiple of p. |
| `Multiscalar.NafLookupTable5` | deps/curve25519-dalek-v3/src/window.rs:137-147 | The table of a point holds its odd multiples 1, 3, ..., 15. |
| `Multiscalar.NafLookupTable8` | deps/curve25519-dalek-v3/src/window.rs:196-206 | The table of a point holds its odd multiples 1, 3, ..., 127, in affine form. |
| `Multiscalar.AddDigit` | deps/curve25519-dalek-v3/src/backend/serial/scalar_mul/vartime_double_base.rs:40-44 | One sparse digit adds its multiple of the point, for digits of either sign and for zero. |
| `Multiscalar.StartingIndex` | deps/curve25519-dalek-v3/src/backend/serial/scalar_mul/vartime_double_base.rs:24-31 | Above the starting index all digits of both scalars are zero. |
| `Multiscalar.VartimeDoubleBaseMul` | deps/curve25519-dalek-v3/src/backend/serial/scalar_mul/vartime_double_base.rs:20-61 | For all scalars a and b below 2^255 and all points, the interleaved sparse forms of widths 5 and 8 give a A + b B. |
| `LinearCombinations.ColumnsStep` | deps/curve25519-dalek-v3/src/backend/serial/scalar_mul/straus.rs:178-192 | One step of a simultaneous Horner evaluation, for any number of points and any radix. |
| `Straus.StrausMul` | deps/curve25519-dalek-v3/src/backend/serial/scalar_mul/straus.rs:157-194 | For any number of scalars and points: the sum of all multiples, or nothing exactly when a point is missing. |
| `Pippenger.RunningSums` | deps/curve25519-dalek-v3/src/backend/serial/scalar_mul/pippenger.rs:139-151 | The two running sums over the buckets weight the b-th bucket by b + 1. |
| `Pippenger.WeightedUpdate` | deps/curve25519-dalek-v3/src/backend/serial/scalar_mul/pippenger.rs:124-134 | Adding a point to the b-th bucket adds its (b + 1)-fold to the weighted sum. |
| `Pippenger.ColumnSum` | deps/curve25519-dalek-v3/src/backend/serial/scalar_mul/pippenger.rs:114-152 | A column of digits is turned, through the buckets, into the combination of the points by those digits. |
| `Pippenger.PippengerMul` | deps/curve25519-dalek-v3/src/backend/serial/scalar_mul/pippenger.rs:68-162 | For any number of scalars and points: the sum of all multiples, or nothing exactly when a point is missing. |
| `Pippenger.OptionalMultiscalarMul` | deps/curve25519-dalek-v3/src/edwards.rs:667-695 | The same result whichever of the two algorithms the size selects. |
| `Montgomery.ToMontgomeryContract` | deps/curve25519-dalek-v3/src/edwards.rs:473-483 | Conversion gives the u-coordinate (1 + y) / (1 - y) of a point, whatever its representative, and 0 for the identity. |
| `Montgomery.YFromU` | deps/curve25519-dalek-v3/src/montgomery.rs:145-151 | The u-coordinate of a point other than the identity is not -1, and (u - 1) / (u + 1) is its y. |
| `Montgomery.ToEdwardsContract` | deps/curve25519-dalek-v3/src/montgomery.rs:129-156 | A string is converted exactly when it is the u-coordinate of a point other than the identity; the result is such a point, with the given sign unless x is zero. |
| `Montgomery.MontgomeryRoundTrip` | deps/curve25519-dalek-v3/src/montgomery.rs:129-156 | A point is recovered from its u-coordinate and its sign exactly when it is not the identity. |
| `Montgomery.AffineMeaning` | deps/curve25519-dalek-v3/src/montgomery.rs:203-206 | The affine form of a projective u-coordinate is the u-coordinate, with 0 where W is zero. |
| `MontgomeryAlgebra.DifferentialIdentity` | deps/curve25519-dalek-v3/src/montgomery.rs:223-261 | The identity behind differential addition, from the curve equation and the addition law. |
| `Twist.TwistIsAbelian` | deps/curve25519-dalek-v3/src/montgomery.rs:19-23 | The points of the quadratic twist form an abelian group under the same law, with d replaced by 1 / d. |
| `Twist.EveryCoordinate` | deps/curve25519-dalek-v3/src/montgomery.rs:66-70 | Every field element is the u-coordinate of a point of the curve or of its twist. |
| `Twist.OneSide` | deps/curve25519-dalek-v3/src/montgomery.rs:120-128 | Only 0 is the coordinate of points of both. |
| `Twist.ToEdwardsRejectsTwist` | deps/curve25519-dalek-v3/src/montgomery.rs:120-143 | Conversion returns nothing exactly for the nonzero u-coordinates of points of the twist. |
| `MontgomeryCurve.SideOfCoordinate` | deps/curve25519-dalek-v3/src/montgomery.rs:135-142 | A nonzero u is the coordinate of a point of the curve exactly when v^2 = u^3 + 486662 u^2 + u has a solution, and of the twist exactly when it has none. |
| `MontgomeryCurve.ConvertedIff` | deps/curve25519-dalek-v3/src/montgomery.rs:120-156 | Conversion returns a point exactly for the u for which the equation has a solution, 0 included. |
| `Ladder.DoubledMeaning` | deps/curve25519-dalek-v3/src/montgomery.rs:223-261 | The first output of a step is the u-coordinate of 2 P, for every point P of the curve and of its twist. |
| `Ladder.AddedMeaning` | deps/curve25519-dalek-v3/src/montgomery.rs:223-261 | The second output is the u-coordinate of P + Q, for all P and Q of one of the two curves whose difference has a u-coordinate that is neither 0 nor infinite. |
| `Ladder.DifferentialAddAndDouble` | deps/curve25519-dalek-v3/src/montgomery.rs:223-261 | The step updates both projective points in place to these two outputs. |
| `Ladder.Bits` | deps/curve25519-dalek-v3/src/scalar.rs:815-823 | The i-th entry is bit i of the scalar. |
| `Ladder.StepKeepsPair` | deps/curve25519-dalek-v3/src/montgomery.rs:284-292 | On the curve and on the twist, a step takes the pair n P, (n + 1) P, in the order of the bit, to the pair of the prefix that is one bit longer. |
| `Ladder.StepKeepsAxis` | deps/curve25519-dalek-v3/src/montgomery.rs:223-261 | With u = 0, a step keeps U W = 0 for both points. |
| `Ladder.LadderMul` | deps/curve25519-dalek-v3/src/montgomery.rs:273-295 | For every string and every n below 2^255, the ladder with delayed swaps takes u(P) to the canonical u(n P), for every point P of the curve or of the twist with the coordinate that the string spells, of which there is one; the exceptional u = 0 is included. |
| `Ladder.LadderOfEdwards` | deps/curve25519-dalek-v3/src/montgomery.rs:273-295 | The ladder on the u-coordinate of P gives the same string as the conversion of n P. |
| `RistrettoEquality.RescaledEq` | deps/curve25519-dalek-v3/src/ristretto.rs:769-776 | Rescaling either argument has no effect on the equality test. |
| `RistrettoEquality.TorsionShifts` | deps/curve25519-dalek-v3/src/ristretto.rs:586-592 | Adding the points of `coset4` takes (x, y) to (x, y), (-x, -y), (i y, i x) and (-i y, -i x). |
| `RistrettoEquality.RistrettoEqIsCoset4` | deps/curve25519-dalek-v3/src/ristretto.rs:769-776 | The equality test accepts exactly the four members of the coset of a point. |
| `RistrettoEquality.TorsionIsOrderFour` | deps/curve25519-dalek-v3/src/ristretto.rs:586-592 | 4 t = 0 exactly for the four points that `coset4` adds. |
| `RistrettoEquality.RistrettoEqIsEqualityModuloTorsion` | deps/curve25519-dalek-v3/src/ristretto.rs:769-776 | P and Q are equal Ristretto points exactly when 4 P = 4 Q. |
| `Ristretto.RistrettoDecompressContract` | deps/curve25519-dalek-v3/src/ristretto.rs:251-304 | A string is accepted exactly when it is canonical and encodes a point in normal position (s not negative, s^2 = (1 - y) / (1 + y), x and x y not negative, y nonzero), and it is decoded to that point. |
| `Ristretto.DecodedPoint` | deps/curve25519-dalek-v3/src/ristretto.rs:271-303 | The decoded coordinates lie on the curve with X Y = Z T, by the contract of the inverse square root. |
| `Ristretto.EncodingIsAccepted` | deps/curve25519-dalek-v3/src/ristretto.rs:251-304 | Every canonical encoding of a point is accepted and decoded to that point. |
| `RistrettoRoundTrip.RistrettoCompressContract` | deps/curve25519-dalek-v3/src/ristretto.rs:446-479 | Encoding gives the encoding of a point of the same coset, for every point for which 1 - y^2 has a root. |
| `RistrettoNorm.NormOfSum` | deps/curve25519-dalek-v3/src/ristretto.rs:446-456 | Having a root of 1 - y^2, which the program assumes where it ignores the flag of the inverse square root, is a homomorphism: a sum has one exactly when both summands have one or neither has. |
| `RistrettoNorm.MultipleHasSquareNorm` | deps/curve25519-dalek-v3/src/ristretto.rs:446-456 | n a satisfies the condition exactly when n is even or a satisfies it. |
| `RistrettoNorm.NegateHasSquareNorm` | deps/curve25519-dalek-v3/src/ristretto.rs:446-456 | A point and its negative satisfy the condition together. |
| `RistrettoNorm.DoubleHasSquareNorm` | deps/curve25519-dalek-v3/src/ristretto.rs:446-456 | Every double satisfies the condition. |
| `RistrettoNorm.OddOrderHasSquareNorm` | deps/curve25519-dalek-v3/src/constants.rs:73-84 | Every point of odd order satisfies the condition, among them the base point. |
| `RistrettoNorm.TorsionHasSquareNorm` | deps/curve25519-dalek-v3/src/ristretto.rs:586-592 | The points that `coset4` adds satisfy the condition, so that it does not depend on the representative. |
| `RistrettoNorm.OrderEightLacksNorm` | deps/curve25519-dalek-v3/src/ristretto.rs:446-456 | No point of order eight satisfies the condition. |
| `RistrettoNorm.NormOfOrder` | deps/curve25519-dalek-v3/src/ristretto.rs:446-456 | A point whose order divides 8 n, with n odd (n = l for every point of the curve), satisfies the condition exactly when its order divides 4 n. |
| `RistrettoNorm.EighthLacksNorm` | deps/curve25519-dalek-v3/src/backend/serial/u64/constants.rs:173-196 | The second constant of `EIGHT_TORSION` has order eight and does not satisfy the condition. |
| `RistrettoRoundTrip.RistrettoRoundTrip` | deps/curve25519-dalek-v3/src/ristretto.rs:251-304 | A point survives encoding and decoding up to Ristretto equality exactly when 1 - y^2 has a root. |
| `RistrettoRoundTrip.CombinationRoundTrip` | deps/curve25519-dalek-v3/src/ristretto.rs:446-479 | Every integer combination of two decoded points survives encoding and decoding. |
| `RistrettoRoundTrip.DecodedHasSquareNorm` | deps/curve25519-dalek-v3/src/ristretto.rs:446-456 | Every decoded point satisfies the condition of encoding. |
| `RistrettoRoundTrip.EighthIsLost` | deps/curve25519-dalek-v3/src/ristretto.rs:446-479 | The point of order eight among the constants does not survive encoding and decoding. |
| `RistrettoRoundTrip.RistrettoReencode` | deps/curve25519-dalek-v3/src/ristretto.rs:242-248 | Every accepted string is the encoding of the point that it is decoded to. |
| `RistrettoRoundTrip.RistrettoCompressDecidesEquality` | deps/curve25519-dalek-v3/src/ristretto.rs:446-479 | Two such points have the same encoding exactly when they are equal as Ristretto points. |
| `Basepoint.BasepointCoordinates` | deps/curve25519-dalek-v3/src/constants.rs:41-46 | The base point has y = 4 / 5 and an even x. |
| `Basepoint.BasepointIsEncoded` | deps/curve25519-dalek-v3/src/constants.rs:41-51 | The compressed base point is the encoding of the point with y = 4 / 5 and even x, and is decoded to it. |
| `Basepoint.BasepointIsConverted` | deps/curve25519-dalek-v3/src/constants.rs:53-58 | Its Montgomery form is 9. |
| `Basepoint.BasepointHasSquareNorm` | deps/curve25519-dalek-v3/src/constants.rs:66-71 | The base point has a square norm, so that it and its multiples survive encoding as Ristretto points. |
| `Basepoint.RistrettoBasepointIsEncoding` | deps/curve25519-dalek-v3/src/constants.rs:60-71 | The compressed Ristretto base point is a canonical encoding of a point in normal position, to which it is decoded by EncodingIsAccepted. |
| `Basepoint.BasepointIsNormalised` | deps/curve25519-dalek-v3/src/constants.rs:60-71 | Every representative of that point and every one of the base point are equal as Ristretto points. |
| `ScalarArithmetic.MontgomeryReduceContract` | deps/curve25519-dalek-v3/src/backend/serial/u64/scalar.rs:237-270 | Reduction divides by 2^260 modulo l, and is canonical for every input below 2^260 l. |
| `ScalarLimbs.MontgomeryReduceColumns` | deps/curve25519-dalek-v3/src/backend/serial/u64/scalar.rs:234-271 | The reduction of nine 128-bit columns, with wrapping 64-bit factors and carries, computes that quotient; no column overflows and the limbs fit 52 bits. |
| `ScalarLimbs.Part1` | deps/curve25519-dalek-v3/src/backend/serial/u64/scalar.rs:239-243 | The wrapping product gives the factor that clears the lowest 52 bits, and the sum stays below 2^128. |
| `ScalarLimbs.MulInternalValue` | deps/curve25519-dalek-v3/src/backend/serial/u64/scalar.rs:194-210 | The nine columns of products are worth the product of the two integers. |
| `ScalarLimbs.SquareInternal` | deps/curve25519-dalek-v3/src/backend/serial/u64/scalar.rs:212-232 | The columns of a square with doubled limbs are those of the product. |
| `ScalarLimbs.SubLimbs` | deps/curve25519-dalek-v3/src/backend/serial/u64/scalar.rs:171-191 | Subtraction with wrapping borrows and a masked addition of l gives a - b, with l added if that is negative. |
| `ScalarLimbs.AddLimbs` | deps/curve25519-dalek-v3/src/backend/serial/u64/scalar.rs:155-169 | Addition with carries gives a + b, less l unless that is negative. |
| `ScalarLimbs.MultiplyLimbs` | deps/curve25519-dalek-v3/src/backend/serial/u64/scalar.rs:272-277 | Multiplication of limb arrays is multiplication of scalars, for all scalars below 2^255. |
| `ScalarLimbs.UnpackLimbs` | deps/curve25519-dalek-v3/src/backend/serial/u64/scalar.rs:63-84 | The five limbs that are cut out of the 64-bit words stand for the integer that the string spells. |
| `ScalarArithmetic.ReduceContract` | deps/curve25519-dalek-v3/src/scalar.rs:1089-1094 | Reduction is the remainder modulo l, for every scalar. |
| `ScalarArithmetic.IsCanonicalContract` | deps/curve25519-dalek-v3/src/scalar.rs:1114-1116 | A scalar is canonical exactly when it is below l. |
| `ScalarArithmetic.FromCanonicalBytesContract` | deps/curve25519-dalek-v3/src/scalar.rs:229-240 | A string is accepted exactly when it spells an integer below l, and becomes that scalar. |
| `ScalarArithmetic.MultiplyScalarsContract` | deps/curve25519-dalek-v3/src/scalar.rs:291-296 | Multiplication is canonical and exact modulo l, for scalars that need not be reduced. |
| `ScalarArithmetic.AddScalarsContract` | deps/curve25519-dalek-v3/src/scalar.rs:308-322 | Addition is canonical and exact modulo l, for scalars that need not be reduced. |
| `ScalarArithmetic.NegateScalarContract` | deps/curve25519-dalek-v3/src/scalar.rs:353-361 | Negation is canonical and exact modulo l. |
| `ScalarArithmetic.FromWideContract` | deps/curve25519-dalek-v3/src/scalar.rs:218-220 | A 512-bit hash becomes its remainder modulo l. |
| `ScalarInversion.SquareMultiply` | deps/curve25519-dalek-v3/src/scalar.rs:1143-1148 | Squarings and a product take the exponent e to 2^k e + f, in Montgomery form. |
| `ScalarInversion.MontgomeryInvert` | deps/curve25519-dalek-v3/src/scalar.rs:1126-1179 | The addition chain computes x^(l - 2) in Montgomery form, for every x. |
| `ScalarInversion.InvertScalar` | deps/curve25519-dalek-v3/src/scalar.rs:1182-1184 | The inverse of every scalar that is not a multiple of l, and 0 for the others. |
| `BatchInversion.PrefixProducts` | deps/curve25519-dalek-v3/src/scalar.rs:778-792 | After the forward pass every input is in Montgomery form and every scratch value is the product of the inputs before it. |
| `BatchInversion.AccumulatorStep` | deps/curve25519-dalek-v3/src/scalar.rs:805-809 | A backward step takes the accumulator to the inverse of a shorter product and yields the inverse of one input. |
| `BatchInversion.BatchInvert` | deps/curve25519-dalek-v3/src/scalar.rs:761-812 | For every slice, of any length: every input is replaced by its inverse, or all by 0 if one is a multiple of l; the result is the inverse of the product. |
| `BatchInversion.BatchAgrees` | deps/curve25519-dalek-v3/src/scalar.rs:725-733 | The batch agrees entry by entry with the inversion of single scalars, and its result is the product of those inverses. |
| `SecretKeys.ClampContract` | deps/ed25519-dalek/src/secret.rs:277-279 | A clamped scalar is a multiple of 8 between 2^254 and 2^255, and clamping is idempotent. |
| `SecretKeys.Expand` | deps/ed25519-dalek/src/secret.rs:265-282 | The first half of the hash is clamped by the masks 248, 63 and 64 and becomes the key, unchanged by `from_bits`; the second half is the nonce. |
| `SecretKeys.MangleScalarBits` | deps/ed25519-dalek/src/public.rs:149-151 | The masks 248, 127 and 64 clamp in the same way, in place. |
| `Signing.PublicKeyOfSecret` | deps/ed25519-dalek/src/public.rs:58-71 | The public key of a secret key is the multiple of the base point by the clamped half of the hash, with its encoding. |
| `Signing.PublicKeyOfExpanded` | deps/ed25519-dalek/src/public.rs:73-80 | The public key of an expanded key is the multiple by its scalar clamped once more. |
| `Signing.CompressIsEncoding` | deps/curve25519-dalek-v3/src/edwards.rs:486-494 | Compression writes y with the low bit of x in the highest bit, for every representative. |
| `Signing.DecompressEncoding` | deps/curve25519-dalek-v3/src/edwards.rs:183-200 | Decompressing the encoding of a point gives that point. |
| `Signing.FromHash` | deps/curve25519-dalek-v3/src/scalar.rs:629-635 | A hash becomes a scalar modulo l. |
| `Signing.Sign` | deps/ed25519-dalek/src/secret.rs:390-412 | The signature is R = r B and s = k key + r modulo l, for the nonce r and the challenge k = H(R, A, M). |
| `Signing.Verify` | deps/ed25519-dalek/src/public.rs:329-354 | A signature is accepted exactly when it decodes and s B - k A encodes to R; a string that does not decode is refused with its error, and a failed equation with another. |
| `Signing.SignatureAcceptedIff` | deps/ed25519-dalek/src/public.rs:329-354 | A signature made with a scalar verifies under the public key m B exactly when l divides k (key - m). |
| `Signing.SignedIsAccepted` | deps/ed25519-dalek/src/secret.rs:390-412 | Every signature made with a key is accepted under the public key of that key. |
| `Signing.SignWithKeypair` | deps/ed25519-dalek/src/keypair.rs:408-414 | A keypair signs with the clamped half of the hash of its secret key, and the other half as the nonce. |
| `Signing.SignThenVerify` | deps/ed25519-dalek/src/keypair.rs:408-421 | From the bytes of a secret key: deriving the public key, expanding, signing and verifying always ends in acceptance, for every message and every hash function. |
| `Signing.AcceptsIff` | deps/ed25519-dalek/src/public.rs:329-354 | A string is accepted exactly when it is R and a reduced s, of 32 bytes each, with R the canonical encoding of a point r and s B = r + k A, where k is the hash of R, A and the message modulo l. |
| `Signing.SignatureIsBound` | deps/ed25519-dalek/src/public.rs:329-354 | A signature is accepted for another message, or another string for the key, exactly when the hashes of R, the key and the message agree modulo l, for every hash function. |
| `Signing.ScalarIsUnique` | deps/ed25519-dalek/src/signature.rs:80-111 | For one R, public key and message, at most one string is accepted. |
| `Signing.NonceIsBound` | deps/ed25519-dalek/src/secret.rs:396-402 | Two messages are signed with the same R exactly when their hashes with the nonce of the key agree modulo l. |
| `Signing.ExpandedKeyAcceptedIff` | deps/ed25519-dalek/src/public.rs:73-80 | A signature made with an expanded key verifies under the public key that is derived from it exactly when clamping keeps its scalar modulo l, or the challenge is zero; for every hash function. |
| `Signing.UnclampedKeyIsRejected` | deps/ed25519-dalek/src/public.rs:73-80 | The key 1 shows that this can fail: no signature with a nonzero challenge verifies, for every hash function. |
| `Signing.ScaleModulo` | deps/curve25519-dalek-v3/src/constants.rs:73-84 | Multiples of a point of order l depend on the scalar modulo l. |
| `Signatures.CheckScalarContract` | deps/ed25519-dalek/src/signature.rs:85-102 | Both paths of the check accept exactly the scalars below l. |
| `Signatures.SignatureRoundTrip` | deps/ed25519-dalek/src/signature.rs:107-190 | A signature survives encoding and decoding exactly when its scalar is reduced. |
| `Signatures.SignatureReencode` | deps/ed25519-dalek/src/signature.rs:166-190 | No two strings are decoded to the same signature. |
| `BatchVerification.BasepointCoefficient` | deps/ed25519-dalek/src/batch.rs:280-286 | The coefficient of the base point is minus the sum of the z s, modulo l. |
| `BatchVerification.KeyCoefficients` | deps/ed25519-dalek/src/batch.rs:288-289 | The coefficient of each key is z H(R, A, M), modulo l. |
| `BatchVerification.VerifyBatch` | deps/ed25519-dalek/src/batch.rs:221-305 | A batch is accepted exactly when the lengths agree, all signatures and all R decode, and the combination is the identity. |
| `BatchVerification.BatchAcceptsIff` | deps/ed25519-dalek/src/batch.rs:280-304 | A batch under keys of order l is accepted exactly when all R decode and the sum of the z (R + k A - s B) is the identity, where k is the hash of the three strings modulo l. |
| `BatchVerification.BatchWithOneSuspect` | deps/ed25519-dalek/src/batch.rs:280-304 | When the equations of all signatures but one hold, the batch is accepted exactly when the equation of that one holds, or its z is a multiple of l. |
| `BatchVerification.WrongBatchHasOneChance` | deps/ed25519-dalek/src/batch.rs:273-304 | With a signature whose equation fails, and any choice of the other z, at most one residue of its z modulo l lets the batch pass. |
| `BatchVerification.BatchOfAcceptedIsAccepted` | deps/ed25519-dalek/src/batch.rs:239-304 | Signatures that verify one by one, under keys of order l, are accepted together for every choice of the z and every size. |
| `BatchVerification.BatchOfVerifiedIsAccepted` | deps/ed25519-dalek/src/batch.rs:221-305 | Strings that verify one by one, under keys of order l, decode to a batch that is accepted. |
| `BatchVerification.BatchOfSignedIsAccepted` | deps/ed25519-dalek/src/batch.rs:239-304 | Every batch of signatures made with the keys of the batch is accepted, for every choice of the z. |
| `BatchVerification.AcceptsIffCanonical` | deps/ed25519-dalek/src/public.rs:348-349 | A signature is accepted on its own exactly when its R decodes, its equation holds for the decoded point, and R is the canonical encoding of that point. |
| `BatchVerification.BatchAcceptsOtherIdentity` | deps/ed25519-dalek/src/batch.rs:291-304 | With the encoding p + 1 of the identity as R, a signature passes in a batch for every z and is refused on its own. |
| `Quotes.AskContract` | swap/src/asb/rate.rs:31-46 | The asking price is the market price with the spread, rounded down; when it is an error. |
| `Quotes.QuoteContract` | swap/src/asb/rate.rs:53-76 | A quote is the number of atomic units that the bitcoin pay for, rounded down; a price of zero is an error. |
| `Quotes.SellQuoteContract` | swap/src/asb/rate.rs:48-76 | The amount sold for some bitcoin is their value at the asking price, rounded down; exactly when there is an error, and which one. |
| `Quotes.AskError` | swap/src/asb/rate.rs:31-46 | Which error there is when there is no asking price. |
| `Quotes.MaxBitcoinIsExact` | swap/src/beldex.rs:114-131 | The maximum is the largest amount whose price, before rounding, leaves the fee. |
| `Quotes.QuoteIsMadeIff` | swap/src/asb/event_loop.rs:376-429 | A quote is made exactly when there is an asking price and the maximum that the spendable balance allows fits into 64 bits; the error otherwise. |
| `Quotes.QuotesAreSolvent` | swap/src/asb/event_loop.rs:376-429 | For every balance, rate and ordered limits: the limits of a quote are ordered, and every sale within them is quoted (unless the price is zero) and costs at most the unlocked balance without the reserve and the fee. |
| `Quotes.QuoteOffersWhatIsAffordable` | swap/src/asb/event_loop.rs:396-428 | A quote offers exactly the amounts between the limits that are affordable, while the smallest is, and otherwise nothing. |
| `Quotes.QuoteIsEmptyIff` | swap/src/asb/event_loop.rs:401-412 | When a quote offers nothing. |
| `EventLoop.ProofsAreConserved` | swap/src/asb/event_loop.rs:322-360 | In every run, for each peer: what was sent and then what is buffered is what the swaps submitted, in order; nothing is buffered for a connected peer; every request is in flight or was answered once, to its own responder. |
| `EventLoop.StepKeepsOrder` | swap/src/asb/event_loop.rs:322-360 | Every step extends the order of a peer by the proof that it takes from the channel of a handle, and by nothing else. |
| `EventLoopRuns.ResponderHasOnePlace` | swap/src/asb/event_loop.rs:322-360 | In every run, each responder that was taken is buffered, in flight or answered, and only one of these; no other responder is anywhere. |
| `EventLoopRuns.AnsweredOnce` | swap/src/asb/event_loop.rs:203-208 | In every run, a responder is answered at most once. |
| `EventLoopRuns.AnsweredWasAcknowledged` | swap/src/asb/event_loop.rs:203-208 | An answer is given only on the acknowledgement of a request that had been sent with that responder. |
| `EventLoopTraces.ConnectedIff` | swap/src/asb/event_loop.rs:322-345 | In every run, a peer counts as connected exactly if a connection was established and its last one was not closed since. |
| `EventLoopTraces.TakenIsSentIff` | swap/src/asb/event_loop.rs:349-360 | A proof that is taken is sent at once exactly if its peer is connected, and otherwise appended to the buffer of the peer. |
| `EventLoopTraces.SentIsSubmittedWhileConnected` | swap/src/asb/event_loop.rs:322-360 | In every run, what was sent to a peer is exactly what the swaps had submitted for it when it was last connected, in that order. |
| `EventLoopTraces.LastConnected` | swap/src/asb/event_loop.rs:322-345 | Such a moment, or the start of the run, always exists. |
| `EventLoopTraces.AnsweredIff` | swap/src/asb/event_loop.rs:203-208 | In every run, a responder is answered exactly when its request was acknowledged after it had been sent. |
| `EventLoopTraces.RecordedIff` | swap/src/asb/event_loop.rs:453-466 | In every run, the peer on record for a swap is that of the database at the start, or else that of the first setup that was stored. |
| `EventLoopTraces.AliveIff` | swap/src/asb/event_loop.rs:431-498 | In every run, a swap holds its handle exactly if it was started with it and has not stopped since. |
| `EventLoopTraces.OfferIff` | swap/src/asb/event_loop.rs:480-492 | In every run, the channel of a handle holds the first proof that the swap gave while it held the handle, until the loop takes it; at most one is taken. |
| `EventLoopTraces.WaitingIff` | swap/src/asb/event_loop.rs:585-601 | In every run, a swap waits for its signature exactly if it was started and has neither received one nor dropped the receiver. |
| `EventLoopTraces.ReceiverKeptIff` | swap/src/asb/event_loop.rs:234-249 | In every run, a receiver is kept for a swap exactly if no signature of its peer arrived since its latest handle was made; the first takes it, whether or not the swap waits. |
| `EventLoopTraces.PendingIff` | swap/src/asb/event_loop.rs:243-257 | In every run, a forwarded signature lies in the channel until the swap receives it or drops the receiver. |
| `EventLoopTraces.ConfirmedIff` | swap/src/asb/event_loop.rs:585-601 | In every run, a signature is confirmed exactly if the swap received it while it lay in the channel. |
| `EventLoopTraces.StepAnswersSenders` | swap/src/asb/event_loop.rs:369-371 | A step answers a sender exactly if it is the turn of a signature that is unacknowledged and no longer in the channel. |
| `EventLoopTraces.SenderAnsweredIff` | swap/src/asb/event_loop.rs:251-257 | In every run, a sender has been answered exactly if its turn came when its signature had left the channel. |
| `EncryptedSignatures.SignaturesAreSafe` | swap/src/asb/event_loop.rs:209-257 | In every run, a signature is forwarded only to a handle of its swap id and of the peer that sent it, at most one to each handle; each is in its channel, confirmed or dropped; its sender is answered at most once, and not while it is in the channel. |
| `EncryptedSignatures.ForwardedWasReceived` | swap/src/asb/event_loop.rs:209-257 | Every forwarded signature was received in that form from the peer on record at that time, while the handle waited for it. |
| `EncryptedSignatures.ForwardedIff` | swap/src/asb/event_loop.rs:209-257 | In every run, a signature is forwarded exactly when the latest handle of its swap id belongs to its sender, still waits and was given none before. |
| `EncryptedSignatures.WaitingSwapIsServedIff` | swap/src/asb/event_loop.rs:431-498 | A swap that waits is given the signature of its peer exactly when no later handle was made for its swap id. |
| `EncryptedSignatures.SecondSetupStopsDelivery` | swap/src/asb/event_loop.rs:431-498 | A run in which that fails: a second setup with the same swap id replaces the receiver before the database refuses its peer. |
| `EncryptedSignatures.AnswerConfirmsIff` | swap/src/asb/event_loop.rs:249-257 | The answer to the sender means that the swap has the signature, except exactly when the swap dropped its receiver while the signature lay in the channel. |
| `EncryptedSignatures.AnswerWithoutConfirmation` | swap/src/protocol/alice/swap.rs:195-216 | A run in which the sender is answered although the swap never received the signature. |
| `EventLoopMachine.EventLoopObject.NewHandle` | swap/src/asb/event_loop.rs:470-498 | A new handle replaces the receiver of its swap id. |
| `EventLoopMachine.EventLoopObject.HandleExecutionSetupDone` | swap/src/asb/event_loop.rs:431-498 | The handle is made first; the peer is recorded if the database has none for the swap and accepts it. What every run keeps is kept. |
| `EventLoopMachine.EventLoopObject.OnConnectionEstablished` | swap/src/asb/event_loop.rs:322-333 | The buffer of the peer is sent in order and emptied; what every run keeps is kept. |
| `EventLoopMachine.EventLoopObject.OnTransferProof` | swap/src/asb/event_loop.rs:349-360 | A proof in the channel of a handle, whether or not the swap still holds the handle, is sent, or buffered while its peer is not connected; what every run keeps is kept. |
| `EventLoopMachine.EventLoopObject.OnTransferProofAcknowledged` | swap/src/asb/event_loop.rs:203-208 | The responder in flight is removed and answered. |
| `EventLoopMachine.EventLoopObject.OnEncryptedSignature` | swap/src/asb/event_loop.rs:209-257 | A signature goes to the receiver of its swap, if it comes from the peer on record; what every run keeps is kept. |
| `EventLoopMachine.EventLoopObject.AnswerSender` | swap/src/asb/event_loop.rs:369-371 | A sender is answered once its signature has left the channel, confirmed or dropped; what every run keeps is kept. |
| `EventLoopMachine.EventLoopObject.Loop` | swap/src/asb/event_loop.rs:165-372 | The loop over any sequence of events is the run of the steps, and keeps what every run keeps. |
| `Rendezvous.RunIsSafe` | swap/src/asb/network.rs:316-446 | In every run, each call of register is made for a connected node that is not waiting for an earlier call, and a node is pending exactly while it waits. |
| `Rendezvous.RegisteredBetweenCalls` | swap/src/asb/network.rs:367-446 | Between two calls of register for one node there is a Registered event of its peer. |
| `Rendezvous.PolledNodes` | swap/src/asb/network.rs:384-421 | After a poll of the nodes, one that still has to register is not connected, and is being dialled or queued. |
| `RendezvousProgress.StepOfNode` | swap/src/asb/network.rs:316-446 | Every callback treats each node by itself, and calls register for it exactly when it waits for a connection that comes, or a poll of the nodes finds it connected and waiting or expired. |
| `RendezvousProgress.CalledIff` | swap/src/asb/network.rs:316-446 | In every run, register is called for a node between two times exactly when a callback between them meets that condition. |
| `RendezvousProgress.PendingUntilArmed` | swap/src/asb/network.rs:424-443 | A pending node stays pending exactly until a poll reports a registration with its peer, and the node is the first with that peer. |
| `RendezvousProgress.PendingRegistersAgainIff` | swap/src/asb/network.rs:384-443 | A pending node registers again exactly when such a report comes and a later callback meets the condition for calling register. |
| `RendezvousProgress.DuplicateRegistersOnce` | swap/src/asb/network.rs:424-443 | A node that is not the first with its peer is never armed: it registers at most once in a run, and stays pending. |
| `RendezvousDialling.PollNodesQueues` | swap/src/asb/network.rs:384-421 | The check of the nodes appends to the queue, in order, the peers of exactly those nodes that are disconnected and have to register, at once or because their registration expired. |
| `RendezvousDialling.StepOfQueue` | swap/src/asb/network.rs:367-384 | A poll dials the first peer of the queue and nothing else, skipping the client itself; it checks the nodes and reports the inner client exactly if the queue is empty. |
| `RendezvousDialling.QueuedIsDialledInOrder` | swap/src/asb/network.rs:367-421 | In every run, what was dialled and then what is queued is what entered the queue, in order and as often, except for the client itself. |
| `RendezvousDialling.PollsDialQueue` | swap/src/asb/network.rs:367-383 | While the queue lasts, each poll dials its next peer, whatever else happens between the polls. |
| `RendezvousDialling.NodeIsDialled` | swap/src/asb/network.rs:367-421 | A node that a check finds in need of a connection has been dialled when the queue of that check is polled off. |
| `RendezvousDialling.CheckedStatuses` | swap/src/asb/network.rs:384-443 | When a check leaves a node connected, dialling, registered or to be registered. |
| `RendezvousDialling.QueuedTwiceIff` | swap/src/asb/network.rs:407-416 | A queued node is queued again by the next check, while it stays disconnected, exactly if its registration had expired. |
| `RendezvousDialling.ExpiredIsDialledTwice` | swap/src/asb/network.rs:367-421 | A run in which a node is dialled twice for one new registration. |
| `RendezvousDialling.ConnectedIff` | swap/src/asb/network.rs:316-364 | In every run, a node is connected exactly if its peer was reported as connected, and neither as disconnected nor as not reachable since. |
| `RendezvousDialling.RegisteredWasReported` | swap/src/asb/network.rs:424-443 | In every run, a registered node had its registration reported. |
| `RendezvousDialling.NextConnectionRegisters` | swap/src/asb/network.rs:316-330 | A node that is to register on the next connection has called register once its peer is reported as connected, unless its registration was reported before. |
| `RendezvousMachine.Behaviour.OnConnected` | swap/src/asb/network.rs:316-330 | Every node of the peer becomes connected, and registers if it was waiting for a connection; the safety of the run is kept. |
| `RendezvousMachine.Behaviour.OnDisconnected` | swap/src/asb/network.rs:332-339 | Every node of the peer becomes disconnected; the safety of the run is kept. |
| `RendezvousMachine.Behaviour.OnDialFailure` | swap/src/asb/network.rs:350-364 | Every node of the peer becomes disconnected; a failure without a peer changes nothing. |
| `RendezvousMachine.Behaviour.OnPoll` | swap/src/asb/network.rs:367-446 | One poll: a queued peer is dialled, or skipped if it is the client itself; otherwise all nodes are checked in order, and a Registered event arms the first node of its peer. |

## Left out

- RistrettoRoundTrip.RistrettoCompressDecidesEquality: asks that 1 - y^2 has a root for both points, which holds for all Ristretto points that decoding, the base point and the group operations give; of other points of the curve it says nothing.
- BatchVerification.BatchOfAcceptedIsAccepted: keys whose points have a component of small order are not covered, because the scalars are reduced modulo l.
- BatchVerification.WrongBatchHasOneChance: asks that the R of the wrong signature has order l too; that a random z misses the one residue is a statement about probabilities.
- Signing.SignedIsAccepted: the order of the base point is a hypothesis; the 252 doublings that would confirm it are not carried out.
- Quotes.AskContract: decimal numbers are exact fractions, without the rounding of the decimal library; a panic on overflow is an error.
- EventLoop.ProofsAreConserved: connectivity events are atomic; a request whose peer disconnects before the acknowledgement stays in flight, as in the program; failures reported by the network are only logged there.
- The packing of scalar limbs into bytes, limb arithmetic of field elements, vector backends and the generation of constant tables.
- `EdwardsPoint` times `Scalar` with a fixed window, the constant-time and the precomputed multiscalar multiplications: variants of the ones that are modelled.
- Constant-time execution, erasure of secrets, serialization, random generation.
- SHA-512, the Merlin transcript, prehashed signatures and `verify_strict`.
- The Elligator map and `double_and_compress_batch`.
- The swap setup protocol, cooperative redeem requests, wallet snapshots, rate providers and other arms of the event loop that keep no state.
- The contents of the database besides the peer of a swap, and time: a timer of the rendezvous client is expired or not at the choice of the environment.
- Everything outside these two parts: the state machines of the swap, the wallets, the RPC clients, the user interface.
