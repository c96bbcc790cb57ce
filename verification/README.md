# Ed25519-donna, modelled and proved

The project models the Ed25519 library in `src/ed25519-donna` (64-bit layout): batch verification
by Bos-Coster multi-scalar multiplication over an index heap, scalar arithmetic modulo the group
order m with its recodings, the scalar multiplications built on them, field arithmetic modulo
p = 2^255 - 19, the point formulas with pack and unpack, streaming SHA-512, and signing, opening
and batch opening.

Words are integers with explicit 64-bit and 128-bit obligations: an operation that must not
overflow has a precondition that says so (`Words.dfy`), and a wrapping one is written with `%`.

How the layers meet:

- `Words`, `Bytes`, `Digits`: machine words, bit operations, byte strings, digit strings.
- `Modm`, `Scalar`, `BatchScalar`, `Window4`, `SlidingWindow`: five 56-bit limbs modulo m.
- `AbelianGroup`, `WeightedSum`, `Gcd`, `BatchHeap`, `BosCoster`, `Ladder`, `MultiScalarmult`,
  `Limits`: multi-scalar multiplication in any abelian group.
- `Points`, `DoubleScalarmult`, `BaseScalarmult`: the other scalar multiplications. Points are
  group elements with a tag that says whether the redundant coordinate t is up to date.
- `Field`, `FieldPower`, `FieldBytes`, `Edwards`, `EdwardsClosure`, `PointFormulas`, `PackUnpack`:
  five 51-bit limbs modulo p, up to the Edwards addition law on limbs.
- `Sha512Block`, `Sha512`, `Sha512Constants`, `Sha512Standard`: the hash, and what the standard says of
  it without the functions that the code is proved against.
- `KeyBytes`, `SignOpen`, `ResidueCurve`: keys, signatures, opening, over a group with a base point
  whose order divides m and an encoding that unpacking undoes.
- `BatchEquation`, `BatchFill`, `BatchOpen`, `TwoElements`: the batch driver.

Six functions (`Residue`, `Num`, `ByD`, `Product`, `Added`, `Rotated`) reach their definition through a
counter, which keeps it from being unfolded where a proof needs only the lemma about it.

Where code and comments disagree the model follows the code:

- `curve25519_square_times` is commented as in^(2 * count); it computes in^(2^count).
- `ge25519_multi_scalarmult_vartime_final` seeds r with the point and then processes the top bit
  again, so for a scalar s above 1 of bit length L it returns (s + 2^L) P. It also starts at limb 3,
  so it ignores limb 4, and a scalar with nothing but limb 4 sends its search out of range.
  `MultiScalarmultFinal` states all of it, `LadderLeavesScalar` and `LadderDropsLimb` give inputs,
  `VerdictIsExact` shows that the neutral test is right wherever the ladder stays in range, and
  `TorsionMatters` that this needs a hypothesis on the group.
- The loop of `ge25519_multi_scalarmult_vartime` tests for its exit before it extends the heap, so a
  run may end without the second half of the scalars. `RunEnds` says exactly when a run extends,
  `VerdictExactly` exactly when the neutral test is right about the whole sum: the run extends or
  the second half is zero, and the ladder stays in range. `UnextendedMisses` gives an input.
- The batch reduces h_i z_i modulo m, which leaves h_i z_i A_i unchanged only for a key of the
  subgroup of order m. `BatchSumIsDefects` states the difference, `OffsetsUnbalance` gives
  signatures that open one by one and make the batch return 2.
- Opening checks S < 2^253, not S < m; batch opening has no such check of its own, nor does it
  compare R with the encoding that pack gives. `AcceptedExactly` is the relation between the two,
  `BatchAcceptsMore` an example.

Random bytes are a parameter (one 16-byte string per signature). The hash is SHA-512 as a function
on messages; the theorems on signatures hold for every function in its place.

## Model

| member | source | states |
|---|---|---|
| `BatchHeap.BatchHeap.InsertNext` | src/ed25519-donna/ed25519-donna-batchverify.h:30-48 | inserting the next index at the bottom and sifting it up keeps the heap a max-heap and `heap[0..size)` a permutation of 0..size-1 |
| `BatchHeap.BatchHeap.UpdatedRoot` | src/ed25519-donna/ed25519-donna-batchverify.h:50-77 | for every odd size from 3 on: when only the root's scalar changed, sifting it to a leaf and back up restores max-heap order and the permutation, with scalars compared on the limbs of the window only |
| `BatchHeap.SiftDownDone` | src/ed25519-donna/ed25519-donna-batchverify.h:62-69 | in a heap of odd size a node without a right child is a leaf, so the sift ends with order broken at most above the hole |
| `BatchHeap.EvenSizeLeavesGap` | src/ed25519-donna/ed25519-donna-batchverify.h:62-69 | for every even size there are keys that satisfy the invariant of the sift at a node with a larger left child and no right child, where the loop stops: what SiftDownDone gives for odd sizes fails there |
| `BatchHeap.BatchHeap.Build` | src/ed25519-donna/ed25519-donna-batchverify.h:79-86 | builds a max-heap of exactly the first count scalars |
| `BatchHeap.BatchHeap.Extend` | src/ed25519-donna/ed25519-donna-batchverify.h:88-93 | extends the heap to newCount scalars, keeping order and permutation |
| `BatchHeap.BatchHeap.GetTop2` | src/ed25519-donna/ed25519-donna-batchverify.h:95-103 | the two indices are different, the first carries a largest scalar and the second a largest of the others |
| `BatchHeap.ChildrenDominate` | src/ed25519-donna/ed25519-donna-batchverify.h:95-103 | every scalar but the root's is at most one of the root's two children, so looking at positions 0 to 2 is enough |
| `BosCoster.InitialSize` | src/ed25519-donna/ed25519-donna-batchverify.h:161-162 | the initial heap size is odd and at most count, whatever odd count of at least 3 |
| `BosCoster.WindowShrinks` | src/ed25519-donna/ed25519-donna-batchverify.h:171-173 | when the largest scalar has no digit left in the top limb of the window, no scalar of the heap has, and the window may lose it; it cannot be the last limb unless the scalar is zero |
| `BosCoster.Narrow` | src/ed25519-donna/ed25519-donna-batchverify.h:171-173 | the limb window never underflows, still covers every heap scalar, and before the extension never falls below limb 2 |
| `BosCoster.WindowCovers128` | src/ed25519-donna/ed25519-donna-batchverify.h:175-180 | at the extension the window still covers all 128-bit scalars |
| `BosCoster.Subtract` | src/ed25519-donna/ed25519-donna-batchverify.h:182-183 | truncated subtraction gives the full difference of the two largest scalars; the point sum goes to the second |
| `BosCoster.StepKeeps` | src/ed25519-donna/ed25519-donna-batchverify.h:182-184 | one iteration keeps the weighted sum and the gcd, over the heap and over all scalars, and makes the total of the scalars strictly smaller |
| `BosCoster.Iterate` | src/ed25519-donna/ed25519-donna-batchverify.h:164-185 | one whole turn: heap order, permutation and limb window survive narrowing, the one-time extension, subtraction and repair; scalars and points change by exactly one subtraction and one addition |
| `BosCoster.Loop` | src/ed25519-donna/ed25519-donna-batchverify.h:164-185 | the loop terminates with at most one scalar of the heap not zero, and every turn keeps the run invariant |
| `BosCoster.RunEnds` | src/ed25519-donna/ed25519-donna-batchverify.h:164-187 | at the exit the one scalar left is the gcd of the scalars covered and its multiple of its point is their whole weighted sum; the run extended if and only if two of the first scalars were not zero and their gcd was below 2^128 |
| `BosCoster.Reduce` | src/ed25519-donna/ed25519-donna-batchverify.h:150-188 | the reduction as a whole: gcd, conservation, termination, and the exact condition for extending, for every batch |
| `WeightedSum.StepKeepsWeighted` | src/ed25519-donna/ed25519-donna-batchverify.h:182-183 | s_a P_a + s_b P_b = (s_a - s_b) P_a + s_b (P_b + P_a) inside a sum of any length |
| `Gcd.GcdAfterSubtraction` | src/ed25519-donna/ed25519-donna-batchverify.h:182 | subtracting one scalar from a larger one keeps the gcd of all of them |
| `Limits.UnextendedMisses` | src/ed25519-donna/ed25519-donna-batchverify.h:167-180 | the exit test comes before the extension test: scalars of the smallest batch the driver passes, the last one 1 and the others 0, for which the ladder gives the neutral element although the weighted sum of points 1 is 1 |
| `Limits.LadderLeavesScalar` | src/ed25519-donna/ed25519-donna-batchverify.h:126-128 | a batch whose last scalar is 2^224: the search for the first limb leaves the scalar |
| `Limits.LadderDropsLimb` | src/ed25519-donna/ed25519-donna-batchverify.h:108-147 | a batch whose last scalar is 2^224 + 1: the ladder does not see the top limb and returns 3 P |
| `Ladder.FirstLimb` | src/ed25519-donna/ed25519-donna-batchverify.h:126-128 | the search for the first limb leaves the limbs 3..0 if and only if all four are zero |
| `Ladder.MultiScalarmultFinal` | src/ed25519-donna/ed25519-donna-batchverify.h:105-148 | for every scalar: out of range exactly when it is not zero and has no digit in the limbs 3..0; else 0, P, or (s + 2^L) P for the value s of those limbs and its bit length L |
| `MultiScalarmult.MultiScalarmultVartime` | src/ed25519-donna/ed25519-donna-batchverify.h:150-188 | the call as a whole, for every batch: the last scalar is the gcd d of the scalars covered; the ladder leaves the scalar if and only if d is a nonzero multiple of 2^224; otherwise, for d below m and 8-torsion the only small torsion, the result is neutral if and only if the sum covered is; a run that extends is in range; the sum covered is the whole sum when the run extends or the scalars behind the first are zero |
| `MultiScalarmult.AccountedIsWhole` | src/ed25519-donna/ed25519-donna-batchverify.h:161-185 | in every abelian group: when the run extends, or the scalars behind the first ones are zero, the sum covered is the whole sum |
| `MultiScalarmult.WholeSumExactly` | src/ed25519-donna/ed25519-donna-batchverify.h:161-185 | over all integer points, the sum covered is the whole sum if and only if the run extends or the scalars behind the first ones are zero |
| `MultiScalarmult.VerdictExactly` | src/ed25519-donna/ed25519-donna-batchverify.h:150-188 | over all integer points, the neutral test is right about the whole sum if and only if the run extends or the scalars behind the first ones are zero, and the ladder stays in range |
| `MultiScalarmult.ExtendingIsSafe` | src/ed25519-donna/ed25519-donna-batchverify.h:107-131 | after a run that extended, the last scalar is between 1 and 2^128, so the ladder finds a set limb, and all scalars are accounted for |
| `MultiScalarmult.FinalPointExact` | src/ed25519-donna/ed25519-donna-batchverify.h:124-147 | for every d: the ladder returns d P if and only if d is at most 1, or d shows in the limbs 3..0 and the difference between its scalar and d kills P |
| `MultiScalarmult.VerdictIsExact` | src/ed25519-donna/ed25519-donna-batchverify.h:105-148 | for every d below m on which the ladder stays in range, its result is neutral exactly when d P is, in every group whose only small torsion is 8-torsion |
| `Limits.TorsionMatters` | src/ed25519-donna/ed25519-donna-batchverify.h:124-147 | in a group with 3-torsion the verdict fails: 2 P is not neutral and the ladder returns the neutral element |
| `BatchFill.FillScalars` | src/ed25519-donna/ed25519-donna-batchverify.h:219-238 | the scalars of a batch: first BaseScalar, then H(R_i, A_i, m_i) z_i modulo m, then z_i, the number of all 16 random bytes |
| `BatchFill.BaseScalarIs` | src/ed25519-donna/ed25519-donna-batchverify.h:225-231 | the first scalar is the sum of S_i z_i modulo m, for S_i the number of the last 32 bytes of the signature |
| `BatchFill.FillPoints` | src/ed25519-donna/ed25519-donna-batchverify.h:240-247 | the points are the base point, what the keys unpack to and what the commitments unpack to, in that order; fails exactly when one of them does not decode |
| `BatchEquation.BatchSumIsDefects` | src/ed25519-donna/ed25519-donna-batchverify.h:226-248 | for every batch, the sum asked for is the sum of z_i (s_i B - h_i A_i - R_i) plus the offsets (h_i z_i - (h_i z_i mod m)) A_i that come from reducing h_i z_i; the offsets vanish for keys in the subgroup of order m |
| `BatchEquation.AcceptedExactly` | src/ed25519-donna/ed25519.c:93-116 | a signature opens on its own if and only if key and commitment decode, s B = h A + R holds, S is below 2^253 and R is in the encoding that pack gives; a batch looks at the equation only |
| `BatchEquation.AcceptedBatchVanishes` | src/ed25519-donna/ed25519-donna-batchverify.h:226-249 | a batch of signatures that open on their own sums to its offsets, for all random factors; under keys of the subgroup it sums to zero |
| `BatchOpen.CheckBatch` | src/ed25519-donna/ed25519-donna-batchverify.h:217-251 | the outcome of a batch, each if and only if: undecodable when a point does not decode, undefined when the ladder leaves the last scalar, balanced when the sum covered is neutral |
| `BatchOpen.ExtendingIsComplete` | src/ed25519-donna/ed25519-donna-batchverify.h:175-188 | a batch that extends accounts for all its scalars and keeps the ladder in range |
| `BatchOpen.CompleteCovers` | src/ed25519-donna/ed25519-donna-batchverify.h:161-188 | a batch that accounts for all its scalars covers the whole sum |
| `BatchOpen.BalancedMeans` | src/ed25519-donna/ed25519-donna-batchverify.h:248-250 | a batch that accounts for all its scalars and stays in range passes the neutral test exactly when the weighted defects of its signatures and the offsets of its keys cancel; under keys of the subgroup, exactly when the defects cancel |
| `BatchOpen.OpenEach` | src/ed25519-donna/ed25519-donna-batchverify.h:253-257 | individual opening of a range: each verdict is the individual one; bit 0 of the code is set exactly when some verdict so far is 0, bit 1 stays as it was, no other bit is set |
| `BatchOpen.SignOpenBatch` | src/ed25519-donna/ed25519-donna-batchverify.h:204-274 | the call is defined if and only if no batch sends the ladder out of range; then the batches are of 64 signatures, the last one of 4 to 64, with a tail of at most 3; a verdict is 1 exactly when the signature's batch was balanced or it opens on its own; bit 0 of the code is set exactly when a verdict is 0, bit 1 exactly when a batch failed the neutral test, and the code is 0 exactly when neither happened |
| `BatchOpen.BatchAt` | src/ed25519-donna/ed25519-donna-batchverify.h:216-217 | batch j is the signatures from 64 j on, 64 of them or, at the end, 4 to 63 |
| `BatchOpen.CleanRun` | src/ed25519-donna/ed25519-donna-batchverify.h:204-274 | if all signatures open on their own and the batches account for all their scalars, every verdict is 1, and the code is 0 if the offsets of each batch cancel and 2 otherwise; under keys of the subgroup they cancel |
| `TwoElements.Qualifies` | src/ed25519-donna/ed25519-donna-batchverify.h:204-274 | one group meets all hypotheses of the batch theorems together |
| `TwoElements.BatchAcceptsMore` | src/ed25519-donna/ed25519-donna-batchverify.h:216-266 | four signatures that do not open on their own, because S is out of range, and whose batch is balanced |
| `TwoElements.ZeroFactorsAreSafe` | src/ed25519-donna/ed25519-donna-batchverify.h:216-249 | for that batch the ladder stays in range and the scalars are accounted for although the run does not extend, for instance when the random factors are zero |
| `TwoElements.OffsetsUnbalance` | src/ed25519-donna/ed25519-donna-batchverify.h:204-274 | five signatures under a key outside the subgroup: each opens on its own, their batch extends, and batch opening returns 2 with every verdict 1 |
| `Modm.LtModm` | src/ed25519-donna/modm-donna-64bit.h:37-40 | the top bit of the wrapped difference is the comparison, for words below 2^63 |
| `Modm.GroupOrder` | src/ed25519-donna/modm-donna-64bit.h:7-27 | m is 2^252 + 27742317777372353535851937790883648493 |
| `Modm.MuIsFloor` | src/ed25519-donna/modm-donna-64bit.h:12 | mu is floor(2^512 / m) |
| `Modm.Reduce256Modm` | src/ed25519-donna/modm-donna-64bit.h:42-63 | subtracts m exactly if the value is at least m, by borrow chain and mask selection |
| `Modm.BarrettQuotient` | src/ed25519-donna/modm-donna-64bit.h:71-85 | the quotient estimate with the dropped partial products: no overflow, and what is dropped is bounded |
| `Modm.EstimateError` | src/ed25519-donna/modm-donna-64bit.h:65-107 | the estimate is at most 2 below the true quotient |
| `Modm.BarrettReduce256Modm` | src/ed25519-donna/modm-donna-64bit.h:65-107 | for every x below 2^512 the result is x mod m, also when r and r1 are the same array |
| `Scalar.Add256Modm` | src/ed25519-donna/modm-donna-64bit.h:109-121 | (x + y) mod m for reduced x and y; the arrays may coincide |
| `Scalar.Mul256Modm` | src/ed25519-donna/modm-donna-64bit.h:123-150 | x y mod m for all scalars below 2^256; the arrays may coincide |
| `Scalar.Expand256Modm` | src/ed25519-donna/modm-donna-64bit.h:152-187 | the little-endian value of up to 64 bytes, modulo m |
| `Scalar.ExpandRaw256Modm` | src/ed25519-donna/modm-donna-64bit.h:189-203 | the little-endian value of 32 bytes, unreduced |
| `Scalar.Contract256Modm` | src/ed25519-donna/modm-donna-64bit.h:205-211 | the 32 little-endian bytes of the value |
| `Scalar.ContractOfExpand` | src/ed25519-donna/modm-donna-64bit.h:152-211 | round trip: contract after expand gives the bytes of the value mod m |
| `Window4.Contract256Window4` | src/ed25519-donna/modm-donna-64bit.h:213-238 | for every scalar below 2^255: 64 digits in [-8, 8], the last not negative, whose radix-16 value is the scalar |
| `SlidingWindow.Contract256SlidingWindow` | src/ed25519-donna/modm-donna-64bit.h:240-280 | for every scalar below 2^255 and every width from 2 to 7: a width-w non-adjacent form of the scalar, and no carry runs past the last digit |
| `SlidingWindow.CarryFrom` | src/ed25519-donna/modm-donna-64bit.h:268-274 | propagating a carry through ones adds the place value to the digits, and stops before the end |
| `SlidingWindow.AbsorbCases` | src/ed25519-donna/modm-donna-64bit.h:262-278 | absorbing, subtracting and skipping a bit each keep the value |
| `BatchScalar.Sub256Batch` | src/ed25519-donna/modm-donna-64bit.h:286-299 | the low limbs become the difference of the low limbs, the others stay |
| `BatchScalar.Lt256Batch` | src/ed25519-donna/modm-donna-64bit.h:302-315 | comparison of the values of the low limbs |
| `BatchScalar.Lte256Batch` | src/ed25519-donna/modm-donna-64bit.h:317-330 | comparison of the values of the low limbs |
| `BatchScalar.IsZero256Batch` | src/ed25519-donna/modm-donna-64bit.h:332-340 | zero test of the whole scalar |
| `BatchScalar.IsOne256Batch` | src/ed25519-donna/modm-donna-64bit.h:342-350 | test for one of the whole scalar |
| `BatchScalar.AtMost128Bits` | src/ed25519-donna/modm-donna-64bit.h:352-361 | the limb test is exactly: the value is below 2^128 |
| `BatchScalar.TruncatedIsFull` | src/ed25519-donna/modm-donna-64bit.h:286-330 | a scalar that vanishes above the window has the value of its low limbs |
| `DoubleScalarmult.OddTable` | src/ed25519-donna/ed25519-donna-impl-base.h:263-266 | entry k of the table is (2k + 1) P |
| `DoubleScalarmult.HornerDigit` | src/ed25519-donna/ed25519-donna-impl-base.h:277-291 | double, then add the table entries that the two digits pick, with their signs; indices stay in range and no addition reads a stale t |
| `DoubleScalarmult.DoubleScalarmultVartime` | src/ed25519-donna/ed25519-donna-impl-base.h:251-292 | s1 P + s2 B for all scalars below 2^255 |
| `BaseScalarmult.WindowbEqual` | src/ed25519-donna/ed25519-donna-impl-base.h:298-301 | 1 exactly for equal words |
| `BaseScalarmult.MaskedAbs` | src/ed25519-donna/ed25519-donna-impl-base.h:306-308 | the mask arithmetic is the absolute value |
| `BaseScalarmult.ChooseNiels` | src/ed25519-donna/ed25519-donna-impl-base.h:303-328 | b 256^pos B for every digit b in [-8, 8], the neutral point for 0, with the t coordinate of the kind the position stores |
| `BaseScalarmult.Recombine` | src/ed25519-donna/ed25519-donna-impl-base.h:348-362 | digits at odd places, times 16, plus digits at even places give the number |
| `BaseScalarmult.ScalarmultBaseNiels` | src/ed25519-donna/ed25519-donna-impl-base.h:333-363 | s B for every scalar below 2^255 |
| `Field.FieldPrime` | src/ed25519-donna/curve25519-donna-64bit.h:350-363 | p is 2^255 - 19 |
| `Field.FeAddReduce` | src/ed25519-donna/curve25519-donna-64bit.h:45-54 | a + b modulo p, carried |
| `Field.FeSub` | src/ed25519-donna/curve25519-donna-64bit.h:62-70 | a - b + 2 p without underflow in any limb |
| `Field.FeSubAfterBasic` | src/ed25519-donna/curve25519-donna-64bit.h:72-80 | a - b + 4 p without underflow in any limb |
| `Field.FeSubReduce` | src/ed25519-donna/curve25519-donna-64bit.h:82-91 | a - b modulo p, carried |
| `Field.FeNeg` | src/ed25519-donna/curve25519-donna-64bit.h:93-103 | -a modulo p, carried |
| `Field.ColumnsAreProduct` | src/ed25519-donna/curve25519-donna-64bit.h:126-155 | the columns with the factor 19 stand for the product minus a multiple of p |
| `Field.ColumnsAreWide` | src/ed25519-donna/curve25519-donna-64bit.h:126-155 | for limbs below 2^54 no column exceeds 77 2^108, so that no 64-bit or 128-bit word overflows |
| `Field.FeMul` | src/ed25519-donna/curve25519-donna-64bit.h:105-171 | for limbs below 2^54 the product modulo p, limbs below 2^51 but limb 1 below 2^51 + 2^13 |
| `Field.SquareColumns` | src/ed25519-donna/curve25519-donna-64bit.h:251-269 | the shared doubled products are the columns of the product with itself |
| `Field.FeSquare` | src/ed25519-donna/curve25519-donna-64bit.h:236-284 | the square modulo p, with the bounds of FeMul |
| `Field.SquareRound` | src/ed25519-donna/curve25519-donna-64bit.h:194-227 | one round of square_times: the square modulo p, carried |
| `FieldPower.SquareTimes` | src/ed25519-donna/curve25519-donna-64bit.h:178-234 | in^(2^count) for every count of at least 1; out and in may coincide |
| `FieldPower.Mul` | src/ed25519-donna/curve25519-donna-64bit.h:105-176 | the product modulo p; the arrays may coincide |
| `FieldPower.PowTwo5ToTwo250` | src/ed25519-donna/curve25519-donna-helpers.h:12-31 | from z^(2^5 - 1) to z^(2^250 - 1) in place |
| `FieldPower.Recip` | src/ed25519-donna/curve25519-donna-helpers.h:36-49 | z^(2^255 - 21), also in place |
| `FieldPower.PowTwo252m3` | src/ed25519-donna/curve25519-donna-helpers.h:54-67 | z^(2^252 - 3), also in place |
| `FieldBytes.TwoPasses` | src/ed25519-donna/curve25519-donna-64bit.h:335-348 | two carry passes bring every limb below 2^51 and keep the value modulo p |
| `FieldBytes.Offset19` | src/ed25519-donna/curve25519-donna-64bit.h:350-353 | after the +19 pass the value is v mod p + 19 |
| `FieldBytes.Contract` | src/ed25519-donna/curve25519-donna-64bit.h:321-373 | exactly the 32 little-endian bytes of the value mod p, for all limbs below 2^64 - 2^13 |
| `FieldBytes.ExpandField` | src/ed25519-donna/curve25519-donna-64bit.h:286-319 | the low 255 bits of a 32-byte number in limbs below 2^51 |
| `FieldBytes.ContractOfExpandField` | src/ed25519-donna/curve25519-donna-64bit.h:286-373 | round trip: reduction mod p of the low 255 bits, the identity below p |
| `PointFormulas.ToFull` | src/ed25519-donna/ed25519-donna-impl-base.h:12-18 | the completed point as a full one: same affine point, t right |
| `PointFormulas.ToPartial` | src/ed25519-donna/ed25519-donna-impl-base.h:5-10 | the completed point with t left as it was |
| `PointFormulas.FullToPniels` | src/ed25519-donna/ed25519-donna-impl-base.h:20-26 | y - x, y + x, z, 2 d t of the same point |
| `PointFormulas.AddP1P1` | src/ed25519-donna/ed25519-donna-impl-base.h:32-50 | the Edwards sum of the operands; every limb stays inside the bounds of the next operation |
| `PointFormulas.DoubleP1P1` | src/ed25519-donna/ed25519-donna-impl-base.h:53-67 | the Edwards sum of a curve point with itself, without reading t |
| `PointFormulas.NielsAdd2P1P1` | src/ed25519-donna/ed25519-donna-impl-base.h:69-86 | sum with (x, y) or (-x, y), by the sign bit |
| `PointFormulas.PnielsAddP1P1` | src/ed25519-donna/ed25519-donna-impl-base.h:88-106 | sum with (x, y) or (-x, y), by the sign bit, for a projective operand |
| `PointFormulas.Double` | src/ed25519-donna/ed25519-donna-impl-base.h:115-120 | doubling as a full point |
| `PointFormulas.Add` | src/ed25519-donna/ed25519-donna-impl-base.h:122-127 | addition as a full point |
| `PointFormulas.NielsAdd2` | src/ed25519-donna/ed25519-donna-impl-base.h:129-147 | addition of a precomputed point |
| `PointFormulas.PnielsAdd` | src/ed25519-donna/ed25519-donna-impl-base.h:149-172 | addition, giving a precomputed point |
| `PointFormulas.FromNiels` | src/ed25519-donna/ed25519-donna-impl-base.h:342-347 | (2x, 2y, 2, 2xy) from a table entry at position 0 stands for the entry's point, t included |
| `PointFormulas.ScaleT` | src/ed25519-donna/ed25519-donna-impl-base.h:356-357 | scaling by d turns an entry at position 0 into one ready for addition |
| `PointFormulas.AdjustSign` | src/ed25519-donna/ed25519-donna-impl-base.h:324-327 | swapping y - x with y + x and negating t2d gives the entry of (-x, y), at position 0 and elsewhere |
| `PointFormulas.NeutralEntry` | src/ed25519-donna/ed25519-donna-impl-base.h:311-314 | the entry (1, 1, 0) that the selection starts from is the neutral point, at every position |
| `PointFormulas.Ec2d` | src/ed25519-donna/ed25519-donna-64bit-tables.h:12-14 | the constant is 2 d modulo p |
| `PointFormulas.Ecd` | src/ed25519-donna/ed25519-donna-64bit-tables.h:8-10 | the constant is d = -121665/121666 modulo p |
| `Edwards.AdditionFormula` | src/ed25519-donna/ed25519-donna-impl-base.h:40-49 | the four combinations of the unified formula stand for the Edwards sum |
| `Edwards.DoublingFormula` | src/ed25519-donna/ed25519-donna-impl-base.h:57-66 | on the curve, the doubling formula is the Edwards sum of a point with itself |
| `EdwardsClosure.SumOnCurve` | src/ed25519-donna/ed25519-donna-impl-base.h:28-50 | the curve is closed under the addition law that the formulas compute |
| `EdwardsClosure.SumExists` | src/ed25519-donna/ed25519-donna-impl-base.h:28-50 | where the denominators have inverses the sum exists |
| `EdwardsClosure.SumUnique` | src/ed25519-donna/ed25519-donna-impl-base.h:28-50 | the sum is unique modulo p |
| `EdwardsClosure.NeutralSum` | src/ed25519-donna/ed25519-donna-impl-base.h:268-271 | the point the code sets as neutral, (0, 1), is on the curve and neutral for the addition law |
| `EdwardsClosure.InverseSum` | src/ed25519-donna/ed25519-donna-impl-base.h:232-236 | negating x, as unpacking does, gives the inverse for the addition law |
| `PackUnpack.CandidateSquare` | src/ed25519-donna/ed25519-donna-impl-base.h:206-217 | for all u and v: v times the square of the candidate root u v^3 (u v^7)^((p - 5) / 8) is u (u v^7)^((p - 1) / 4), over the integers |
| `PackUnpack.SquareRoot` | src/ed25519-donna/ed25519-donna-impl-base.h:206-230 | succeeds exactly when u (u v^7)^((p - 1) / 4) is u or -u modulo p, and then returns a root of u / v |
| `PackUnpack.SqrtNeg1` | src/ed25519-donna/ed25519-donna-64bit-tables.h:16-18 | the constant is a square root of -1 |
| `PackUnpack.BasePoint` | src/ed25519-donna/ed25519-donna-64bit-tables.h:1-6 | the base point is on the curve, y = 4/5, x even, t = x y |
| `PackUnpack.UnpackNegativeVartime` | src/ed25519-donna/ed25519-donna-impl-base.h:191-239 | for the encoded y, u = y^2 - 1 and v = d y^2 + 1: succeeds exactly when u (u v^7)^((p - 1) / 4) is u or -u modulo p; the point is then on the curve with the encoded y, z = 1 and t = x y, and a nonzero x has the parity opposite to the sign bit |
| `PackUnpack.Pack` | src/ed25519-donna/ed25519-donna-impl-base.h:179-189 | for every point: the reduced Y i with the parity of the reduced X i as top bit, for i = Z^(p - 2) |
| `PackUnpack.PackedAffine` | src/ed25519-donna/ed25519-donna-impl-base.h:179-189 | where that i inverts Z, this is the encoding of the affine point |
| `PackUnpack.PackOfUnpacked` | src/ed25519-donna/ed25519-donna-impl-base.h:179-239 | pack after unpack: y comes back reduced; for a reduced y with y^2 not 1 the sign bit comes back flipped |
| `PackUnpack.IsNeutral` | src/ed25519-donna/ed25519-donna-batchverify.h:193-202 | x = 0 and y = z exactly for the neutral point |
| `Sha512Constants.RoundConstantsExactly` | src/ed25519-donna/ed25519-hash.h:17-38 | round constant t is the one word that gives the first 64 bits of the fractional part of the cube root of the t-th prime (FIPS 180-4, section 4.2.3) |
| `Sha512Constants.InitialValuesExactly` | src/ed25519-donna/ed25519-hash.h:108-117 | word i of the initial hash value is the one word that gives the first 64 bits of the fractional part of the square root of the i-th prime |
| `Sha512Standard.BigSigmaBits` | src/ed25519-donna/ed25519-hash.h:72-73 | bit i of the two big sigma functions is the sum modulo 2 of three bits of the word, at distances 28, 34, 39 and 14, 18, 41, counted around the word |
| `Sha512Standard.SmallSigmaBits` | src/ed25519-donna/ed25519-hash.h:74-75 | bit i of the two small sigma functions: distances 1, 8 around the word and a shift by 7; 19, 61 and a shift by 6 |
| `Sha512Standard.ChBit` | src/ed25519-donna/ed25519-hash.h:70 | choice, bit by bit |
| `Sha512Standard.MajBit` | src/ed25519-donna/ed25519-hash.h:71 | majority, bit by bit |
| `Sha512Standard.CompressIs` | src/ed25519-donna/ed25519-hash.h:76-102 | the compression function from the recurrences of section 6.4.2 alone: schedule, the working variables step by step, sum with the old hash value, each modulo 2^64 |
| `Sha512Standard.PadIs` | src/ed25519-donna/ed25519-hash.h:153-167 | the padding byte by byte: the message, 0x80, the fewest zeros, the length in bits |
| `Sha512Standard.HashIs` | src/ed25519-donna/ed25519-hash.h:108-186 | the digest of a message: the hash values follow from block to block, from the initial one, and the digest is the last one, word by word, most significant byte first |
| `Sha512Block.CodeCh` | src/ed25519-donna/ed25519-hash.h:70 | the code's Ch is the standard's |
| `Sha512Block.CodeMaj` | src/ed25519-donna/ed25519-hash.h:71 | the code's Maj is the standard's |
| `Sha512Block.CodeRotr` | src/ed25519-donna/ed25519-hash.h:41-43 | for every 64-bit word and distance from 1 to 63, the code's two shifts and OR are the standard's rotation, and give a 64-bit word |
| `Sha512Block.Load64` | src/ed25519-donna/ed25519-hash.h:46-56 | the OR of eight shifted bytes is their big-endian value |
| `Sha512Block.Store64` | src/ed25519-donna/ed25519-hash.h:59-68 | the eight shifted and truncated bytes are the big-endian bytes of the word |
| `Sha512Block.CompressBlock` | src/ed25519-donna/ed25519-hash.h:78-102 | one block: the code's loads, rotations, schedule, steps and feed-forward are the compression function of FIPS 180-4, section 6.4.2, on 64-bit words |
| `Sha512.CounterStep` | src/ed25519-donna/ed25519-hash.h:102-103 | the two-word bit counter carries exactly, modulo 2^128 |
| `Sha512.State.Blocks` | src/ed25519-donna/ed25519-hash.h:90-106 | absorbs consecutive blocks: hash value and counter are those of the longer message |
| `Sha512.State.constructor` | src/ed25519-donna/ed25519-hash.h:108-121 | the state of the empty message |
| `Sha512.State.Update` | src/ed25519-donna/ed25519-hash.h:123-151 | the state afterwards is that of the old message followed by the input, for every length and buffer fill |
| `Sha512.LengthBytes` | src/ed25519-donna/ed25519-hash.h:155-167 | counter plus buffered bits, written as two big-endian words, are the 128-bit length of the message |
| `Sha512.State.Final` | src/ed25519-donna/ed25519-hash.h:153-178 | the digest of the padded message, section 5.1.2 of FIPS 180-4, in one or two last blocks |
| `Sha512.HashMessage` | src/ed25519-donna/ed25519-hash.h:180-186 | the hash of a whole message |
| `Sha512.HashParts` | src/ed25519-donna/ed25519-hash.h:108-178 | every split into updates gives the hash of the concatenation |
| `KeyBytes.Verify` | src/ed25519-donna/ed25519-donna.h:66-72 | 1 exactly for equal byte strings |
| `KeyBytes.Clamp` | src/ed25519-donna/ed25519.c:29-31 | the three mask operations clear the low three bits and the top bit and set the bit below it |
| `KeyBytes.ClampedValue` | src/ed25519-donna/ed25519.c:26-32 | a clamped scalar is a multiple of 8 in [2^254, 2^255), and keeps the other bits |
| `KeyBytes.TopThreeBits` | src/ed25519-donna/ed25519.c:100 | the check on RS[63] is exactly S < 2^253 |
| `KeyBytes.PowersOfTwo` | src/ed25519-donna/ed25519.c:29-100 | the bounds used for clamping and for S are 2^254 and 2^253 |
| `SignOpen.ExtSk` | src/ed25519-donna/ed25519.c:26-32 | the clamped hash of the secret key |
| `SignOpen.SecretParts` | src/ed25519-donna/ed25519.c:26-32 | its last 32 bytes are those of the hash, its first 32 the number 2^254 + n mod 2^254 - n mod 8 for n the first 32 bytes of the hash |
| `SignOpen.Hram` | src/ed25519-donna/ed25519.c:34-42 | the hash of the 32 bytes of R, the key and the message, in that order, by three updates |
| `SignOpen.MakePublicKey` | src/ed25519-donna/ed25519.c:44-55 | the encoding of x B for x = 2^254 + n mod 2^254 - n mod 8, n the first 32 bytes of the hashed secret key |
| `SignOpen.Sign` | src/ed25519-donna/ed25519.c:58-91 | for d the hashed secret key and x its clamped scalar: R encodes r B for r = H(d[32..], m), and S is (r + H(R, A, m) x) mod m |
| `SignOpen.Open` | src/ed25519-donna/ed25519.c:93-116 | 0 exactly when S < 2^253, the key decodes and R is the encoding of S B - (H(R, A, m) mod m) A, with H of the 32 bytes of R, the key and the message; else -1 |
| `SignOpen.AcceptsIsEquation` | src/ed25519-donna/ed25519.c:100-115 | for an encoded R, opening is the group equation S B = R + k A together with S < 2^253 |
| `SignOpen.OtherMessage` | src/ed25519-donna/ed25519.c:93-116 | a signature accepted on one message is accepted on another if and only if the two hashes modulo m send the key to the same point |
| `SignOpen.OpenUnderKey` | src/ed25519-donna/ed25519.c:58-116 | a signature opened under any key: accepted exactly when the challenge sends that key and the signer's own to the same point |
| `SignOpen.SignThenOpen` | src/ed25519-donna/ed25519.c:44-116 | every signature made under the matching public key is accepted |
| `ResidueCurve.CurveExists` | src/ed25519-donna/ed25519.c:44-116 | the residues modulo m satisfy all that the scheme asks of a group and its encoding |

## Left out

- The 32-bit layouts (`modm-donna-32bit.h`, `curve25519-donna-32bit.h`): second layouts of the same functions.
- The SSE2 and assembly variants: the same functions through intrinsics.
- The contents of the precomputed tables: taken as contracts (`CombTable`, `OddMultiples`).
- Primality of p and m, associativity of the Edwards law, and that its denominators always have inverses: the scalar multiplications are proved in any abelian group, the point formulas against the Edwards law on limbs, and the two are not joined into one statement.
- `curved25519_scalarmult_basepoint`: the comb and the inversion it calls are modelled, the composition is not.
- `ed25519-randombytes.h` and the OpenSSL hash: foreign code.
- Timing: constant-time selection and comparison are modelled by what they compute.
- The aliasing of field elements in the point formulas: points are values; aliasing is modelled for scalars (`Mul256Modm`, `Add256Modm`, `BarrettReduce256Modm`) and for the power chains.
- The pointer arithmetic of the batch driver: an offset into the sequence of signatures.
- BatchScalar.Sub256Batch: the scalar is a value, so that out and a are the same array in the source is modelled by passing the same value twice.
- BaseScalarmult.ChooseNiels: the conditional move of 96 bytes is modelled as a selection of a table entry, not byte by byte.
- BatchOpen.SignOpenBatch: models the signatures as one sequence, and promises nothing about a call in which the ladder reads outside the last scalar, which is undefined in C.
- PackUnpack.PackedAffine: asks that Z^(p - 2) invert Z, which is Fermat's theorem and needs p prime; for Z = 1 it is proved in PackOfUnpacked.
- PackUnpack.UnpackNegativeVartime: success is stated by a power modulo p; that this is the existence of a root is Euler's criterion and needs p prime.
- SHA-512 lengths: the bit counter is modulo 2^128, as in the code; the standard bounds messages below that.
