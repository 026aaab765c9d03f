# Elliptic-curve arithmetic of the vendored secp256k1 library

A Dafny model of the arithmetic core under `src/secp256k1`: the recodings of scalars into signed
digits, the engines that multiply many points by many scalars at once, the blinded comb for the
generator, the Jacobian formulas and shared-z tables beneath them, the field kernels on limbs, and the
signature layer on top (ECDSA, key recovery, strict and lax DER). Each algorithm is written as the
library writes it, with its loops, arrays, exceptional branches and constants, and is proved against a
specification that does not mention it: the plain sum of multiples of points, the residue modulo p, the
chord-and-tangent law, the X.690 encoding.

The build that is modelled is the default one of the repository: the endomorphism is used, `size_t` has
64 bits, and field elements have five limbs of 52 bits. The multiplication and squaring kernels of the
ten-limb representation are modelled beside them, against the same field operations.

## How the layers fit together

| layer | modules | specification |
|---|---|---|
| integers and scalars | `Arith`, `Bitwise`, `Bytes`, `Scalars` | powers of two, digit strings, congruence modulo n |
| recodings | `WnafSparse`, `WnafFixed`, `WnafConst` | the value of a digit string and the shape of its digits |
| field | `Field`, `Fermat`, `AdditionChain`, `BatchInverse` | residues modulo p; the magnitude of an element is part of its type |
| limbs | `Limbs`, `Limbs10`, `Normalize`, `FieldBytes` | the value of five or ten limbs modulo p, inside 32, 64 and 128 bits |
| curve | `Curve`, `Jacobian`, `Tables`, `EndoMap`, `EndoChain`, `Endomorphism` | affine points on y^2 = x^3 + 7 and the chord-and-tangent law |
| engines | `Sums`, `Generator`, `Strauss`, `Pippenger`, `Scratch`, `Multi`, `Ladder`, `GeneratorComb` | sums of multiples of points |
| signatures | `Ecdsa`, `Recovery`, `Der`, `LaxDer` | valid signatures; encodings of pairs of integers |

A coordinate triple is read relative to a scale s, so that "affine on an isomorphic curve" is the
ordinary reading with another scale. A single proof of each formula then covers both the true curve and
the curves on which the tables with a common z coordinate live.

The functions `MulRefines`, `MulRefines10`, `AddRefines`, `NegateRefines` and `MulIntRefines` connect the
layers: limb arrays represent the field elements on which all higher modules compute.

## What is assumed

No fact is assumed silently; those that are not proved are hypotheses of the members that need them.

- `Curve.CurveFacts`: p and n are prime, the chord-and-tangent law is associative, and n times every
  point is the point at infinity. Closure, commutativity, inverses, the absence of points of order two
  and Fermat's theorem are proved.
- `Endomorphism.Cyclic`: every point is a multiple of G. That (x, y) -> (beta x, y) is multiplication by
  lambda is then proved: the map is additive, and a chain of doublings and additions with the slope of
  every line decides which cube root of one belongs to lambda. The same chain shows that n times G is
  infinity, so that the last clause of `CurveFacts` follows from the others (`Endomorphism.CurveFactsFrom`).
- `GeneratorComb.Suitable`: no entry of the generator's table is the point at infinity. The library has
  the same demand on its point with no known logarithm, which enters the model as a parameter.

Five constants are kept abstract for the sake of the solver, which handles 256-bit numerals in products
and remainders badly and would unfold the curve equation for every point. Their types determine them all
the same: `Field.MIs` proves that `REDUCE` is reduction modulo p, `Scalars.OrderIs` that `N` is the group
order, `Generator.GeneratorIs` that `BASE` is the base point, `EndoMap.BetaIs` that `BETA` is the cube root
of one in the library, `Curve.EquationIs` that `EQUATION` is the curve equation.

## Findings

What the code does differs from what its comments or a caller might expect in these places. The model
follows the code.

- A strict and a lax parse of the same bytes can disagree. `LaxDer.NegativeDiffers` gives a signature with
  a negative r, which the strict parser turns into 0 and the lax one into 128; `LaxDer.AgreementIff` is the
  exact condition. It covers every string below 2^56 bytes, where no length needs eight octets.
- The magnitude check of a field element accepts 2048, but normalization is right only up to 2047:
  `Normalize.MagnitudeLimit` has limbs of magnitude 2048 whose first addition leaves 64 bits.
  `Normalize.FeNormalize` says that the residue survives if and only if no such wrap-around occurs.
- `secp256k1_ge_set_all_gej_var` leaves all outputs untouched when no input is finite, their infinity flags
  included; see `BatchInverse.GeSetAllGejVar`.
- `secp256k1_ecmult_strauss_batch` does not look at the result of its last allocation.
  `Multi.AllocateStrauss` states when this is harmless, `Multi.UncheckedAllocation` that for one point it is
  not with 2912 to 4031 free bytes. `secp256k1_ecmult_multi_var` stays clear of those sizes.
- `secp256k1_pippenger_scratch_size` asks for one `int` per entry more than the allocations take; see
  `Multi.PippengerSize`. The rule for Strauss' algorithm is exact to the byte (`Multi.StraussSize`).
- The comment on `secp256k1_ecmult_wnaf` calls the return value the number of set digits; it is the index of
  the last one plus one.
- `secp256k1_pippenger_bucket_window` never returns 8, although the inverse table has an entry for it;
  `Scratch.WindowAdjoint` holds all the same.

## Model

| member | source | states |
|---|---|---|
| `WnafSparse.EcmultWnaf` | src/secp256k1/src/ecmult_impl.h:397-447 | the digits are sparse (zero or odd below 2^(w-1), followed by w-1 zeros), vanish from the returned index on, and that index is at most the bit length plus one; they have the value of the scalar, negated if bit 255 was set, exactly when no carry is left and the scalar fits; for all 256 positions, or if it is below 2^(len-1), that value is the scalar modulo n |
| `WnafSparse.FoldCongruent` | src/secp256k1/src/ecmult_impl.h:412-415 | negating the scalar and the sign when bit 255 is set keeps the residue modulo n |
| `WnafFixed.WnafFixed` | src/secp256k1/src/ecmult_impl.h:710-770 | for every s below 2^WNAF_BITS the digits, all zero or odd and strictly between -2^w and 2^w, have value s + skew; skew is 1 exactly for even nonzero s; the array outside the string is untouched |
| `WnafFixed.StoreWord` | src/secp256k1/src/ecmult_impl.h:746-752 | storing the word at pos, borrowed from pos-1 if it is even, keeps the invariant that the digits so far plus the unread words make up s + skew |
| `WnafFixed.FoldUnit` | src/secp256k1/src/ecmult_impl.h:753-765 | a unit digit at pos-1 above a digit of the opposite sign is rewritten into it, and nothing else changes; the same invariant is kept |
| `WnafConst.WnafConst` | src/secp256k1/src/ecmult_const_impl.h:53-125 | all digits are odd and below 2^w in absolute value; the signed odd number they stand for, less the skew, is the scalar modulo n, also for -1; they have that value exactly when it fits the digits, in particular for scalars of at most `size` bits up to sign |
| `WnafConst.SkewRules` | src/secp256k1/src/ecmult_const_impl.h:84-99 | adding 1 or 2, and negating if needed, always leaves an odd number that differs from the scalar by the skew, also where adding 2 would overflow |
| `Strauss.StraussWnaf` | src/secp256k1/src/ecmult_impl.h:473-621 | the result represents the sum of na[i]*a[i], plus ng*G when ng is given, for any number of inputs, zero scalars and infinite points included |
| `Strauss.Ecmult` | src/secp256k1/src/ecmult_impl.h:623-641 | the result represents na*a, plus ng*G when ng is given |
| `Strauss.Interleave` | src/secp256k1/src/ecmult_impl.h:580-616 | after the last position the accumulator is the Horner value of all digit strings at once, relative to the common z |
| `Strauss.SelectPoints` | src/secp256k1/src/ecmult_impl.h:492-520 | skips inputs with a zero scalar or an infinite point, splits the other scalars along lambda and recodes both halves; what was skipped contributes nothing to the sum |
| `Strauss.BuildTables` | src/secp256k1/src/ecmult_impl.h:532-548 | the odd multiples of all selected inputs are left in one array over one common z |
| `Strauss.BuildLambdaTables` | src/secp256k1/src/ecmult_impl.h:550-555 | the second array holds lambda times every entry, over the same z |
| `Strauss.TableGetGe` | src/secp256k1/src/ecmult_impl.h:288-300 | reading the table at a nonzero odd digit gives that multiple of the point, negated for negative digits |
| `Strauss.TableGetGeStorage` | src/secp256k1/src/ecmult_impl.h:302-312 | the same for a table in storage form |
| `Sums.HornerStep` | src/secp256k1/src/ecmult_impl.h:582-616 | one column down, the sum so far is multiplied by the base and the digits of that column are added |
| `Pippenger.PippengerWnaf` | src/secp256k1/src/ecmult_impl.h:789-864 | the result represents the sum of sc[i]*pt[i] for all scalars below 2^WNAF_BITS, with the skews repaid once |
| `Pippenger.SumBuckets` | src/secp256k1/src/ecmult_impl.h:841-861 | r becomes 2^(bucket_window+1)*r plus the sum of (2j+1)*bucket[j] |
| `Pippenger.FillBuckets` | src/secp256k1/src/ecmult_impl.h:813-839 | the buckets, weighted by 2j+1, hold the digits of this position times their points, and in round 0 minus the skewed points |
| `Pippenger.BucketIndex` | src/secp256k1/src/ecmult_impl.h:831-838 | the bucket index of every nonzero digit lies in range, and digit and index determine each other |
| `Pippenger.EndoSplit` | src/secp256k1/src/ecmult_impl.h:962-975 | two scalars below 2^128 and two points whose multiples add up to s*p |
| `Scratch.WindowAdjoint` | src/secp256k1/src/ecmult_impl.h:870-958 | n is at most the inverse of w exactly when the window chosen for n is at most w |
| `Multi.PippengerMaxPoints` | src/secp256k1/src/ecmult_impl.h:1084-1118 | every number of points up to the result fits the scratch space with its own window, and the next one does not |
| `Scratch.LastWindow` | src/secp256k1/src/ecmult_impl.h:1089-1117 | breaking at the first window that is not filled is right: the points counted so far fit, with everything below, and one more does not |
| `Multi.StraussMaxPoints` | src/secp256k1/src/ecmult_impl.h:699-701 | exactly the numbers of points up to the result have a scratch size within the maximum allocation |
| `Multi.BatchSizeHelper` | src/secp256k1/src/ecmult_impl.h:1149-1165 | fails exactly for a maximum of 0; otherwise the batches cover n, none is empty or above the maximum, and both numbers are the ceilings of the divisions |
| `Multi.Partition` | src/secp256k1/src/ecmult_impl.h:1203-1212 | every index belongs to exactly one batch |
| `Multi.AllocateStrauss` | src/secp256k1/src/ecmult_impl.h:664-679 | whether the five checked allocations succeed, and exactly when that implies that the unchecked one does |
| `Multi.StraussSize` | src/secp256k1/src/ecmult_impl.h:643-675 | the six allocations of a batch take exactly the bytes of the sizing rule, 4032 for each point |
| `Multi.PippengerSize` | src/secp256k1/src/ecmult_impl.h:982-1034 | the six allocations take the bytes of the sizing rule less one int per entry, up to the padding of six objects |
| `Multi.UncheckedAllocation` | src/secp256k1/src/ecmult_impl.h:664-679 | for one point the checks pass and the last allocation fails exactly with 2912 to 4031 free bytes |
| `Multi.StraussBatch` | src/secp256k1/src/ecmult_impl.h:652-692 | where the last allocation is safe: succeeds exactly when there is nothing to do, or the allocations succeed and the callback answers for the whole batch; then r is the batch's sum, and the scratch space is as before |
| `Multi.PippengerBatch` | src/secp256k1/src/ecmult_impl.h:992-1072 | succeeds exactly when there is nothing to do, or both groups of allocations succeed and the callback answers; then r is the batch's sum, and the scratch space is as before |
| `Multi.MultiSimpleVar` | src/secp256k1/src/ecmult_impl.h:1122-1145 | succeeds exactly when the callback answers for every index, and then returns the sum |
| `Multi.EcmultMultiVar` | src/secp256k1/src/ecmult_impl.h:1168-1214 | for every n and every scratch space, or none: succeeds exactly when the callback answers for every index, and then returns inp_g_sc*G plus the sum of all terms, with G counted once; the scratch space is left as it was |
| `Scratch.ScratchSpace.constructor` | src/secp256k1/src/scratch_impl.h:13-24 | a scratch space of the given size with nothing allocated |
| `Scratch.ScratchSpace.ApplyCheckpoint` | src/secp256k1/src/scratch_impl.h:46-56 | rolls back to the checkpoint, and ignores one from the future |
| `Scratch.ScratchSpace.MaxAllocation` | src/secp256k1/src/scratch_impl.h:58-67 | what is left once every object has lost its alignment padding, and 0 only when nothing is |
| `Scratch.MaxAllocationSuffices` | src/secp256k1/src/scratch_impl.h:58-86 | requests in that number whose sizes add up to no more than the answer all fit, whatever their sizes |
| `Scratch.ScratchSpace.Alloc` | src/secp256k1/src/scratch_impl.h:69-86 | succeeds exactly when the rounded size is still free, and then takes it |
| `Tables.OddMultiplesTable` | src/secp256k1/src/ecmult_impl.h:97-130 | the entries are a, 3a, ..., (2n-1)a in Jacobian form, every recorded ratio is the quotient of neighbouring z coordinates, and the first one links to the z of a |
| `Tables.GlobalzSetTable` | src/secp256k1/src/group_impl.h:170-193 | all entries of a chain are brought over the z coordinate of the last one, which is returned |
| `Ladder.OddMultiplesGlobalz` | src/secp256k1/src/ecmult_impl.h:147-155 | eight odd multiples of one point over one common z |
| `Tables.OddMultiplesTableStorage` | src/secp256k1/src/ecmult_impl.h:157-286 | entry k holds the affine coordinates of (2k+1)*a, recovered from only the saved ratio and y with one inversion |
| `Tables.DistinctX` | src/secp256k1/src/ecmult_impl.h:187-193 | no entry shares its x coordinate with 2a, so none of the additions of the first pass degenerates |
| `Tables.RestoreEntry` | src/secp256k1/src/ecmult_impl.h:231-285 | one step of the second pass: from the inverse of the later z and the saved ratio, the affine coordinates of the entry and the inverse of the earlier z |
| `Endomorphism.SplitLambda` | src/secp256k1/src/scalar_impl.h:297-329 | both parts have at most 128 bits, up to sign |
| `Endomorphism.SplitRecombines` | src/secp256k1/src/scalar_impl.h:294-329 | r1 + lambda*r2 is a modulo n |
| `Endomorphism.MulShift272` | src/secp256k1/src/scalar_4x64_impl.h:932-947 | the product over 2^272, to the nearest integer |
| `Endomorphism.Split128` | src/secp256k1/src/scalar_4x64_impl.h:916-925 | two parts below 2^128 that recombine with weight 2^128 |
| `EndoMap.EndoAdd` | src/secp256k1/src/group_impl.h:684-691 | (x, y) -> (beta x, y) is compatible with the chord-and-tangent law |
| `EndoChain.ChainCloses` | src/secp256k1/src/scalar_impl.h:268-273 | the short vector (a1, b1) of the scalar split is a relation between G and its image |
| `Endomorphism.EigenG` | src/secp256k1/src/scalar_impl.h:260-262 | beta belongs to lambda, and not to the other cube root: the image of G is lambda*G |
| `Endomorphism.EndoLaw` | src/secp256k1/src/scalar_impl.h:260-262 | on every multiple of G the map is multiplication by lambda |
| `Endomorphism.OrderOfG` | src/secp256k1/src/scalar_impl.h:290-292 | n times G is infinity, from associativity and the primality of p alone |
| `Endomorphism.CurveFactsFrom` | src/secp256k1/src/scalar_impl.h:290-292 | with n prime and G a generator, n times every point is infinity |
| `Endomorphism.MulLambdaRep` | src/secp256k1/src/group_impl.h:684-691 | multiplying x by beta gives lambda times the point, at every scale |
| `Endomorphism.NoSmallKernel` | src/secp256k1/src/ecmult_const_impl.h:196-202 | no pair below 2^126 other than (0, 0) satisfies x + lambda*y = 0 modulo n, so no prefix of the ladder vanishes |
| `Ladder.EcmultConst` | src/secp256k1/src/ecmult_const_impl.h:127-262 | the result represents scalar*a for every finite a, skews undone, for scalars of at most `size` bits up to sign, and for all scalars above size 128 |
| `Ladder.ConstTableGetGe` | src/secp256k1/src/ecmult_const_impl.h:15-37 | the scan over the whole table gives the multiple for the odd digit n, negated for negative n |
| `Ladder.PrefixFinite` | src/secp256k1/src/ecmult_const_impl.h:196-217 | no prefix of the recoded scalar gives infinity, as the doublings demand |
| `Ladder.RepaidSplit` | src/secp256k1/src/ecmult_const_impl.h:219-261 | the digits of both strings less their skews recombine along lambda to scalar times the point |
| `Generator.EcmultContext.constructor` | src/secp256k1/src/ecmult_impl.h:321-326 | a context without tables |
| `Generator.EcmultContext.Build` | src/secp256k1/src/ecmult_impl.h:328-368 | afterwards both tables hold the odd multiples of G and of 2^128*G; a context that has them keeps them |
| `Generator.ConstGRep` | src/secp256k1/src/group_impl.h:64-69 | the coordinates of G stand for the base point |
| `Generator.GeneratorOnCurve` | src/secp256k1/src/group_impl.h:64-69 | they satisfy the curve equation |
| `GeneratorComb.EcmultGenContext.constructor` | src/secp256k1/src/ecmult_gen_impl.h:25-27 | a context without a table |
| `GeneratorComb.EcmultGenContext.Build` | src/secp256k1/src/ecmult_gen_impl.h:29-102 | afterwards table entry (j, i) is i*PREC_G^j*G + U_j and initial = -(blind*G); a built context is left alone |
| `GeneratorComb.EcmultGenContext.Blind` | src/secp256k1/src/ecmult_gen_impl.h:160-209 | re-blinding, or the reset, keeps initial = -(blind*G) for the new blind and changes nothing else |
| `GeneratorComb.EcmultGenContext.EcmultGen` | src/secp256k1/src/ecmult_gen_impl.h:125-157 | exactly gn*G for every scalar and every blinding |
| `GeneratorComb.OffsetsCancel` | src/secp256k1/src/ecmult_gen.h:21-33 | the offsets U_j add up to infinity |
| `GeneratorComb.PartialStep` | src/secp256k1/src/ecmult_gen_impl.h:136-153 | adding the entry for the next bits extends the partial sum by those bits and the next offset |
| `Jacobian.GejDoubleNonzero` | src/secp256k1/src/group_impl.h:306-339 | represents p + p at every scale; the z coordinate is 2yz |
| `Jacobian.GejDoubleVar` | src/secp256k1/src/group_impl.h:341-367 | represents p + p, infinity included, and r.z = a.z*rzr when asked for |
| `Jacobian.GejAddVar` | src/secp256k1/src/group_impl.h:369-420 | represents p + q in all cases (infinite, equal, opposite), and r.z = a.z*rzr when asked for |
| `Jacobian.GejAddGeVar` | src/secp256k1/src/group_impl.h:422-469 | the same for a second operand that is affine relative to the scale |
| `Jacobian.GejAddZinvVar` | src/secp256k1/src/group_impl.h:471-525 | p + q relative to the scale whose inverse the second operand's z coordinate is |
| `Jacobian.GejAddGe` | src/secp256k1/src/group_impl.h:528-648 | the one branch-free formula represents p + q for every p and finite q: distinct, equal, opposite, and y1 = -y2 with different x |
| `Jacobian.RepUnique` | src/secp256k1/src/group_impl.h:74-82 | coordinates stand for at most one point at a given scale |
| `Jacobian.NegRep` | src/secp256k1/src/group_impl.h:259-266 | negating y represents the opposite point |
| `Jacobian.NegRepGe` | src/secp256k1/src/group_impl.h:94-98 | the same for affine coordinates |
| `Jacobian.GejRescale` | src/secp256k1/src/group_impl.h:650-659 | another representation of the same point, with z multiplied by the factor |
| `Curve.SumOnCurve` | src/secp256k1/src/group_impl.h:306-525 | the chord-and-tangent sum of two points of the curve lies on the curve |
| `BatchInverse.GeSetGej` | src/secp256k1/src/group_impl.h:100-111 | the affine form of the point |
| `BatchInverse.GeSetAllGejVar` | src/secp256k1/src/group_impl.h:129-168 | every finite point gets its affine form, infinite ones anywhere are skipped and flagged; with no finite point nothing is written |
| `BatchInverse.FeInvAllVar` | src/secp256k1/src/field_impl.h:266-291 | r[i]*a[i] = 1 for every list of nonzero elements; with a zero among them all results are 0 |
| `AdditionChain.FeInv` | src/secp256k1/src/field_impl.h:139-227 | exactly a^(p-2); hence the inverse of a nonzero element, and 0 for 0 |
| `AdditionChain.FeSqrt` | src/secp256k1/src/field_impl.h:39-137 | exactly a^((p+1)/4), which is itself a square; the flag is 1 exactly when its square is a, and exactly when a is a square |
| `AdditionChain.RootLaws` | src/secp256k1/src/field_impl.h:39-49 | the candidate root squares to a or to -a, and to a exactly when a is a square |
| `AdditionChain.FeEqualIff` | src/secp256k1/src/field_impl.h:25-30 | equality of residues is told by adding the negation |
| `Fermat.FermatLittle` | src/secp256k1/src/field_impl.h:139-227 | a^(p-1) = 1 for nonzero a, the theorem on which inversion by exponentiation rests |
| `Limbs.FeMulInner` | src/secp256k1/src/field_5x52_int128_impl.h:18-155 | for operands of magnitude 8 the limbs stand for a*b modulo p, with magnitude 1; no intermediate leaves 64 or 128 bits; r may be a |
| `Limbs.FeSqrInner` | src/secp256k1/src/field_5x52_int128_impl.h:157-277 | the same for a*a |
| `Limbs.Reduce` | src/secp256k1/src/field_5x52_int128_impl.h:34-154 | folding nine columns in the order of the kernel keeps their sum modulo p and ends at magnitude 1 |
| `Limbs10.FeMulInner10` | src/secp256k1/src/field_10x26_impl.h:460-788 | for operands of magnitude 8 the ten limbs stand for a*b modulo p, with magnitude 1; no intermediate leaves 64 bits |
| `Limbs10.FeSqrInner10` | src/secp256k1/src/field_10x26_impl.h:790-1062 | the same for a*a |
| `Limbs10.Doubled32` | src/secp256k1/src/field_10x26_impl.h:812-993 | the limbs that are doubled before they are multiplied stay within 32 bits |
| `Normalize.MulRefines` | src/secp256k1/src/field.h:92-98 | what the kernels compute represents the product of the represented elements |
| `Limbs10.MulRefines10` | src/secp256k1/src/field.h:92-98 | the same for ten limbs |
| `Normalize.FeNormalize` | src/secp256k1/src/field_5x52_impl.h:53-94 | the result is the one canonical representation below p, of the same residue exactly when no addition of the first pass leaves 64 bits |
| `Normalize.FeNormalizeVar` | src/secp256k1/src/field_5x52_impl.h:120-162 | the same with the second pass only where it is needed |
| `Normalize.FeNormalizeWeakLimbs` | src/secp256k1/src/field_5x52_impl.h:96-118 | magnitude 1, and the same residue exactly when no addition leaves 64 bits |
| `Normalize.NormalizesToZero` | src/secp256k1/src/field_5x52_impl.h:164-185 | 1 exactly when the value is 0 modulo p, as long as no addition leaves 64 bits |
| `Normalize.NormalizesToZeroVar` | src/secp256k1/src/field_5x52_impl.h:187-226 | the same with the fast exit on the lowest limb |
| `Normalize.BitTests` | src/secp256k1/src/field_5x52_impl.h:174-184 | the combination of all limbs by or is zero exactly for 0, that by and and exclusive or all ones exactly for p |
| `Normalize.MagnitudeNoWrap` | src/secp256k1/src/field_5x52_impl.h:32-50 | up to magnitude 2047 no addition of the first pass leaves 64 bits |
| `Normalize.MagnitudeLimit` | src/secp256k1/src/field_5x52_impl.h:32-50 | limbs of magnitude 2048 for which the first addition does |
| `Normalize.FeNegateLimbs` | src/secp256k1/src/field_5x52_impl.h:371-386 | 2(m+1)p - a without borrow or overflow, at magnitude m+1 |
| `Normalize.FeMulIntLimbs` | src/secp256k1/src/field_5x52_impl.h:388-399 | k times the value, at k times the magnitude |
| `Normalize.FeAddLimbs` | src/secp256k1/src/field_5x52_impl.h:401-415 | the sum of the values, at the sum of the magnitudes |
| `Normalize.NegateRefines` | src/secp256k1/src/field.h:81-84 | that represents the negated element |
| `Normalize.MulIntRefines` | src/secp256k1/src/field.h:86-88 | that represents the multiple of the element |
| `Normalize.AddRefines` | src/secp256k1/src/field.h:90-91 | that represents the sum of the elements |
| `Normalize.FeCmpVar` | src/secp256k1/src/field_5x52_impl.h:266-283 | the order of the values |
| `FieldBytes.FeSetB32` | src/secp256k1/src/field_5x52_impl.h:285-329 | the limbs have the value of the 32 bytes; the flag is 1 exactly when it is below p, and then they are canonical |
| `FieldBytes.FeGetB32` | src/secp256k1/src/field_5x52_impl.h:332-369 | 32 bytes with the value of the limbs |
| `FieldBytes.GetThenSet` | src/secp256k1/src/field_5x52_impl.h:285-369 | reading back the bytes of a canonical element gives the same limbs |
| `FieldBytes.SetThenGet` | src/secp256k1/src/field_5x52_impl.h:285-369 | writing an element that was read gives the same bytes, for every accepted string |
| `FieldBytes.StorageRoundTrip` | src/secp256k1/src/field_5x52_impl.h:474-494 | storing in four words and loading is the identity on canonical elements |
| `Ecdsa.EcdsaSigVerify` | src/secp256k1/src/ecdsa_impl.h:207-275 | 1 exactly when r and s are nonzero and the recomputed point is finite with x = r modulo n, without a division by z |
| `Ecdsa.EqXMeaning` | src/secp256k1/src/group_impl.h:251-257 | comparing with x*z^2 decides equality of the affine x coordinate |
| `Ecdsa.ReducedX` | src/secp256k1/src/ecdsa_impl.h:244-274 | x is r modulo n exactly when x = r, or r is below p - n and x = r + n |
| `Ecdsa.EcdsaSigSign` | src/secp256k1/src/ecdsa_impl.h:277-317 | fails exactly when m + r*d is 0 modulo n; r is the x coordinate of nonce*G modulo n; otherwise 2s < n, the signature verifies under d*G, what verification recomputes is nonce*G or its opposite, and the recovery id is that point's |
| `Recovery.GeSetXquad` | src/secp256k1/src/group_impl.h:221-230 | 1 exactly when some point has this x; then the point is on the curve, and its y is a square |
| `Recovery.GeSetXoVar` | src/secp256k1/src/group_impl.h:232-242 | 1 exactly when some point has this x; then the point with y of the wanted parity |
| `Recovery.LiftUnique` | src/secp256k1/src/group_impl.h:232-242 | x and the parity of y determine a point |
| `Recovery.GeSetGejVar` | src/secp256k1/src/group_impl.h:113-127 | the affine form, infinity handled first |
| `Recovery.EcdsaSigRecover` | src/secp256k1/src/modules/recovery/main_impl.h:87-121 | 1 exactly when some finite key makes the signature valid with this recovery id, and then returns that key |
| `Recovery.KeyUnique` | src/secp256k1/src/modules/recovery/main_impl.h:87-121 | at most one key goes with a signature and a recovery id |
| `Recovery.RecoverInverts` | src/secp256k1/src/modules/recovery/main_impl.h:114-119 | (s/r)R - (m/r)G is inverse to the computation of R in verification |
| `Recovery.SignAndRecover` | src/secp256k1/src/modules/recovery/tests_impl.h:174-195 | recovery succeeds on every signature just made and returns the signer's public key |
| `Der.DerReadLen` | src/secp256k1/src/ecdsa_impl.h:49-100 | succeeds exactly when a definite, minimal length within the string starts here, and returns it |
| `Der.LenUnique` | src/secp256k1/src/ecdsa_impl.h:49-100 | there is at most one |
| `Der.DerParseInteger` | src/secp256k1/src/ecdsa_impl.h:102-151 | succeeds exactly on the encoding of an integer with minimal content, and returns it as a scalar, 0 when it is negative or too large |
| `Der.EcdsaSigParse` | src/secp256k1/src/ecdsa_impl.h:153-181 | accepts exactly the encodings of two integers, with nothing after them |
| `Der.EcdsaSigSerialize` | src/secp256k1/src/ecdsa_impl.h:183-205 | writes the encoding of (r, s) exactly when it fits, touches nothing else, and reports its size in any case |
| `Der.ParseOfSerialize` | src/secp256k1/src/ecdsa_impl.h:153-205 | a serialized pair takes at most 72 bytes, parses, and every parse of it gives the same pair |
| `Der.SerializeOfParse` | src/secp256k1/src/ecdsa_impl.h:153-205 | a string that parses with no integer out of range is the serialization of its result |
| `LaxDer.EcdsaSignatureParseDerLax` | src/secp256k1/contrib/lax_der_parsing.c:12-149 | for every byte string: succeeds exactly when it is a sequence tag and skippable length octets, two integers with lengths below 2^56 (leading zero octets allowed, contents may be empty), and anything after them; returns the contents as unsigned numbers, or two zeros if one is not below n |
| `LaxDer.LaxParseMeaning` | src/secp256k1/contrib/lax_der_parsing.c:12-149 | the functional form used for the comparison with the strict parser meets the same grammar |
| `LaxDer.ParseCompact` | src/secp256k1/src/secp256k1.c:329-348 | succeeds exactly when both halves are below n; otherwise the pair is (0, 0) |
| `LaxDer.LaxOnStrict` | src/secp256k1/contrib/lax_der_parsing.c:12-149 | on every string that the strict parser accepts the lax one succeeds, with the contents read as unsigned numbers |
| `LaxDer.ParsersAgree` | src/secp256k1/contrib/lax_der_parsing.c:12-149 | where no integer is out of range both parsers return the same pair |
| `LaxDer.AgreementIff` | src/secp256k1/contrib/lax_der_parsing.c:12-149 | the exact condition under which they return the same pair |
| `LaxDer.NegativeDiffers` | src/secp256k1/contrib/lax_der_parsing.c:12-149 | an eight-byte signature on which they differ |

## Left out

- Builds without the endomorphism, and builds whose `size_t` has 32 bits.
- The ten-limb normalization, comparison and conversions: the argument is that of the five-limb ones with other constants. Only the ten-limb kernels are modelled.
- The limb code of scalars and the extended Euclid of the optional big-number backend: scalars are natural numbers below n with the operations that `scalar.h` promises; the inverse is computed by Euclid's algorithm.
- The inline assembly of the field kernels, and everything that concerns timing or erasing memory. A conditional move is a conditional assignment.
- The memory layout of contexts and the scratch space's marker bytes; a callback is the list of its answers, `None` for a failure.
- Nonces, blinding values and the point with no known logarithm come from hash functions; they are parameters, and the loops that draw again on a bad value are not part of the model.
- Aliasing of outputs with inputs: group and field operations return new values, except for the limb kernels, where r may be a.
- The byte strings of scalars in `secp256k1_ecdsa_sig_verify` and `secp256k1_ecdsa_sig_recover`: the field element is built directly from the scalar.
- The schnorr, multiset and ecdh modules, and the public functions that only check arguments and convert.
- Sockets, node, database, configuration and language bindings of the repository.
- StraussBatch: assumes that the last allocation succeeds whenever the others do, since the code does not check it; `Multi.AllocateStrauss` states the exact condition.
- AgreementIff: stated for strings below 2^56 bytes, because the lax parser limits a length to seven octets.
- EcmultConst: assumes a finite point, as the code does; with `size` of at most 128 the scalar must have at most that many bits up to sign, as the interface demands.
- EcdsaSigSign: assumes a nonzero nonce with nonzero r, which the code demands of its caller.
