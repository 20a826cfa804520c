# Verified models of the Ed25519 arithmetic, the consensus round and the tagged cache

This project models three parts of the repository in Dafny and proves what they are for.

**Ed25519 (`src/ed25519-donna`, 64-bit).** `ModM` is arithmetic modulo the group order on five limbs of 56 bits,
with Barrett reduction; `Recoding` the signed digits of scalars; `Field25519` and `FieldPowers` the arithmetic
modulo 2^255 - 19 on limbs of 51 bits and its addition chains; `CurveLaw` the addition law, `Edwards` and `Niels`
the point formulas, and `NielsTable` the choice of an entry of the packed base table; `ScalarMult` the two scalar
multiplications, and `BaseMult` and `JointMult` the same on limbs, by `Chains` of the addition law; `BatchLimbs`,
`BatchHeap`, `BosCoster` and `MultiScalar` the multi-scalar multiplication, and `BatchVerify` batch verification;
`Sha512` the buffered hash; `Ed25519` keys, signing and opening, over assumptions that `ResidueCurve` meets. Machine
words are newtypes, so that every expression carries the proof that the C expression does not wrap; where the C code
wraps on purpose, `Words.W64` says so. Shifts, masks of low bits and unions of disjoint bits are division, remainder
and addition; other bitwise operations are those of `Bits`. Curve points are elements of an abelian group (`Groups`)
in the scalar multiplications and the signatures, and limbs with the addition law of the curve in `Edwards`,
`Niels`, `NielsTable`, `BaseMult` and `JointMult`.

**Consensus (`src/bixd/consensus`).** `DisputedTx` is the object of that name; `Disputes` the books of a round: our
set, the disputes and the sets compared so far; `Thresholds` and `CloseTime` the decisions by counting; `Consensus`
the round as an object with its phases. Every public operation keeps `Valid`, and `Run` takes any sequence of them.
The answers of the adaptor are arbitrary but for what is listed under "Left out".

**TaggedCache (`src/bixd/basics`).** Objects are identities, and references are counted as shared pointers count
them: an object is alive while a client, a strong entry or a sweep that has not let go refers to it.

The main results:

- Barrett reduction is exact for every number below 2^512, although low columns are dropped (`ModM.Barrett`): the
  quotient is estimated at most 1 too low (`ModM.BarrettQuotient`).
- Both recodings keep the value and give digits the tables can serve (`Recoding`), and the scalar multiplications
  give [s1]P + [s2]B and [s]B for all scalars below 2^255 (`ScalarMult`).
- Field operations never wrap on limbs below 2^54, the point formulas never leave that range, and they satisfy the
  addition law, which is that of affine points, and stay on the curve (`Field25519`, `Edwards`, `Niels`,
  `Edwards.AddAffine`, `CurveLaw.SumOnCurve`). So do both whole scalar multiplications, from the tables to the
  result: it is made by the law alone, as the multiple the scalars say (`BaseMult.ScalarmultBaseNiels`,
  `JointMult.DoubleScalarmultVartime`), and where the law is the addition of a group it is that multiple
  (`Chains.ChainReads`).
- The Bos-Coster loop ends and keeps the sum, though it compares and subtracts ever fewer limbs; it covers all
  points exactly when two of the first scalars are not zero and no number of more than 128 bits divides them all
  (`BosCoster.Reduce`, `BosCoster.Narrow`). For an odd count it leaves the greatest common divisor of the scalars,
  and on a remaining point of order m the whole routine is right exactly when that divisor is at most 1 or from
  3*2^223 to 2^225 - 1 (`MultiScalar.Compute`).
- Batch verification answers 1 exactly for the signatures that the single verification accepts and for all in a
  batch that passed (`BatchVerify.OpenBatch`). A batch of accepted signatures adds to the neutral point exactly when
  nothing is lost in the reductions modulo the group order (`BatchVerify.BatchSum`), which is so for all random
  numbers exactly under a condition on keys and hashes (`BatchVerify.LostNever`); signatures made by sign pass
  (`BatchVerify.SignedPass`).
- The buffered hash is the one-shot hash of FIPS 180-4 however the message is split (`Sha512.Hasher`), which a
  description without the functions of the model confirms (`Sha512.HashExactly`).
- Signatures open under the public key of their secret key, and among the signatures with an R made from a known r
  exactly those with the right S do (`Ed25519.Completeness`, `Ed25519.OpenExact`); keys and signatures are those of
  RFC 8032 (`Ed25519.SchemeExact`).
- In every run of the consensus round the disputes match our set, the votes and the compared sets, so that unanimity
  on the disputes is agreement of all sets (`Consensus.Run`, `Consensus.PeersAgree`).
- After an update, with the sets of all peers known, our set is the majority of their sets at the percentage of the
  moment (`Disputes.NewSetExactly`), the close time is that of the ballots (`Consensus.ElectedExactly`), and the
  nodes that heard us last take our new proposal unless we have bowed out (`Consensus.NewProposalAdmitted`). The
  round is accepted exactly on consensus about both (`Consensus.PhaseEstablish`).
- Avalanche voting settles, for all disputes with true counts, exactly when the threshold never falls
  (`DisputedTx.SettlesExactly`); overlapping views agree, and the bound on the overlap is exact
  (`Thresholds.Agreement`, `Thresholds.OverlapTight`).
- A cache key keeps giving the same object while a client holds it (`TaggedCache.Run`), and gives an object exactly
  while somebody refers to it (`TaggedCache.Fetch`).

Where the code differs from its comments or from what a caller may expect, the model follows the code:

- `curve25519_square_times` raises to 2^count, not to 2*count.
- The general branch of `ge25519_multi_scalarmult_vartime_final` adds the leading bit twice and never reads limb 4,
  so that it gives [s]P only for 3*2^223 <= s < 2^225 (`MultiScalar.Final`).
- `heap_updated_root` never looks at the last entry of an even number of entries, so that the multi-scalar
  multiplication leaves a term out: it is fit for odd counts, and for every even count it fails on all scalars 1
  (`BosCoster.Reduce`, `MultiScalar.Compute`).
- Signatures that are accepted one by one under a key outside the subgroup of the base point can fail as a batch,
  which is then verified one by one (`ResidueCurve.AcceptedButFailed`).
- `TaggedCache::insert` returns true when the key was there, not when the element was inserted.
- `canonicalize` with a null pointer leaves a wrong count; `TaggedCache.Canonicalize` says exactly when.
- `ConsensusResult::state` is Yes or MovedOn after `phaseEstablish` accepts, but No after `simulate`
  (`Consensus.PhaseEstablish`, `Consensus.ForceAccept`).
- `changePosition` counts up to the number that means bowing out, so that the proposal after number 0xffff_fffe bows
  out (`Consensus.NewProposalAdmitted`).
- `updateVote` compares a signed percentage with unsigned parameters, so that a negative percentage counts as the
  last stage of a round and voting can oscillate after it (`DisputedTx.NegativePercentage`).

## Model

| member | source | states |
|---|---|---|
| `ModM.Constants` | src/ed25519-donna/modm-donna-64bit.h:11-35 | m and mu in limbs are the group order and the exact quotient of 2^512 by it |
| `ModM.SubBorrow` | src/ed25519-donna/modm-donna-64bit.h:37-49 | one line of a borrow chain gives the exact difference with its borrow, although the subtraction wraps |
| `Bits.MaskSelects` | src/ed25519-donna/modm-donna-64bit.h:54-62 | r ^ (mask & (r ^ t)) keeps r for a mask of zeros and takes t for a mask of ones |
| `ModM.Reduce256` | src/ed25519-donna/modm-donna-64bit.h:42-63 | subtracts m exactly when the number is at least m, for every carried limb vector with a top limb below 2^60 |
| `ModM.QuotientEstimate` | src/ed25519-donna/modm-donna-64bit.h:71-85 | mu * q1 divided by 2^264 without columns 0 to 2 is too small by less than 2^264 + 2^226 before the division; no column wraps |
| `ModM.BarrettQuotient` | src/ed25519-donna/modm-donna-64bit.h:65-85 | for every x below 2^512 that estimate is never above x div m and at most 1 below it, and leaves less than 1.29m |
| `ModM.LowProduct` | src/ed25519-donna/modm-donna-64bit.h:87-96 | the low columns give m times the estimate modulo 2^264 |
| `ModM.Subtract264` | src/ed25519-donna/modm-donna-64bit.h:98-103 | the borrow chain gives the difference modulo 2^264 |
| `ModM.BarrettRemainder` | src/ed25519-donna/modm-donna-64bit.h:98-103 | the difference modulo 2^264 is the true remainder x - m*q, below (1 + what the estimate falls short)*m |
| `ModM.BarrettReduced` | src/ed25519-donna/modm-donna-64bit.h:105-106 | two conditional subtractions of m then leave x mod m, of which the second finds nothing to do when the estimate is at most 1 below |
| `ModM.Barrett` | src/ed25519-donna/modm-donna-64bit.h:65-107 | for every x below 2^512 the result is x mod m in canonical limbs |
| `ModM.Add256` | src/ed25519-donna/modm-donna-64bit.h:110-121 | the sum, less m if it reaches m; (x + y) mod m for reduced operands; r may be an operand |
| `ModM.Mul256` | src/ed25519-donna/modm-donna-64bit.h:123-150 | x * y mod m for all operands below 2^256; r may be an operand |
| `ModM.Product` | src/ed25519-donna/modm-donna-64bit.h:127-148 | q1 is the product shifted by 248 bits and r1 the product modulo 2^264 |
| `ModM.Expand256` | src/ed25519-donna/modm-donna-64bit.h:152-187 | the little-endian number of any 0 to 64 bytes, modulo m |
| `ModM.Contract256` | src/ed25519-donna/modm-donna-64bit.h:205-211 | the 32 bytes encode exactly the number in the limbs |
| `Recoding.PropagateCarry` | src/ed25519-donna/modm-donna-64bit.h:268-274 | adds one to the numeral above position k0 without running off the end |
| `Recoding.TakeWindow` | src/ed25519-donna/modm-donna-64bit.h:262-278 | a digit absorbs the bits of its window, the value is unchanged, the next w - 1 digits are zero and the digit is odd below 2^(w-1) |
| `Recoding.SlideBits` | src/ed25519-donna/modm-donna-64bit.h:257-279 | the whole loop keeps the value; nonzero digits are odd, below 2^(w-1) in size, and at least w apart |
| `Recoding.ExpandLimbs` | src/ed25519-donna/modm-donna-64bit.h:219-226 | the digits in base 2 or 16 of the number in the limbs |
| `Recoding.SlidingWindow` | src/ed25519-donna/modm-donna-64bit.h:240-280 | for every scalar below 2^255 and width 2 to 7 the digits sum to the scalar and are window digits |
| `Recoding.SignDigit` | src/ed25519-donna/modm-donna-64bit.h:230-236 | one pass keeps the value of digits and carry, and leaves a digit in [-8, 7] |
| `Recoding.Window4` | src/ed25519-donna/modm-donna-64bit.h:213-238 | 64 digits in [-8, 8] whose base-16 value is the scalar, for every scalar below 2^255 |
| `Field25519.Times` | src/ed25519-donna/curve25519-donna-64bit.h:105-171 | for all limbs below 2^54 the product is congruent to a*b, no step wraps, and the limbs are below 2^51 + 2^13 |
| `Field25519.FMul` | src/ed25519-donna/curve25519-donna-64bit.h:105-171 | the same on arrays, where the result may be an operand |
| `Field25519.Squared` | src/ed25519-donna/curve25519-donna-64bit.h:236-284 | for all limbs below 2^54 the result is congruent to the square |
| `Field25519.SquareStep` | src/ed25519-donna/curve25519-donna-64bit.h:194-227 | one pass of square_times squares, with the carries taken all at once, for all limbs below 2^54 |
| `Field25519.FSquareTimes` | src/ed25519-donna/curve25519-donna-64bit.h:178-234 | the input raised to 2^count |
| `Field25519.Expand` | src/ed25519-donna/curve25519-donna-64bit.h:286-319 | 32 bytes as limbs below 2^51, with bit 255 dropped |
| `Field25519.Freeze` | src/ed25519-donna/curve25519-donna-64bit.h:335-353 | three carries leave the residue in [0, p), plus 19 |
| `Field25519.Unoffset` | src/ed25519-donna/curve25519-donna-64bit.h:355-363 | adding 2^255 - 19 and dropping bit 255 takes 19 off |
| `Field25519.Contract` | src/ed25519-donna/curve25519-donna-64bit.h:321-373 | the 32 bytes encode the residue in [0, p), for all limbs below 2^63 |
| `Field25519.Reencode` | src/ed25519-donna/curve25519-donna-64bit.h:286-373 | decoding and encoding 32 bytes of value v gives (v mod 2^255) mod p |
| `FieldPowers.Pow250` | src/ed25519-donna/curve25519-donna-helpers.h:12-31 | from z^(2^5 - 1) in place to z^(2^250 - 1) |
| `FieldPowers.Recip` | src/ed25519-donna/curve25519-donna-helpers.h:33-51 | z^(p - 2) |
| `FieldPowers.PowTwo252m3` | src/ed25519-donna/curve25519-donna-helpers.h:53-67 | z^((p - 5)/8) |
| `Edwards.CurveConstants` | src/ed25519-donna/ed25519-donna-64bit-tables.h:7-15 | d = -121665/121666 modulo p, and the second constant is 2d |
| `Edwards.Plus` | src/ed25519-donna/curve25519-donna-64bit.h:25-43 | the sum of the numbers, limbs below the sum of the bounds |
| `Edwards.PlusReduce` | src/ed25519-donna/curve25519-donna-64bit.h:45-54 | congruent to the sum, limbs carried |
| `Edwards.Minus` | src/ed25519-donna/curve25519-donna-64bit.h:62-70 | congruent to the difference, and no limb goes below zero |
| `Edwards.MinusAfterBasic` | src/ed25519-donna/curve25519-donna-64bit.h:72-80 | the same for a subtrahend that is itself a sum or difference |
| `Edwards.MinusReduce` | src/ed25519-donna/curve25519-donna-64bit.h:82-91 | congruent to the difference, limbs carried |
| `Edwards.Negate` | src/ed25519-donna/curve25519-donna-64bit.h:93-103 | congruent to the negative, limbs carried |
| `Edwards.ToFull` | src/ed25519-donna/ed25519-donna-impl-base.h:12-18 | the four products of the completed coordinates |
| `Edwards.ToPartial` | src/ed25519-donna/ed25519-donna-impl-base.h:5-10 | three of the products, with t left as it was |
| `Edwards.AddP1P1` | src/ed25519-donna/ed25519-donna-impl-base.h:32-50 | limbs stay below 2^54, and the completed coordinates are those of the sum |
| `Edwards.DoubleP1P1` | src/ed25519-donna/ed25519-donna-impl-base.h:53-67 | limbs stay below 2^54, and the completed coordinates are those of the double, whatever t holds |
| `Edwards.Add` | src/ed25519-donna/ed25519-donna-impl-base.h:122-127 | the sum of any two points in extended coordinates by the addition law, z3 included, in limbs that can be added again; on the curve if both points are |
| `Edwards.AddAffine` | src/ed25519-donna/ed25519-donna-impl-base.h:122-127 | the result is the affine sum: where z1, z2 and the denominators of the affine formula have inverses, so has z3, and x3/z3 and y3/z3 are the coordinates of the sum |
| `Edwards.Double` | src/ed25519-donna/ed25519-donna-impl-base.h:115-120 | the sum of a point on the curve with itself, by the addition law, z3 included, whatever t holds; again on the curve |
| `Edwards.DoublePartial` | src/ed25519-donna/ed25519-donna-impl-base.h:108-113 | x, y and z of the double by the addition law, with the old t |
| `Edwards.DoubleFourTimes` | src/ed25519-donna/ed25519-donna-impl-base.h:352-355 | three doublings that leave t stale and a full one: four doublings by the addition law, and the t of the last |
| `CurveLaw.DUnique` | src/ed25519-donna/ed25519-donna-64bit-tables.h:7-15 | 121666 d = -121665 determines d modulo p |
| `CurveLaw.AdditionLaw` | src/ed25519-donna/ed25519-donna-impl-base.h:32-50 | the formulas satisfy the addition law of the curve, cleared of denominators, and z3 is 4 times the product of the denominators over z1^2*z2^2 |
| `CurveLaw.DoublingLaw` | src/ed25519-donna/ed25519-donna-impl-base.h:53-67 | for a point on the curve the doubling formulas satisfy the law for the point with itself, and z3 is the product of the denominators over z1^4 |
| `CurveLaw.AffineSum` | src/ed25519-donna/ed25519-donna-impl-base.h:32-50 | what the law pins: where the denominators of the affine addition formula have inverses, so has z3, and x3/z3 and y3/z3 are the affine sum |
| `CurveLaw.FourInverse` | src/ed25519-donna/ed25519-donna-impl-base.h:32-50 | 4, the factor in the denominator of a completed sum, has an inverse modulo p |
| `CurveLaw.SumOnCurve` | src/ed25519-donna/ed25519-donna-impl-base.h:32-50 | the sum of two points of the curve, in extended coordinates, is a point of the curve |
| `CurveLaw.DoubleOnCurve` | src/ed25519-donna/ed25519-donna-impl-base.h:53-67 | so is the double of one |
| `CurveLaw.ExtendedOnCurve` | src/ed25519-donna/ed25519-donna-impl-base.h:53-67 | extended coordinates of a point give the projective equation that doubling needs |
| `Niels.FromFull` | src/ed25519-donna/ed25519-donna-impl-base.h:20-26 | the entry of a point: y - x, y + x, z and 2dt |
| `Niels.PnielsAddP1P1` | src/ed25519-donna/ed25519-donna-impl-base.h:88-106 | the completed sum with the point of an entry, or with its negative when the sign is set; limbs stay below 2^54 |
| `Niels.NielsAdd2P1P1` | src/ed25519-donna/ed25519-donna-impl-base.h:69-86 | the same for an entry with z = 1 |
| `Niels.NielsAdd2` | src/ed25519-donna/ed25519-donna-impl-base.h:129-147 | the sum with an entry with z = 1, by the addition law, z3 included; on the curve if both points are |
| `Niels.PnielsAdd` | src/ed25519-donna/ed25519-donna-impl-base.h:149-172 | the entry of the sum with the point of an entry, by the addition law, z3 included; on the curve if both points are |
| `NielsTable.WindowEqualExact` | src/ed25519-donna/ed25519-donna-impl-base.h:298-301 | the wrapped comparison is 1 exactly for equal numbers |
| `NielsTable.Magnitude` | src/ed25519-donna/ed25519-donna-impl-base.h:306-308 | the sign bit and the size of a digit, from (b + mask) ^ mask |
| `NielsTable.MoveConditional` | src/ed25519-donna/curve25519-donna-64bit.h:377-395 | all twelve words are taken for flag 1 and kept for flag 0 |
| `NielsTable.SwapConditional` | src/ed25519-donna/curve25519-donna-64bit.h:397-408 | the limbs are exchanged exactly for flag 1 |
| `NielsTable.Scan` | src/ed25519-donna/ed25519-donna-impl-base.h:311-317 | the row of the digit, or the neutral one for digit 0, after all eight rows have been read |
| `NielsTable.ChooseNiels` | src/ed25519-donna/ed25519-donna-impl-base.h:303-328 | the entry of the row for |b|, with x and 2dt negated for a negative digit, and the neutral entry for 0; no limb goes out of range |
| `NielsTable.FirstPoint` | src/ed25519-donna/ed25519-donna-impl-base.h:342-347 | from a row with 2xy in place of 2dt, the extended coordinates 2x, 2y, 2 and 2xy of the point |
| `NielsTable.FirstEntry` | src/ed25519-donna/ed25519-donna-impl-base.h:356-357 | the same row times d is an entry of the point |
| `NielsTable.AddFirst` | src/ed25519-donna/ed25519-donna-impl-base.h:356-358 | the accumulator plus the point of position 0, by the addition law, and on the curve |
| `BaseMult.ChooseEntry` | src/ed25519-donna/ed25519-donna-impl-base.h:303-328 | the entry for a digit at a position, with 2xy in place of 2dxy at position 0 |
| `BaseMult.DigitOf` | src/ed25519-donna/ed25519-donna-impl-base.h:303-328 | the point of digit b at a position, made from the table, is the multiple b * 256^pos of the base point |
| `BaseMult.AddDigit` | src/ed25519-donna/ed25519-donna-impl-base.h:348-351 | the accumulator plus the point of a digit, by the addition law; the multiples add |
| `BaseMult.Start` | src/ed25519-donna/ed25519-donna-impl-base.h:342-347 | the accumulator before the loops is the multiple b[1], with all coordinates doubled |
| `BaseMult.AddParity` | src/ed25519-donna/ed25519-donna-impl-base.h:348-351 | a loop over the digits of one parity adds their value in base 256 |
| `BaseMult.ScalarmultBaseNiels` | src/ed25519-donna/ed25519-donna-impl-base.h:333-363 | for all scalars below 2^255, on limbs and packed rows: the result is on the curve, made from table multiples by the addition law alone, and their total is the scalar; no limb leaves its range |
| `Chains.ChainReads` | src/ed25519-donna/ed25519-donna-impl-base.h:333-363 | where the addition law is complete and is the addition of a group, a point made by the law from known points is, in the group, the combination that its totals say |
| `BaseMult.BaseReads` | src/ed25519-donna/ed25519-donna-impl-base.h:333-363 | so that the result of the base multiplication is [s]B there |
| `JointMult.OddTable` | src/ed25519-donna/ed25519-donna-impl-base.h:263-266 | the entries of p1, [3]p1, ..., [15]p1, each made from the one before by the addition law |
| `JointMult.DoubleStep` | src/ed25519-donna/ed25519-donna-impl-base.h:278 | the completed double of a point whose t may be stale |
| `JointMult.AddEntry` | src/ed25519-donna/ed25519-donna-impl-base.h:280-288 | the completed sum with the point of an entry, or with its negative, by the addition law |
| `JointMult.JointStep` | src/ed25519-donna/ed25519-donna-impl-base.h:277-291 | one pass: both totals are doubled and the digits added, and t is left stale |
| `JointMult.JointLoop` | src/ed25519-donna/ed25519-donna-impl-base.h:273-291 | the loop from the first nonzero position gives the values of both digit strings |
| `JointMult.DoubleScalarmultVartime` | src/ed25519-donna/ed25519-donna-impl-base.h:252-292 | for all scalars below 2^255, on limbs: the result is on the curve, made from p1 and odd multiples of the base point by the addition law alone, with totals s1 and s2; no limb leaves its range |
| `JointMult.JointReads` | src/ed25519-donna/ed25519-donna-impl-base.h:252-292 | where the law is complete and is the addition of a group, the result is [s1]p1 + [s2]B |
| `ScalarMult.AddDigit` | src/ed25519-donna/ed25519-donna-impl-base.h:280-288 | adds [d]p for a nonzero digit, taking entry |d|/2 of the table with the sign of d |
| `ScalarMult.OddTable` | src/ed25519-donna/ed25519-donna-impl-base.h:263-266 | the table holds p, [3]p, up to [15]p |
| `ScalarMult.JointStep` | src/ed25519-donna/ed25519-donna-impl-base.h:277-291 | [a]p1 + [b]B becomes [2a + x]p1 + [2b + y]B for the digits x and y |
| `ScalarMult.JointLoop` | src/ed25519-donna/ed25519-donna-impl-base.h:273-291 | the loop over both digit strings gives the sum of the multiples by their values |
| `ScalarMult.DoubleScalarmult` | src/ed25519-donna/ed25519-donna-impl-base.h:251-292 | [s1]p1 + [s2]B for all scalars below 2^255 |
| `ScalarMult.Choose` | src/ed25519-donna/ed25519-donna-impl-base.h:303-328 | entry b of row pos gives [b * 256^pos]B, for b from -8 to 8 |
| `ScalarMult.AddParity` | src/ed25519-donna/ed25519-donna-impl-base.h:342-350 | one loop adds the multiples by the digits of one parity |
| `ScalarMult.ScalarmultBase` | src/ed25519-donna/ed25519-donna-impl-base.h:333-363 | odd digits, four doublings and even digits give [s]B for every scalar below 2^255 |
| `BatchLimbs.LtBatch` | src/ed25519-donna/modm-donna-64bit.h:302-315 | compares the numbers in the limbs up to limbsize, although each difference may wrap |
| `BatchLimbs.LteBatch` | src/ed25519-donna/modm-donna-64bit.h:317-330 | the same for at most |
| `BatchLimbs.SubBatch` | src/ed25519-donna/modm-donna-64bit.h:286-299 | these limbs become the difference and the others stay; the last limb needs no mask; the result may be an operand |
| `BatchLimbs.IsZero` | src/ed25519-donna/modm-donna-64bit.h:332-340 | true exactly for zero |
| `BatchLimbs.AtMost128` | src/ed25519-donna/modm-donna-64bit.h:352-361 | true exactly below 2^128 |
| `BatchHeap.Rise` | src/ed25519-donna/ed25519-donna-batchverify.h:31-49 | swapping a risen entry with its smaller parent moves the one open place up |
| `BatchHeap.Sink` | src/ed25519-donna/ed25519-donna-batchverify.h:51-67 | swapping with the larger child moves the open place down |
| `BatchHeap.SiftUp` | src/ed25519-donna/ed25519-donna-batchverify.h:40-46 | the upward loop restores the order and keeps a permutation of the indices; on insertion an entry in order stays where it is |
| `BatchHeap.InsertNext` | src/ed25519-donna/ed25519-donna-batchverify.h:31-49 | a heap of the indices below n becomes a heap of those below n + 1; scalars in heap order stay in index order |
| `BatchHeap.UpdatedRoot` | src/ed25519-donna/ed25519-donna-batchverify.h:51-77 | for every size from 3, sinking the root to a leaf and letting it rise restores the heap; for an even size the last position is left out and untouched |
| `BatchHeap.RootIsMax` | src/ed25519-donna/ed25519-donna-batchverify.h:96-103 | the root is a largest scalar, and one of its children a largest of the others |
| `BatchHeap.GetTop2` | src/ed25519-donna/ed25519-donna-batchverify.h:96-103 | the indices of a largest and a second largest scalar |
| `BosCoster.Grow` | src/ed25519-donna/ed25519-donna-batchverify.h:79-93 | building and extending give a heap of the first n indices |
| `BosCoster.FirstPartExactly` | src/ed25519-donna/ed25519-donna-batchverify.h:161-162 | the heap is first built with the odd number of scalars from half the count to one and a half more |
| `BosCoster.SumStep` | src/ed25519-donna/ed25519-donna-batchverify.h:182-183 | a step leaves the sum of all [scalar]point unchanged |
| `BosCoster.DivisorsStep` | src/ed25519-donna/ed25519-donna-batchverify.h:182 | a step leaves the common divisors of the scalars unchanged |
| `BosCoster.Subtract` | src/ed25519-donna/ed25519-donna-batchverify.h:182-184 | exactly one scalar and one point change, and the heap is in order again, although only the limbs up to limbsize are subtracted and compared |
| `BosCoster.StepTakes` | src/ed25519-donna/ed25519-donna-batchverify.h:182 | a step takes at most half of the largest scalar |
| `BosCoster.Narrow` | src/ed25519-donna/ed25519-donna-batchverify.h:171-173 | the limb size is reduced only as far as all scalars fit, those of 128 bits that are still to come included |
| `BosCoster.LeftEarly` | src/ed25519-donna/ed25519-donna-batchverify.h:168-169 | leaving the loop before the heap is extended means that the first part does not reach the rest |
| `BosCoster.TakenIn` | src/ed25519-donna/ed25519-donna-batchverify.h:176-180 | extending the heap means that it does |
| `BosCoster.Reduce` | src/ed25519-donna/ed25519-donna-batchverify.h:151-185 | the loop ends for every count from 5. It takes in all scalars exactly when two of the first part are not zero and no number of more than 128 bits divides them all. For an odd count the scalar left is the greatest common divisor of those taken in, and its term is their sum. For an even count the term in the last position of the heap at the extension is left as it stood there, and the other scalar is the greatest common divisor of the rest |
| `MultiScalar.LeadingBit` | src/ed25519-donna/ed25519-donna-batchverify.h:126-133 | the leading bit of the low 224 bits, since limb 4 is never read; none when they are all zero and the index runs below 0 |
| `MultiScalar.DoubleAndAdd` | src/ed25519-donna/ed25519-donna-batchverify.h:135-147 | from the leading bit k, [s mod 2^224 + 2^(k+1)]P |
| `MultiScalar.Final` | src/ed25519-donna/ed25519-donna-batchverify.h:105-147 | [s]P for the scalars 0 and 1; otherwise [s mod 2^224 + 2^len]P, with len the length of the low 224 bits, or nothing when they are all zero and the index leaves the limbs; on a point of order m and s below m the result is [s]P exactly when s <= 1 or s / 2^223 = 3 |
| `MultiScalar.FinalExact` | src/ed25519-donna/ed25519-donna-batchverify.h:124-147 | on a point of order m and s below m the general branch gives [s]P exactly when s / 2^223 = 3 |
| `MultiScalar.Compute` | src/ed25519-donna/ed25519-donna-batchverify.h:150-188 | the whole routine: the sum of the terms taken in is [d]q plus the term left out, and the result is what the last step makes of d and q. For d <= 1 that is the sum exactly when the term left out is neutral. For an odd count nothing is left out, d is the greatest common divisor, and on a q of order m the result is right exactly when d <= 1 or d / 2^223 = 3. For every even count from 6 there is a failing input: with all scalars 1 the result is the sum of all points but the last |
| `MultiScalar.LastLeftOut` | src/ed25519-donna/ed25519-donna-batchverify.h:51-77 | for an even count and 128-bit scalars in heap order, the term left out is the last one and the others give the result |
| `Sha512.FoldConcat` | src/ed25519-donna/ed25519-hash.h:90-106 | compressing whole blocks and then more equals compressing the concatenation |
| `Sha512.LengthField` | src/ed25519-donna/ed25519-hash.h:166-168 | the last 16 bytes of a padded message are its length in bits |
| `Sha512.InitialWords` | src/ed25519-donna/ed25519-hash.h:108-121 | the initial words are the first 64 bits of the fractional parts of the square roots of the first eight primes |
| `Sha512.PaddedExactly` | src/ed25519-donna/ed25519-hash.h:153-169 | the padded message is the only string of section 5.1.2 of FIPS 180-4: the message, 0x80, the fewest zeros that fill blocks, and the length in bits |
| `Sha512.RunFold` | src/ed25519-donna/ed25519-hash.h:90-106 | the chaining words after the last block are those of any run that compresses block after block |
| `Sha512.HashExactly` | src/ed25519-donna/ed25519-hash.h:108-178 | the hash encodes, most significant byte first, the eight words of such a run over the padded message |
| `Sha512.PaddingInjective` | src/ed25519-donna/ed25519-hash.h:153-169 | no two messages of fewer than 2^128 bits are padded to the same blocks |
| `Sha512.Store64Be` | src/ed25519-donna/ed25519-hash.h:58-69 | the eight bytes of the word, most significant first |
| `Sha512.Count` | src/ed25519-donna/ed25519-hash.h:101-102 | the two counter words hold the bits of all blocks modulo 2^128; the carry between them is never lost |
| `Sha512.Hasher.constructor` | src/ed25519-donna/ed25519-hash.h:108-121 | an empty message |
| `Sha512.Hasher.Blocks` | src/ed25519-donna/ed25519-hash.h:90-106 | the chaining words and the counter stand after n more blocks |
| `Sha512.Hasher.TopUp` | src/ed25519-donna/ed25519-hash.h:128-139 | a block begun before is completed, or the input only buffered |
| `Sha512.Hasher.Update` | src/ed25519-donna/ed25519-hash.h:123-151 | whatever was hashed before, the state becomes that of the message with the input appended |
| `Sha512.Hasher.AppendZeros` | src/ed25519-donna/ed25519-hash.h:157-164 | the padding up to the length field, in one block or two |
| `Sha512.Hasher.BitLength` | src/ed25519-donna/ed25519-hash.h:155 | the two words of the length in bits; the sum does not wrap |
| `Sha512.Hasher.Final` | src/ed25519-donna/ed25519-hash.h:153-178 | the hash of the whole message with the padding of section 5.1.2 of FIPS 180-4 |
| `Sha512.HashThree` | src/ed25519-donna/ed25519-hash.h:108-178 | three updates give the hash of the concatenation |
| `Ed25519.ClampedScalar` | src/ed25519-donna/ed25519.c:26-32 | clamping keeps bits 3 to 253, clears bits 0 to 2 and 255 and sets bit 254 of the first half, and leaves the second half alone; so a multiple of 8 with its highest bit at 254 |
| `Ed25519.ExtendKey` | src/ed25519-donna/ed25519.c:26-32 | the hash of the secret key, clamped: the value of its first half from that of the hash, and the second half as it was |
| `Ed25519.SchemeExact` | src/ed25519-donna/ed25519.c:26-86 | public keys and signatures from the hash alone, as sections 5.1.5 and 5.1.6 of RFC 8032 have it |
| `Ed25519.BaseMultiple` | src/ed25519-donna/ed25519.c:52-54 | the multiple of the base point by the bytes read as a number |
| `Ed25519.MakePublicKey` | src/ed25519-donna/ed25519.c:44-55 | the encoding of [a]B |
| `Ed25519.Commit` | src/ed25519-donna/ed25519.c:68-77 | R encodes [r]B, and r is the nonce modulo the group order |
| `Ed25519.Combine` | src/ed25519-donna/ed25519.c:80-88 | (r + k*a) mod m from the byte strings of k and a and the reduced r |
| `Ed25519.Sign` | src/ed25519-donna/ed25519.c:58-91 | R and S are those of section 5.1.6 of RFC 8032 |
| `Ed25519.Verify` | src/ed25519-donna/ed25519-donna.h:66-72 | 1 for equal strings and 0 for others, from the gathered different bits |
| `Ed25519.SignOpen` | src/ed25519-donna/ed25519.c:93-116 | 0 exactly when S is below 2^253, the key decodes, and R encodes [S]B - [H(R,A,m)]A; otherwise -1 |
| `Ed25519.PackInjective` | src/ed25519-donna/ed25519-donna-impl-base.h:179-189 | points with equal encodings are equal, since the negative can be read back |
| `Ed25519.OpenExact` | src/ed25519-donna/ed25519.c:93-116 | for a key from a secret and an R from any r, the accepted S are exactly those below 2^253 that agree with r + H(R,A,m)a modulo the group order |
| `Ed25519.Completeness` | src/ed25519-donna/ed25519.c:44-116 | every signature made with a secret key is accepted under its public key |
| `ResidueCurve.AssumptionsMet` | src/ed25519-donna/ed25519.c:26-116 | the assumptions of the signature results can be met: the integers modulo eight times the group order with their encodings meet them |
| `BatchVerify.FillScalars` | src/ed25519-donna/ed25519-donna-batchverify.h:219-238 | the scalars r1*S1 + r2*S2 + ..., ri*H(Ri, Ai, mi) and ri, modulo the group order |
| `BatchVerify.FillPoints` | src/ed25519-donna/ed25519-donna-batchverify.h:240-247 | the base point, all -Ai and all -Ri, or failure when one of them does not decode |
| `BatchVerify.AcceptedBalanced` | src/ed25519-donna/ed25519-donna-batchverify.h:217-250 | a signature that sign_open accepts has [S]B + [H(R, A, m)](-A) + (-R) neutral |
| `BatchVerify.BatchSum` | src/ed25519-donna/ed25519-donna-batchverify.h:217-250 | for all random numbers: the terms of a batch of accepted signatures add to the neutral point exactly when nothing is lost in the reductions modulo the group order |
| `BatchVerify.NothingLost` | src/ed25519-donna/ed25519-donna-batchverify.h:232-238 | nothing is lost when for every signature the order of the key divides the group order or the product is below it |
| `BatchVerify.LostNever` | src/ed25519-donna/ed25519-donna-batchverify.h:232-238 | nothing is lost for all random numbers exactly when for each signature [m](-A) is neutral or H(R, A, m) * (2^128 - 1) is below m |
| `BatchVerify.MadeKeys` | src/ed25519-donna/ed25519-donna-batchverify.h:232-238 | the order of a key made by publickey divides the group order |
| `ResidueCurve.AcceptedButLost` | src/ed25519-donna/ed25519-donna-batchverify.h:232-250 | an input on which something is lost: four accepted signatures under a key outside the subgroup of the base point, with random numbers 2, 1, 1 and 1 |
| `ResidueCurve.AcceptedButFailed` | src/ed25519-donna/ed25519-donna-batchverify.h:204-274 | on that input, with a hash that is the padded hash of a compression function, the result is 2, although every signature is accepted and answered 1 |
| `BatchVerify.Batch` | src/ed25519-donna/ed25519-donna-batchverify.h:217-251 | a point does not decode, or the scalars and points are those of the batch, the terms covered add to [d]q with d the greatest common divisor of their scalars, and the test tells whether what the last step makes of d and q is neutral |
| `BatchVerify.BatchPasses` | src/ed25519-donna/ed25519-donna-batchverify.h:217-251 | where all terms are covered and d is at most 1, a batch of accepted signatures passes exactly when nothing is lost |
| `BatchVerify.AcceptedDecodes` | src/ed25519-donna/ed25519-donna-batchverify.h:240-247 | an accepted signature never sends a batch to the fallback for a point that does not decode |
| `BatchVerify.OpenBatch` | src/ed25519-donna/ed25519-donna-batchverify.h:204-274 | there is a batch at every multiple of 64 with more than three items from there on, and each was multiplied out or has a point that does not decode; the answer is 1 exactly for the signatures that sign_open accepts and for all in a batch that passed; bit 0 of the result is set exactly when an answer is 0, and bit 1 exactly when a batch did not pass |
| `BatchVerify.OutcomesExactly` | src/ed25519-donna/ed25519-donna-batchverify.h:204-274 | the batches start at the multiples of 64 with more than three items from there on and have up to 64; each was multiplied out, or a point in it does not decode |
| `BatchVerify.LastSingly` | src/ed25519-donna/ed25519-donna-batchverify.h:268-271 | where at most three items are left from a multiple of 64 on, the answer is that of sign_open |
| `BatchVerify.FewSingly` | src/ed25519-donna/ed25519-donna-batchverify.h:204-274 | so for up to three items the result is 0 exactly when sign_open accepts all of them, and otherwise 1 |
| `BatchVerify.AllPass` | src/ed25519-donna/ed25519-donna-batchverify.h:204-274 | if every signature is accepted under a key whose order divides the group order, and in every batch all terms are covered and the scalars have no common divisor, every batch passes and the result is 0 |
| `BatchVerify.SignedPass` | src/ed25519-donna/ed25519-donna-batchverify.h:204-274 | so for signatures made by sign under keys made by publickey: the result is 0 and every answer 1 |
| `DisputedTx.DisputedTx.constructor` | src/bixd/consensus/DisputedTx.h:63-71 | no votes, counted as such |
| `DisputedTx.DisputedTx.SetVote` | src/bixd/consensus/DisputedTx.h:143-180 | the incremental counts equal a full recount of the votes with the vote put |
| `DisputedTx.DisputedTx.UnVote` | src/bixd/consensus/DisputedTx.h:182-198 | the same with the vote removed |
| `DisputedTx.DisputedTx.UpdateVote` | src/bixd/consensus/DisputedTx.h:200-253 | our vote after the thresholds of the round, and whether it changed; the votes of the peers stay |
| `DisputedTx.NextExactly` | src/bixd/consensus/DisputedTx.h:200-253 | from the votes alone: the vote stays where nobody is against us; else an observer votes yes exactly with strictly more peers for than against, and a proposer exactly with more than 50, 65, 70 or 95 percent of all voters, itself included |
| `DisputedTx.StaysNo` | src/bixd/consensus/DisputedTx.h:200-253 | a no that a threshold forces is kept at every threshold that is not lower |
| `DisputedTx.Settles` | src/bixd/consensus/DisputedTx.h:200-253 | with unchanged peer votes and thresholds that never fall our vote changes at most twice, and a change from yes to no is final |
| `DisputedTx.RisingTimes` | src/bixd/consensus/ConsensusParms.h:115-134 | the thresholds never fall while the percentage, as an unsigned number, does not |
| `DisputedTx.Oscillates` | src/bixd/consensus/DisputedTx.h:200-253 | where the threshold falls there is a dispute, with true counts of 99 votes, on which we change to no and back |
| `DisputedTx.SettlesExactly` | src/bixd/consensus/DisputedTx.h:200-253 | a no is final for every dispute with true counts exactly when the threshold never falls |
| `DisputedTx.NegativePercentage` | src/bixd/consensus/DisputedTx.h:200-253 | a percentage of -1 followed by one of 0 takes our vote from yes to no and back |
| `Disputes.OpenDispute` | src/bixd/consensus/Consensus.h:1650-1663 | a new dispute has the true vote of every peer whose set is known, and no others |
| `Disputes.AddDisputes` | src/bixd/consensus/Consensus.h:1630-1667 | exactly the transactions in one set only are added, and open disputes do not change |
| `Disputes.CreateDisputes` | src/bixd/consensus/Consensus.h:1614-1669 | the same once per set; every difference with that set is then in dispute |
| `Disputes.UpdateDisputes` | src/bixd/consensus/Consensus.h:1671-1688 | the peer is settled with its set, and everything kept before is kept |
| `Disputes.RecordArrival` | src/bixd/consensus/Consensus.h:862-871 | when a set arrives all peers that propose it are settled |
| `Disputes.FirstDisputes` | src/bixd/consensus/Consensus.h:1320-1331 | after closing, every peer with a known set is settled |
| `Disputes.UnVoteAll` | src/bixd/consensus/Consensus.h:1377-1378 | the votes of a peer are removed from every dispute |
| `Disputes.KeptLeave` | src/bixd/consensus/Consensus.h:758-771 | a peer that leaves takes its votes with it, and the rest is kept |
| `Disputes.UpdateVotes` | src/bixd/consensus/Consensus.h:1394-1423 | our votes and our set change together, and a change is reported exactly when the set changes |
| `Disputes.KeptRevote` | src/bixd/consensus/Consensus.h:1394-1423 | after that every dispute still holds our vote, and sets compared earlier still differ from ours only on disputes |
| `Disputes.NewSetExactly` | src/bixd/consensus/Consensus.h:1392-1424 | once the sets of all peers are known, every transaction, disputed or not, is in our new set exactly by these shares of the sets of the peers |
| `Disputes.Converged` | src/bixd/consensus/Consensus.h:1614-1688 | when the sets of all peers are known, nobody votes against us on any dispute exactly when every peer proposes our set |
| `Consensus.Consensus.constructor` | src/bixd/consensus/Consensus.h:603-610 | a valid state without a round |
| `Consensus.Consensus.GotTxSet` | src/bixd/consensus/Consensus.h:834-878 | the set is known, our stance stays, and all bookkeeping is kept; the arrived set is never our own position |
| `Consensus.Consensus.PeerProposalInternal` | src/bixd/consensus/Consensus.h:716-809 | which proposals are taken, what they do to positions, dead nodes and close times, that our stance stays and that all bookkeeping is kept |
| `Consensus.Consensus.PeerProposal` | src/bixd/consensus/Consensus.h:695-714 | the ten latest proposals of each peer, in order |
| `Consensus.Consensus.PlaybackProposals` | src/bixd/consensus/Consensus.h:1070-1085 | every recent proposal for the ledger is considered: its peer is at that position or a later one, or has bowed out; every new position is a recent proposal; our stance stays and the bookkeeping is kept |
| `Consensus.Consensus.StartRoundInternal` | src/bixd/consensus/Consensus.h:659-693 | an open phase without a result on the given ledger, with the recent proposals played back, from which all positions come |
| `Consensus.Consensus.StartRound` | src/bixd/consensus/Consensus.h:613-657 | the round is on the ledger asked for, or in wrong-ledger mode; proposals of untrusted nodes are forgotten |
| `Consensus.Consensus.LeaveConsensus` | src/bixd/consensus/Consensus.h:1595-1610 | no longer proposing, and a position taken is bowed out |
| `Consensus.Consensus.HandleWrongLedger` | src/bixd/consensus/Consensus.h:1002-1045 | the network ledger is followed, proposing ends with a position that bows out, and the disputes are rebuilt for the new positions; a ledger that is found opens a new round |
| `Consensus.Consensus.CheckLedger` | src/bixd/consensus/Consensus.h:1047-1068 | after it an unfinished round is for the ledger of the network, of which we have the contents or know that we do not; on the right ledger nothing changes |
| `Consensus.Consensus.CloseLedger` | src/bixd/consensus/Consensus.h:1301-1331 | from open without a result to establish with consistent disputes and the state No |
| `Consensus.Consensus.RemoveStale` | src/bixd/consensus/Consensus.h:1365-1388 | stale peers are gone with their votes, and the votes on close times count the others |
| `Consensus.Consensus.VoteOnCloseTime` | src/bixd/consensus/Consensus.h:1426-1482 | the close time and the consensus flag follow from the ballots of the participants |
| `Consensus.Consensus.UpdateOurPositions` | src/bixd/consensus/Consensus.h:1353-1535 | once stale peers are gone: the close time and the consensus flag the ballots give; our set as our new votes give it; a new proposal exactly when the set or the close time changed or the old one is stale, with that set and time; the set is known |
| `Consensus.NewProposalExactly` | src/bixd/consensus/ConsensusProposal.h:154-177 | with a changed set or time or after 12 seconds the proposal has the next sequence number, the time of now, and the same node and ledger; bowed out stays bowed out |
| `Consensus.NewProposalAdmitted` | src/bixd/consensus/Consensus.h:718-758 | a node that heard our old proposal takes the new one exactly when there is a new one and we have not bowed out |
| `Consensus.ElectedExactly` | src/bixd/consensus/Consensus.h:1426-1482 | the close time from the ballots: enough at the percentage of the moment, the latest of those with the most, and consensus exactly when enough at 75 percent |
| `Consensus.Consensus.HaveConsensus` | src/bixd/consensus/Consensus.h:1537-1592 | the state follows from the number of peers at our position |
| `Consensus.StateOfExactly` | src/bixd/consensus/Consensus.h:1537-1592 | the state of the round in shares of the peers at our set |
| `Consensus.Consensus.PhaseEstablish` | src/bixd/consensus/Consensus.h:1254-1299 | the percentage of the former round; before 1.95 seconds nothing more; then our set, proposal and close time are updated, and the round is accepted exactly when, without a pause, checkConsensus of the peers at our set does not say no and the ballots give consensus on the close time |
| `Consensus.Consensus.Phase` | src/bixd/consensus/Consensus.h:811-831 | the phases change only from open to establish to accepted; open becomes establish when the ledger closes, and in establish the step is that of phaseEstablish |
| `Consensus.Consensus.ForceAccept` | src/bixd/consensus/Consensus.h:880-902 | simulate, from an open phase, accepts with the state No, which PhaseEstablish never does, and with the given round time |
| `Consensus.Consensus.Step` | src/bixd/consensus/Consensus.h:613-1688 | what each event does to phase, ledger, sets and recent proposals; from the establish phase a step accepts exactly on consensus about set and close time |
| `Consensus.Consensus.Run` | src/bixd/consensus/Consensus.h:613-1688 | every run of calls, with answers of the adaptor that are arbitrary but for the lines under Left out, ends in a valid state: phase and result fit, our position is our set and known, current and dead peers are disjoint, current positions are for this ledger and not bowed out, and the disputes match our set, the peers and the compared sets |
| `Consensus.PeersAgree` | src/bixd/consensus/Consensus.h:1614-1688 | in every such state with all sets known, unanimous disputes mean that every peer proposes our set, and conversely |
| `Consensus.AgreeOnCloseTime` | src/bixd/consensus/Consensus.h:1426-1482 | without peers our own time; otherwise the latest of the times with the most votes, if enough |
| `Consensus.NewPosition` | src/bixd/consensus/Consensus.h:1484-1535 | our proposal changes exactly when our set or the close time changed or it is stale, and to what |
| `Thresholds.ReachedExactly` | src/bixd/consensus/Consensus.cpp:85-105 | the rounded percentage meets the threshold exactly when the agreeing share does, or when there is nobody else |
| `Thresholds.StateExactly` | src/bixd/consensus/Consensus.cpp:107-160 | the outcome in terms of shares: enough proposers or time, then four fifths at our position, or four fifths finished |
| `Thresholds.CountAgreement` | src/bixd/consensus/Consensus.h:1545-1562 | the number of peers at our position, and of the others |
| `Thresholds.DeclaredShare` | src/bixd/consensus/Consensus.cpp:107-160 | at most a fifth of the participants of a node that declares consensus are elsewhere |
| `Thresholds.Agreement` | src/bixd/consensus/Consensus.cpp:85-160 | on one snapshot two nodes whose views overlap in more than a fifth of their sizes together cannot declare consensus on different positions |
| `Thresholds.OverlapTight` | src/bixd/consensus/Consensus.cpp:85-160 | at exactly a fifth they can |
| `CloseTime.Nearest` | src/bixd/consensus/LedgerTiming.h:127-139 | the nearest multiple, upwards from midway |
| `CloseTime.RoundTwice` | src/bixd/consensus/LedgerTiming.h:127-139 | rounding again changes nothing |
| `CloseTime.CountsAdd` | src/bixd/consensus/Consensus.h:1384 | a vote on a time is counted for that time only |
| `CloseTime.SumAll` | src/bixd/consensus/Consensus.h:1365-1388 | the votes sum to the number of participants |
| `CloseTime.Choose` | src/bixd/consensus/Consensus.h:1465-1482 | the latest of the times with the most votes, exactly when they meet the vote threshold, and consensus exactly when they meet both |
| `CloseTime.NeededExactly` | src/bixd/consensus/Consensus.h:1345-1351 | v votes are enough exactly when there is one and 100(v + 1) is above the percentage of the participants and half the percentage |
| `CloseTime.ChosenExactly` | src/bixd/consensus/Consensus.h:1447-1482 | the choice of the loop in terms of the sizes of the groups of equal ballots |
| `CloseTime.OnlyOne` | src/bixd/consensus/Consensus.h:1345-1351 | with any number of participants but two at most one time can have three quarters |
| `CloseTime.TwoParticipants` | src/bixd/consensus/Consensus.h:1345-1351 | with two participants two times can |
| `TaggedCache.TaggedCache.Clear` | src/bixd/basics/TaggedCache.h:150-156 | no entries |
| `TaggedCache.TaggedCache.Reset` | src/bixd/basics/TaggedCache.h:158-166 | no entries, hits or misses |
| `TaggedCache.TaggedCache.Sweep` | src/bixd/basics/TaggedCache.h:168-262 | afterwards every entry is for an object that a client, a strong entry or a sweep refers to, and expired entries that had the only reference are gone; other expired ones are weak or erased, fresh ones stay; weak entries are erased only for dead objects, and strong ones only without a client or a former sweep that refers to their object; no object dies before the references the sweep collected are let go, and the count is right |
| `TaggedCache.StaysExactly` | src/bixd/basics/TaggedCache.h:180-205 | a strong entry is fresh exactly below the target age, which shrinks with a cache above its target size, but not below a second |
| `TaggedCache.LockExactly` | src/bixd/basics/TaggedCache.h:585-594 | a weak pointer locks exactly while a client, a strong entry or a sweep that has not let go refers to its object |
| `TaggedCache.TaggedCache.Demote` | src/bixd/basics/TaggedCache.h:226-243 | an expired entry is erased exactly when nobody else has its object, whose reference is then kept for later, and otherwise weak |
| `TaggedCache.TaggedCache.Del` | src/bixd/basics/TaggedCache.h:264-291 | the entry stays, as a weak one, exactly when it is valid and somebody else refers to its object |
| `TaggedCache.TaggedCache.Canonicalize` | src/bixd/basics/TaggedCache.h:306-374 | true exactly for a key whose object somebody refers to; the entry and the caller end up with the same object; the count stays right exactly when the caller brought an object or gets one |
| `TaggedCache.TaggedCache.Fetch` | src/bixd/basics/TaggedCache.h:391-426 | gives the object of the key exactly while a client, a strong entry or a sweep refers to it, and makes it strong again; otherwise nothing, and the entry is gone |
| `TaggedCache.TaggedCache.Insert` | src/bixd/basics/TaggedCache.h:432-437 | a new object is stored unless somebody refers to the object of the key; true when somebody does |
| `TaggedCache.TaggedCache.RefreshIfPresent` | src/bixd/basics/TaggedCache.h:462-502 | true exactly for a key whose object somebody refers to, which is strong afterwards |
| `TaggedCache.TaggedCache.Perform` | src/bixd/basics/TaggedCache.h:150-502 | a call leaves the key bound to the object a client holds exactly unless it clears or resets the cache, deletes the key as invalid, or replaces its object by another one; fetch and canonicalize_replace_client of the key give that object, also to its only holder |
| `TaggedCache.TaggedCache.Run` | src/bixd/basics/TaggedCache.h:150-502 | after any number of such calls a fetch of the key gives the same object |

## Left out

- BosCoster.Reduce: scalars are numbers, compared and subtracted as `BatchLimbs.LtBatch` and `BatchLimbs.SubBatch`
  are proved to do on limbs; that those behind the first part have 128 bits is required, as `BatchVerify.Batch`
  meets it.
- MultiScalar.Compute: for d above 1 the result is compared with the sum only for a remaining point of order m,
  since on other points a wrong multiple can be the right point.
- Chains.ChainReads: that the law is complete and the addition of a group is a premise here, and so is, in
  `BaseMult.BaseReads` and `JointMult.JointReads`, that the tables hold multiples of the base point.
- BatchVerify.OpenBatch: the batches are parts of one sequence instead of advancing pointers, scalars are numbers as
  in `BosCoster.Reduce`, and the test for the neutral point is equality in the group and may give anything where
  `MultiScalar.Final` leaves the limbs. That a batch with a signature that is not accepted passes only rarely is a
  statement about random scalars and is not made.
- CurveLaw.AffineSum: that the denominators of the affine formula always have inverses (the law is complete) rests
  on the primality of p and on d not being a square, which are not proved.
- Disputes.UpdateDisputes: disputes are values in a map, changed by the functions that the methods of the class
  `DisputedTx` are proved to compute; they are not objects shared by reference.
- Edwards.Add: limb vectors are values in the point formulas, so that the overwriting of one temporary by another is
  not modelled; `Field25519.FMul` covers a result that is also an operand.
- Consensus.Consensus.StartRoundInternal: the nested call of timerEntry is a step of its own, since its depth
  depends on the adaptor; the next close time resolution is an argument.
- Consensus.Consensus.Phase: whether to close an open ledger and whether to pause are arguments (shouldCloseLedger
  and the floating-point shouldPause).
- Consensus.Consensus.Run: times, percentages and counts are unbounded integers; journal, JSON, sharing and
  proposing over the network are not modelled.
- Consensus.Consensus.CloseLedger: transaction sets are their own identifiers, which takes their hashes to be
  injective and compare() to be exact, and the first position the adaptor gives is its first set.
- Consensus.Consensus.StartRound: a ledger that acquireLedger gives has the id asked for, and so in
  handleWrongLedger.
- Consensus.Consensus.PeerProposalInternal: a set that acquireTxSet gives is the set asked for.
- Sha512.Hasher.Blocks: the compression function itself (message schedule and rounds of section 6.4.2 of FIPS 180-4)
  is a parameter.
- Ed25519.SignOpen: that the curve is a group with a base point of prime order, that packing can be undone, and that
  the constant tables hold the multiples of the base point, are assumptions on the parameter `Curve`; square roots,
  decompression and Fermat's little theorem are not modelled.
- ScalarMult.Choose: an entry of the base table is a point here; `BaseMult.ChooseEntry` and `NielsTable.ChooseNiels`
  model the packed rows, the masked moves and the swaps.
- TaggedCache.TaggedCache.Sweep: the target size is not negative; hash table sizes, statistics and the mutex are not
  modelled, each operation being one step.
- curved25519_scalarmult_basepoint and expand_raw256_modm: they would only add members like the ones modelled.
- The 32-bit and SSE2 variants, inline assembly, random bytes, and the tests of ed25519-donna.
- getNextLedgerTimeResolution and effCloseTime: easy functions of their arguments.
- LedgerTrie, Validations and all of the repository outside the three directories named above.
