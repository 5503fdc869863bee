# A model of the nick vanity-address search

`nick` looks for a signature whose recovered account deploys its first contract to an address with a
wanted prefix and suffix. With r fixed and s = sBase + k, the recovered key is Q_base + k·D, so a GPU
thread only has to add points, hash and compare. This project models the arithmetic that this rests on and
proves that the fast forms compute what the slow definitions say:

- `Words`, `Field`, `FieldMul`, `FieldInverse`: 64-bit carry chains, 256-bit Comba multiplication and
  squaring, reduction modulo p = 2^256 − 0x1000003D1, inversion by exponentiation. The routines write into
  arrays of limbs, and no contract asks the result to differ from the operands. The multiplication is
  proved for the device intrinsics and for the software high word of the Metal kernel.
- `NumberTheory`: congruences, Euclid's lemma and Fermat's theorem, derived from primality.
- `Curve`, `Group`, `Order`: the chord-and-tangent law of SEC 1 version 2, section 2.2.1, as a definition;
  closure, the neutral element, inverses, commutativity and scalar multiples proved about it.
- `JacobianAlgebra`, `Jacobian`: in-place doubling, mixed addition and conversion refine that law.
- `Wire`, `Comb`, `CombHost`, `HostPrecompute`: wire bytes, the comb table, point decompression, and the
  linear form of public-key recovery (SEC 1 version 2, section 4.1.6).
- `Batch`, `Run`, `Search`: a run of N candidates that shares one inversion, from the table bytes to the
  claimed nonce and address, for every run length from 1 to 256 (the builds use 64 and 256).
- `KeccakSpec`, `Keccak`, `KeccakHost`, `Interleave`, `RotationCases`, `KeccakSplit`, `Sponge`, `KernelHash`: the
  four forms of Keccak-f and the two sponges.
- `Fips202`: the same permutation and hash read off FIPS 202 bit by bit (sections 3.2.1 to 3.2.5, 4 and 5.1), with
  proofs that the lanes and bytes of the other modules have exactly these bits.
- `Address`, `Create2`: the deployment address and the CREATE2 counter search (EIP-1014).
- `Race`, `Sweep`: threads that race for the result slots, as a state machine over every interleaving, and
  the nonce ranges that the host steps through.
- `Kernel`, `Device`, `Launches`: all of it together. The threads of a launch are the runs on the bytes in
  device memory; a launch, a call over several devices and the whole GPU run find exactly the signatures of
  their span.

Three facts about secp256k1 are hypotheses, collected in `Order.Secp256k1`: p and n are prime, point
addition is associative, and n times every curve point is the point at infinity. Lemmas that need less ask
for less. Everything else about the curve, including that no multiple k·D with 0 < k < 2^64 is the point at
infinity and that no point has x = 0 or y = 0, is derived. The generator G is a parameter: only that it lies on
the curve matters.

The Go routines `feGE` to `refPubForK` in `miner/secp_ref_test.go` take the same steps as the kernel, limb
by limb, so the theorems about the kernel speak about them as well.

`dafny verify dfyconfig.toml` checks the project. The proofs are for the solver settings that
`--warn-contradictory-assumptions` brings, which `dfyconfig.toml` turns on.

Where the code and its comments differ, the model follows the code. Three differences show up as exact
conditions. A run is documented as computing Q_base + (base + i)·D for every slot; `Batch.SlotIsCandidate`
says for which slots it does, and `Batch.CollidingRun` gives inputs where it does not. `nick_mine_run` goes
on from (0, 0) when its first point is the point at infinity, in which case no slot of the run is right;
`Batch.InfiniteRun` gives inputs for that. The nonce that a slot reports is base + i modulo 2^64 while the
point moves on; `Run.NonceIsCandidate` says when the two agree.

A nonce that the host assigns to a thread need not be tried: a thread that finds the flag set leaves at once
(`Race.EarlyExit`, `Race.EarlyExitHappens`). What the sweep theorems say is that every nonce is assigned, and that where the flags
stay unset every one of them was tried. On the Metal kernel the compare-and-swap is weak and may fail for no
reason; `Race.FlagIsRight` says exactly when the flag is right all the same.

In the theorems of `Launches` a hit is a nonce whose signature deploys to a matching address. It is safe where
the run that holds it is clean, that is, where Q_base avoids 2N − 1 multiples of D, and does not pass 2^64
before it. Nothing is asked of other runs.

## Model

| member | source | states |
|---|---|---|
| `Words.Addc` | miner/kernel/nick_lib.cl:53-60 | no carry is lost: sum and carry out together are a + b + carry, for any carry word |
| `Words.Subb` | miner/kernel/nick_lib.cl:63-70 | no borrow is lost: difference and borrow out together are a − b − borrow |
| `Words.MulHi` | miner/kernel/nick_lib.cl:18-27 | with the low word it makes up the exact 128-bit product, and it is at most 2^64 − 2 |
| `Words.HighFromHalves` | miner/kernel/nick.metal:31-40 | the four half products of the software high word add up to floor(a·b / 2^64) |
| `Words.NothingWraps` | miner/kernel/nick.metal:31-40 | no 64-bit operation of the software high word overflows: each half product, the middle sum and the final sum are the exact numbers |
| `Words.MulHi64` | miner/kernel/nick.metal:31-40 | the software high word equals the hardware one |
| `Words.HighHalf` | miner/kernel/nick.metal:11-40 | whichever way a build computes it, the high word is the same; every routine from `FieldMul.MulScalar5` to `FieldMul.FeSqr` runs on it for every build under one contract |
| `Words.OrOfDisjointBits` | miner/kernel/nick_lib.cl:316-322 | OR-ing in a number shifted past all the bits of a word adds it |
| `Field.AddLimbs` | miner/kernel/nick_lib.cl:106-113 | four limbs and the carry out are the exact 257-bit sum, also when r is a or b |
| `Field.SubLimbs` | miner/kernel/nick_lib.cl:116-122 | four limbs and the borrow are the exact difference, also when r is a or b |
| `Field.FeGeP` | miner/kernel/nick_lib.cl:76-81 | the limb-by-limb comparison decides value >= p |
| `Field.FeCondSubP` | miner/kernel/nick_lib.cl:83-91 | the subtraction loop runs once when the value is at least p and else not at all, and leaves the value modulo p in [0, p) |
| `Field.FoldCarry` | miner/kernel/nick_lib.cl:94-104 | for every carry word the fold runs not at all, once or twice, exactly as the carry is 0, the sum with carry·C mod 2^64 stays below 2^256 or passes it; the result is that sum, minus p when it passes 2^256 |
| `Field.FoldIsRight` | miner/kernel/nick_lib.cl:93-104 | the fold stands for carry·2^256 modulo p if and only if carry·C fits 64 bits |
| `Field.FeAdd` | miner/kernel/nick_lib.cl:106-114 | (a + b) mod p, canonical, for all 256-bit operands and any aliasing |
| `Field.SubCanonical` | miner/kernel/nick_lib.cl:116-130 | the single add-back of p gives the canonical difference if and only if the difference lies in [−p, p) |
| `Field.FeSub` | miner/kernel/nick_lib.cl:116-130 | for canonical operands (a − b) mod p in [0, p), with no second borrow; for all others, the exact value that comes out |
| `FieldMul.MulScalar5` | miner/kernel/nick_lib.cl:133-140 | four limbs times a word, exact in five words |
| `FieldMul.FoldUpper` | miner/kernel/nick_lib.cl:143-152 | the first fold is exact in five words and the fifth is at most C |
| `FieldMul.AddTop` | miner/kernel/nick_lib.cl:154-160 | the second fold adds m4·C exactly, with a carry of at most one |
| `FieldMul.FeReduce` | miner/kernel/nick_lib.cl:143-162 | every 512-bit value is brought to its residue in [0, p), with at most one fold of the carry and at most one subtraction of p |
| `FieldMul.Accumulate` | miner/kernel/nick_lib.cl:165-180 | adding a product to the three-word column accumulator loses nothing while the top word is small |
| `FieldMul.AddColumn` | miner/kernel/nick_lib.cl:168-180 | a column's accumulator holds the exact column sum and its top word stays at most 4 |
| `FieldMul.ColumnsAreProduct` | miner/kernel/nick_lib.cl:165-184 | the seven weighted columns are the product of the two operands |
| `FieldMul.SameLimbs` | miner/kernel/nick_lib.cl:165-182 | a number has one representation in n limbs |
| `FieldMul.MulLimbs` | miner/kernel/nick_lib.cl:165-182 | the eight limbs are the one representation of a·b for all inputs, so the words dropped at the end are zero |
| `FieldMul.FeMul` | miner/kernel/nick_lib.cl:165-184 | (a·b) mod p, canonical, any aliasing |
| `FieldMul.SquareColumnIsColumn` | miner/kernel/nick_lib.cl:188-212 | each column of the ten-product square equals the column of a times itself |
| `FieldMul.SqrLimbs` | miner/kernel/nick_lib.cl:188-210 | the ten-product squaring fills the eight limbs of a·a, and only these limbs have that value |
| `FieldMul.SquareBothWays` | miner/kernel/nick_lib.cl:164-212 | the squaring and the generic multiplication of a by itself fill the same eight limbs |
| `FieldMul.FeSqr` | miner/kernel/nick_lib.cl:188-212 | (a·a) mod p, canonical, any aliasing |
| `FieldInverse.RestStep` | miner/kernel/nick_lib.cl:215-228 | bit i of the exponent splits the exponent shifted right by i into that bit and twice the next shift |
| `FieldInverse.ExponentValue` | miner/kernel/nick_lib.cl:218-220 | the four exponent limbs denote p − 2 |
| `FieldInverse.PowerStep` | miner/kernel/nick_lib.cl:221-226 | square-and-multiply keeps acc·base^(e >> i) congruent to a^e |
| `FieldInverse.FeInv` | miner/kernel/nick_lib.cl:215-228 | a^(p−2) mod p, canonical, for every input |
| `NumberTheory.Fermat` | miner/kernel/nick_lib.cl:214-228 | a^(p−1) = 1 modulo a prime p for a nonzero modulo p |
| `NumberTheory.PowInverse` | miner/kernel/nick_lib.cl:214-228 | a^(p−2) is the inverse of a modulo a prime p |
| `Curve.SameX` | miner/kernel/nick_lib.cl:264-304 | two curve points with one x are equal or opposite, which is what the branches on H and R rely on |
| `Curve.SevenIsNoSquare` | miner/kernel/nick_lib.cl:549-557 | modulo a prime 4k + 3 for which −7 is a square, 7 is none |
| `Curve.NoZeroX` | miner/kernel/nick_lib.cl:549-557 | no point of the curve has x = 0, so no tangent is flat |
| `Curve.AddCloses` | miner/kernel/nick_lib.cl:233-304 | the chord-and-tangent sum of two curve points is a curve point |
| `Group.Commutes` | miner/kernel/nick_lib.cl:434-455 | the sum does not depend on the order of the points |
| `Group.TimesAdd` | miner/kernel/nick_lib.cl:434-455 | j·A + k·A = (j + k)·A |
| `Group.TimesTimes` | miner/precompute.go:138-160 | j·(k·A) = (j·k)·A |
| `Order.TimesIsInfinity` | miner/precompute.go:138-160 | a multiple of a proper point is infinity if and only if the scalar is a multiple of n |
| `Order.SmallMultiple` | miner/precompute.go:138-160 | nonzero 64-bit multiples of D are proper points, so table entries have coordinates |
| `JacobianAlgebra.MixedAddStands` | miner/kernel/nick_lib.cl:264-304 | modulo any m, the mixed-addition formulas give a triple of the mirrored third point of the chord |
| `JacobianAlgebra.DoubleStands` | miner/kernel/nick_lib.cl:233-261 | modulo any m, the doubling formulas give a triple of the mirrored third point of the tangent |
| `Jacobian.DifferencesDecide` | miner/kernel/nick_lib.cl:264-283 | H vanishes exactly when the affine x coordinates agree, and R then exactly when the points agree |
| `Jacobian.MixedAddRefines` | miner/kernel/nick_lib.cl:264-304 | the generic branch computes the affine sum for every representative of P |
| `Jacobian.DoubleRefines` | miner/kernel/nick_lib.cl:233-261 | the doubling branch computes the affine double for every representative of P |
| `Jacobian.JacobianEquation` | miner/kernel/nick_lib.cl:233-304 | a triple with Z nonzero stands for a curve point if and only if Y² = X³ + 7Z⁶ |
| `Jacobian.ResultOnCurve` | miner/kernel/nick_lib.cl:233-304 | a triple for the sum of two curve points is infinity or satisfies Y² = X³ + 7Z⁶ again |
| `Jacobian.DoubleXY` | miner/kernel/nick_lib.cl:246-257 | every operand of a subtraction is canonical, so X3 = E² − 2D and Y3 = E(D − X3) − 8C are exact modulo p |
| `Jacobian.MixedTerms` | miner/kernel/nick_lib.cl:270-277 | the same for H = U2 − X and R = S2 − Y |
| `Jacobian.MixedXY` | miner/kernel/nick_lib.cl:290-299 | the same for X3 = R² − J − 2V and Y3 = R(V − X3) − 2YJ |
| `Jacobian.PointDouble` | miner/kernel/nick_lib.cl:233-261 | r = 2p in all cases, canonical, also when r is p |
| `Jacobian.PointAddMixed` | miner/kernel/nick_lib.cl:264-304 | r = p + q in all branches (p infinite, p = q, p = −q, generic), canonical, also when r is p; and what comes out for an infinite p when y2 is r's X array, which the first copy overwrites |
| `Jacobian.JacToAffine` | miner/kernel/nick_lib.cl:306-313 | the canonical affine coordinates of every triple, and (0, 0) for the point at infinity; and what comes out when x is the triple's Y array |
| `Wire.BytesRoundTrip` | miner/precompute.go:210-225 | reading back the bytes of a number below 256^n gives the number |
| `Wire.NumberRoundTrip` | miner/precompute.go:210-225 | writing the number that bytes denote gives the bytes back |
| `Wire.ByteIntoWord` | miner/kernel/nick_lib.cl:316-322 | shifting byte j into place loses no bit, and OR-ing it into the bytes below adds it |
| `Wire.FeFromLe32` | miner/kernel/nick_lib.cl:316-322 | the four limbs hold the number that the 32 little-endian bytes denote |
| `Wire.FeToBe32` | miner/kernel/nick_lib.cl:325-330 | the 32 bytes are the big-endian digits of the element, and no other byte changes |
| `Wire.PutFE` | miner/precompute.go:210-216 | the 32 bytes are the little-endian digits of the number, and no other byte changes |
| `Wire.FeFromBytes` | miner/precompute.go:219-225 | the number that 32 little-endian bytes denote |
| `Comb.BelowStep` | miner/kernel/nick_lib.cl:439-441 | each window's digit extends the part of k already summed |
| `Comb.NickAccForK` | miner/kernel/nick_lib.cl:434-455 | for every 64-bit k, the sum over nonzero digits plus Q_base is Q_base + k·D |
| `CombHost.BuildDTable` | miner/precompute.go:138-160 | every entry of the comb table is written, and the 64 bytes at the start of each window, 16384 bytes apart, are zeros |
| `CombHost.EntryIs` | miner/precompute.go:138-160 | at 16384·w + 64·b lie the two little-endian coordinates of (b·2^(8w))·D |
| `CombHost.PubForKIs` | miner/precompute.go:164-170 | the host's key for k is Q_base + k·D |
| `CombHost.PubForKViaTable` | miner/precompute.go:174-194 | the sum over the table gives the same key as the scalar multiple, for every 64-bit k |
| `HostPrecompute.RootOfSquare` | miner/precompute.go:64-67 | for a prime p = 4e − 1 and a square a, a^e is a square root of a |
| `HostPrecompute.EvenRootUnique` | miner/precompute.go:76-79 | roots in [0, p) with the same parity are equal |
| `HostPrecompute.RootOf` | miner/precompute.go:59-74 | the root check passes if and only if x³ + 7 is a square, and then the candidate is a root |
| `HostPrecompute.RecoverRPoint` | miner/precompute.go:49-80 | succeeds exactly when the selected x is a field element with x³ + 7 a square; the error otherwise; the root has the parity of recid and, for even recid, is the only one |
| `HostPrecompute.NegatedScalar` | miner/precompute.go:108-111 | the scalar −m reduced modulo n gives the opposite of m·A |
| `HostPrecompute.RecoveredSplits` | miner/precompute.go:82-87 | r⁻¹(sR − zG) = u1·G + u2·R with the scalars reduced modulo n |
| `HostPrecompute.RecoveryIsLinear` | miner/precompute.go:82-123 | Q_base + k·D = r⁻¹(sR − zG) for s = sBase + k, for every z, r, sBase and k with s >= 0 |
| `HostPrecompute.NewPrecompute` | miner/precompute.go:88-135 | fails exactly on a bad hash length, r outside (0, n) or an r that is no x coordinate; else the struct holds Q_base, D and D's table, and every Q_base + k·D is the recovered key |
| `Batch.PartialZero` | miner/kernel/nick_lib.cl:511-522 | the prefix product of the deltas is canonical, and zero exactly when one of them is |
| `Batch.PeeledIs` | miner/kernel/nick_lib.cl:523-547 | the running inverse is the inverse of the product of the deltas not yet peeled, or 0 throughout |
| `Batch.BatchInverse` | miner/kernel/nick_lib.cl:511-547 | all deltas nonzero: every shared inverse is the inverse of its delta; any delta zero: every one of them is 0 |
| `Batch.Forward` | miner/kernel/nick_lib.cl:511-522 | pref[j] is the product of the deltas before j; only window 0 of the table is read |
| `Batch.AffineStep` | miner/kernel/nick_lib.cl:549-557 | one squaring and three multiplications give the mirrored third point of the line of slope (my − py)·invj |
| `Batch.CandidateStep` | miner/kernel/nick_lib.cl:485-493 | P0 plus the table's i·D is Q_base + (base + i)·D |
| `Batch.InfinityIsWrong` | miner/kernel/nick_lib.cl:500-504 | when P0 is the point at infinity no later slot holds its candidate |
| `Batch.FlatLine` | miner/kernel/nick_lib.cl:549-557 | the line through two curve points has slope 0 if and only if their x differ and their y agree |
| `Batch.SlotIsCandidate` | miner/kernel/nick_lib.cl:494-568 | slot i holds Q_base + (base + i)·D if and only if P0 is not infinity and i = 0, or no (j·D).x of the run equals P0.x, or i·D has another x than P0 and the same y |
| `Batch.CollidingRun` | miner/kernel/nick_lib.cl:494-568 | for every base and slot j >= 1 some Q_base makes the run fail there: the candidate is infinity, P0 collides with j·D, and slot j holds other coordinates |
| `Batch.InfiniteRun` | miner/kernel/nick_lib.cl:500-504 | for every base some Q_base makes the run start at infinity, and then no slot is right |
| `Batch.FailingInputs` | miner/kernel/nick_lib.cl:494-568 | the smallest instances: Q_base = −D fails at slot 1 both with base 0 and with base 1 |
| `Run.Claim` | miner/kernel/nick_lib.cl:561-565 | the compare-and-swap from 0 writes the address and the nonce, and a failed one writes nothing |
| `Run.TryCandidate` | miner/kernel/nick_lib.cl:527-537 | a candidate claims exactly when its address matches and nobody claimed before |
| `Run.BackwardStep` | miner/kernel/nick_lib.cl:539-557 | one step yields the slot's coordinates and the running inverse without that delta |
| `Run.OfferedIs` | miner/kernel/nick_lib.cl:526-567 | a run claims exactly when the slots are free and some slot matches; slot 0 goes first, then the highest matching one; the address is the one computed for the nonce |
| `Run.NickMineRun` | miner/kernel/nick_lib.cl:494-568 | for 1 <= N <= 256 and every base, the result is that of offering the run's slots in order with nonces base + i modulo 2^64, and in a clean run that of offering the candidates base to base + N − 1 themselves |
| `Run.NonceIsCandidate` | miner/kernel/nick_lib.cl:559-566 | the nonce that slot i reports is that of its candidate if and only if base + i stays below 2^64 |
| `Run.CleanRunIff` | miner/kernel/nick_lib.cl:494-522 | a run is clean if and only if none of its candidates, nor one of the n − 1 before or after its base, is the point at infinity |
| `Run.CleanAddresses` | miner/kernel/nick_lib.cl:494-568 | in a run without a zero delta and with P0 proper, every slot's address is its candidate's |
| `Run.CleanRunReports` | miner/kernel/nick_lib.cl:494-568 | a clean run sets the flag exactly when one of its candidates matches, and the stored address is such a candidate's and the stored nonce its number modulo 2^64 |
| `Run.MineNick` | miner/kernel/nick.cu:9-32 | a thread leaves at once when the flag is set, and else offers the slots of its run from start + gid·N on, which in a clean run are the candidates |
| `Search.ClaimIsSignature` | gpu.go:92-112 | a clean run claims exactly when some k of the run is one whose signature with s = sBase + k deploys to a matching address, and it claims such a k, modulo 2^64, and that address |
| `Search.SlotIsHostKey` | miner/precompute.go:162-170 | every slot of a clean run agrees with the host's key for its nonce |
| `Keccak.WalkIsPi` | tools/create2miner/miner.cu:25-26 | the lane order of the chain is the pi permutation |
| `Keccak.WalkIsRho` | tools/create2miner/miner.cu:25-26 | the amounts of the chain are the rho offsets of the lanes they move |
| `Keccak.RhoPiBackward` | miner/kernel/nick_lib.cl:358-382 | the chain that starts from the last lane performs rho then pi on every state |
| `Keccak.RhoPiForward` | tools/create2miner/miner.cu:46-71 | the unrolled device chain performs rho then pi on every state |
| `Keccak.RhoPiTables` | tools/create2miner/miner.cu:156-157 | the table-driven loop performs rho then pi on every state |
| `Keccak.ChiStep` | miner/kernel/nick_lib.cl:384-403 | the row temporaries compute chi in place |
| `Keccak.KeccakBackward` | miner/kernel/nick_lib.cl:336-407 | the kernel's 24 rounds are those of FIPS 202, over any lane algebra |
| `Keccak.KeccakForward` | tools/create2miner/miner.cu:32-84 | the device permutation is Keccak-f[1600] |
| `KeccakHost.KeccakTables` | tools/create2miner/miner.cu:149-162 | the host permutation is Keccak-f[1600] |
| `KeccakHost.WalkOfTheStandard` | tools/create2miner/miner.cu:150-157 | the lane order is the walk (x, y) -> (y, 2x + 3y) of algorithm 2 of FIPS 202 |
| `KeccakHost.TriangularOffsets` | tools/create2miner/miner.cu:26-26 | the rotation amounts are the triangular numbers modulo 64 |
| `KeccakHost.RoundConstantsOfTheStandard` | tools/create2miner/miner.cu:142-148 | the 24 round constants are those of the shift register of algorithm 5 of FIPS 202 |
| `Interleave.DilUndoesIl64` | miner/kernel/nick.metal:356-377 | de-interleaving undoes interleaving for every lane |
| `KeccakSplit.RotlCommutes` | miner/kernel/nick.metal:344-353 | rotating the halves is rotating the lane, for every amount from 1 to 62 |
| `KeccakSplit.RcCommutes` | miner/kernel/nick.metal:379-393 | the split round constants are the interleaved plain ones |
| `KeccakSplit.RoundsCommute` | miner/kernel/nick.metal:379-457 | any number of interleaved rounds on an interleaved state gives the interleaved plain result |
| `KeccakSplit.KeccakInterleaved` | miner/kernel/nick.metal:379-479 | interleave, run the Metal rounds, de-interleave: Keccak-f[1600] on every state |
| `Fips202.OffsetIs` | tools/create2miner/miner.cu:25-26 | the offset of every lane is the one that the walk of algorithm 2 of FIPS 202 gives it |
| `Fips202.ConstantIs` | tools/create2miner/miner.cu:142-148 | bit z of round constant i is the bit of algorithms 5 and 6 |
| `Fips202.RoundAgrees` | miner/kernel/nick_lib.cl:336-407 | one round of lanes has, bit by bit, the theta, rho, pi, chi and iota of sections 3.2.1 to 3.2.5 |
| `Fips202.RoundsAgree` | tools/create2miner/miner.cu:149-162 | so has the state after every number of rounds |
| `Fips202.KeccakFAgrees` | tools/create2miner/miner.cu:32-84 | the permutation that all four forms compute is Keccak-f[1600] of the standard on every state |
| `Sponge.HostKeccak256` | tools/create2miner/miner.cu:163-175 | pad10*1, absorb and squeeze, for messages of every length |
| `Sponge.LastBlock` | tools/create2miner/miner.cu:170-171 | the zeroed buffer with the two XOR-ed bytes is the padded last block, also for remainders 0 and 135 |
| `Fips202.LaneOfBit` | tools/create2miner/miner.cu:163-169 | bit z of lane k of a block is bit z mod 8 of byte 8k + z / 8 |
| `Fips202.TakingAt` | tools/create2miner/miner.cu:172-174 | bit t of byte j of a lane is bit 8j + t of the lane |
| `Fips202.PadBit` | tools/create2miner/miner.cu:170-171 | the padding adds a 1, zeros and a last 1, least significant bits first |
| `Fips202.HashIsStandard` | tools/create2miner/miner.cu:163-175 | every bit of the digest of every message is the one that the bit-wise sponge of the standard gives |
| `KernelHash.OrIntoBlock` | miner/kernel/nick_lib.cl:411-419 | OR-ing a byte into a lane is writing it into the block, also where the two ends of the padding meet |
| `KernelHash.KernelKeccak256` | miner/kernel/nick_lib.cl:411-424 | the single-block hash is the hash of the multi-block sponge for every length up to 135 |
| `KernelHash.MetalKeccak256` | miner/kernel/nick.metal:460-479 | so is the hash of the Metal kernel |
| `Address.RlpOfSender` | miner/kernel/nick_lib.cl:467-472 | the 23 hashed bytes are the RLP of [sender, 0] |
| `Address.AddressIs` | miner/kernel/nick_lib.cl:459-476 | the address of a key is the last 20 bytes of the hash of 0xd6 0x94, the last 20 bytes of the hash of the 32 big-endian bytes of X and then of Y, and 0x80 |
| `Address.AffineToAddr` | miner/kernel/nick_lib.cl:459-476 | these are the bytes that the kernel computes from the two elements |
| `Address.NickMatch` | miner/kernel/nick_lib.cl:572-579 | answers whether the address starts with the prefix and ends with the suffix |
| `Address.PatternMeans` | miner/kernel/nick_lib.cl:572-579 | the answer is yes exactly when the address is the prefix with something after it and the suffix with something before it |
| `Create2.BuildBase` | tools/create2miner/miner.cu:199-206 | the 17 base lanes hold the padded preimage with zeros where the counter goes |
| `Create2.CounterBytes` | tools/create2miner/miner.cu:93-98 | the eight counter bytes, most significant first, denote the counter |
| `Create2.CounterRegion` | tools/create2miner/miner.cu:118-128 | setting bytes 45 to 52 of the base block to the big-endian counter gives the padded block of the whole preimage |
| `Create2.PatchCounter` | tools/create2miner/miner.cu:121-128 | OR-ing the counter bytes into lanes 5 and 6 gives that block for every base, hash and counter |
| `Create2.MineThread` | tools/create2miner/miner.cu:106-138 | thread idx claims startCounter + idx, in 64 bits, exactly when it is in range, that counter's hash has the pattern and the slot is free |
| `Create2.MineLaunch` | tools/create2miner/miner.cu:106-138 | all threads of a launch, in any order, on a free slot: the flag ends up set exactly when some startCounter + idx of the launch has the pattern, and the slot then holds one that has |
| `Create2.HostVerify` | tools/create2miner/miner.cu:251-260 | the hash printed for a counter is the one the kernel's pattern was about |
| `Create2.MineCounters` | tools/create2miner/miner.cu:199-266 | launch c tries the counters startCounter + c·batch + idx in 64 bits; the search stops in the first launch that tries one with the pattern and reports such a counter with its hash |
| `Race.NextInv` | miner/kernel/nick_lib.cl:526-567 | every atomic step of every thread keeps the invariant on flag, winner, slots and writers |
| `Race.ExecuteInv` | miner/kernel/nick.cu:20-31 | so does every interleaving, spurious failures or not |
| `Race.OneWriter` | miner/kernel/nick.metal:538-547 | at most one thread ever writes the slots; at the end a set flag means that nonce and address belong to one matching candidate; holds for the weak compare-and-swap too |
| `Race.FoundIffMatch` | miner/kernel/nick_lib.cl:526-567 | with the strong compare-and-swap the flag ends up set exactly when some launched candidate matches |
| `Race.FlagIsRight` | miner/kernel/nick.metal:538-547 | for the weak compare-and-swap too, the flag tells whether some launched candidate matches if and only if some swap for a match was tried that did not fail for no reason, or none matches; at the end it is wrong only after a swap that did |
| `Race.UnsetMeansAllTried` | miner/kernel/nick_lib.cl:526-567 | when all threads end with the flag unset, every candidate of the launch was tried |
| `Race.EarlyExit` | miner/kernel/nick.cu:20-20 | in every launch and interleaving, a thread that has not looked at the flag when it is set never tries a candidate |
| `Race.EarlyExitHappens` | miner/kernel/nick.cu:20-20 | a launch of two threads in which the second leaves without trying its candidate |
| `Race.FairFinds` | miner/kernel/nick.cu:20-31 | under a fair schedule the flag ends up set exactly when some launched candidate matches, and the slots then hold the nonce and address of one |
| `Race.FairExists` | miner/kernel/nick.cu:20-31 | every launch has a fair schedule |
| `Race.FairFinishes` | miner/kernel/nick.cu:20-31 | every thread finishes once it has had 22·N + 2 turns, in any order |
| `Race.WeakMayMiss` | miner/kernel/nick.metal:538-547 | with one spurious failure of the weak compare-and-swap a matching candidate goes unreported |
| `Sweep.RoundingUp` | miner/kernel/cuda_launcher.cu:160-161 | the grid adds less than a block to the batch, nothing exactly for whole blocks, and both host formulas agree |
| `Sweep.IndicesAreTheGrid` | miner/kernel/nick.cu:22-22 | while batch and block stay below 2^31 together, the 32-bit thread index does not wrap and every thread has its own |
| `Sweep.GridCovers` | miner/kernel/nick.cu:22-22 | each of the batch·N nonces from the start on, modulo 2^64, is assigned to some thread |
| `Sweep.LaunchMatches` | miner/kernel/nick_lib.cl:526-567 | a launch has a match exactly when some assigned nonce matches |
| `Sweep.DeviceStart` | miner/multi_gpu_miner.go:79-84 | the accumulated offset is the sum of the earlier batches, modulo 2^64 |
| `Sweep.DevicesCover` | miner/multi_gpu_miner.go:79-84 | one call over several devices assigns each of the total nonces from the start on, modulo 2^64, to a thread of the device whose share it is |
| `Sweep.PartitionIffWholeBlocks` | miner/multi_gpu_miner.go:79-84 | the device ranges cover the span, stay inside it and do not overlap if and only if every batch is a multiple of the block size |
| `Sweep.EveryNonceAssigned` | gpu.go:83-90 | in m steps each of the m·total nonces from the start on, modulo 2^64, is assigned to a thread, in the step x / total that it belongs to |
| `Sweep.NothingSkipped` | gpu.go:83-96 | if no launch of any device in these steps has a match, none of these nonces matches |
| `Sweep.UnsetFlagsTryAll` | gpu.go:83-96 | if all these launches end with the flag unset, every one of these nonces was tried by its thread and does not match |
| `Device.Context.SetTable` | miner/kernel/cuda_launcher.cu:125-132 | only a table of the full length is accepted, and then it is what the device holds; otherwise nothing changes |
| `Device.Context.Upload` | miner/kernel/cuda_launcher.cu:147-157 | whatever copies are skipped, Q_base and the pattern that the device holds are those passed in |
| `Device.Context.Mine` | miner/kernel/cuda_launcher.cu:135-182 | the launch runs on the uploaded table and on what was passed in, with a grid of whole blocks; 1 means that a candidate of it matches, and comes with such a candidate's nonce and address, 0 that none does, −1 that no table is loaded |
| `Device.Miner.Mine` | miner/gpu_miner_cuda.go:127-167 | the launch runs on the table of the precompute passed in, also when the upload is skipped; the call fails exactly for a table of the wrong length |
| `Device.MineAll` | miner/multi_gpu_miner.go:64-114 | one batch on every device, in any order of finishing: a result comes back if and only if some device's launch has a match and the select takes the result, and it is that of the first device to finish with a match |
| `Device.ProperExists` | miner/multi_gpu_miner.go:64-114 | every call has an order of finishing and interleavings as the theorems ask for |
| `Device.SearchLoop` | gpu.go:83-96 | over any number of devices, the loop stops at the first call that returns a result; no call before it had a match, except those that dropped it |
| `Kernel.ThreadIsRun` | miner/kernel/nick_lib.cl:526-567 | a thread of the race that runs alone does to flag and slots what its run does: nothing on a set flag, else the offers of its run in order |
| `Kernel.LaunchGivesRuns` | miner/kernel/nick.cu:22-31 | the candidates of the launch on the table bytes are, thread by thread, the addresses and nonces of the run at start + gid·N |
| `Launches.PrecomputeIsJob` | miner/precompute.go:88-135 | what the precompute yields is what the search theorems ask for |
| `Launches.CleanGridIff` | miner/kernel/nick_lib.cl:494-522 | all runs of a grid are clean if and only if none of its candidates, nor one of the n − 1 before it, is the point at infinity |
| `Launches.NearIsSafeInSweep` | miner/kernel/nick_lib.cl:494-568 | a nonce from N on is safe in every sweep when Q_base avoids the multiples of D within 2N of it |
| `Launches.VisitIsHit` | miner/kernel/nick_lib.cl:526-567 | in a clean run, whatever the other runs of the launch are, a visit has its candidate's nonce and signature address and matches exactly when that nonce is a hit |
| `Launches.QueryRunsJob` | miner/kernel/cuda_launcher.cu:164-168 | what is launched on the uploaded bytes is the launch for Q_base and D: D is read back from the table |
| `Launches.ClaimIsHit` | miner/kernel/nick.cu:9-32 | whatever a launch claims is a nonce assigned to one of its threads, and if the runs that hold it are clean, it is a hit with the address that its signature deploys to |
| `Launches.HitIsMatch` | miner/kernel/nick.cu:9-32 | a hit assigned to clean runs is a match of the launch |
| `Launches.LaunchIsSearch` | miner/kernel/nick.cu:9-32 | a launch of clean runs has a matching candidate exactly when its span has a k whose signature deploys to a matching address |
| `Launches.LaunchFindsSignature` | miner/kernel/nick_lib.cl:494-568 | every fair interleaving of all threads ends with the flag set if some run-wise safe hit is assigned, and what the slots hold is, if safe, a hit with its address; for clean grids the flag is set exactly when the span has a hit |
| `Launches.HitIsFound` | gpu.go:83-96 | a hit of the swept nonces whose own runs are clean is a match of the call of step x / total |
| `Launches.QuietStep` | gpu.go:83-96 | a call without a match swept over no safe hit |
| `Launches.RunGpu` | gpu.go:45-112 | fails exactly for an empty pattern or a failed precompute; else ends in the first call with a match whose result is taken, with a safe nonce a hit with its address, and no earlier call swept over a safe hit without dropping it |

## Left out

- Primality of p and n, associativity of point addition, and n·A = infinity are hypotheses (`Order.Secp256k1`), not proved.
- go-ethereum's curve, RLP, `Ecrecover` and `big.Int` code is not part of this model: the curve calls appear as the group law on coordinate pairs with (0, 0) for infinity, `Exp`, `ModInverse`, `FillBytes` and `SetBytes` as their mathematical meaning.
- `HostPrecompute.ModInverse`: the inverse is written as the power r^(n−2), the value that the library's extended-Euclid result equals for prime n.
- Q_base at infinity is carried through the precompute as the pair (0, 0); the kernel theorems ask that the uploaded Q_base be a curve point, since the pair (0, 0) is not one.
- `Batch.Slot`: struct copies of field elements in the array of prefix products are values; all other elements are arrays that the routines update in place, and locals are fresh arrays.
- The four-line carry and borrow chains that the source repeats are single methods here (`Field.AddLimbs`, `Field.AddWords`, `Field.SubLimbs`, `Field.SubConst`), and the point routines are split into stages with ghost results.
- Table and key bytes are integers below 256, and shift and OR on them are functions on natural numbers; bytes that are hashed are bit-vectors.
- The 32-bit halves of the Metal kernel are 64-bit vectors below 2^32; rotation by 0 and by 63 is not used and excluded.
- `Run.NickMineRun`: runs the claims of one thread without interference; `Race` and `Launches` treat the interleavings of all threads.
- `Device.Context.Mine`: failures of the CUDA calls, and what they leave in device memory, are not modelled.
- `Device.Miner.Mine`: the same; every such failure ends the GPU run with an error.
- `Device.SearchLoop`: the loop is cut off after a given number of calls; the order in which devices finish, the interleaving of their threads, which is fair, and the choice of the final `select` are given for each call.
- `Launches.LaunchFindsSignature`: for sBase >= 0, and for nonces in runs that are not clean `Batch.SlotIsCandidate` and `Run.NonceIsCandidate` say slot by slot what is computed and reported.
- `Launches.RunGpu`: the same, for a Q_base that is not the point at infinity; a call that is returned early ends the run, so what its other devices still do is not followed.
- `Race.FoundIffMatch`: asks that no swap fails for no reason, which the weak compare-and-swap of the Metal kernel does not promise; `Race.WeakMayMiss` shows a miss and `Race.FlagIsRight` is the exact condition.
- `Sweep.GridThreads`: batch sizes are natural numbers; `Sweep.IndicesAreTheGrid` says when the kernel's 32-bit index agrees.
- "Some device found a match, so `MultiGPUMiner.Mine` returns it" is not claimed: its `select` may take the channel that says all are done. The loop then goes on, and the nonces of the threads that left early in that call are never tried.
- `Create2.MineLaunch`: a thread's swap and its write of the counter are one step; only the winner writes, and nobody reads the counter before the launch ends. The debug kernel, hex parsing and environment flags are left out.
- The CPU search loop, `compare`, `buildTx`, the CLI, JSON output, timing, logging, device enumeration, buffer upload, OpenCL, CUDA and Metal runtime calls and the cgo stubs.
- Compiler matters such as inlining and register pressure, and all performance claims.
