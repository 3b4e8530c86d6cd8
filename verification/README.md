# MetaVM: constraint gadgets, trace checkers and secret sharing, proved

MetaVM proves executions of virtual machines. This project models the parts of it whose behaviour
spans whole traces, runs or inputs, and proves what they are for. One module stands for each source
component; prime-field arithmetic and polynomials are shared.

- **EXP gadget** (`LimbChain`, `ExpAir`, `ExpPolynomials`, `ExpWitness`, `ExpOverflow`, `ExpMultiTrace`,
  `ExpMeaning`, `ExpCheck`, `ExpForgery`). A trace row is its vector of 36 field values. The constraint bodies are
  those of the pointwise evaluators; the polynomials the prover builds are shown to have the same
  values at every point. A trace on which every limb body vanishes computes a power. The one
  polynomial that is checked does not ask for that: what it asks for, for every challenge, is stated
  exactly, with a forged trace that passes it. The generated trace is accepted exactly when the
  powers it goes through do not overflow 128-bit accumulators, a condition on base and exponent.
- **Polynomial products** (`PolyMultiply`, `Ntt`). Karatsuba's recursion and the in-place number-theoretic
  transform, bit reversal and butterflies included, return the naive product.
- **Secret sharing** (`Shamir`, `ShareOperations`) over a prime field larger than 2^64.
- **Byte memory** (`ByteMemory`, `MemoryContents`). Replay of SHA3 inputs, the timestamped access list, and the
  sort-and-scan check, against last-write semantics.
- **Chunked execution** (`ChunkedTrace`, `ChunkBoundaries`). Chunk boundaries do not change a run; the incremental
  memory hash is the hash of the whole memory.
- **Inspector and call frames** (`Inspector`, `FrameOrigins`, `CallFrames`, `FrameChecks`). The hook-driven frame stack as a state
  machine, and the check its traces must pass.
- **Code walk and jump safety** (`CodeWalk`, `JumpSafety`).
- **Transcript framing** (`Transcript`). The bytes hashed determine the history, with the exact label
  lengths for which they do not.
- **Blob gas** and **memory expansion** (`BlobGas`, `MemoryExpansion`). Closed forms over whole chains
  and access sequences in 64-bit arithmetic.

The finite field is the integers modulo a prime `p`; loops that update variables are methods proved
against functions, objects with mutable fields are classes, and every `u64` or `u128` sum that can
wrap is written with its modulus.

## What turned out false, and exactly when

- The EXP check uses one challenge alpha both inside the limb groups and across the constraint bodies,
  so neighbouring groups share powers of alpha. It passes for every alpha exactly when sixteen sums of
  bodies vanish for each row (`ExpCheck.TracePassesIff`; `ExpCheck.OverlayLocal` and
  `ExpCheck.OverlayCross` list them), not when each body does. `ExpForgery.ForgedTracePasses` is a
  trace that passes for every alpha and on every domain, though it squares 1 to 1 + 2^64. With the
  inner challenge drawn apart, passing for all challenges is exactly limb-by-limb acceptance
  (`ExpCheck.SeparateAcceptsIff`), and the result is the power
  (`ExpCheck.SoundWithSeparateChallenges`). For a row that is not first the code's check still gives
  one congruence: the square is right exactly when the product is modulo 2^192
  (`ExpForgery.CheckedCongruence`, `ExpForgery.CheckedProducts`).
- `schoolbook_mul_mod_2_256` keeps limb sums in `u128`. Two products already exceed 2^128, and honest
  carries reach 66 bits while the code stores 64. With wrapping arithmetic the carries satisfy the
  constraints exactly when no sum reaches 2^128, and the product is right exactly when limb 1, a sum
  of two products, does not (`LimbChain.SchoolbookAcceptedIff`, `LimbChain.SchoolbookExactIff`); a
  build with overflow checks panics instead. The generated trace is accepted exactly when, for every
  prefix of the exponent's bits, squaring the power it spells and multiplying that square by the base
  do not overflow, limb by limb (`ExpOverflow.WitnessAcceptedIff`) and by the code's own check alike
  (`ExpForgery.HonestPassesIff`); in particular every base whose square overflows
  is rejected with every exponent above 1 (`ExpOverflow.LargeBaseRejected`). The comments beside the
  carry columns speak of 64-bit carries.
- The constraint catalogue in the EXP files' header comments lists four row-local and three cross-row
  bodies; the code has seven and six, and the model follows the code. No body reads the EXPONENT
  columns together with the exponent bits: replacing them keeps a trace accepted exactly when they
  stay constant along each invocation (`ExpAir.ExponentUnconstrained`). Nothing ends a run at its
  256th row either (`ExpWitness.AnyLengthRunAccepted`).
- Transcript framing is ambiguous when a query label's length, as four little-endian bytes, reads `-out`,
  or `-byt` for `challenge`. A policy that bounds all query labels makes it injective exactly when the
  bound is at most 0x74756F2D bytes, far beyond 2^24 (`Transcript.LabelBoundExact`).
- `verify_read_consistency` can be wrong when (address, timestamp) pairs repeat. It is right for every
  assignment of values exactly when no write ties with a read listed after it and no read has two
  latest earlier writes (`ByteMemory.VerdictRightIff`); generated lists never repeat a timestamp.
- The jump-target check reads low limbs only: it is sound for exactly the condition words that are zero or
  whose low limb is not, and the target words below 2^64
  (`JumpSafety.ConditionSoundIff`, `JumpSafety.TargetSoundIff`).
- Memory gas is exact for byte sizes up to 2^37 - 32 and no others
  (`MemoryExpansion.FirstExpansionExactIff`), and an access that ends at 2^64 or beyond costs nothing in wrapping
  arithmetic (`MemoryExpansion.AccessPricedIff`); excess blob gas is exact exactly when the parent's sum fits 64 bits.

## Model

| member | source | states |
|---|---|---|
| PrimeField.Inverse | crates/core/src/field.rs:37-39 | every nonzero element of a prime field has a multiplicative inverse |
| PrimeField.NoZeroDivisors | crates/core/src/field.rs:105-110 | a product is zero exactly when a factor is |
| PolyArith.EvalAdd | crates/zkp/src/poly_arith.rs:9-19 | the sum of coefficient lists has the sum of the values at every point |
| PolyArith.EvalSub | crates/zkp/src/poly_arith.rs:21-31 | the difference of coefficient lists has the difference of the values at every point |
| PolyArith.EvalScalarMul | crates/zkp/src/poly_arith.rs:216-219 | scaling coefficients scales every value |
| PolyArith.EvalShift | crates/zkp/src/poly_arith.rs:230-241 | the shifted polynomial at z is the polynomial at omega * z |
| PolyArith.EvalMulLinear | crates/zkp/src/poly_arith.rs:243-257 | multiplying by (x - c) multiplies the value at z by z - c |
| PolyArith.EvalMul | crates/zkp/src/poly_arith.rs:48-64 | the product polynomial has the product of the values at every point |
| PolyArith.RootBound | crates/core/src/share.rs:52-76 | a polynomial with n coefficients and n distinct roots is zero, which makes interpolation unique |
| PolyMultiply.NaiveMul | crates/zkp/src/poly_arith.rs:66-82 | the double loop accumulates exactly the convolution |
| PolyMultiply.KaratsubaMul | crates/zkp/src/poly_arith.rs:90-175 | for any lengths Karatsuba's recursion returns the convolution, so nothing it drops past the end is nonzero |
| PolyMultiply.Recombine | crates/zkp/src/poly_arith.rs:126-175 | each coefficient of a*b is z0 plus the shifted cross terms plus the doubly shifted z2 |
| Ntt.HatIsDft | crates/zkp/src/scheme/bls12381_scheme.rs:162-193 | the butterfly levels over the bit-reversed list give the values at the powers of the root |
| Ntt.BitReverse | crates/zkp/src/scheme/bls12381_scheme.rs:147-160 | the swaps driven by the reversed counter apply the bit-reversal permutation |
| Ntt.Transform | crates/zkp/src/scheme/bls12381_scheme.rs:130-193 | in place, any list becomes its values at 1, omega, omega^2, ... |
| Ntt.RootOfUnity | crates/zkp/src/scheme/bls12381_scheme.rs:95-127 | repeated squaring of the generator gives a root of order exactly 2^m |
| Ntt.BackwardForward | crates/zkp/src/scheme/bls12381_scheme.rs:195-203 | the inverse transform with its final scaling undoes the transform of every list |
| Ntt.NttMul | crates/zkp/src/poly_arith.rs:179-213 | padding, two transforms, pointwise product, inverse and cut return the convolution |
| PolyMultiply.Multiply | crates/zkp/src/poly_arith.rs:48-64 | empty operands, and any choice among the three algorithms by curve and length, give the same product |
| Shamir.MakeShares | crates/core/src/share.rs:15-45 | share i is the value at i of the polynomial whose constant term is the secret |
| Shamir.Reconstruct | crates/core/src/share.rs:52-75 | the nested loops compute the sum of the values weighted by the Lagrange weights at 0 |
| Shamir.NodeProductZero | crates/core/src/share.rs:58-68 | a product of node differences vanishes exactly at the other nodes |
| Shamir.LagrangeAtNode | crates/core/src/share.rs:52-75 | the interpolating polynomial passes through every share |
| Shamir.ReconstructionCorrect | crates/core/src/share.rs:52-75 | any list of at least t shares with distinct ids, in any order, reconstructs the constant term of the polynomial that produced them |
| Shamir.ShareThenReconstruct | crates/core/src/share.rs:15-75 | sharing any secret with any noise and reconstructing from any t or more distinct shares returns the secret |
| Shamir.ThresholdTight | crates/core/src/share.rs:13-45 | for any t - 1 distinct nonzero ids, any values and any candidate secret exactly one coefficient vector explains them |
| Shamir.ShareAddLinear | crates/core/src/share.rs:79-91 | adding succeeds exactly on equal id lists, and reconstruction commutes with it |
| Shamir.ShareSubLinear | crates/core/src/share.rs:94-106 | subtracting succeeds exactly on equal id lists, and reconstruction commutes with it |
| Shamir.ShareMulConstLinear | crates/core/src/share.rs:109-119 | reconstruction commutes with scaling |
| Shamir.ShareAddConstShifts | crates/core/src/share.rs:122-131 | adding a constant to every share adds it exactly once to the secret: the weights at 0 sum to one |
| ShareOperations.SumShares | crates/core/src/share.rs:79-106 | shares of two polynomials at the same ids become, at those ids, shares of their sum and of their difference |
| ShareOperations.ScaledShares | crates/core/src/share.rs:109-119 | shares of a polynomial become shares of the scaled polynomial at the same ids |
| ShareOperations.ShiftedShares | crates/core/src/share.rs:122-131 | shares of p(x) become shares, at the same ids, of the polynomial that differs from p in its constant term alone, by the constant |
| ShareOperations.PickedSum | crates/core/src/share.rs:79-106 | any selection of the result's shares reconstructs the sum, or difference, of what that selection of the operands reconstructs |
| ShareOperations.PickedScale | crates/core/src/share.rs:109-119 | the same for scaling |
| ShareOperations.PickedShift | crates/core/src/share.rs:122-131 | any selection of the shifted shares reconstructs the constant more than the same selection of the originals |
| ShareOperations.RepeatedIdIgnored | crates/core/src/share.rs:52-75 | a share whose id another one repeats does not influence the reconstructed value |
| LimbChain.ChainExact | crates/evm/src/exp_constraints.rs:138-155 | if the four limb equations hold, the in-range output is a*b mod 2^256 |
| LimbChain.HonestChain | crates/evm/src/exp_constraints.rs:284-315 | long multiplication satisfies the chain with carries below 2^66 |
| LimbChain.ChainUnique | crates/evm/src/exp_constraints.rs:363-389 | outputs and carries of an accepted chain are unique |
| LimbChain.ChainIff | crates/evm/src/exp_constraints.rs:749-753 | in-range limbs can satisfy the chain exactly when the output is a*b mod 2^256 |
| LimbChain.LimbBodyExact | crates/evm/src/exp_air/mod.rs:654-690 | in a field of at least 2^131 elements a limb body vanishes exactly when the integer equation holds |
| LimbChain.SchoolbookAcceptedIff | crates/evm/src/exp_air/mod.rs:197-232 | the code's limbs and carries satisfy the chain exactly when no accumulator reaches 2^128 |
| LimbChain.SchoolbookExactIff | crates/evm/src/exp_air/mod.rs:197-232 | the code's product is a*b mod 2^256 exactly when limb 1 does not overflow |
| LimbChain.SchoolbookWrongProduct | crates/evm/src/exp_air/mod.rs:197-232 | two factors for which the wrapped product is wrong |
| ExpAir.RowOkIff | crates/evm/src/exp_air/mod.rs:697-801 | a row passes limb by limb exactly when all seven pointwise bodies vanish for every beta given apart from alpha |
| ExpAir.GroupVanishesIff | crates/evm/src/exp_air/mod.rs:697-801 | a gated group vanishes limb by limb exactly when its beta mix vanishes for every beta |
| ExpAir.ChallengesSeparate | crates/evm/src/exp_air/mod.rs:697-801 | as many distinct betas as limbs already separate the mix |
| ExpAir.RowComputes | crates/evm/src/exp_constraints.rs:229-399 | an active row whose limb bodies all vanish squares its accumulator and multiplies by the base modulo 2^256 |
| ExpAir.RunStep | crates/evm/src/exp_constraints.rs:566-747 | within a run the next row receives the chosen value, and base, output and counter carry over |
| ExpAir.AccumulatorIsPower | crates/evm/src/exp_constraints.rs:566-747 | the accumulator entering any row of a run is the base to the bits read so far |
| ExpAir.ExpSound | crates/evm/src/exp_constraints.rs:229-747 | on a trace whose limb bodies all vanish the value chosen in the last row of a run is base^E mod 2^256 with E spelled by the exponent bits |
| ExpAir.FinalOutputSound | crates/evm/src/exp_constraints.rs:703-747 | on such a trace, if the run ends before the last domain row, FINAL_OUTPUT on each of its rows is that power |
| ExpAir.BitIndexCounts | crates/evm/src/exp_constraints.rs:206-227 | the bit index of row s + k of a run is 255 - k in the field |
| ExpAir.FullRunLength | crates/evm/src/exp_constraints.rs:206-227 | in traces shorter than the field a run has counted to 0 exactly at its 256th row |
| ExpAir.ExponentUnconstrained | crates/evm/src/exp_air/mod.rs:814-945 | new EXPONENT values in an accepted trace are accepted exactly when constant across every step that continues an invocation |
| ExpMeaning.RowMeaning | crates/evm/src/exp_air/mod.rs:697-812 | the row-local bodies vanish limb by limb exactly when flags are bits, an active row's bit and two products are right over the integers and a first row starts from 1 at index 255; an inactive row is otherwise free |
| ExpMeaning.StepMeaning | crates/evm/src/exp_air/mod.rs:814-945 | the cross-row bodies vanish limb by limb exactly when a continuing row takes over, the index steps down, and a last row has its output in place |
| ExpMeaning.AcceptedMeaning | crates/evm/src/exp_air/mod.rs:697-945 | limb-by-limb acceptance of a whole trace, as conditions on column values alone |
| ExpPolynomials.BuildMulLimb | crates/evm/src/exp_constraints.rs:138-155 | at every point the built limb polynomial has the limb body of the column values |
| ExpPolynomials.BuildMulChain | crates/evm/src/exp_constraints.rs:256-399 | at every point the built chain is the gate times the beta mix of the four limb bodies |
| ExpPolynomials.BuildInit | crates/evm/src/exp_constraints.rs:229-254 | at every point the first-row pin is the gated mix of (result_in - 1) limbs |
| ExpPolynomials.BuildConstraintPolynomial | crates/evm/src/exp_constraints.rs:495-520 | at every point the built row-local polynomial is the alpha mix of the seven pointwise bodies |
| ExpPolynomials.EvaluateAtPoint | crates/evm/src/exp_constraints.rs:438-452 | the verifier's loop is the alpha mix of the seven bodies, and 0 for too few values |
| ExpPolynomials.RowLocalAgreement | crates/evm/src/exp_constraints.rs:438-520 | for all columns, challenge and point the prover's polynomial and the verifier's formula agree |
| ExpPolynomials.PowerLoop | crates/evm/src/exp_constraints.rs:703-723 | the square-and-multiply loop yields omega^(n-1) |
| ExpPolynomials.EvaluateShiftedAtPoint | crates/evm/src/exp_constraints.rs:532-564 | the verifier's loop is the offset alpha mix of the six bodies times (z - last), and 0 for a wrong number of values |
| ExpPolynomials.BuildCrossRowBodies | crates/evm/src/exp_constraints.rs:566-702 | at every point the six built polynomials have the six pointwise bodies of the values at z and omega*z |
| ExpPolynomials.BuildShiftedConstraintPolynomial | crates/evm/src/exp_constraints.rs:566-747 | at every point the built shifted polynomial is what the verifier computes from the values at z and omega*z |
| ExpPolynomials.CrossRowAgreement | crates/evm/src/exp_constraints.rs:532-747 | for all columns, challenge, generator, size, offset and point the two agree |
| ExpPolynomials.ShiftedVanishesIff | crates/evm/src/exp_constraints.rs:703-747 | the shifted polynomial vanishes at z exactly when the mixed bodies do or z is the last domain point |
| ExpPolynomials.FixTracePadding | crates/evm/src/exp_constraints.rs:468-493 | cell by cell: cells n up to the padded size of the 36 gadget columns become zero and every other cell stays |
| ExpPolynomials.PaddingAcceptedIff | crates/evm/src/exp_constraints.rs:468-493 | a zero-padded trace is accepted exactly when the trace is and its last row has counted to 0 with its output chosen |
| ExpPolynomials.PaddedTrace | crates/evm/src/exp_constraints.rs:468-493 | what padding leaves is the real rows followed by zero rows, accepted exactly when the real rows are and their last is ready |
| ExpCheck.BuildCheck | crates/zkp/src/prover.rs:660-677 | the combined polynomial has at every point the row-local mix plus the cross-row mix from power 7 on, with one challenge |
| ExpCheck.BuildOnDomain | crates/zkp/src/prover.rs:660-677 | it vanishes on the domain exactly when the rows the columns take there pass |
| ExpCheck.LastPointIs | crates/zkp/src/verifier.rs:172-181 | on a domain of exact order n the excluded point is the generator's inverse, as the verifier computes it, and no earlier point equals it |
| ExpCheck.OverlayLocal | crates/evm/src/exp_constraints.rs:495-520 | the ten sums of row-local bodies that share a power of alpha |
| ExpCheck.OverlayCross | crates/evm/src/exp_constraints.rs:566-747 | the nine sums of cross-row bodies that share a power of alpha |
| ExpCheck.LocalMixIff | crates/evm/src/exp_constraints.rs:438-452 | the row-local mix vanishes for every alpha exactly when those ten sums do |
| ExpCheck.CrossMixIff | crates/evm/src/exp_constraints.rs:532-564 | the cross-row mix vanishes for every alpha exactly when those nine sums do |
| ExpCheck.SixteenChallengesDecide | crates/zkp/src/verifier.rs:170-200 | a row with a nonzero sum passes at most fifteen challenges |
| ExpCheck.TracePassesIff | crates/zkp/src/prover.rs:660-677 | a trace passes for every challenge exactly when all sixteen coefficients of all its rows vanish |
| ExpCheck.SeparateAcceptsIff | crates/evm/src/exp_constraints.rs:438-747 | with beta drawn apart from alpha a trace passes for all challenges exactly when every limb body vanishes |
| ExpCheck.SoundWithSeparateChallenges | crates/evm/src/exp_constraints.rs:229-747 | so drawn, a passing trace computes the power its bits spell |
| ExpCheck.AcceptedPasses | crates/evm/src/exp_constraints.rs:438-747 | a trace whose limb bodies vanish passes the code's check for every challenge |
| ExpForgery.ForgedTracePasses | crates/evm/src/exp_constraints.rs:438-520 | an in-range trace that passes for every challenge on every domain and whose output is no power of its base |
| ExpForgery.CheckedCongruence | crates/evm/src/exp_constraints.rs:495-520 | a passing active row whose first-row pins hold, as on every row that is not first, satisfies a*a - sq + 2^64 (sq*b - mul) = 0 modulo 2^256 |
| ExpForgery.CheckedProducts | crates/evm/src/exp_constraints.rs:495-520 | hence its square is right exactly when its product is right modulo 2^192, and a right product implies a right square |
| ExpForgery.HonestPassesIff | crates/evm/src/exp_air/mod.rs:243-385 | a generated trace passes the code's check for every challenge exactly when no product of its powers overflows: honest losses never cancel |
| ExpWitness.MakeWitness | crates/evm/src/exp_air/mod.rs:243-274 | the loop returns the 256 rows in which each starts from its predecessor's output |
| ExpWitness.TraceSpells | crates/evm/src/exp_air/mod.rs:248-251 | the first e bits spell the exponent's upper e bits, all 256 the exponent |
| ExpWitness.RowOkIffFits | crates/evm/src/exp_air/mod.rs:697-801 | a generated row passes the row-local bodies exactly when neither product overflows |
| ExpWitness.AnyLengthRunAccepted | crates/evm/src/exp_air/mod.rs:814-945 | there are accepted runs of every length, shorter and longer than 256 rows |
| ExpOverflow.RowsRightIff | crates/evm/src/exp_air/mod.rs:243-274 | all squares and accumulators up to any row are the powers they should be exactly when limb 1 of every product used fits |
| ExpOverflow.WitnessAcceptedIff | crates/evm/src/exp_air/mod.rs:243-385 | the generated trace is accepted exactly when no product of the powers spelled by the exponent's upper bits overflows |
| ExpOverflow.WitnessComputesPower | crates/evm/src/exp_air/mod.rs:243-295 | if limb 1 of every product used fits, the witness ends in base^exponent mod 2^256 |
| ExpOverflow.LargeBaseRejected | crates/evm/src/exp_air/mod.rs:197-274 | a base whose square overflows is rejected with every exponent above 1 |
| ExpOverflow.LargeBaseExample | crates/evm/src/exp_air/mod.rs:197-274 | for one, 2^128 - 1 squared |
| ExpOverflow.SmallPowersAccepted | crates/evm/src/exp_air/mod.rs:243-385 | whenever base^(exponent + 1) fits one limb the generated trace is an accepted run, and its output is the exact power |
| ExpMultiTrace.RebuildExponent | crates/evm/src/exp_air/mod.rs:350-361 | the bit-setting loop rebuilds the limbs of the exponent |
| ExpMultiTrace.ExponentLimbsValue | crates/evm/src/exp_air/mod.rs:350-361 | those four 64-bit limbs have the exponent as their value |
| ExpMultiTrace.PopulateMultiTrace | crates/evm/src/exp_air/mod.rs:405-458 | the nested loops lay out one 256-row block for each invocation, in order |
| ExpMultiTrace.MultiAcceptedIff | crates/evm/src/exp_air/mod.rs:387-458 | a trace of any number of honest invocations is accepted exactly when every product of each fits: the seams never fire |
| ExpMultiTrace.MultiComputesPowers | crates/evm/src/exp_air/mod.rs:387-458 | in an accepted trace every row of block k carries the k-th base, exponent and power, and only its first row is flagged |
| ByteMemory.U256BytesValue | crates/evm/src/sha3_mem_binding.rs:59-69 | the 32 bytes read as one big-endian number are the limbs' value |
| ByteMemory.ReplayByteMemoryAtSha3 | crates/evm/src/sha3_mem_binding.rs:97-148 | one snapshot for each SHA3 row, in order, of the last bytes written up to it; `MemoryContents` says which bytes those are |
| ByteMemory.BuildByteAccessTrace | crates/evm/src/sha3_mem_binding.rs:166-227 | the loops emit exactly the rows' writes and reads with consecutive timestamps; `MemoryContents.RowListed` spells them out |
| ByteMemory.SortIsOrder | crates/evm/src/sha3_mem_binding.rs:261-268 | the stable sort arranges accesses by (addr, ts), equal keys as listed |
| ByteMemory.ScanMeansLatest | crates/evm/src/sha3_mem_binding.rs:270-311 | comparing with the previous access amounts to comparing with the latest write |
| ByteMemory.VerifyReadConsistency | crates/evm/src/sha3_mem_binding.rs:261-311 | unless keys tie it accepts exactly when each read returns the latest earlier write to its address, or 0; in general, exactly what the scan of the sorted list passes |
| ByteMemory.VerdictRightIff | crates/evm/src/sha3_mem_binding.rs:261-311 | the verdict is right for every assignment of values exactly when no write ties with a later-listed read and no read has two latest earlier writes |
| ByteMemory.RepeatedKeyAccepted | crates/evm/src/sha3_mem_binding.rs:261-311 | a concrete list with a repeated key that is accepted though its read is wrong |
| ByteMemory.ReadsAreSnapshots | crates/evm/src/sha3_mem_binding.rs:97-227 | each source row's reads are, byte for byte, the snapshot the independent replay takes there |
| ByteMemory.GeneratedConsistent | crates/evm/src/sha3_mem_binding.rs:166-227 | every generated list has strictly increasing timestamps and is read-consistent |
| ByteMemory.BuildThenVerify | crates/evm/src/sha3_mem_binding.rs:166-311 | building the list of any trace and checking it succeeds |
| MemoryContents.WordByteRead | crates/evm/src/sha3_mem_binding.rs:97-148 | any row that reads the address of byte k of a stored word, before another store there, hashes that byte of the word, addresses modulo 2^64 |
| MemoryContents.WordReadBack | crates/evm/src/sha3_mem_binding.rs:59-148 | reading 32 bytes at the offset of an MSTORE, before a store into them, gives back its 256-bit value |
| MemoryContents.ByteRead | crates/evm/src/sha3_mem_binding.rs:121-128 | an MSTORE8 leaves the low byte of its word at its offset until the next store there |
| MemoryContents.UntouchedRead | crates/evm/src/sha3_mem_binding.rs:97-148 | an address no row in between stores at keeps its byte, and is 0 if no row ever did |
| MemoryContents.RowListed | crates/evm/src/sha3_mem_binding.rs:166-227 | the accesses listed for a row are, in order, exactly its stored bytes at their addresses and then its hashed bytes at theirs |
| MemoryContents.ListedWord | crates/evm/src/sha3_mem_binding.rs:166-194 | the 32 values listed for an MSTORE spell its 256-bit value |
| MemoryContents.ReplayAgreesWithList | crates/evm/src/sha3_mem_binding.rs:97-227 | the replay answers exactly the SHA3 rows, in order, with the values the access list says they read |
| ChunkedTrace.UpdateHash | crates/riscv/src/state_hash.rs:93-117 | re-hashing only dirty pages gives the hash of the whole memory and keeps the cache exact |
| ChunkedTrace.TraceStep | crates/riscv/src/chunked_trace.rs:149-218 | a halted VM fails unchanged; a trap step adds no row; other steps add one, numbered within the chunk |
| ChunkedTrace.TraceSteps | crates/riscv/src/chunked_trace.rs:60-70 | the bounded loop is the abstract run of that many steps, stopping at a halt or an error |
| ChunkedTrace.StreamingProver.InitializeMemoryHash | crates/riscv/src/chunked_trace.rs:43-47 | establishes the cache invariant and changes nothing observable |
| ChunkedTrace.StreamingProver.ExecuteChunk | crates/riscv/src/chunked_trace.rs:51-106 | the chunk and the whole new state on success; on failure the VM as far as it got and all counters untouched |
| ChunkedTrace.RunSplit | crates/riscv/src/chunked_trace.rs:60-70 | running a + b steps is running a and then b, unless the first part failed |
| ChunkedTrace.ChunkingIrrelevant | crates/riscv/src/chunked_trace.rs:51-106 | however steps are cut into chunks, success, error, end state, rows, UART bytes and step count are those of one chunk of all of them; so are the registers, memory and UART bytes a failing run leaves |
| ChunkedTrace.ChunksChain | crates/riscv/src/chunked_trace.rs:76-106 | each final state hash is the next initial one, indices run in order, the step counter and UART bytes cover all chunks |
| ChunkBoundaries.LastStoreWins | crates/riscv/src/memory.rs:64-71 | of several stores of a step to one page the last is what the page holds |
| ChunkBoundaries.RunIsExecution | crates/riscv/src/chunked_trace.rs:60-70 | a run is a chain of single steps with exactly their rows and bytes, ending at its limit, at a halt, or with the effects of the step that fails |
| ChunkBoundaries.FinalHashCommits | crates/riscv/src/chunked_trace.rs:76-106 | the final hash of chunk i commits to registers and pages of one run of the first i + 1 chunks' steps, to all bytes seen and to the steps made |
| ChunkBoundaries.ChunksStart | crates/riscv/src/chunked_trace.rs:51-106 | the first initial hash commits to the state before the run, and every chunk numbers its rows from 0 |
| ChunkBoundaries.FailureLeaves | crates/riscv/src/chunked_trace.rs:60-70 | a failing chunked run leaves registers, memory and pending bytes of the uninterrupted run, and counters and UART hash of the chunks before the failing one |
| Inspector.AddressLimbsInjective | crates/evm/src/inspector.rs:67-81 | different addresses have different limbs |
| Inspector.TracingInspector.OnCall | crates/evm/src/inspector.rs:292-349 | pushes a frame whose caller and value are the parent's under DELEGATECALL |
| Inspector.StackInvariant | crates/evm/src/inspector.rs:292-450 | after any events each frame's depth is its stack index, it is static exactly when it or a frame below was entered by STATICCALL, and DELEGATECALL frames carry their parent's caller and value |
| Inspector.StaticIsInherited | crates/evm/src/inspector.rs:316-346 | every frame above a static frame is static |
| Inspector.RowOrigin | crates/evm/src/inspector.rs:113-290 | row k has step k, was opened by a step event and closed by the next step end, and carries that step's data and the frame then on top |
| FrameOrigins.AddressBytes | crates/evm/src/inspector.rs:67-81 | byte i of an address is byte i % 8, least significant first, of limb i / 8 |
| FrameOrigins.FrameOrigin | crates/evm/src/inspector.rs:292-450 | every field of every frame on any reachable stack is an input of the one hook that opened it, its parent's, or the resume position of the last row then |
| FrameOrigins.HintOrigin | crates/evm/src/inspector.rs:363-414 | a row's CREATE hints are those of the last create hook fired while it was the last row, its salt and hash those of the last such CREATE2, and zero if there was none |
| CallFrames.ExtractFrameTransitions | crates/evm/src/call_frame_transition.rs:25-48 | exactly the call-family, STOP, RETURN and REVERT rows but the last, in order, paired with their successors |
| CallFrames.VerifyAllTransitions | crates/evm/src/call_frame_transition.rs:88-95 | accepts exactly the traces whose every adjacent pair of rows obeys both rules |
| CallFrames.WellBehavedRunAccepted | crates/evm/src/inspector.rs:217-450 | any run whose opcodes open one frame, open and close one, or none, and close exactly their own on return, records a trace the check accepts |
| FrameChecks.AcceptedTraces | crates/evm/src/call_frame_transition.rs:50-95 | the check accepts exactly the traces whose call-family rows keep the depth or enter, unless by 0xF4, a frame called by their own contract, and whose RETURN and REVERT rows leave their sub-frame |
| FrameChecks.ExtractedTransitions | crates/evm/src/call_frame_transition.rs:25-48 | a transition is extracted exactly from a row with a successor and one of nine opcodes, and shows both rows' frames |
| FrameChecks.RunAcceptedIff | crates/evm/src/call_frame_transition.rs:50-95 | a hook run over running frames records an accepted trace exactly when every block but the last is legal: foreign callers and returns that close nothing are always rejected |
| CodeWalk.Partition | crates/evm/src/pc_continuity.rs:12-18 | every byte belongs to exactly one instruction and is a boundary or PUSH data, never both |
| CodeWalk.DestinationIff | crates/evm/src/jumpdest.rs:46-64 | a destination is valid exactly when it holds 0x5B and is none of the 1 to 32 bytes a PUSH before it takes |
| CodeWalk.NextInstruction | crates/evm/src/pc_continuity.rs:12-18 | after an instruction the next boundary is one byte on, and past its data for a PUSH |
| CodeWalk.ValidJumpdestPositions | crates/evm/src/jumpdest.rs:46-64 | the ascending list of exactly the positions reachable from 0 by instruction sizes that hold 0x5B |
| CodeWalk.ValidJumpdestBitmap | crates/evm/src/jumpdest.rs:69-75 | bit i is set exactly when i is a valid destination |
| CodeWalk.IsValidJumpdest | crates/evm/src/jumpdest.rs:80-85 | answers exactly that question, and false past the end |
| CodeWalk.BuildBytecodeTable | crates/evm/src/bytecode_table.rs:18-47 | one entry per byte in order, truncated final PUSH included, flagged exactly at the valid destinations |
| JumpSafety.VerifyPcContinuity | crates/evm/src/pc_continuity.rs:20-49 | accepts exactly when every straight-line row is followed by its instruction's end, and otherwise reports the first mismatch |
| JumpSafety.VerifyJumpTargets | crates/evm/src/jumpdest_validity.rs:11-47 | accepts exactly when every flagged jump's low limbs show a valid destination, and otherwise reports the first that does not |
| JumpSafety.ContinuousTraces | crates/evm/src/pc_continuity.rs:20-49 | continuity is exactly that rows other than the thirteen ending, frame-changing and jumping opcodes are followed at their instruction's end |
| JumpSafety.FirstMismatchIs | crates/evm/src/pc_continuity.rs:39-46 | the reported step is the first row not followed at its instruction's end, with the position expected there |
| JumpSafety.CheckedTargets | crates/evm/src/jumpdest_validity.rs:11-47 | the target check is exactly that flagged jumps aim, by low limb, at 0x5B bytes outside PUSH data; unflagged rows are ignored |
| JumpSafety.AcceptedIffEvmRun | crates/evm/src/pc_continuity.rs:20-49 | on a single-frame run whose jumps follow their operands both checks accept exactly when every step is a legal EVM step and the last row passes the target check |
| JumpSafety.JumpSafe | crates/evm/src/jumpdest_validity.rs:11-47 | if both checks accept, every row's program counter is an instruction boundary and never lies in PUSH data |
| JumpSafety.ConditionSoundIff | crates/evm/src/jumpdest_validity.rs:32-42 | the JUMPI check is sound for exactly the condition words decided by their low limb |
| JumpSafety.TargetSoundIff | crates/evm/src/jumpdest_validity.rs:22-31 | the JUMP check is sound for exactly the target words below 2^64 |
| JumpSafety.HighConditionEscapes | crates/evm/src/jumpdest_validity.rs:32-42 | a run with a condition of 2^64 that both checks accept and that enters PUSH data |
| Transcript.TranscriptState.constructor | crates/core/src/transcript.rs:14-20 | the absorbed bytes print the empty history under the label |
| Transcript.TranscriptState.AppendMessage | crates/core/src/transcript.rs:23-29 | appends one framed message to the history |
| Transcript.TranscriptState.DrawChallenge | crates/core/src/transcript.rs:43-59 | the scalar of the digest of the printed history and query; only the digest is fed back |
| Transcript.TranscriptState.DrawChallengeBytes | crates/core/src/transcript.rs:62-76 | the digest of the printed history and query, fed back under its own tag |
| Transcript.ChallengeScalar | crates/core/src/transcript.rs:51-59 | a challenge is its digest read least significant byte first, modulo 2^252 + 27742317777372353535851937790883648493 |
| Transcript.PrintedEvents | crates/core/src/transcript.rs:23-76 | what each event adds to the bytes absorbed, tags and length frames in full |
| Transcript.PrintedQueries | crates/core/src/transcript.rs:14-76 | what precedes and follows the history when either kind of challenge is drawn |
| Transcript.RoundTrip | crates/core/src/transcript.rs:14-76 | parsing what was hashed gives back constructor label, history and query |
| Transcript.FramingInjective | crates/core/src/transcript.rs:14-76 | equal hash inputs come from equal labels, histories, query kinds and query labels |
| Transcript.LabelBoundExact | crates/core/src/transcript.rs:43-76 | bounding all query labels makes framing injective exactly when the bound is at most 0x74756F2D |
| Transcript.AmbiguousIff | crates/core/src/transcript.rs:43-76 | against transcripts whose query label avoids the excluded lengths, a label length is unambiguous exactly when it avoids them too |
| Transcript.BytCollision | crates/core/src/transcript.rs:43-76 | a challenge with a label of length 0x7479622D prints like a challenge_bytes query |
| Transcript.OutCollision | crates/core/src/transcript.rs:43-76 | a challenge with a label of length 0x74756F2D prints like an output followed by another query |
| BlobGas.ExcessExactIff | crates/evm/src/blob_gas.rs:13-20 | the 64-bit excess is the floored true excess exactly when the parent's sum fits |
| BlobGas.AcceptedBlocks | crates/evm/src/blob_gas.rs:26-52 | a block is accepted exactly when its excess follows from its parent and it used the gas of zero to six blobs; which error is reported otherwise |
| BlobGas.HeadersAccepted | crates/evm/src/blob_gas.rs:13-52 | headers computed from any blob counts up to six are an accepted chain, full blocks included |
| BlobGas.ExcessClosedForm | crates/evm/src/blob_gas.rs:13-52 | along an accepted chain the excess is the largest of the initial excess plus the whole surplus and all proper or empty suffix surpluses |
| BlobGas.GrowthBound | crates/evm/src/blob_gas.rs:22-52 | with a valid first block it grows by at most MAX - TARGET a block, so short enough chains never overflow |
| BlobGas.WholeBlobsPreserved | crates/evm/src/blob_gas.rs:22-52 | it stays a multiple of the blob size if it began as one, even across a wrap |
| MemoryExpansion.GasCostExactIff | crates/evm/src/memory_expansion.rs:12-14 | the 64-bit cost is exact precisely for fewer than 2^32 words |
| MemoryExpansion.FirstExpansionExactIff | crates/evm/src/memory_expansion.rs:8-23 | the first expansion is priced exactly for sizes up to 2^37 - 32 bytes and no others |
| MemoryExpansion.CostBounds | crates/evm/src/memory_expansion.rs:3-14 | the exact cost is 3 gas a word plus the square over 512 rounded down, words rounded up |
| MemoryExpansion.RequiredSizeLeast | crates/evm/src/memory_expansion.rs:25-28 | the required size is the least 64-bit size past the access, the largest if there is none, and 0 for an empty access |
| MemoryExpansion.AccessPricedIff | crates/evm/src/memory_expansion.rs:8-28 | a first access is priced exactly when it ends within 2^37 - 32 bytes, and not charged at all when it ends at 2^64 or beyond |
| MemoryExpansion.ExpansionExact | crates/evm/src/memory_expansion.rs:16-23 | within that limit the charge is the exact difference, never wrapping or going below zero |
| MemoryExpansion.ChargesTelescope | crates/evm/src/memory_expansion.rs:16-23 | charges against the running maximum sum to the cost of the final word count |
| MemoryExpansion.OrderIrrelevant | crates/evm/src/memory_expansion.rs:16-23 | reordering the accesses does not change the total |
| MemoryExpansion.ChargedForLeastCover | crates/evm/src/memory_expansion.rs:8-28 | from empty memory the total is the cost of the least number of words that holds every byte touched |

## Left out

- LimbChain.LimbBodyExact: limb and carry ranges are hypotheses, because the gadget declares no lookups.
- ExpAir.RowOkIff: beta is given apart from alpha, which the code does not do; `ExpCheck.LocalMixIff` is the statement for the code.
- ExpMeaning.AcceptedMeaning: limb and carry ranges are hypotheses, and acceptance is limb by limb; `ExpCheck.TracePassesIff` is the statement for the code.
- ExpAir.RowComputes: assumes that every limb body vanishes; the code's check gives `ExpForgery.CheckedCongruence` instead.
- ExpAir.ExpSound: assumes that every limb body vanishes, which the code's check does not imply; the probability that fifteen or fewer challenges mislead is not modelled.
- ExpAir.FinalOutputSound: the same assumption.
- ExpCheck.BuildOnDomain: division by x^n - 1, commitments and openings are left out; a polynomial is checked by vanishing on the domain.
- The field implementation, curve arithmetic and scalar serialisation: the field is the integers modulo a prime of which primality and size are hypotheses.
- Ntt.RootOfUnity: that the constant in the code generates the 2^32 subgroup is a hypothesis.
- ExpMultiTrace.PopulateMultiTrace: rows are appended one by one instead of written into preallocated columns.
- `evaluate_on_domain`, constraint labels and selector lists of the EXP gadget: restatements of the same bodies, or constants.
- Inspector.RowOrigin: stack operand, immediate, memory and auxiliary columns of a row are not modelled, nor is the right-aligned immediate of a PUSH cut off by the end of the code; the address created by CREATE comes with the event.
- ByteMemory.VerifyReadConsistency: error messages are reduced to the verdict; timestamps, and lengths of snapshots, are unbounded; `to_byte_memory_witness` is left out as a field-by-field copy.
- ByteMemory.ReplayByteMemoryAtSha3: like the code, one memory image for the whole trace, ignoring call frames; the Keccak digest itself is not modelled.
- ChunkedTrace.StreamingProver.ExecuteChunk: the VM is an abstract deterministic step on registers and pages, pages are hashed by an arbitrary function, and step counters are unbounded.
- ChunkedTrace.TraceStep: what a row holds beside its step number is whatever the step returns; the memory and auxiliary columns computed from registers are not modelled.
- FrameChecks.RunAcceptedIff: after one opcode at most one frame opens and one closes, as the interpreter fires its hooks.
- CallFrames.VerifyAllTransitions: error messages are reduced to the verdict.
- Transcript.AmbiguousIff: says nothing about transcripts that themselves use an excluded length.
- The inspector's hook methods other than `call`: each does one step of the machine the results are about.
- JumpSafety.JumpSafe: that jump rows are flagged and go where their operands say is a hypothesis, since neither check reads both.
- Transcript.RoundTrip: the hash is an arbitrary function with 32-byte digests; nothing is claimed about its collisions.
- Cross-AIR lookup descriptors, commitments, pairings, joint proving and verification, RPC and the executor: wiring between components that are not modelled, or external libraries.
- Fee, log, calldata, environment and account checks, and stack depth: one-row arithmetic and comparisons with no property across rows.
