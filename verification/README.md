# Piccard: a verified model

Piccard estimates the Jaccard similarity of two private sets.  Each party turns its
set into a MinHash signature, encodes the signature as a 0/1 feature vector, and
encrypts it in one packed BFV ciphertext.  A server multiplies the two ciphertexts
slot by slot, adds rotated copies of the product to itself until slot 0 holds the
number of matching positions, and returns that ciphertext.  Variants use a smaller
base-sqrt(m) encoding, evaluate a threshold polynomial on the count, maintain the
signature under inserts and deletes, or compare against a universe-sized indicator
baseline.  Around the protocol, the repository's benchmarks generate workloads,
record a binding execution trace, print and re-read canonical JSON, and fit
calibration data.

This project models that logic in Dafny and proves what it promises.  A ciphertext is
its slot vector modulo p together with its multiplicative depth.  Circuits, encoders,
polynomial evaluation, sketches, traces, printers and readers follow the C++ code
branch by branch; loops that update variables are methods with invariants, objects
with mutable fields are classes, and each method is proved against a function or a
predicate about which the main theorems are stated.

## Modules

| module | subject |
|---|---|
| `Num`, `Wrappers` | powers of two and residues; option, error and result types |
| `Bfv`, `RotateSum` | slot semantics under both packed layouts; the doubling loop |
| `Encoding`, `Circuits` | encoders and decoders; one-hot and sqrt circuits against the plaintext count |
| `Params` | bit smearing, trial division, plaintext modulus search, 32-bit range of the derivation |
| `ThresholdPoly`, `ThresholdDegree` | Lagrange interpolation modulo p; roots modulo a prime and the exact degree of the threshold polynomial |
| `PolyEval`, `PolyDepth` | Paterson-Stockmeyer value, depth, multiplication count; when the depth formula covers the circuit |
| `Protocol` | derivation, context, and the three protocols end to end |
| `Baseline` | indicator-vector baseline and its agreement with the exact Jaccard |
| `BottomStructures`, `ProbeWorkload` | the depth-d sketch over all update runs; probe batches with rebuilds; the dynamic protocol |
| `Subsets`, `DeletionSurvival` | counting subsets; exhaustion probability, survival, union bound and the greatest safe number of deletions |
| `CiphertextStore` | epoch compare-and-swap over all histories |
| `Trace`, `Codec`, `TraceCodec` | the trace builder and dispatch loop; byte formats; exact verifier |
| `Json`, `JsonReaders` | canonical printer and scanning readers |
| `LeastSquares`, `Statistics` | line fit, percentiles, medians, rotated schedule |
| `ReviewerWorkload`, `NoiseSelection`, `SquareTests` | workload generation, cheapest feasible cell, integer square tests |

## Where the code and its comments disagree

The model follows the code.

- The depth formula of `PatersonStockmeyerNaturalDepth` is described as matching
  `EvalPolyBFV`, and the tree comment bounds the output depth by the baby depth plus
  ceil(log2 chunks) (`src/fhe/bfv_context.cpp:641-647`).  Both can fail when a chunk uses
  a power below x^s that is deeper than x^s itself.  `PolyDepth` gives the exact condition
  for every polynomial, exact degree checks for polynomials without zero coefficients, and
  the exact degrees at which every polynomial exceeds the provision, because its highest
  power alone does (`PolyDepth.ExceedsExactly`): 55, 63, 131, 143 and 255 among them under
  Horner, 63 and 255 under the tree.  The threshold polynomial has degree exactly k for
  every threshold from 1 to k, because its leading coefficient is not 0 modulo a prime
  above k (`ThresholdDegree.LeadingCoefficient`), so at those k the threshold protocol is
  short of depth for each of them.  A deeper power in an earlier chunk does not decide: 128 and 256
  have one and are covered, as are all benchmark profiles.
- `MakeReviewerWorkload` says it picks the Jaccard nearest the target
  (`benchmarks/bench_comparison.cpp:133`).  It rounds the intersection, which is not the
  same; `ReviewerWorkload` gives the exact condition and a counterexample.  Its
  ties go up, those of the manifest's `TargetIntersection` go down.
- The sketch's signature stays exact only for fewer than d deletions since the last
  initialisation.  `BottomStructures` proves the budget exact and shows, for every
  d >= 2, runs of any number of deletions from d on that end unarmed with a wrong minimum.
  The rebuild flag can be trusted exactly below d deletions, or at depth one.
- The noise summary comments that a cell qualifies only if every input pattern clears it
  (`benchmarks/bench_noise.cpp:2325-2328`).  The loop keeps the headroom of the last
  pattern.  `NoiseSelection` gives the exact headrooms under which no failing pattern can
  hide: none is less than the last, or the last leaves no room even for the initial noise.
- `ExactSqrtBase` and `IsSqrtApplicable` accept every perfect square; the circuit can
  rotate by the root only when it is a power of two.
- The rotation of the foreign library is modelled for two layouts: one cyclic row, and
  two rows that a rotation by half the ring exchanges.  Every circuit theorem holds
  for both.  Rotation keys exist for powers of two only, as in
  `src/fhe/bfv_context.cpp:478-483`.
- Derivations multiply in 32 bits.  A derivation that succeeds has a ring that holds the
  true product, with 2N still a word, if and only if the product is at most 2^30.  Beyond
  that two things happen.  Where the wrapped product lies above 2^30 and up to 2^31, 2N
  wraps to 0 and the modulus search of the source does not end; everywhere else the
  derivation goes on from wrapped words and can succeed: k = m = 65536 gives feature
  dimension 0 and p = 65537 (`Params.WrappedProductAccepted`, `Protocol.DeriveWrapped`).

## Model

| member | source | states |
|---|---|---|
| Bfv.Context.SourceCompose | src/fhe/bfv_context.cpp:514-517 | rotating by a power of two and then by less is one rotation by the sum, in both slot layouts |
| Bfv.Context.SourceInBlock | src/fhe/bfv_context.cpp:514-517 | inside an aligned power-of-two block a rotation below the block size is a plain offset, in both layouts |
| RotateSum.RotateAndSum | benchmarks/baseline_engine.h:374-383 | the reassigning loop computes the doubling function at unchanged depth |
| RotateSum.DoubleWindows | benchmarks/baseline_engine.h:378-381 | the step of size s turns every slot's window sum of reach s into its window sum of reach 2s |
| RotateSum.Doubling | benchmarks/baseline_engine.h:374-383 | the loop from base to limit leaves in every slot the sum of the slots that the turns below limit bring there |
| Encoding.OneHotEncode | src/core/onehot_encoder.cpp:14-27 | wrong length is refused; otherwise, slot by slot, exactly the residue's slot of every entry is set, and the padding is zero |
| Encoding.SqrtEncode | src/core/sqrt_encoder.cpp:14-32 | wrong length is refused; otherwise, slot by slot, the first b slots of an entry hold its low digit and the next b its high digit, and the padding is zero |
| Encoding.OneHotDecode | src/core/onehot_encoder.cpp:29-51 | short features are refused; otherwise the first set slot of every block |
| Encoding.SqrtDecode | src/core/sqrt_encoder.cpp:34-66 | short features are refused; otherwise the residue with the first set digits of every block |
| Encoding.FirstSetExactly | src/core/onehot_encoder.cpp:29-51 | what a decoder reads in a block is the least set slot, and 0 without one |
| Encoding.DecodeEncode | src/core/sqrt_encoder.cpp:14-66 | decoding block i of an encoded signature gives entry i modulo m, for both encodings |
| Encoding.FeatureDeterminesResidues | src/core/onehot_encoder.cpp:14-27 | two signatures have the same feature if and only if all their residues agree |
| Encoding.ValidateFeature | benchmarks/bench_review_comparison.cpp:744-766 | the check accepts exactly the padded encoding of a signature of length k |
| Encoding.BucketMatchCount | include/core/threshold_truth.h:28-37 | the loop counts the positions over the common length whose residues agree, as a set cardinality |
| Encoding.MatchCountIsCardinality | include/core/threshold_truth.h:28-37 | the match count is the number of positions whose residues agree |
| Circuits.EvaluateOneHot | benchmarks/bench_onehot_sqrt.cpp:130-141 | at one level above its inputs, slot 0 of the result is the sum of all slot products modulo p; on encrypted features of any m it is the match count modulo p |
| Circuits.EvaluateSqrt | benchmarks/bench_onehot_sqrt.cpp:173-198 | at two levels above its inputs, on encrypted two-digit features for m = b*b slot 0 of the result is the match count modulo p |
| Circuits.OneHotCircuitIsDot | benchmarks/baseline_engine.h:279-299 | slot 0 of multiply and rotate-and-sum on encrypted bits is their inner product modulo p |
| Circuits.OneHotExact | src/protocol/piccard.cpp:57-73 | slot 0 is the match count modulo p, for every k, m, ring and pair of signatures |
| Circuits.AndedIsMeet | benchmarks/bench_onehot_sqrt.cpp:186-190 | after the digit AND every block head is exact, whatever the other slots hold |
| Circuits.SqrtExact | src/protocol/sqrt_piccard.cpp:57-102 | for every power-of-two b with m = b*b and every ring of at least 2b*k slots, slot 0 is the match count modulo p |
| Circuits.CircuitsAgree | benchmarks/bench_onehot_sqrt.cpp:130-198 | both circuits, each with its own encoding, ring and modulus above 2k, decode to the same match count |
| Circuits.CircuitDepths | src/protocol/sqrt_piccard.cpp:57-102 | the circuits consume one and two multiplications of depth |
| Circuits.DecodedExactly | src/fhe/bfv_context.cpp:492-498 | a count below p/2 survives reduction and centred decoding |
| Params.NextPowerOf2 | src/util/params.cpp:207-216 | bit smearing gives the least power of two not below n, and wraps to 0 above 2^31 |
| Params.RingDimFor | src/util/params.cpp:783-788 | the ring dimension is the least power of two covering the features and the security minimum of 1024, 8192, 16384 or 32768 |
| Params.DerivationRange | src/util/params.cpp:783-792 | for every 32-bit product, also a wrapped one: the derived ring holds the true product and 2N is a word if and only if the product is at most 2^30; 2N wraps to 0 exactly for low words above 2^30 and up to 2^31 |
| Params.WrappedProductAccepted | src/util/params.cpp:783-798 | k = m = 65536 wraps to feature dimension 0, and the search over the smallest secure ring succeeds with 65537 |
| Params.IsPrime | src/util/params.cpp:231-239 | trial division by 2, 3 and 6k-1, 6k+1 decides primality |
| Params.WheelTurn | src/util/params.cpp:235-237 | the two divisions of one turn exclude all six candidates |
| Params.FindPlaintextModulus | src/util/params.cpp:241-253 | the least prime above the minimum that is 1 modulo 2N, or an error when no multiplier below a million gives one |
| Params.RoomBelowHalf | benchmarks/baseline_engine.h:61-67 | p = 1 modulo 2N leaves counts up to N below p/2 |
| ThresholdPoly.EvalPolyPlaintext | src/core/threshold_poly.cpp:44-52 | Horner with reductions gives the value modulo p |
| ThresholdPoly.ModInverse | src/core/threshold_poly.cpp:23-42 | exactly the multiples of p are refused; the result in 0..p-1 is the inverse if and only if value and p are coprime |
| ThresholdPoly.InvariantStep | src/core/threshold_poly.cpp:31-39 | a Euclidean step keeps the divisors, the Bezout identities and coefficient products within p |
| ThresholdPoly.EvalTimesLinear | src/core/threshold_poly.cpp:125-138 | the coefficient update multiplies the polynomial by one linear factor |
| ThresholdPoly.LagrangeBasis | src/core/threshold_poly.cpp:117-139 | for p above the range without a divisor in 2..range, 1 at point i and 0 at every other point; success needs p above i, and every divisor of p in 2..i divides the value at i |
| ThresholdPoly.BuildThresholdPoly | src/core/threshold_poly.cpp:54-148 | moduli below 2 and thresholds above k+1 are refused; for p above k without a divisor in 2..k, prime or not, the polynomial is the step function on 0..k; for every other p the threshold k ends in an error or misses the step |
| ThresholdDegree.ManyRoots | src/core/threshold_poly.cpp:54-148 | modulo a prime, a polynomial with as many distinct roots as coefficients vanishes everywhere |
| ThresholdDegree.LeadingCoefficient | src/core/threshold_poly.cpp:54-148 | for a prime above k and every threshold from 1 to k, the polynomial's coefficient of x^k is not 0 modulo p |
| PolyEval.BabySteps | src/fhe/bfv_context.cpp:568-578 | entry j is x^j in every slot, at the depth of the power tree |
| PolyEval.EvaluateChunk | src/fhe/bfv_context.cpp:589-628 | one chunk's value in every slot, including all-zero chunks and constants, at its exact depth |
| PolyEval.HornerGiantStep | src/fhe/bfv_context.cpp:631-639 | the whole polynomial, at the Horner depth, with chunks-1 multiplications |
| PolyEval.CombineTree | src/fhe/bfv_context.cpp:654-665 | the recursive split computes its range of chunks, at the tree depth |
| PolyEval.EvalPolyBFV | src/fhe/bfv_context.cpp:541-666 | the polynomial's value in every slot, at the exact depth, with the counted giant-step multiplications; only the empty polynomial is refused |
| PolyEval.EvalIsPowerSum | src/core/threshold_poly.cpp:44-52 | the polynomial's value is the sum of its coefficients times powers |
| PolyEval.PatersonStockmeyerNaturalDepth | src/util/params.cpp:743-768 | the provisioning loops compute the depth formula |
| PolyDepth.HornerDepthCovered | src/util/params.cpp:762-768 | the provisioned depth covers the Horner circuit if and only if chunk i is at most count-1-i levels deeper than x^s |
| PolyDepth.TreeDepthCovered | src/util/params.cpp:762-768 | the same for the tree, where chunk i is multiplied once per set bit of i |
| PolyDepth.HornerCoverageByDegree | src/util/params.cpp:762-768 | a check on the degree alone is sound for every polynomial and exact without zero coefficients |
| PolyDepth.TreeCoverageByDegree | src/util/params.cpp:762-768 | the same for the tree |
| PolyDepth.HornerExceeds | src/util/params.cpp:762-768 | any polynomial whose leading coefficient needs a power deeper than x^s exceeds the Horner provision |
| PolyDepth.TreeExceeds | src/util/params.cpp:762-768 | the same for the tree, where the last chunk also pays one level per set bit of its index |
| PolyDepth.ExceedsExactly | src/util/params.cpp:762-768 | every polynomial of exact degree n exceeds the provision if and only if its highest power alone does, under either giant step |
| PolyDepth.DepthCovered | src/util/params.cpp:762-768 | under either giant step the depth stays within the provision if and only if every chunk has room |
| PolyDepth.DeepDegrees | src/util/params.cpp:762-768 | degrees 55, 63, 131, 143 and 255 exceed under Horner, 63 and 255 under the tree |
| PolyDepth.ProfileDegreesCovered | src/util/params.cpp:794-798 | the k of the benchmark profiles are covered under Horner |
| PolyDepth.TreeProfilesCovered | src/util/params.cpp:794-798 | all six profile values of k are covered under the tree, with the depth provisioned for each |
| Protocol.DeriveWithoutFlooding | src/util/params.cpp:778-800 | the invalid shapes are refused; a successful derivation, from wrapped words too, holds the true product if and only if it is at most 2^30, and then packs the features and leaves the match count unambiguous; any other error means that the search found no modulus |
| Protocol.SearchEndsExactly | src/util/params.cpp:783-792 | the search ends exactly when twice the derived ring is not 0 in 32 bits |
| Protocol.DeriveWrapped | src/util/params.cpp:778-800 | the derivation accepts k = m = 65536 with feature dimension 0, a ring smaller than k*m and p = 65537 |
| Protocol.PowerOfTwoTest | src/util/params.cpp:817-819 | m and (m-1) vanishes on exactly the powers of two |
| Protocol.IsSqrtValid | benchmarks/bench_comparison.cpp:600-605 | accepts exactly the shapes the sqrt derivation accepts |
| Protocol.DeriveSqrtWithoutFlooding | src/util/params.cpp:812-846 | refuses every other m; a successful derivation, from wrapped words too, holds 2*base*k slots if and only if that is at most 2^30, and then has a power-of-two base with base squared m |
| Protocol.InitializeContext | src/fhe/bfv_context.cpp:319-389 | for any parameter set: opens exactly when p packs the planned ring, the larger of the configured one and the one covering the features, and the realised ring; the context carries features and counts exactly when the ring holds the features and 2k is below p, as for every derived set |
| Protocol.CountThresholdIsJaccardThreshold | include/core/threshold_truth.h:14-23 | a count reaches tau if and only if its corrected Jaccard reaches that of tau |
| Protocol.CorrectionEstimates | src/protocol/piccard.cpp:80-97 | the clamped bias correction, without division: estimate times k(m-1) is vm-k between the clamps |
| Protocol.EstimateInverts | src/protocol/piccard.cpp:80-97 | if the counted rate is j + (1-j)/m for a Jaccard j, the estimate is j |
| Protocol.RunPiccard | src/protocol/piccard.cpp:100-107 | the decrypted count is the number of agreeing positions; the estimate is 0 up to k/m matches, 1 for k, linear between, and equals every Jaccard whose collision rate was counted; wrong lengths are refused |
| Protocol.RunSqrtPiccard | src/protocol/sqrt_piccard.cpp:128-135 | the same count and estimate from the smaller encoding |
| Protocol.EvaluateThreshold | src/protocol/threshold_piccard.cpp:24-43 | slot 0 is the polynomial at the match count, at one depth plus the evaluator's |
| Protocol.RunThresholdPiccard | src/protocol/threshold_piccard.cpp:58-64 | the decision is exactly match count >= tau for every tau up to k+1, both giant steps and both layouts; with the provisioned depth its ciphertext stays within multDepth if and only if every chunk of its polynomial has room: always when the degree k is covered, never for thresholds from 1 to k when the highest power is too deep |
| Protocol.ThresholdDepthExceeds | src/util/params.cpp:762-798 | at every k whose highest power is too deep, every threshold polynomial from 1 to k needs more depth than the derivation provides |
| Protocol.ThresholdDepthCovered | src/util/params.cpp:762-798 | for a covered degree every threshold polynomial fits the provision |
| Baseline.BaselineParams.Validate | benchmarks/baseline_engine.h:50-71 | empty universes are refused; for every other 32-bit universe the adopted ring, modulus and chunk count, which cover the universe if and only if it is at most 2^30; an error means that the search found no modulus |
| Baseline.BaselineParams.AdoptRuntimeRingDim | benchmarks/baseline_engine.h:73-90 | accepts exactly the covering powers of two after validation, and keeps the coverage |
| Baseline.EncodeBinaryVectors | benchmarks/baseline_engine.h:246-264 | an element outside the universe is refused; otherwise the chunks mark exactly the set, duplicates included |
| Baseline.CommonIsCardinality | benchmarks/baseline_engine.h:277-278 | counting common elements below a covering limit gives the cardinality of the intersection |
| Baseline.InnerProductCounts | benchmarks/baseline_engine.h:279-299 | slot 0 of the aggregated chunks is the number of common elements modulo p, for any number of chunks |
| Baseline.IntersectionDecodes | benchmarks/baseline_engine.h:277-325 | with twice the universe below p the decoded slot is the exact intersection |
| Baseline.CommonCount | benchmarks/baseline_engine.cpp:82-131 | encoding, encryption, aggregation and decryption give the cardinality of the intersection; an outsider is an error |
| Baseline.BaselineEngine.InitializeContextOnly | benchmarks/baseline_engine.cpp:39-59 | opens exactly once, after validation, when p packs the planned and the realised ring and the realised ring is a power of two covering the universe, which is adopted; a refusal changes nothing |
| Baseline.BaselineEngine.InitializeKeys | benchmarks/baseline_engine.cpp:61-75 | keys are generated exactly once, after the context |
| Baseline.BaselineEngine.RunQueryPhased | benchmarks/baseline_engine.cpp:82-131 | refuses an unready engine and elements outside the universe; otherwise the exact intersection, also of lists with duplicates, and its share of the computed union, 1 when that is 0 |
| Baseline.ExactJaccard | benchmarks/bench_comparison.cpp:73-84 | the counting loop gives a value whose product with the union size is the intersection size, and 1 for two empty sets |
| Baseline.QueryJaccardExact | benchmarks/baseline_engine.cpp:123-130 | the query's Jaccard equals the exact one if and only if the sets are disjoint or neither list has duplicates |
| BottomStructures.InsertKnows | src/core/bottom_structure.cpp:73-88 | inserting keeps the c smallest known, also when it evicts the largest |
| BottomStructures.DeleteKnows | src/core/bottom_structure.cpp:51-62 | deleting costs at most one known entry; an absent hash changes nothing |
| BottomStructures.FullKnowledgeUnique | src/core/bottom_structure.cpp:22-39 | the list of the d smallest is determined by the set: order and duplicates of the input do not matter |
| BottomStructures.RunKnows | src/core/bottom_structure.cpp:22-62 | over every admissible run with fewer than d deletes no operation is refused, and every row knows d minus deletes of the smallest |
| BottomStructures.FewDeletesFaithful | src/core/bottom_structure.cpp:64-71 | such a run ends usable, with the least hash of the current set in every coordinate |
| BottomStructures.DeleteBudget | src/core/bottom_structure.cpp:42-71 | for every d and n: all admissible runs with n deletes end usable and right if and only if n is below d |
| BottomStructures.SilentlyStale | src/core/bottom_structure.cpp:42-71 | for every d >= 2 and every n >= d some run with n deletes ends unarmed with a wrong signature |
| BottomStructures.FlagBudget | src/core/bottom_structure.cpp:42-71 | for every d and n: all admissible runs with n deletes that end unarmed end with the right signature if and only if n is below d or d is one |
| BottomStructures.ShortBatchKeepsSignature | benchmarks/bench_dynamic.cpp:1255-1280 | inserting fewer than d new elements and deleting them again preserves the signature |
| ProbeWorkload.BottomStructure.Initialize | src/core/bottom_structure.cpp:22-39 | empty sets are refused; otherwise every row is rebuilt from the whole list and the flag is cleared |
| ProbeWorkload.BottomStructure.Insert | src/core/bottom_structure.cpp:42-48 | refused exactly while armed; otherwise every row takes the hash |
| ProbeWorkload.BottomStructure.Delete | src/core/bottom_structure.cpp:51-62 | refused exactly while armed; otherwise every row drops the hash, and an empty row arms the flag |
| ProbeWorkload.BottomStructure.GetSignature | src/core/bottom_structure.cpp:64-71 | refused exactly while armed; otherwise the first entry of every row |
| ProbeWorkload.RunProbeWorkload | benchmarks/dynamic_probe_workload.cpp:8-71 | on a usable structure no operation of the batch is ever refused, for any hash family, owner set and batch |
| ProbeWorkload.DeleteIteration | benchmarks/dynamic_probe_workload.cpp:50-67 | at every delete, after the guard, each row is the ascending list of the smallest hashes of owner and remaining probes, with 1 to d entries |
| ProbeWorkload.RebuildBound | benchmarks/dynamic_probe_workload.cpp:50-67 | probes that share no hash: d times the number of rebuilds is at most the number of operations minus one |
| ProbeWorkload.RichOwnerBound | benchmarks/dynamic_probe_workload.cpp:50-67 | the same bound for colliding probes, when the owner has d distinct hashes in every row |
| ProbeWorkload.RebuildBudget | benchmarks/dynamic_probe_workload.cpp:50-67 | for every d and c: the bound holds for all hash families and owners with at least c distinct hashes in every row if and only if c is at least d |
| ProbeWorkload.ConstantHashRebuilds | benchmarks/dynamic_probe_workload.cpp:50-67 | with one hash value for everything every delete but the first rebuilds, for every depth and batch size of at least two |
| ProbeWorkload.ProbeRestoresSignature | benchmarks/dynamic_probe_workload.cpp:50-67 | a batch that ends unarmed signs again for exactly the owner's set |
| ProbeWorkload.ComputeSignature | src/core/minhash.cpp:80-115 | empty sets are refused; otherwise the least hash in every coordinate |
| ProbeWorkload.DynamicSignsLikeStatic | src/core/bottom_structure.cpp:64-71 | with fewer than d deletes the sketch signs like the static hasher on the current members |
| ProbeWorkload.RunDynamic | src/protocol/dynamic_piccard.cpp:27-54 | foreign seeds and armed structures are refused; otherwise the match count of the two current signatures, with its estimate |
| Subsets.CountSubsets | src/analysis/deletion_survival.cpp:20-33 | the binomial coefficient counts the subsets of a finite set with k elements |
| Subsets.CountLists | src/analysis/deletion_survival.cpp:35-44 | a family has its size to the power k lists of k members |
| DeletionSurvival.BottomExhaustionProbability | src/analysis/deletion_survival.cpp:20-33 | bad configurations are refused; otherwise the loop gives the exhaustion product, a probability |
| DeletionSurvival.ExhaustionIsFraction | src/analysis/deletion_survival.cpp:20-33 | the product is the fraction of all d-member subsets that lie inside the deleted members |
| DeletionSurvival.EmptiedRow | src/analysis/deletion_survival.cpp:20-33 | deleting hashes one by one empties a row if and only if its members form one of the counted subsets |
| DeletionSurvival.ExhaustionRange | src/analysis/deletion_survival.cpp:20-33 | exhaustion is impossible exactly below d deletions and certain exactly when every member is deleted |
| DeletionSurvival.SurvivalMono | src/analysis/deletion_survival.cpp:35-44 | survival never rises with more deletions |
| DeletionSurvival.SurvivalRange | src/analysis/deletion_survival.cpp:35-44 | survival is certain exactly below d deletions and impossible exactly when every member is deleted |
| DeletionSurvival.SurvivalIsFraction | src/analysis/deletion_survival.cpp:35-44 | survival is the fraction of all choices of k bottom rows of which none lies inside the deleted members |
| DeletionSurvival.UnionBoundCounts | src/analysis/deletion_survival.cpp:46-51 | the bound takes k times the exhausted rows from all rows, down to 0 |
| DeletionSurvival.SumIsExpectation | src/analysis/deletion_survival.cpp:73-79 | the sum of the survivals is the mean number of the first failing deletion |
| DeletionSurvival.UnionBoundBelow | src/analysis/deletion_survival.cpp:46-51 | the union bound never exceeds the survival, and meets it if and only if there is one hash, fewer than d deletions, or no member left |
| DeletionSurvival.AnalyzeDeletionSurvival | src/analysis/deletion_survival.cpp:53-80 | the binary search finds the greatest count that survives as required, from d-1 up and below the set size, and d-1 exactly when certainty is required; the expected first failure is the mean of the failing deletion's number, between d and the set size |
| DeletionSurvival.SingleHashMean | src/analysis/deletion_survival.cpp:73-79 | with one hash function the expected first failure is d(n+1)/(d+1) |
| CiphertextStore.OpenStore | src/protocol/dynamic_ciphertext_store.cpp:94-114 | opens exactly on two envelopes of distinct owners at epoch 0, with equal bindings and, field by field, the codec's fingerprints and the two model names |
| CiphertextStore.DynamicCiphertextStore.TryReplace | src/protocol/dynamic_ciphertext_store.cpp:116-152 | accepts exactly a next-epoch request for a known owner under the codec's identity and the owner's binding; replaces that envelope exactly at the current epoch, reports stale and future epochs, and changes nothing else |
| CiphertextStore.HistoryKeeps | src/protocol/dynamic_ciphertext_store.cpp:116-152 | over every history owners and bindings never change, and an epoch is its start plus the number of wins |
| CiphertextStore.HistoryBinds | src/protocol/dynamic_ciphertext_store.cpp:94-157 | over every history both stored envelopes carry the codec's own fingerprints and the two model names |
| CiphertextStore.WinnerExpects | src/protocol/dynamic_ciphertext_store.cpp:116-152 | epochs are handed out without gaps |
| CiphertextStore.OneWinnerPerEpoch | src/protocol/dynamic_ciphertext_store.cpp:116-152 | no two requests of one owner win the same epoch, and wins are in epoch order |
| CiphertextStore.StoredIsLastWin | src/protocol/dynamic_ciphertext_store.cpp:116-157 | what is stored for an owner is its last winning replacement, or the initial envelope |
| Codec.OrderedRnsBytes | benchmarks/bench_fhe_ind.cpp:751-761 | the loop writes the length-prefixed stream |
| Codec.WordBytes | benchmarks/bench_fhe_ind.cpp:751-761 | a 32-bit word is written most significant byte first |
| Codec.TextLayout | benchmarks/bench_fhe_ind.cpp:751-761 | a string is its length modulo 2^32 in four bytes and then its bytes |
| Codec.ModulusListInjective | benchmarks/bench_fhe_ind.cpp:751-761 | lists of strings below 2^32 bytes with the same stream are equal |
| Codec.LongStringCollides | benchmarks/bench_fhe_ind.cpp:751-761 | a string of 2^32 zero bytes has the stream of 2^30 + 1 empty strings |
| Codec.InjectiveExactly | benchmarks/bench_fhe_ind.cpp:751-761 | for every limit: lists of strings shorter than it have different streams if and only if it is at most 2^32 |
| Codec.Reader.BE32 | benchmarks/comparison_workload.cpp:578-583 | fails exactly on fewer than four bytes; otherwise the word whose encoding is consumed |
| Codec.Reader.String | benchmarks/comparison_workload.cpp:592-599 | fails exactly when the rest starts with no encoded string; otherwise consumes that string |
| Trace.ExecutionOrder | benchmarks/comparison_workload.cpp:932-943 | an empty method list is refused; otherwise entry i is method seed + i, counted cyclically |
| Trace.ExecutionTrace.BeginRecord | benchmarks/comparison_workload.cpp:1024-1034 | accepts exactly a trial equal to the next manifest trial in every compared field, on an open, idle trace |
| Trace.ExecutionTrace.AppendDispatch | benchmarks/comparison_workload.cpp:1036-1045 | accepts exactly the next method of the cyclic order |
| Trace.ExecutionTrace.CompleteRecord | benchmarks/comparison_workload.cpp:1047-1055 | closes exactly a fully dispatched record |
| Trace.ExecutionTrace.FailRecord | benchmarks/comparison_workload.cpp:1057-1067 | closes and terminates exactly after a dispatch |
| Trace.RunTrials | benchmarks/bench_review_comparison.cpp:1645-1685 | the trace stands for exactly the adapter calls made, a prefix of the plan ending at the first failure, which terminates it |
| Trace.PlanAt | benchmarks/bench_review_comparison.cpp:1645-1685 | call number i*n + j of the plan is for trial i and method seed + j, counted cyclically |
| Trace.ObservedAt | benchmarks/bench_review_comparison.cpp:1671-1675 | an aggregate holds every successful call of its method and kind once, at the place given by how many came earlier |
| Trace.PlanObserved | benchmarks/bench_review_comparison.cpp:1671-1675 | on a successful run every method has one observation per trial of the kind |
| Trace.SuccessCounts | benchmarks/bench_review_comparison.cpp:1635-1678 | every timing and accuracy aggregate ends with exactly its trial count |
| TraceCodec.RecordUnique | benchmarks/comparison_workload.cpp:1083-1090 | the encoding of a closed record is prefix-free |
| TraceCodec.RecordLayout | benchmarks/comparison_workload.cpp:1083-1090 | the bytes of a record: kind and status codes, three words, names |
| TraceCodec.TraceLayout | benchmarks/comparison_workload.cpp:1069-1093 | the bytes of a trace: domain, zero byte, digest, numbers of trials and records, records |
| TraceCodec.PublishableExactly | benchmarks/comparison_workload.cpp:1069-1150 | record by record: each names its trial and a cyclic prefix of the methods, complete ones all, a failed one at least one and only at the end; without a failure every trial is there |
| TraceCodec.ReadRecord | benchmarks/comparison_workload.cpp:1115-1138 | reads a closed record, or fails exactly when the stream starts with none |
| TraceCodec.VerifyExecutionTrace | benchmarks/comparison_workload.cpp:1101-1150 | accepts the encodings of the publishable traces of its workload and nothing else |
| TraceCodec.SerializeAndVerify | benchmarks/comparison_workload.cpp:1069-1093 | refused exactly for open or unfinished traces; its own verification always accepts |
| Json.JsonEscape | benchmarks/bench_fhe_ind.cpp:134-156 | the quoted string, from which the grammar of RFC 8259 reads every character back in order |
| Json.EscapesExactly | benchmarks/bench_fhe_ind.cpp:134-156 | exactly quote, backslash and the characters below 32 are escaped, five of them in two characters, the others in six |
| Json.QuotedDecodes | benchmarks/bench_fhe_ind.cpp:134-156 | printing and reading a string by section 7 of RFC 8259 is the identity for all strings, control characters included |
| Json.LessExactly | benchmarks/bench_fhe_ind.cpp:201-216 | the key order is decided at the first difference, a proper prefix coming first |
| Json.CanonicalJsonObject.Add | benchmarks/bench_fhe_ind.cpp:170-174 | refuses exactly a present key; otherwise adds the field in key order |
| Json.CanonicalOrder | benchmarks/bench_fhe_ind.cpp:201-216 | the printed fields do not depend on the order they were added in |
| Json.CanonicalJsonObject.Serialize | benchmarks/bench_fhe_ind.cpp:201-212 | the loop prints the fields in key order |
| Json.PrintJoins | benchmarks/bench_fhe_ind.cpp:201-212 | the members of two lists are joined by one comma inside the braces |
| Json.PrintSmall | benchmarks/bench_fhe_ind.cpp:201-212 | no field prints as braces, one as its quoted key, colon and text in braces |
| Json.ArrayJoins | benchmarks/bench_fhe_ind.cpp:189-199 | the entries of two arrays are joined by one comma inside the brackets |
| Json.KeySearchExact | benchmarks/bench_fhe_ind.cpp:550-559 | in a flat object the token of a key occurs exactly once, directly in front of its value |
| Json.KeySearchFails | benchmarks/bench_fhe_ind.cpp:550-559 | the search fails for every identifier that is no key |
| JsonReaders.JsonStringField | benchmarks/bench_fhe_ind.cpp:561-592 | the scanning loop returns the specified string or rejects |
| JsonReaders.EscapeTable | benchmarks/bench_fhe_ind.cpp:561-592 | the eight escapes that are read, with their characters, and that no other is |
| JsonReaders.StringFieldExact | benchmarks/bench_fhe_ind.cpp:561-592 | a printed string reads back exactly when its control characters are only newline, return and tab; otherwise it is refused |
| JsonReaders.StoredStringReads | benchmarks/bench_fhe_ind.cpp:168-592 | a string stored anywhere in a key-ordered flat object reads back from the printed object, exactly when it is readable |
| JsonReaders.AddThenRead | benchmarks/bench_fhe_ind.cpp:168-592 | adding a string, printing and reading it back gives the string, or refuses a present key or an unreadable string |
| JsonReaders.JsonScalarField | benchmarks/bench_fhe_ind.cpp:594-612 | the skipping, searching and trimming loops return the specified scalar or reject |
| JsonReaders.ScalarReads | benchmarks/bench_fhe_ind.cpp:594-612 | blanks in front and spaces, tabs and returns behind a scalar are dropped, up to the first comma, closing brace or newline |
| JsonReaders.ScalarFieldExact | benchmarks/bench_fhe_ind.cpp:594-612 | a field's text reads back as a scalar if and only if it has no stop character and no outer white space |
| JsonReaders.JsonStringArrayField | benchmarks/bench_fhe_ind.cpp:628-678 | the nested scanning loops return the specified list or reject |
| JsonReaders.ArrayReads | benchmarks/bench_fhe_ind.cpp:628-640 | blanks in front of the bracket are skipped |
| JsonReaders.GapsSkipped | benchmarks/bench_fhe_ind.cpp:628-678 | blanks and commas around array entries are skipped |
| JsonReaders.EntryEscapes | benchmarks/bench_fhe_ind.cpp:655-668 | in an array entry only quote, backslash and slash may be escaped |
| JsonReaders.ArrayFieldExact | benchmarks/bench_fhe_ind.cpp:628-678 | a printed array reads back exactly when no entry has a control character; otherwise it is refused |
| JsonReaders.ObjectsAreFlat | benchmarks/bench_fhe_ind.cpp:168-216 | strings, numbers, booleans and arrays under identifier keys form a flat object |
| LeastSquares.FitLinear | benchmarks/bench_sj16_calibrate.cpp:379-407 | for x not all equal: the normal equations and least squared error among all lines; (1 - R^2) times the squared deviations of y is the squared error, and R^2 times Sxx*Syy is Sxy^2; constant y give 1, points on a line that line; otherwise the zero fit |
| LeastSquares.ErrorSplits | benchmarks/bench_sj16_calibrate.cpp:397-404 | any other line's squared error is the fit's plus the squared gap |
| LeastSquares.FitIsOptimal | benchmarks/bench_sj16_calibrate.cpp:379-407 | no line does better, and none other does as well |
| LeastSquares.ExplainedSpread | benchmarks/bench_sj16_calibrate.cpp:397-405 | the squared deviations of y are the squared error plus slope squared times those of x |
| LeastSquares.ExactLine | benchmarks/bench_sj16_calibrate.cpp:379-407 | points on a line are fitted by that line, with no error |
| Statistics.PercentileInRange | benchmarks/bench_sj16_calibrate.cpp:344-353 | percentiles stay between minimum and maximum |
| Statistics.PercentileMonotone | benchmarks/bench_sj16_calibrate.cpp:344-353 | percentiles are monotone in p |
| Statistics.PercentileInterpolates | benchmarks/bench_sj16_calibrate.cpp:344-353 | between two neighbouring places the percentile is linear |
| Statistics.QuartilesOrdered | benchmarks/bench_sj16_calibrate.cpp:362-370 | q1, median and q3 are ordered and the range is not negative |
| Statistics.MedianIqr | benchmarks/bench_sj16_calibrate.cpp:362-370 | sorts a copy; for n = 4h+1+w samples q1 lies w quarters of the way from sample h to the next, q3 the mirror image, the median midway, and iqr is their distance |
| Statistics.SummaryPermutation | benchmarks/bench_sj16_calibrate.cpp:362-370 | the summary does not depend on the order of the samples |
| Statistics.MedianIsMiddle | benchmarks/bench_crossover.cpp:175-181 | the 0.5 percentile is the middle sample or the mean of the two middle samples |
| Statistics.Median | benchmarks/bench_crossover.cpp:175-181 | sorts in place and returns half the sum of the samples around the middle, 0 for none |
| Statistics.TrialSweepsOnce | benchmarks/bench_sj16_calibrate.cpp:466-468 | each trial visits every size exactly once |
| Statistics.PositionsBalance | benchmarks/bench_sj16_calibrate.cpp:466-468 | in any nsz consecutive trials every size takes every position exactly once |
| Statistics.RotatesByOne | benchmarks/bench_sj16_calibrate.cpp:466-468 | the first trial goes in order, every further one starts one size later |
| Statistics.TrialSeedsDiffer | benchmarks/bench_sj16_calibrate.cpp:470-472 | seeds of a size advance by 1009 modulo 2^64, and no two of its first 2^64 trials share one |
| Statistics.SeedsDiffer | benchmarks/bench_sj16_calibrate.cpp:452-470 | different sizes start from different seeds, and a warm-up from another one than its first trial |
| Statistics.MeasureQueriesSamples | benchmarks/bench_sj16_calibrate.cpp:443-483 | after the warm-up pass the rotated loops collect, for each size, entry t as the time of its t-th trial under that trial's seed, and the raw series hold every time with its seed, once per occurrence of the size |
| Statistics.SeriesOnce | benchmarks/bench_sj16_calibrate.cpp:443-483 | the raw series of a size that is listed once, entry by entry |
| ReviewerWorkload.RoundingBound | benchmarks/bench_comparison.cpp:137-157 | rounding the intersection moves the Jaccard by at most 1/n |
| ReviewerWorkload.NearestExactly | benchmarks/bench_comparison.cpp:133-142 | the rounded intersection is nearest in Jaccard if and only if it was rounded down or the target is past the middle of the two neighbouring values |
| ReviewerWorkload.NotAlwaysNearest | benchmarks/bench_comparison.cpp:133-142 | one element and target 0.4 give Jaccard 1 although 0 is closer |
| ReviewerWorkload.MakeReviewerWorkload | benchmarks/bench_comparison.cpp:134-170 | fails exactly when the 64-bit union size exceeds the universe, for targets outside 0..1 too; otherwise two lists of n distinct elements with the recorded counts, within 1/n of a target in 0..1 |
| ReviewerWorkload.TargetIntersection | benchmarks/comparison_workload.cpp:409-423 | the integer rounding is the nearest integer, halves down, and fails exactly when that exceeds n, so never for targets up to one |
| ReviewerWorkload.TargetRounds | benchmarks/comparison_workload.cpp:409-423 | in reals: a nearest integer to the ideal intersection, so the 1/n bound applies |
| NoiseSelection.FoldRows | benchmarks/bench_noise.cpp:2342-2358 | a cell exists for exactly the measured keys, with log q and headroom of the key's last row, the largest noise of all its rows or -1, and the flags of all |
| NoiseSelection.FeasibleExactly | benchmarks/bench_noise.cpp:2348-2367 | a cell is feasible if and only if every row clears the last row's headroom, and so does the initial noise |
| NoiseSelection.FeasibleMeansEveryRow | benchmarks/bench_noise.cpp:2348-2367 | where no row has less headroom than the last, every measured pattern of a feasible cell clears its own |
| NoiseSelection.HidesNoneExactly | benchmarks/bench_noise.cpp:2348-2367 | for every demand and headrooms: no measurements make a feasible cell hide a failing row if and only if no headroom is less than the last, or the last leaves no room for the initial noise |
| NoiseSelection.HeadroomsHonest | benchmarks/bench_noise.cpp:2348-2367 | over all demands: if and only if no headroom is less than the last; over demands that are not negative: or the last is below 1 |
| NoiseSelection.LastHeadroomDecides | benchmarks/bench_noise.cpp:2348-2367 | an instance: headrooms 5 and 100, where a feasible cell hides a failing first row |
| NoiseSelection.SelectCheapest | benchmarks/bench_noise.cpp:2360-2381 | a group is held exactly when it has a feasible cell, and then with the least (log q, worst noise), in any visiting order |
| NoiseSelection.Summarise | benchmarks/bench_noise.cpp:2342-2381 | in terms of rows: a group is reported exactly when a key of it qualifies; the reported cell carries its last row's log q and headroom and its worst noise, no qualifying key of the group is cheaper, and it can hide no failing pattern if and only if none of its rows has less headroom than the last |
| SquareTests.IsSqrtApplicable | benchmarks/benchmark_profile.cpp:102-107 | true exactly on the positive perfect squares |
| SquareTests.ExactSqrtBase | benchmarks/bench_review_comparison.cpp:552-559 | succeeds on exactly the same m, with the root |
| SquareTests.RootFits | benchmarks/benchmark_profile.cpp:104-106 | the guard keeps the 32-bit product of the loop test below 2^32 for every root it admits; a root whose square is below m is below 2^16, and the final 64-bit product is at most 2^32 |
| SquareTests.CrossoverBase | benchmarks/bench_crossover.cpp:236-240 | the shifting loop computes the derivation's base, the power of two whose square is the largest power of four up to m |
| SquareTests.ValidAmongSquares | benchmarks/bench_comparison.cpp:600-605 | a root of at least two is a power of two if and only if m is valid for the sqrt circuit, and then it is the shifted base |

## Left out

- Key generation, encryption randomness, noise, flooding and its calibration tables: they do not change the slots; the library is foreign.
- Encoding of plaintexts by the library (range checks of packed values) and real slot rotation: the library is not part of this model; two layouts stand in for it.
- SHA-256 ranks and the MinHash family: a hash is an arbitrary function of coordinate and element; statistical claims about the estimator are not stated.
- Floating-point rounding: `double` and `long double` are `real`; `exp(k * log1p(-q))` is the power (1 - q)^k.
- 64-bit wrap-around of element numbers, epochs past the guarded maximum and container sizes; wrap-around is modelled in the parameter derivation, the square tests and the workload's union size.
- The OpenMP variants of `ComputeSignature` and `BuildThresholdPoly`: only the sequential branch is modelled.
- ThresholdPoly.BuildThresholdPoly: for p with a divisor in 2..k, thresholds below k have only their shape stated; the modulus search provides primes above k.
- Params.FindPlaintextModulus: needs a positive modulus; with 0 the first loop of the source does not end.
- Protocol.DeriveWithoutFlooding: products whose low word is above 2^30 and at most 2^31 are excluded, because the search of the source then does not end; the same holds for DeriveSqrtWithoutFlooding and BaselineParams.Validate.
- Protocol.InitializeContext: the refusals of a selected calibration row, the flooding budget and a second call are not modelled; the configured ring is the parameter's own.
- PolyEval.PatersonStockmeyerNaturalDepth: the 32-bit wrap of the source's squares for degrees above 65535 squared is not modelled.
- BottomStructures.FewDeletesFaithful: deleted elements share no hash with the set and the set never runs empty.
- Json.KeySearchExact: flat objects only; a nested object may repeat a key, and the reader then refuses it.
- ReviewerWorkload.MakeReviewerWorkload: the target -1, a division by 0.0, and targets whose rounded intersection leaves 0..n while the wrapped union still fits, where the source loops over wrapped sizes; targets in 0..1 never do (UnitTargetsEnd).
- NoiseSelection.SelectCheapest: string keys are records; their rendering and the printed table are not modelled.
- Trace.RunTrials: raw timing samples, adapters' own state and file writes are not modelled; an adapter call is its outcome.
- The manifest's set generation and byte format, aggregate row validation, CSV writers, command lines, provenance, timers, memory and size accounting, and the other baselines (SJ16, BCG12): plumbing or separate protocols.
