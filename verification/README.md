# Verified models of the node's core protocols

A Dafny model of the parts of the node whose correctness depends on whole runs or on all inputs,
with proofs. `dafny verify dfyconfig.toml` checks the project.

What is modelled, and the main result of each part:

- **Goldilocks field and polynomials** (`NumberTheory`, `GoldilocksCertificate`, `Goldilocks`,
  `Polynomials`): 2^64 - 2^32 + 1 is proved prime from a Pratt certificate; the field laws, square and
  multiply, the Fermat inverse, evaluation as a ring homomorphism through the convolution loops, exact
  degrees, and the root bound.
- **Merkle commitments** (`Merkle`): every opening verifies with ceil(log2 n) siblings; a false opening
  yields an explicit hash collision; what the root is made of. The hash is an arbitrary function.
- **Subsystem registry** (`DependencyGraph`, `SubsystemRegistry`): the depth-first sort is a topological
  order exactly for acyclic graphs, and when start succeeds and what start and stop leave behind.
- **Finality** (`FinalityModel`, `FinalityRun`, `FinalityAdmission`, `FinalityEviction`, `FinalitySets`, `FinalityPruning`,
  `FinalityOrder`, `FinalityInterleaving`, `FinalityService`): stake accounting, slashing history,
  justification, finalisation and pruning, over every run with a fixed validator set; the exact reach of the
  bounded history, of pruning, of the validator sets and of overlapping calls. The slashing rules are those of
  section 2 of Buterin and Griffith, "Casper the Friendly Finality Gadget".
- **Block storage** (`Bytes`, `BlockIndex`, `BlockStore`, `BlockStorageService`): persisted keys and
  in-memory indexes agree after any run of writes and restarts; blocks are immutable and have their ancestry.
- **Block assembly** (`BlockAssembly`): a join of three events under every interleaving of the adapter's
  locked sections.
- **Rate limiter** (`RateLimiter`): compare-and-swap loops of any number of threads, with exact time.
- **Replay prevention** (`NonceCache`, `MessageVerifier`, `ReplayCache`): three caches that forget, each
  compared with what a cache that remembers would answer.
- **Compact-block format** (`CompactBlock`): printer and parser.
- **Consensus chain height** (`Consensus`): event-sourced height, sequential and interleaved.

Classes stand for the objects the source updates in place. Clocks, hashes, signatures, disk answers,
validator verdicts and publish results are parameters. A class is proved against functions on its value,
claims about runs are stated of those functions, and each answer is also stated from the inputs and the run; where a claim speaks of the past (what was ever
accepted or inserted) a ghost field records it and every method states its new value.

Where the code and its documentation differ, the model follows the code:

- `crates/qc-09-finality/src/domain/checkpoint.rs:92` asks for at least two thirds; the code asks for
  strictly more. When doubling the total overflows and the total is 2 modulo 3, it asks for slightly less
  (`ThresholdIsTwoThirds`).
- `crates/qc-09-finality/src/state.rs:71` promises the most recent `max_checkpoints` entries; the code
  drops epochs below the last finalised one minus 2, and only when a check finalises (`PruneExactly`,
  `ManyLiveCheckpoints`, `LimitIffFewVotes`).
- `crates/qc-09-finality/src/domain/validator.rs:95` adds a validator whatever its id; the accounts are right
  only for distinct ids (`BalancedIffDistinct`).
- `crates/qc-09-finality/src/state.rs:105` speaks of two epochs of history; the code keeps 64 entries, so a
  validator's 66th admitted attestation can be counted for a second target of an epoch (`SixtySixCalls`).
- `crates/qc-09-finality/src/state.rs:120-136` opens every checkpoint with height 0, so every final block is
  recorded with height 0 (`FinalHeightsAreZero`).
- `crates/qc-09-finality/src/domain/circuit_breaker.rs:13-26` describes sync attempts that end in recovery or
  in a halt; the service reports neither, so it stays in the first attempt (`BreakerLatches`).
- `crates/shared-types/src/security.rs:101-103` calls the nonce cache thread-safe; it is, but a message can be
  found Valid twice if a call waits more than 49 s for its lock (`LateLockReplays`).
- `crates/node-runtime/src/adapters/block_storage.rs` limits pending assemblies on BlockValidated only;
  roots come on top of the limit (`PendingBound`, `PendingBoundAttained`).
- `crates/qc-05-block-propagation/src/service.rs:491` lists a block height in the compact format; the code
  writes none.
- `crates/qc-zkp/src/field.rs:8` mentions Montgomery reduction; the code uses a u128 remainder.

## Model

| member | source | states |
|---|---|---|
| `NumberTheory.CertifiedPrime` | crates/qc-zkp/src/field.rs:9-18 | A Pratt certificate (a base whose powers are 1 at n-1 and at no (n-1)/q) proves its modulus prime, for every modulus |
| `NumberTheory.FermatLittle` | crates/qc-zkp/src/field.rs:64-73 | From a certificate: a^(n-1) = 1 for every a in 1..n-1 |
| `NumberTheory.Cancellation` | crates/qc-zkp/src/field.rs:68-73 | From a certificate: a product is 0 modulo n only if a factor is |
| `NumberTheory.Logarithm` | crates/qc-zkp/src/field.rs:38-42 | From a certificate: every element of 1..n-1 is a power of the base |
| `NumberTheory.FullOrder` | crates/qc-zkp/src/field.rs:38-42 | From a certificate: the order of the base is exactly n-1 |
| `GoldilocksCertificate.FermatPrime` | crates/qc-zkp/src/field.rs:9-18 | A number 2^k + 1 with a base whose half power is -1 is prime (3, 5, 17, 257 and 65537 follow) |
| `GoldilocksCertificate.Certificate` | crates/qc-zkp/src/field.rs:9-18 | 7 with the factors 2 (32 times), 3, 5, 17, 257, 65537 certifies the modulus 2^64 - 2^32 + 1 |
| `Goldilocks.ModulusIsPrime` | crates/qc-zkp/src/field.rs:9-18 | The field modulus is prime, with nothing assumed |
| `Goldilocks.ProductFits` | crates/qc-zkp/src/field.rs:120-127 | The product of two elements fits in a u128 |
| `Goldilocks.AddLaws` | crates/qc-zkp/src/field.rs:97-105 | Addition is commutative and associative, with unit 0 |
| `Goldilocks.SubLaws` | crates/qc-zkp/src/field.rs:107-139 | Subtraction undoes addition both ways, negation is subtraction from 0, and a difference is 0 exactly for equal elements |
| `Goldilocks.MulAssociates` | crates/qc-zkp/src/field.rs:120-127 | Multiplication is associative |
| `Goldilocks.MulDistributes` | crates/qc-zkp/src/field.rs:97-127 | Multiplication distributes over addition on both sides |
| `Goldilocks.NewCarriesOver` | crates/qc-zkp/src/field.rs:51-59 | Words become elements so that sums and products that fit carry over; exactly the reduced words are their own element |
| `Goldilocks.NoZeroDivisors` | crates/qc-zkp/src/field.rs:120-127 | A product is 0 if and only if a factor is |
| `Goldilocks.SquareStep` | crates/qc-zkp/src/field.rs:77-89 | One iteration of square-and-multiply keeps result * base^exp, for even and odd exponents |
| `Goldilocks.PowBySquaring` | crates/qc-zkp/src/field.rs:77-89 | For every base and u64 exponent the loop returns the repeated product |
| `Goldilocks.FieldFermat` | crates/qc-zkp/src/field.rs:64-73 | a^(P-1) = 1 for every non-zero a |
| `Goldilocks.Inverse` | crates/qc-zkp/src/field.rs:68-73 | None exactly for 0; otherwise the one and only element whose product with a is 1 |
| `Goldilocks.GeneratorGenerates` | crates/qc-zkp/src/field.rs:38-42 | The generator 7 reaches every non-zero element and has order exactly P-1 |
| `Goldilocks.RootOfUnity` | crates/qc-zkp/src/field.rs:9-18 | The field has an element of order exactly 2^32, which is what makes it FFT-friendly |
| `Polynomials.Trim` | crates/qc-zkp/src/polynomial.rs:67-71 | The trimmed vector is the prefix without leading zeros: what is cut is all zero |
| `Polynomials.Polynomial.New` | crates/qc-zkp/src/polynomial.rs:15-19 | Construction normalises |
| `Polynomials.Polynomial.Normalize` | crates/qc-zkp/src/polynomial.rs:67-71 | Popping in place leaves the trimmed vector |
| `Polynomials.Polynomial.Degree` | crates/qc-zkp/src/polynomial.rs:36-43 | The last index with a coefficient other than zero, -1 if there is none |
| `Polynomials.Polynomial.Evaluate` | crates/qc-zkp/src/polynomial.rs:45-59 | Horner's rule returns the sum of c[i] * x^i |
| `Polynomials.Polynomial.Add` | crates/qc-zkp/src/polynomial.rs:74-85 | The sum holds the trimmed coefficientwise sums |
| `Polynomials.Polynomial.Mul` | crates/qc-zkp/src/polynomial.rs:88-103 | The nested loops leave the trimmed convolution sums; the degree of a product of non-zero polynomials is the sum of the degrees |
| `Polynomials.TrimValue` | crates/qc-zkp/src/polynomial.rs:67-71 | Normalisation does not change the value at any point |
| `Polynomials.TrimCanonical` | crates/qc-zkp/src/polynomial.rs:67-71 | Two vectors normalise to the same one if and only if all coefficients agree |
| `Polynomials.ValueLinear` | crates/qc-zkp/src/polynomial.rs:74-85 | Evaluation is linear in the coefficients |
| `Polynomials.SumValue` | crates/qc-zkp/src/polynomial.rs:74-85 | The value of a sum is the sum of the values, for all polynomials and points |
| `Polynomials.RowsValue` | crates/qc-zkp/src/polynomial.rs:88-103 | After n rows of the product loop the buffer is worth the first n terms times the other factor |
| `Polynomials.ProductValue` | crates/qc-zkp/src/polynomial.rs:88-103 | The value of a product is the product of the values, for all polynomials and points |
| `Polynomials.ProductDegree` | crates/qc-zkp/src/polynomial.rs:88-103 | Degrees of non-zero polynomials add exactly: the product needs no trimming |
| `Polynomials.QuotientValue` | crates/qc-zkp/src/polynomial.rs:45-59 | p(x) = p(a) + (x - a) * q(x) with q from synthetic division |
| `Polynomials.RootsBounded` | crates/qc-zkp/src/polynomial.rs:36-59 | A non-zero polynomial has at most as many roots as its degree |
| `Polynomials.AgreementImpliesEquality` | crates/qc-zkp/src/polynomial.rs:36-59 | Normal polynomials that agree on more points than their degrees are the same vector |
| `Merkle.BuildTree` | crates/qc-zkp/src/commitment.rs:105-128 | The loop returns the root of the recursive tree, the zero digest for no leaves; what that root is, OddLayerEndsInZero, RootOfHalves and RootTellsVector say |
| `Merkle.Commit` | crates/qc-zkp/src/commitment.rs:22-49 | Leaves are the hashed values, the root is theirs, the height is ceil(log2 n) |
| `Merkle.Open` | crates/qc-zkp/src/commitment.rs:64-103 | None out of range; otherwise the committed leaf with exactly its authentication path, which begins with the zero digest for the last of an odd number of leaves |
| `Merkle.Verify` | crates/qc-zkp/src/commitment.rs:144-158 | Accepts exactly the proofs whose leaf climbs to the root |
| `Merkle.CeilLog2` | crates/qc-zkp/src/commitment.rs:33-42 | The height k has 2^(k-1) < n <= 2^k |
| `Merkle.PathClimbsToRoot` | crates/qc-zkp/src/commitment.rs:64-158 | Every path of every layer, padded odd ones included, climbs to the root and has ceil(log2 n) siblings |
| `Merkle.OpenVerifies` | crates/qc-zkp/src/commitment.rs:22-158 | Committing, opening and verifying succeeds for every vector and valid index, with exactly height siblings |
| `Merkle.FindCollision` | crates/qc-zkp/src/commitment.rs:144-158 | Two different openings of one index with equally many siblings and the same digest yield two different inputs with one pair hash |
| `Merkle.CommitmentBinds` | crates/qc-zkp/src/commitment.rs:64-158 | A verifying proof of the committed height carries the committed leaf and path, or yields a collision |
| `Merkle.BindingNeedsHeight` | crates/qc-zkp/src/commitment.rs:144-158 | Without a check of the sibling count the root alone is a proof at every index, and with a collision-free hash its leaf is never a committed one |
| `Merkle.RootBindsVector` | crates/qc-zkp/src/commitment.rs:105-128 | Two different leaf vectors of one length with the same root yield a collision |
| `Merkle.OddLayerEndsInZero` | crates/qc-zkp/src/commitment.rs:73-118 | Every odd layer longer than 1 has the root of that layer with the zero digest appended, and the opening of its last index starts with the zero digest |
| `Merkle.RootOfHalves` | crates/qc-zkp/src/commitment.rs:113-127 | For every hash and every k the root of 2^(k+1) digests is the hash of the roots of the two halves, the left one first |
| `Merkle.RootTellsVector` | crates/qc-zkp/src/commitment.rs:22-128 | With a hash that records its inputs, vectors of any lengths, empty ones included, have the same root if and only if they are the same vector |
| `DependencyGraph.Visit` | crates/shared-types/src/subsystem_registry.rs:350-370 | The recursive visit terminates on any graph, appends only, emits the id, and keeps every dependency before its dependent unless it reaches it |
| `DependencyGraph.ComputeInitOrder` | crates/shared-types/src/subsystem_registry.rs:338-347 | For any graph and any iteration order: no duplicates, exactly the registered ids and their dependencies, and the ordering above |
| `DependencyGraph.TopologicalIffAcyclic` | crates/shared-types/src/subsystem_registry.rs:337-370 | The computed order is topological if and only if the graph is acyclic |
| `SubsystemRegistry.Registry.Register` | crates/shared-types/src/subsystem_registry.rs:83-109 | The entry is replaced by a stopped one and the order is recomputed for the new graph |
| `SubsystemRegistry.Registry.ValidateRequired` | crates/shared-types/src/subsystem_registry.rs:132-150 | Fails exactly if a required id is not registered |
| `SubsystemRegistry.Registry.CheckDependencies` | crates/shared-types/src/subsystem_registry.rs:279-335 | Fails exactly if some dependency is required and not registered and healthy |
| `SubsystemRegistry.Registry.StartSubsystem` | crates/shared-types/src/subsystem_registry.rs:172-207 | The new entries and the outcome of one start, all four cases |
| `SubsystemRegistry.Registry.StartAll` | crates/shared-types/src/subsystem_registry.rs:153-207 | A missing required id changes nothing; Ok means every required subsystem is Healthy and every other Healthy or Error as its start decided; for any graph it is Ok if and only if the required ids are registered and start and every required dependency stands before its dependent or was already Healthy, which on an acyclic graph always holds |
| `SubsystemRegistry.StartFailure` | crates/shared-types/src/subsystem_registry.rs:153-207 | A start that fails names the first position that is blocked or required and not starting, with the reason; what comes before it is as its start decided, a blocked one and all that comes later is untouched |
| `SubsystemRegistry.Registry.StopAll` | crates/shared-types/src/subsystem_registry.rs:210-249 | Exactly what was Healthy or Degraded is stopped, each once, and becomes Stopped or Error as its stop decided; all else is untouched |
| `SubsystemRegistry.Registry.StopSubsystem` | crates/shared-types/src/subsystem_registry.rs:223-249 | Called exactly if running; changes that one entry |
| `SubsystemRegistry.StartProceeds` | crates/shared-types/src/subsystem_registry.rs:153-207 | The walk gets through n positions if and only if nothing blocks and no required start fails among them |
| `SubsystemRegistry.StartIff` | crates/shared-types/src/subsystem_registry.rs:153-207 | The whole walk succeeds if and only if nothing blocks and every required start does; an acyclic graph never blocks |
| `SubsystemRegistry.StopMembers` | crates/shared-types/src/subsystem_registry.rs:210-249 | The running subsystems are stopped, each once, and no other |
| `SubsystemRegistry.StopOrder` | crates/shared-types/src/subsystem_registry.rs:210-220 | A dependency is never stopped before its dependent unless it reaches it |
| `FinalityModel.ThresholdMeans` | crates/qc-09-finality/src/domain/checkpoint.rs:106-122 | What the threshold asks for, for every total: more than two thirds, or a third of a unit less for the totals where it is too low |
| `FinalityModel.ThresholdIsTwoThirds` | crates/qc-09-finality/src/domain/checkpoint.rs:106-122 | The threshold is a strict two thirds for every attested stake if and only if doubling the total does not overflow or the total is not 2 modulo 3 |
| `FinalityModel.BuiltWellFormed` | crates/qc-09-finality/src/domain/validator.rs:86-102 | A set built by adding validators has matching ids, indexes and total if and only if no id was added twice |
| `FinalityModel.BuiltHolds` | crates/qc-09-finality/src/domain/validator.rs:96-102 | With distinct ids every validator has the stake and the index it was added with |
| `FinalityModel.StakeSetBit` | crates/qc-09-finality/src/domain/attestation.rs:152-163 | Setting a clear bit adds exactly that validator's stake |
| `FinalityModel.EpochStakeUpdate` | crates/qc-09-finality/src/state.rs:143-159 | Replacing one target's aggregate changes its own epoch's stake by the difference and no other epoch |
| `FinalityModel.DisjointSum` | crates/qc-09-finality/src/state.rs:143-166 | Pairwise disjoint bitmaps never hold more than the total stake |
| `FinalityRun.FirstConflict` | crates/qc-09-finality/src/service.rs:143-162 | None exactly if no entry is slashable with the vote, which is written out in epochs and hashes; otherwise an entry that is |
| `FinalityRun.HistoryIsTail` | crates/qc-09-finality/src/state.rs:99-111 | In every run a validator's history is the last 64 entries of the log of its admitted attestations |
| `FinalityRun.LogClean` | crates/qc-09-finality/src/service.rs:143-174 | In every run no admitted attestation is slashable with one of the 64 admitted before it |
| `FinalityRun.HistoryClean` | crates/qc-09-finality/src/service.rs:143-174 | So every history holds at most 64 entries of its validator, no later one slashable with an earlier one |
| `FinalityRun.AccountsBalance` | crates/qc-09-finality/src/state.rs:72-173 | In every run, pruning included, the attested stake of a live epoch is the sum over its targets of the stakes whose bit is set, and justified means exactly that it meets the threshold; for which sets this holds is BalancedIffDistinct |
| `FinalityRun.AttestGains` | crates/qc-09-finality/src/service.rs:395-416 | An attestation adds its validator's stake to its own epoch if it is accepted, and nothing otherwise |
| `FinalityRun.PrunedAccounted` | crates/qc-09-finality/src/state.rs:72-86 | Pruning drops whole epochs and keeps the accounts of the others |
| `FinalityRun.BitsAreLogged` | crates/qc-09-finality/src/state.rs:129-159 | In every run every set bit belongs to an admitted vote of that validator for that target, for every set built by adding validators |
| `FinalityRun.TwoTargetsAreFar` | crates/qc-09-finality/src/state.rs:99-159 | A validator that counts for two targets of an epoch voted for them more than 64 admitted votes apart |
| `FinalityRun.NoDoubleCount` | crates/qc-09-finality/src/state.rs:143-159 | With at most 65 admitted votes per validator no bit is set for two targets of an epoch |
| `FinalityRun.AttestedWithinTotal` | crates/qc-09-finality/src/state.rs:161-166 | And no epoch counts more than the total stake |
| `FinalityRun.JustifiedExactly` | crates/qc-09-finality/src/state.rs:161-170 | In every run a live epoch is justified if and only if the stake in its bitmaps meets the recorded total's threshold, for every total, saturated or too low included |
| `FinalityRun.JustifiedIsTwoThirds` | crates/qc-09-finality/src/state.rs:161-170 | So, where the total is neither, exactly if more than two thirds of the stake is set in its bitmaps |
| `FinalityRun.FinalIffFinalised` | crates/qc-09-finality/src/service.rs:244-267 | In every run the final blocks are exactly those that some check finalised: none is ever removed |
| `FinalityRun.LastJustifiedHeld` | crates/qc-09-finality/src/state.rs:161-170 | The last justified checkpoint was justified at some point of the run |
| `FinalityRun.FinalMeansTwoMajorities` | crates/qc-09-finality/src/service.rs:244-267 | Every final block was the checkpoint of an epoch in which more than two thirds of the stake had voted, and so they had in the next epoch, each at a named point of the run |
| `FinalityRun.OffenseIffConvicted` | crates/qc-09-finality/src/service.rs:143-239 | In every run the offences on record are exactly the conflicts that were rejected |
| `FinalityRun.OffenseIsGenuine` | crates/qc-09-finality/src/service.rs:183-208 | Each is filed under the right rule and epoch and names a vote and one admitted earlier in the run that are slashable together |
| `FinalityRun.BreakerLatches` | crates/qc-09-finality/src/service.rs:326-434 | In every run the circuit breaker is Running until the first failed notification and in its first sync attempt ever after: the service itself never halts it and never recovers it |
| `FinalityAdmission.VoteOutcome` | crates/qc-09-finality/src/service.rs:104-174 | In every run a vote of an unknown validator or without a demanded signature changes nothing; any other is admitted if and only if none of the last 64 entries of its log has its target epoch with another hash or a span strictly inside or around its own; otherwise the first such entry is named in exactly one new offence and nothing else changes |
| `FinalityAdmission.NearVotesAgree` | crates/qc-09-finality/src/domain/attestation.rs:86-117 | So two entries of a log at most 64 apart never name two blocks of one epoch and are never nested |
| `FinalityAdmission.AggregatesExact` | crates/qc-09-finality/src/state.rs:143-159 | In every run an aggregate holds exactly one attestation for each bit set, all for its target, the source of the first, and the stake of the set bits as its total |
| `FinalityAdmission.CheckpointOrigin` | crates/qc-09-finality/src/state.rs:114-138 | In every run a live checkpoint has the hash of the admitted vote that opened its epoch, and has been live since |
| `FinalityAdmission.FinalHeightsAreZero` | crates/qc-09-finality/src/state.rs:114-138 | In every run every final block is recorded with height 0 |
| `FinalityAdmission.LastJustifiedMoves` | crates/qc-09-finality/src/state.rs:161-170 | In every run the last justified checkpoint is replaced exactly when a vote turns its epoch justified, and by that epoch's checkpoint |
| `FinalityAdmission.CheckOutcome` | crates/qc-09-finality/src/service.rs:244-366 | In every run a check makes the block of epoch e final and its checkpoint the last finalised one exactly if e is justified and e + 1 is the last justified epoch; any other check touches no checkpoint, vote or final block |
| `FinalityAdmission.InactivityCounted` | crates/qc-09-finality/src/service.rs:343-347 | In every run the epochs without finality are as many as the checks since the last finalisation that entered another epoch |
| `FinalityAdmission.BreakerHaltsAtThird` | crates/qc-09-finality/src/domain/circuit_breaker.rs:132-161 | The third failed synchronisation in a row halts the breaker and none before it; only an intervention releases it; only a success ends synchronisation |
| `FinalitySets.BalancedIffDistinct` | crates/qc-09-finality/src/domain/validator.rs:96-102 | For a set built from validators, the last with some stake, the accounts balance in every run if and only if no id was added twice |
| `FinalitySets.RepeatedIdJustifies` | crates/qc-09-finality/src/domain/attestation.rs:152-163 | For every set with an id added twice one validator alone justifies an epoch by repeating one vote, with no bit set |
| `FinalitySets.SaturatedTotalJustifies` | crates/qc-09-finality/src/domain/validator.rs:96-102 | With a total past a u128 half of the stake justifies |
| `FinalityPruning.PruneExactly` | crates/qc-09-finality/src/state.rs:72-86 | A check that finalises epoch f keeps, above the limit, exactly the live epochs from f - 2 on, all later than every dropped one; the limit holds afterwards if and only if no more than that many live epochs are so recent |
| `FinalityPruning.CheckpointsWithinVotes` | crates/qc-09-finality/src/state.rs:114-125 | In every run there are at most as many live checkpoints as admitted votes |
| `FinalityPruning.LimitIffFewVotes` | crates/qc-09-finality/src/state.rs:70-86 | Every run with at most n admitted votes stays within the limit if and only if n does |
| `FinalityOrder.RisesIffNeverBehind` | crates/qc-09-finality/src/service.rs:244-267 | The last finalised epoch never goes back in a run if and only if no check finalises while the last justified epoch is not later than it |
| `FinalityOrder.AscendingRises` | crates/qc-09-finality/src/service.rs:244-267 | With votes in ascending order of epochs that never happens |
| `FinalityOrder.FinalEpochFalls` | crates/qc-09-finality/src/service.rs:244-267 | For any two epochs not consecutive, finalising the later first makes it go back |
| `FinalityOrder.OneHashPerEpoch` | crates/qc-09-finality/src/service.rs:244-267 | In every run with no more votes than the checkpoint limit an epoch is finalised with one hash at most |
| `FinalityOrder.TwoHashesForOneEpoch` | crates/qc-09-finality/src/state.rs:72-111 | With more votes, pruning and eviction let an epoch become final twice with two hashes, whatever the limit |
| `FinalityInterleaving.InterleavedIsSequential` | crates/qc-09-finality/src/service.rs:395-416 | Calls that overlap between check and update leave the state of a sequential run, if no two of one validator overlap |
| `FinalityInterleaving.InterleavedNoDoubleCount` | crates/qc-09-finality/src/service.rs:395-416 | So nobody counts twice in such a run |
| `FinalityInterleaving.OverlapCountsTwice` | crates/qc-09-finality/src/service.rs:395-416 | Two overlapping calls of one validator count it for two targets of an epoch, for any set |
| `FinalityEviction.LogWithinVotes` | crates/qc-09-finality/src/service.rs:395-416 | The votes a caller can count bound the log |
| `FinalityEviction.SixtySixVotes` | crates/qc-09-finality/src/state.rs:99-173 | For any validator of any set and any two hashes, 66 votes end with its stake counted twice in one epoch |
| `FinalityEviction.SixtyFiveIsExact` | crates/qc-09-finality/src/state.rs:99-173 | Every run with at most n admitted votes per validator keeps every epoch within the total stake if and only if n <= 65 |
| `FinalityService.FinalityState.RecordAttestation` | crates/qc-09-finality/src/state.rs:99-111 | The pop loop leaves the last 63 entries and the new one, or appends below 64 |
| `FinalityService.FinalityState.ApplyAttestation` | crates/qc-09-finality/src/state.rs:129-173 | The update in place is the vote of the state machine, for any attestation and stake: unknown validator, duplicate, counted, newly justified |
| `FinalityService.FinalityState.CheckSlashable` | crates/qc-09-finality/src/service.rs:143-239 | Accepts exactly the votes slashable with no entry of the history; otherwise files one offence naming the vote and the first such entry |
| `FinalityService.FinalityState.ProcessAttestation` | crates/qc-09-finality/src/service.rs:104-136 | One step of the state machine; accepted exactly if known, signed where demanded, slashable with no entry of its history and without a bit for its target |
| `FinalityService.FinalityState.ProcessBatch` | crates/qc-09-finality/src/service.rs:370-416 | The steps of the batch in order; the counts are those of the accepted and the rejected ones |
| `FinalityService.FinalityState.PruneOldCheckpoints` | crates/qc-09-finality/src/state.rs:72-86 | The retain rule of the state machine |
| `FinalityService.FinalityState.CheckFinalization` | crates/qc-09-finality/src/service.rs:244-267 | Finalises exactly when the epoch before the last justified one is justified too |
| `FinalityService.FinalityState.CheckAndProcessFinalization` | crates/qc-09-finality/src/service.rs:326-367 | Finalisation with pruning, or the inactivity count with its leak event |
| `FinalityService.FinalityState.ProcessAttestations` | crates/qc-09-finality/src/service.rs:442-493 | The whole call: halted, empty, no validator set, or the steps of the batch and one check for the epoch of its first vote; the reported offences are exactly the new ones, and what it reports as finalised is the last finalised checkpoint |
| `FinalityService.FinalityState.ResetFromHalted` | crates/qc-09-finality/src/service.rs:509-519 | Only a halted breaker is reset |
| `FinalityService.ManyLiveCheckpoints` | crates/qc-09-finality/src/service.rs:442-493 | For every n a run of n service calls of one validator leaves n checkpoints live, whatever the limit |
| `FinalityService.CallFinal` | crates/qc-09-finality/src/service.rs:442-493 | A call makes final exactly what it reports |
| `FinalityService.AcceptedInCounts` | crates/qc-09-finality/src/service.rs:370-416 | The accepted count of a batch is the number of its votes that are known, signed, not slashable and uncounted at their turn |
| `FinalityService.JustifiedInMeans` | crates/qc-09-finality/src/service.rs:370-416 | The checkpoint a batch reports as justified is that of the last vote that turned an epoch justified, None if no vote did |
| `FinalityService.LeakMeans` | crates/qc-09-finality/src/service.rs:343-363 | In every run a check raises the inactivity alarm if and only if it enters an epoch without finality and that makes at least the configured number since the last finalisation |
| `FinalityService.ServeCalls` | crates/qc-09-finality/src/service.rs:442-493 | Any run of calls from the empty state is the run of its steps, call by call; none is halted; a block is final if and only if some call reported it |
| `FinalityService.RunService` | crates/qc-09-finality/src/service.rs:442-493 | After any run of calls from the empty state the accounts balance; with at most 65 votes per validator no epoch counts more than the total; an epoch is justified exactly by two thirds |
| `FinalityService.SixtySixCalls` | crates/qc-09-finality/src/service.rs:395-416 | The service, driven 66 times by the only validator of a set of any stake, counts twice the total in one epoch |
| `BlockIndex.Index.BinarySearch` | crates/qc-02-block-storage/src/domain/entities.rs:102-117 | Finds the height, or the position where it belongs |
| `BlockIndex.Index.Insert` | crates/qc-02-block-storage/src/domain/entities.rs:102-109 | The sorted vector behaves as a map update, present or absent |
| `BlockIndex.Index.Get` | crates/qc-02-block-storage/src/domain/entities.rs:112-117 | Map lookup |
| `BlockIndex.Index.LatestHeight` | crates/qc-02-block-storage/src/domain/entities.rs:127-129 | The largest height, None exactly for the empty index |
| `BlockIndex.MeaningOf` | crates/qc-02-block-storage/src/domain/entities.rs:93-140 | The map holds exactly the entries of the vector |
| `BlockStore.KeysDistinct` | crates/qc-02-block-storage/src/domain/value_objects.rs:133-164 | Keys of the three kinds never coincide, and each kind is injective |
| `BlockStore.HeightKeyParses` | crates/qc-02-block-storage/src/service.rs:180-196 | Every 10-byte key under the height prefix is the key of the height it spells |
| `BlockStore.KeysSpelled` | crates/qc-02-block-storage/src/domain/value_objects.rs:133-164 | The keys are b:, t: and h: with the hash or the height, and height keys sort by height |
| `BlockStore.TxsLocated` | crates/qc-02-block-storage/src/service.rs:317-347 | After a block is indexed each of its transactions is located in it, at a position that holds it, and all others are where they were |
| `BlockStore.ParentWalk` | crates/qc-02-block-storage/src/service.rs:249-262 | From any stored block the parent links end at a stored block of height 0 |
| `BlockStore.BlockKeeps` | crates/qc-02-block-storage/src/service.rs:422-489 | Writing a new block keeps keys, heights, locations, checksums and both indexes consistent |
| `BlockStore.BlockAncestry` | crates/qc-02-block-storage/src/service.rs:249-262 | The parent check makes every parent older than its child |
| `BlockStore.TxPutKeeps` | crates/qc-02-block-storage/src/service.rs:317-347 | Putting a transaction key keeps everything consistent |
| `BlockStorageService.Service.Empty` | crates/qc-02-block-storage/src/service.rs:130-163 | A service on an empty store is consistent |
| `BlockStorageService.Service.Open` | crates/qc-02-block-storage/src/service.rs:130-228 | On any store both indexes are exactly the persisted keys that decode; a consistent store gives a consistent service |
| `BlockStorageService.Service.IndexTransactions` | crates/qc-02-block-storage/src/service.rs:317-347 | The index and the persisted keys after all transactions, failed puts skipped; every location names a stored block holding that transaction at that position |
| `BlockStorageService.Service.WriteBlock` | crates/qc-02-block-storage/src/service.rs:422-489 | Each failing check, in order, leaves everything unchanged; success gives the whole new state, in which the returned hash holds the block, both roots and the time of the call with their checksum; no stored block ever changes |
| `BlockStorageService.WriteErrorMeans` | crates/qc-02-block-storage/src/service.rs:422-471 | A write succeeds if and only if disk, parent, novelty, size, serialisation and batch write are all in order, and otherwise names the first that is not |
| `BlockStorageService.WriteThenRead` | crates/qc-02-block-storage/src/service.rs:422-509 | After a write that succeeds, reading its hash returns the block, the Merkle root, the state root and the time of that write |
| `BlockStorageService.StoredFromWrite` | crates/qc-02-block-storage/src/service.rs:422-489 | Every block in the store after a run has the block, roots and time of some successful write of the run |
| `BlockStorageService.WriteStays` | crates/qc-02-block-storage/src/service.rs:422-489 | And every successful write of the run is in the store after it with just those |
| `BlockStorageService.Service.EveryBlockWalks` | crates/qc-02-block-storage/src/service.rs:249-262 | Ancestry down to height 0 for every stored block |
| `BlockStorageService.Service.ReadBlock` | crates/qc-02-block-storage/src/service.rs:491-509 | Not found, not decoding, wrong checksum, or the block, for any store; in a consistent one every stored block reads back |
| `BlockStorageService.Service.ReadBlockByHeight` | crates/qc-02-block-storage/src/service.rs:511-518 | What reading the indexed hash gives, or HeightNotFound; in a consistent store every indexed height reads back as a block of that height |
| `BlockStorageService.Service.ReadBlockRange` | crates/qc-02-block-storage/src/service.rs:520-546 | Exactly the consecutive blocks from start, min(limit, 100) or up to the first gap, or the error of the first that does not read, which a consistent store excludes; empty if the end passes 2^64 |
| `BlockStorageService.LoadIndex` | crates/qc-02-block-storage/src/service.rs:168-228 | Reads exactly the well-formed height keys, in any scan order |
| `BlockStorageService.LoadTxIndex` | crates/qc-02-block-storage/src/service.rs:352-399 | Succeeds exactly if every value decodes, and then matches the persisted keys |
| `BlockStorageService.Restart` | crates/qc-02-block-storage/src/service.rs:130-228 | The height index after a restart is the one before, and so is a completely persisted transaction index |
| `BlockStorageService.StoreGrows` | crates/qc-02-block-storage/src/service.rs:422-489 | In any run of writes, failed ones included, and restarts, what was stored at any point is unchanged at every later one |
| `BlockStorageService.RunLocates` | crates/qc-02-block-storage/src/service.rs:317-347 | With the transaction index persisted and no failed put, every transaction of every block stored in a run can be located after it |
| `BlockStorageService.RunOps` | crates/qc-02-block-storage/src/service.rs:130-489 | After any run the service holds exactly the store of that run, consistently indexed, every stored block has its ancestry down to height 0, and without failed puts the transaction index is the persisted one |
| `BlockAssembly.AssemblyBuffer.TakeComplete` | crates/qc-02-block-storage/src/domain/assembler.rs:137-143 | Takes and removes the assembly exactly if all three components are there |
| `BlockAssembly.AssemblyBuffer.GcExpired` | crates/qc-02-block-storage/src/domain/assembler.rs:148-184 | Removes exactly the assemblies started more than the timeout ago |
| `BlockAssembly.AssemblyBuffer.EnforceMaxPending` | crates/qc-02-block-storage/src/domain/assembler.rs:190-211 | Leaves min(size, limit) assemblies, and nothing purged is newer than anything kept |
| `BlockAssembly.StoredIsCaused` | crates/node-runtime/src/adapters/block_storage.rs:74-197 | In every interleaving BlockStored(h, height, m, s) is published only after the three events it reports |
| `BlockAssembly.StoredIsPaidFor` | crates/node-runtime/src/adapters/block_storage.rs:74-197 | Publications of h plus what is still held of a kind never exceed the deliveries of that kind: at most the smallest of the three counts |
| `BlockAssembly.StepHeld` | crates/node-runtime/src/adapters/block_storage.rs:74-225 | How each atomic step changes what is held of a hash |
| `BlockAssembly.HoldsUntilStored` | crates/node-runtime/src/adapters/block_storage.rs:74-197 | An undisturbed block holds every delivered component until it is published |
| `BlockAssembly.StoredExactlyOnce` | crates/node-runtime/src/adapters/block_storage.rs:74-197 | One delivery each, nothing dropped: published exactly once, whatever the order |
| `BlockAssembly.PendingBound` | crates/node-runtime/src/adapters/block_storage.rs:74-117 | The buffer holds at most limit + 1 plus the roots delivered since the last BlockValidated |
| `BlockAssembly.PendingBoundAttained` | crates/node-runtime/src/adapters/block_storage.rs:74-153 | For every limit and every number of roots, within the number of hashes, some run holds exactly that many: the limit is enforced before adding, and not on roots |
| `BlockAssembly.Handle` | crates/node-runtime/src/adapters/block_storage.rs:74-225 | Each handler section on the buffer is one atomic step, with the purge and the expiry the buffer does |
| `BlockAssembly.RunAdapter` | crates/node-runtime/src/adapters/block_storage.rs:74-225 | The adapter's runs on the buffer are runs of the steps, so everything above holds of them |
| `RateLimiter.StepKeeps` | crates/shared-types/src/rate_limiter.rs:53-106 | Every atomic step of every thread keeps the token bound, the accounts and the lock discipline, and earns no more than the rate allows |
| `RateLimiter.RunKeeps` | crates/shared-types/src/rate_limiter.rs:53-106 | So does every interleaving of any number of threads |
| `RateLimiter.WindowBound` | crates/shared-types/src/rate_limiter.rs:53-106 | From any point of a run on, grants are at most the tokens present or owed plus rate times the time since the last refill |
| `RateLimiter.GrantsBounded` | crates/shared-types/src/rate_limiter.rs:53-106 | In every run: tokens <= capacity, capacity + refilled = tokens + discarded + granted, and granted <= capacity + rate * elapsed |
| `RateLimiter.CallAlone` | crates/shared-types/src/rate_limiter.rs:53-107 | A call that nothing disturbs is granted if and only if tokens are available after the refill, takes exactly one, and moves the refill time exactly if a whole token was earned; a query takes none |
| `RateLimiter.RefillExact` | crates/shared-types/src/rate_limiter.rs:77-100 | What is available is min(capacity, tokens + floor(elapsed * rate)) if and only if that sum does not overflow 64 bits |
| `RateLimiter.EarnedIsAdded` | crates/shared-types/src/rate_limiter.rs:73-107 | In every run, however the loops contend, every token earned by moving the refill time has been added or is about to be |
| `RateLimiter.CallEnds` | crates/shared-types/src/rate_limiter.rs:53-69 | In every interleaving a call for a token ends with a grant of one token, or having loaded 0 with none |
| `NonceCache.TimeBoundedNonceCache.ValidateAndAdd` | crates/shared-bus/src/nonce_cache.rs:102-154 | The verdict its timestamp, its nonce and the cache deserve, in seconds, and the new cache, for any clock; while the clock does not run backwards and the settings remember enough, the verdict of a cache that never forgets |
| `NonceCache.TimeBoundedNonceCache.GarbageCollect` | crates/shared-bus/src/nonce_cache.rs:174-177 | Keeps exactly the entries newer than the window |
| `NonceCache.VerdictDeserved` | crates/shared-bus/src/nonce_cache.rs:102-154 | Too old exactly if more than 60 s before now, from the future exactly if more than 10 s after, reused exactly if in time, held and not dropped by this call, accepted exactly otherwise |
| `NonceCache.CacheHolds` | crates/shared-bus/src/nonce_cache.rs:102-177 | In every run, whatever the clock does, a nonce is held exactly if it was accepted and no later collection dropped it, under the timestamp of that call |
| `NonceCache.RunCalls` | crates/shared-bus/src/nonce_cache.rs:102-177 | Over every run the verdicts are those of the collecting cache and those of the one that never forgets |
| `NonceCache.RunSpans` | crates/shared-bus/src/nonce_cache.rs:102-177 | In every run with a clock that does not run backwards, for any settings, what is held spans a bounded time |
| `NonceCache.ShortWindowReplays` | crates/shared-bus/src/nonce_cache.rs:102-177 | With every other pair of window and interval the same message is accepted twice |
| `NonceCache.ZeroTimestampReplays` | crates/shared-bus/src/nonce_cache.rs:102-177 | And for every window a message stamped 0 is, for exactly the intervals the claim excludes |
| `NonceCache.BackwardClockReplays` | crates/shared-bus/src/nonce_cache.rs:102-177 | And one is if the clock jumps ahead by the window and back |
| `MessageVerifier.Verifier.CheckAndInsert` | crates/shared-types/src/security.rs:104-135 | Fresh exactly if not held or expired, forced cleanup included; the new cache |
| `MessageVerifier.Verifier.Verify` | crates/shared-types/src/security.rs:348-394 | The one verdict that version, time, cache, key, HMAC and reply address deserve, and the new cache, for calls whose readings and locks are in any order; no message Valid twice |
| `MessageVerifier.VerdictDeserved` | crates/shared-types/src/security.rs:348-394 | Valid if and only if the version is 1, the wall second is at most 60 after and 10 before the stamp, the nonce is not held past the reading, key and HMAC are good and a reply address is the sender; each rejection exactly if it is the first of these to fail |
| `MessageVerifier.CacheHolds` | crates/shared-types/src/security.rs:104-135 | In every run, readings in any order, a nonce is held exactly if a call inserted it and none since inserted or dropped it, for 120 s from the reading of that call |
| `MessageVerifier.ReplayIff` | crates/shared-types/src/security.rs:104-135 | So a call of the current version and in time is found a replay if and only if such a call lies less than 120 s before its reading |
| `MessageVerifier.WindowFitsTtl` | crates/shared-types/src/security.rs:244-258 | A message still in time reaches the cache less than the TTL after its first insertion, second truncation included |
| `MessageVerifier.RunCalls` | crates/shared-types/src/security.rs:348-394 | In every run of overlapping calls no message is found Valid twice, if no call waits more than 49 s between its timestamp check and the lock |
| `MessageVerifier.SlowCallReplays` | crates/shared-types/src/security.rs:348-394 | With any longer delay before the clock reading a message is Valid twice: the bound is exact |
| `MessageVerifier.LateLockReplays` | crates/shared-types/src/security.rs:104-135 | And so it is with any longer delay before the lock, every reading being immediate |
| `ReplayCache.NonceReplayCache.MaybeRotate` | crates/node-runtime/src/adapters/replay_cache.rs:106-112 | Rotates exactly after the window, starts the next one at the second reading, and loses only nonces older than the window |
| `ReplayCache.NonceReplayCache.IsReplay` | crates/node-runtime/src/adapters/replay_cache.rs:76-91 | Every check within the window after an insert that was not lost since answers yes; otherwise the nonce is inserted, which may fail and lose entries |
| `ReplayCache.NonceReplayCache.WasSeen` | crates/node-runtime/src/adapters/replay_cache.rs:94-97 | The read-only query keeps the same promise |
| `ReplayCache.NonceReplayCache.MarkSeen` | crates/node-runtime/src/adapters/replay_cache.rs:100-103 | Inserts with rotation |
| `ReplayCache.RunCalls` | crates/node-runtime/src/adapters/replay_cache.rs:76-112 | In every run of checks and marks the answers are those of the two filters, and every check within the window after an insert that no full filter has lost answers yes |
| `ReplayCache.NextFilters` | crates/node-runtime/src/adapters/replay_cache.rs:76-112 | What one call answers and leaves: a rotation forgets the previous filter, a nonce that is not reported is inserted |
| `ReplayCache.FiltersHold` | crates/node-runtime/src/adapters/replay_cache.rs:76-112 | In every run the filters hold exactly what was inserted since the last rotation and between the two last ones and was not lost |
| `ReplayCache.AnswerIff` | crates/node-runtime/src/adapters/replay_cache.rs:76-112 | So a check without false positives answers yes if and only if the nonce was inserted, not lost before the next rotation, and at most one call has rotated since, the check included |
| `CompactBlock.Serialize` | crates/qc-05-block-propagation/src/service.rs:498-522 | The bytes in the layout, the count truncated to 16 bits, key and signature zero |
| `CompactBlock.Parse` | crates/qc-05-block-propagation/src/service.rs:602-650 | Total on arbitrary bytes: TooShort below 48, else min(count, (len-42)/6) ids at their offsets, the key after them and the signature after that, zeros where they are missing |
| `CompactBlock.IdCount` | crates/qc-05-block-propagation/src/service.rs:625-638 | The ids taken always lie inside the data |
| `CompactBlock.ParseOfWire` | crates/qc-05-block-propagation/src/service.rs:498-650 | Parsing a message with any key and signature returns nonce, header hash, the ids up to the truncated count and, if those are all, the key and the signature |
| `CompactBlock.ExtractBlockHash` | crates/qc-05-block-propagation/src/service.rs:531-544 | The first 32 bytes, or TooShort |
| `CompactBlock.RoundTripIff` | crates/qc-05-block-propagation/src/service.rs:498-650 | For any key and signature the round trip holds if and only if there are at most 65535 ids |
| `Consensus.ConsensusAdapter.OnBlockStored` | crates/node-runtime/src/adapters/consensus.rs:102-111 | The height becomes the maximum of the old and the stored one |
| `Consensus.ConsensusAdapter.ProcessBlockProduced` | crates/node-runtime/src/adapters/consensus.rs:143-213 | Validation changes the cache of validated blocks only, never the height; the cache is cleared when it grows past its limit |
| `Consensus.HighestStoredIsMaximum` | crates/node-runtime/src/adapters/consensus.rs:102-111 | The reference height is an upper bound of the initial and all stored heights and is one of them |
| `Consensus.RunEvents` | crates/node-runtime/src/adapters/consensus.rs:88-213 | With handlers one after another, the height after any run is that maximum |
| `Consensus.HeightWasDelivered` | crates/node-runtime/src/adapters/consensus.rs:102-111 | With handlers interleaved in any way, the height is the initial one or one that was delivered |
| `Consensus.MaximumIffRepaired` | crates/node-runtime/src/adapters/consensus.rs:102-111 | Once every handler has finished it is the maximum of them all if and only if every store that replaced a greater height was followed by one at least as great |
| `Consensus.OverlapLosesUpdate` | crates/node-runtime/src/adapters/consensus.rs:102-111 | For any two heights one interleaving of load and store leaves the smaller |
| `Consensus.HandlerAlone` | crates/node-runtime/src/adapters/consensus.rs:102-111 | A handler that does not overlap stores the maximum |

## Left out

- SHA-256, CRC, HMAC, ECDSA and BLS internals, and aggregate signatures: arbitrary functions or verdicts here.
- `crates/qc-zkp/src/proof.rs`: the proof verifier ignores evaluations, so there is no soundness claim to state.
- Merkle.Commit: the height is the exact ceil(log2 n), because the f64 logarithm's rounding is not modelled.
- RateLimiter.StepKeeps: elapsed time times rate is exact instead of f64; a 64-bit overflow of the sum wraps, as in a release build, and the loss counts as discarded; a call of `is_limited` is one of `available`.
- FinalityRun.AccountsBalance: requires distinct ids, which is exactly when it holds (`BalancedIffDistinct`); the validator set is fixed over a run.
- FinalityService.FinalityState.ProcessAttestations: the breaker's failure counters and the content of the notifications are not modelled.
- FinalityService.FinalityState.ProcessAttestation: check and update are one step of this method; `FinalityInterleaving` takes them apart on values, with the finalisation check and its notification as one step.
- Accountable safety across target hashes: stake is pooled per epoch, so the code does not decide it.
- BlockStorageService.Service.WriteBlock: `StorageMetadata` and finalised heights are not modelled; the serialiser is lossless and a batch write is atomic.
- BlockStorageService.Service.ReadBlockRange: a 64-bit overflow of the end wraps, as in a release build.
- BlockStorageService.Service.ReadBlock: I/O errors are not modelled.
- The service uses its height index as the map that `BlockIndex` is proved to be.
- The storage service's own `on_*` handlers with their sender checks, and transaction queries: a sequential form of the assembly modelled from the adapter.
- MessageVerifier.Verifier.Verify: the wall and the monotonic clock advance together; a message is identified by nonce and timestamp; the authorisation matrix is not modelled.
- ReplayCache.NonceReplayCache.IsReplay: the cuckoo filter is a set with arbitrary false positives and arbitrary losses on a failed insert; `clear` is not called; the clock does not run backwards.
- Consensus.ConsensusAdapter.ProcessBlockProduced: of the validator's checks only the duplicate check is modelled, the others being one verdict on the two heights.
- `extract_block_signature`, block reconstruction, peer selection and gossip: slices and networking with nothing to relate.
- The event bus sender check and event routing: one comparison per event.
- Health checks, metrics, mining, sharding, light-client, API and telemetry code: plumbing or easier members.
