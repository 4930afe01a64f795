/**
 The data of the finality gadget: checkpoints and their justification threshold, attestations and
 the slashing conditions, validator sets, and the stake recorded in participation bitmaps.
 Stake is a u128; sums saturate.
 */
module FinalityModel {
  import opened Bytes

  type ValidatorId = Hash

  const U128_MAX: nat := 0xFFFF_FFFF_FFFF_FFFF_FFFF_FFFF_FFFF_FFFF
  const MAX_HISTORY: nat := 64

  function Min(a: nat, b: nat): nat {
    if a <= b then a else b
  }

  function SaturatingAdd(a: nat, b: nat): nat {
    Min(a + b, U128_MAX)
  }

  // ----- checkpoints -----

  datatype CheckpointId = CheckpointId(epoch: nat, blockHash: Hash)

  datatype CheckpointState = Pending | Justified | Finalized

  datatype Checkpoint = Checkpoint(epoch: nat, blockHash: Hash, blockHeight: nat, state: CheckpointState,
                                   attested: nat, total: nat)
  {
    predicate IsJustified() {
      state != Pending
    }

    function TryJustify(): Checkpoint {
      if state == Pending && ThresholdMet(attested, total) then this.(state := Justified) else this
    }

    function Finalize(): Checkpoint {
      if state == Justified then this.(state := Finalized) else this
    }
  }

  /** 2/3 + 1 of the total, with a second formula when doubling the total would overflow. */
  predicate ThresholdMet(attested: nat, total: nat) {
    total != 0 &&
    var required := if 2 * total <= U128_MAX then 2 * total / 3 + 1
                    else SaturatingAdd(Min(total / 3 * 2, U128_MAX), 1);
    attested >= required
  }

  /** The total for which the overflow formula asks for less than a strict two thirds. */
  predicate ThresholdTooLow(total: nat) {
    2 * total > U128_MAX && total % 3 == 2
  }

  /** The threshold is "more than two thirds" for every attested stake exactly when the total is not one of those. */
  lemma ThresholdIsTwoThirds(total: nat)
    requires 0 < total <= U128_MAX
    ensures (forall attested: nat :: ThresholdMet(attested, total) <==> 3 * attested > 2 * total)
            <==> !ThresholdTooLow(total)
  {
    if ThresholdTooLow(total) {
      var attested := total / 3 * 2 + 1;
      assert ThresholdMet(attested, total) && 3 * attested < 2 * total;
    }
  }

  /** What the threshold asks for, whatever the total. */
  lemma ThresholdMeans(attested: nat, total: nat)
    requires 0 < total <= U128_MAX
    ensures ThresholdMet(attested, total)
       <==> if ThresholdTooLow(total) then 3 * attested + 1 >= 2 * total else 3 * attested > 2 * total
  {
  }

  // ----- attestations -----

  datatype Attestation = Attestation(validator: ValidatorId, source: CheckpointId, target: CheckpointId, slot: nat)

  predicate DoubleVote(a: Attestation, b: Attestation) {
    a.target.epoch == b.target.epoch && a.target.blockHash != b.target.blockHash
  }

  predicate Surrounds(a: Attestation, b: Attestation) {
    a.source.epoch < b.source.epoch && a.target.epoch > b.target.epoch
  }

  predicate ConflictsWith(a: Attestation, b: Attestation) {
    a.validator == b.validator && (DoubleVote(a, b) || Surrounds(a, b) || Surrounds(b, a))
  }

  /** The slashing rule in epochs and hashes: two votes of one validator for two blocks of one epoch, or one vote
      whose span from source to target is strictly inside the other's. */
  ghost predicate Slashable(a: Attestation, b: Attestation) {
    a.validator == b.validator
    && (|| (a.target.epoch == b.target.epoch && a.target.blockHash != b.target.blockHash)
        || (a.source.epoch < b.source.epoch && b.target.epoch < a.target.epoch)
        || (b.source.epoch < a.source.epoch && a.target.epoch < b.target.epoch))
  }

  datatype OffenseKind = DoubleVoteOffense | SurroundVoteOffense

  datatype Offense = Offense(validator: ValidatorId, kind: OffenseKind, first: Attestation, second: Attestation,
                             detectedEpoch: nat)

  datatype Aggregate = Aggregate(source: CheckpointId, bitmap: seq<bool>, attestations: seq<Attestation>, total: nat)
  {
    predicate HasAttested(i: nat) {
      i < |bitmap| && bitmap[i]
    }

    function AddAttestation(a: Attestation, i: nat, stake: nat): Aggregate {
      Aggregate(source, if i < |bitmap| then bitmap[i := true] else bitmap, attestations + [a],
                SaturatingAdd(total, stake))
    }
  }

  function NewAggregate(source: CheckpointId, validatorCount: nat): Aggregate {
    Aggregate(source, seq(validatorCount, _ => false), [], 0)
  }

  // ----- validator sets -----

  datatype Validator = Validator(stake: nat, index: nat)

  datatype ValidatorSet = ValidatorSet(validators: map<ValidatorId, Validator>, indexToId: seq<ValidatorId>, total: nat)

  const EmptyValidatorSet := ValidatorSet(map[], [], 0)

  function AddValidator(vs: ValidatorSet, id: ValidatorId, stake: nat): ValidatorSet {
    ValidatorSet(vs.validators[id := Validator(stake, |vs.indexToId|)], vs.indexToId + [id],
                 SaturatingAdd(vs.total, stake))
  }

  /** Indexes and ids correspond one to one: no id was added twice. */
  ghost predicate Indexed(vs: ValidatorSet) {
    && |vs.validators| == |vs.indexToId|
    && (forall i :: 0 <= i < |vs.indexToId| ==>
          vs.indexToId[i] in vs.validators && vs.validators[vs.indexToId[i]].index == i)
    && (forall id :: id in vs.validators ==>
          vs.validators[id].index < |vs.indexToId| && vs.indexToId[vs.validators[id].index] == id)
  }

  /** Every validator stands at its own index; in a set built by adding validators this always holds. */
  ghost predicate Located(vs: ValidatorSet) {
    forall id :: id in vs.validators ==>
      vs.validators[id].index < |vs.indexToId| && vs.indexToId[vs.validators[id].index] == id
  }

  ghost predicate WellFormed(vs: ValidatorSet) {
    Indexed(vs) && vs.total == Min(TotalStake(vs), U128_MAX)
  }

  ghost function StakeAt(vs: ValidatorSet, i: nat): nat {
    if i < |vs.indexToId| && vs.indexToId[i] in vs.validators then vs.validators[vs.indexToId[i]].stake else 0
  }

  /** The stake of the validators whose bit is set. */
  ghost function Stake(vs: ValidatorSet, bitmap: seq<bool>): nat {
    if bitmap == [] then 0 else
      var n := |bitmap| - 1;
      Stake(vs, bitmap[..n]) + if bitmap[n] then StakeAt(vs, n) else 0
  }

  ghost function AllBits(n: nat): (r: seq<bool>)
    ensures |r| == n
  {
    seq(n, _ => true)
  }

  ghost function TotalStake(vs: ValidatorSet): nat {
    Stake(vs, AllBits(|vs.indexToId|))
  }

  /** Adding an id keeps the set well formed exactly if the id is new. */
  lemma AddValidatorKeeps(vs: ValidatorSet, id: ValidatorId, stake: nat)
    requires WellFormed(vs)
    ensures WellFormed(AddValidator(vs, id, stake)) <==> id !in vs.validators
  {
    hide TotalStake, Indexed;
    AddIndexed(vs, id, stake);
    if id !in vs.validators {
      IndexedIds(vs);
      AddedStake(vs, id, stake);
    }
  }

  lemma EmptyWellFormed()
    ensures WellFormed(EmptyValidatorSet) && TotalStake(EmptyValidatorSet) == 0
  {
  }

  /** The set built by adding validators one after another. */
  function Built(members: seq<(ValidatorId, nat)>): ValidatorSet {
    if members == [] then EmptyValidatorSet else
      var n := |members| - 1;
      AddValidator(Built(members[..n]), members[n].0, members[n].1)
  }

  ghost predicate DistinctIds(members: seq<(ValidatorId, nat)>) {
    forall i, j :: 0 <= i < j < |members| ==> members[i].0 != members[j].0
  }

  lemma AddedMembers(vs: ValidatorSet, id: ValidatorId, stake: nat)
    ensures var vs' := AddValidator(vs, id, stake);
            && (forall x :: x in vs'.validators <==> x in vs.validators || x == id)
            && |vs'.validators| == |vs.validators| + (if id in vs.validators then 0 else 1)
            && |vs'.indexToId| == |vs.indexToId| + 1
  {
    assert AddValidator(vs, id, stake).validators.Keys == vs.validators.Keys + {id};
  }

  lemma {:induction false} BuiltMember(members: seq<(ValidatorId, nat)>, id: ValidatorId)
    ensures id in Built(members).validators <==> exists i :: 0 <= i < |members| && members[i].0 == id
  {
    if members != [] {
      var n := |members| - 1;
      BuiltMember(members[..n], id);
      AddedMembers(Built(members[..n]), members[n].0, members[n].1);
      hide AddValidator;
      assert forall i :: 0 <= i < n ==> members[..n][i] == members[i];
    }
  }

  /** Every index has a validator of its own exactly if the ids were distinct. */
  lemma {:induction false} BuiltSize(members: seq<(ValidatorId, nat)>)
    ensures |Built(members).validators| <= |Built(members).indexToId| == |members|
    ensures |Built(members).validators| == |members| <==> DistinctIds(members)
  {
    if members != [] {
      var n := |members| - 1;
      BuiltSize(members[..n]);
      BuiltMember(members[..n], members[n].0);
      AddedMembers(Built(members[..n]), members[n].0, members[n].1);
      DistinctSnoc(members);
      hide AddValidator, DistinctIds;
    }
  }

  lemma DistinctSnoc(members: seq<(ValidatorId, nat)>)
    requires members != []
    ensures var n := |members| - 1;
            DistinctIds(members) <==> DistinctIds(members[..n])
                                      && !exists i :: 0 <= i < n && members[..n][i].0 == members[n].0
  {
    var n := |members| - 1;
    assert forall i :: 0 <= i < n ==> members[..n][i] == members[i];
  }

  /** A set built from a list of validators is well formed exactly if their ids are distinct. */
  lemma {:induction false} BuiltWellFormed(members: seq<(ValidatorId, nat)>)
    ensures WellFormed(Built(members)) <==> DistinctIds(members)
  {
    BuiltSize(members);
    if members == [] {
      EmptyWellFormed();
    } else if DistinctIds(members) {
      var n := |members| - 1;
      BuiltWellFormed(members[..n]);
      BuiltMember(members[..n], members[n].0);
      DistinctSnoc(members);
      hide AddValidator, DistinctIds, WellFormed;
      AddValidatorKeeps(Built(members[..n]), members[n].0, members[n].1);
    }
  }

  /** And then every validator has the stake it was added with and stands where it was added. */
  lemma {:induction false} BuiltHolds(members: seq<(ValidatorId, nat)>, i: nat)
    requires DistinctIds(members) && i < |members|
    ensures var vs, (id, stake) := Built(members), members[i];
            && id in vs.validators && vs.validators[id] == Validator(stake, i)
            && |vs.indexToId| == |members| && vs.indexToId[i] == id
  {
    var n := |members| - 1;
    BuiltSize(members);
    BuiltSize(members[..n]);
    DistinctSnoc(members);
    if i < n {
      BuiltHolds(members[..n], i);
    }
  }

  lemma {:induction false} BuiltLocated(members: seq<(ValidatorId, nat)>)
    ensures Located(Built(members))
  {
    if members != [] {
      BuiltLocated(members[..|members| - 1]);
    }
  }

  /** A set of one validator. */
  lemma SoloSet(v: ValidatorId, stake: nat)
    ensures AddValidator(EmptyValidatorSet, v, stake) == Built([(v, stake)])
    ensures WellFormed(Built([(v, stake)])) && TotalStake(Built([(v, stake)])) == stake
  {
    assert [(v, stake)][..0] == [];
    EmptyWellFormed();
    AddValidatorKeeps(EmptyValidatorSet, v, stake);
    AddedStake(EmptyValidatorSet, v, stake);
  }

  lemma IndexedIds(vs: ValidatorSet)
    requires Indexed(vs)
    ensures forall i :: 0 <= i < |vs.indexToId| ==> vs.indexToId[i] in vs.validators
  {
  }

  lemma AddIndexed(vs: ValidatorSet, id: ValidatorId, stake: nat)
    requires Indexed(vs)
    ensures Indexed(AddValidator(vs, id, stake)) <==> id !in vs.validators
  {
    var vs' := AddValidator(vs, id, stake);
    if id !in vs.validators {
      assert vs'.validators.Keys == vs.validators.Keys + {id};
    } else {
      assert vs'.validators.Keys == vs.validators.Keys;
    }
  }

  lemma AddedStake(vs: ValidatorSet, id: ValidatorId, stake: nat)
    requires id !in vs.validators
    requires forall i :: 0 <= i < |vs.indexToId| ==> vs.indexToId[i] in vs.validators
    ensures TotalStake(AddValidator(vs, id, stake)) == TotalStake(vs) + stake
  {
    var n, vs' := |vs.indexToId|, AddValidator(vs, id, stake);
    assert AllBits(n + 1)[..n] == AllBits(n);
    StakeFrame(vs, vs', AllBits(n));
    assert StakeAt(vs', n) == stake;
  }

  lemma {:induction false} StakeFrame(vs: ValidatorSet, vs': ValidatorSet, bitmap: seq<bool>)
    requires forall i :: 0 <= i < |bitmap| ==> StakeAt(vs, i) == StakeAt(vs', i)
    ensures Stake(vs, bitmap) == Stake(vs', bitmap)
  {
    if bitmap != [] {
      StakeFrame(vs, vs', bitmap[..|bitmap| - 1]);
    }
  }

  lemma {:induction false} StakeSetBit(vs: ValidatorSet, bitmap: seq<bool>, i: nat)
    requires i < |bitmap| && !bitmap[i]
    ensures Stake(vs, bitmap[i := true]) == Stake(vs, bitmap) + StakeAt(vs, i)
  {
    var n := |bitmap| - 1;
    var set' := bitmap[i := true];
    if i == n {
      assert set'[..n] == bitmap[..n];
    } else {
      StakeSetBit(vs, bitmap[..n], i);
      assert set'[..n] == bitmap[..n][i := true];
    }
  }

  lemma {:induction false} StakeNone(vs: ValidatorSet, n: nat)
    ensures Stake(vs, seq(n, _ => false)) == 0
  {
    if n > 0 {
      StakeNone(vs, n - 1);
      assert seq(n, _ => false)[..n - 1] == seq(n - 1, _ => false);
    }
  }

  ghost predicate DisjointBits(a: seq<bool>, b: seq<bool>) {
    |a| == |b| && forall i :: 0 <= i < |a| ==> !(a[i] && b[i])
  }

  ghost function Union(a: seq<bool>, b: seq<bool>): seq<bool>
    requires |a| == |b|
  {
    seq(|a|, i requires 0 <= i < |a| => a[i] || b[i])
  }

  lemma {:induction false} StakeUnion(vs: ValidatorSet, a: seq<bool>, b: seq<bool>)
    requires DisjointBits(a, b)
    ensures Stake(vs, Union(a, b)) == Stake(vs, a) + Stake(vs, b)
  {
    if a != [] {
      var n := |a| - 1;
      StakeUnion(vs, a[..n], b[..n]);
      assert Union(a, b)[..n] == Union(a[..n], b[..n]);
    }
  }

  lemma UnionLength(a: seq<bool>, b: seq<bool>)
    requires DisjointBits(a, b)
    ensures |a| == |b| && |Union(a, b)| == |a|
  {
  }

  lemma UnionDisjoint(a: seq<bool>, b: seq<bool>, c: seq<bool>)
    requires DisjointBits(a, b) && DisjointBits(a, c) && DisjointBits(b, c)
    ensures |a| == |b| && DisjointBits(Union(a, b), c)
  {
  }

  lemma {:induction false} StakeAtMost(vs: ValidatorSet, a: seq<bool>)
    ensures Stake(vs, a) <= Stake(vs, AllBits(|a|))
  {
    if a != [] {
      var n := |a| - 1;
      StakeAtMost(vs, a[..n]);
      assert AllBits(n + 1)[..n] == AllBits(n);
    }
  }

  lemma {:induction false} StakeAtWithin(vs: ValidatorSet, a: seq<bool>, i: nat)
    requires i < |a| && a[i]
    ensures StakeAt(vs, i) <= Stake(vs, a)
  {
    if i < |a| - 1 {
      StakeAtWithin(vs, a[..|a| - 1], i);
    }
  }

  lemma {:induction false} NoStakeAnywhere(vs: ValidatorSet, a: seq<bool>)
    requires TotalStake(vs) == 0
    ensures Stake(vs, a) == 0
  {
    if a != [] {
      var n := |a| - 1;
      NoStakeAnywhere(vs, a[..n]);
      if n < |vs.indexToId| {
        StakeAtWithin(vs, AllBits(|vs.indexToId|), n);
      }
    }
  }

  // ----- sums over maps -----

  ghost function Sum<K(!new)>(m: map<K, nat>): nat
    decreases |m|
  {
    if m == map[] then 0 else
      var k :| k in m;
      m[k] + Sum(m - {k})
  }

  lemma {:induction false} SumRemove<K(!new)>(m: map<K, nat>, k: K)
    requires k in m
    ensures Sum(m) == m[k] + Sum(m - {k})
    decreases |m|
  {
    var p :| p in m && Sum(m) == m[p] + Sum(m - {p});
    if p != k {
      SumRemove(m - {p}, k);
      SumRemove(m - {k}, p);
      assert m - {p} - {k} == m - {k} - {p};
    }
  }

  lemma SumUpdate<K(!new)>(m: map<K, nat>, k: K, v: nat)
    ensures Sum(m[k := v]) == Sum(m) - (if k in m then m[k] else 0) + v
  {
    var m' := m[k := v];
    SumRemove(m', k);
    if k in m {
      SumRemove(m, k);
      assert m' - {k} == m - {k};
    } else {
      assert m' - {k} == m;
    }
  }

  // ----- the stake attested in an epoch, over all of its targets -----

  type Aggregates = map<CheckpointId, Aggregate>

  ghost function Weights(vs: ValidatorSet, atts: Aggregates, epoch: nat): map<CheckpointId, nat> {
    map id | id in atts && id.epoch == epoch :: Stake(vs, atts[id].bitmap)
  }

  ghost function EpochStake(vs: ValidatorSet, atts: Aggregates, epoch: nat): nat {
    Sum(Weights(vs, atts, epoch))
  }

  lemma {:induction false} SumOfZeros<K(!new)>(m: map<K, nat>)
    requires forall k :: k in m ==> m[k] == 0
    ensures Sum(m) == 0
    decreases |m|
  {
    if m != map[] {
      var k :| k in m;
      SumRemove(m, k);
      SumOfZeros(m - {k});
    }
  }

  lemma NoStakeNoVotes(vs: ValidatorSet, atts: Aggregates, epoch: nat)
    requires TotalStake(vs) == 0
    ensures EpochStake(vs, atts, epoch) == 0
  {
    var w := Weights(vs, atts, epoch);
    forall id | id in w
      ensures w[id] == 0
    {
      NoStakeAnywhere(vs, atts[id].bitmap);
    }
    SumOfZeros(w);
  }

  lemma EpochStakeUpdate(vs: ValidatorSet, atts: Aggregates, id: CheckpointId, agg: Aggregate, epoch: nat)
    ensures EpochStake(vs, atts[id := agg], epoch)
         == if id.epoch == epoch
            then EpochStake(vs, atts, epoch) + Stake(vs, agg.bitmap)
                 - (if id in atts then Stake(vs, atts[id].bitmap) else 0)
            else EpochStake(vs, atts, epoch)
  {
    var w, w' := Weights(vs, atts, epoch), Weights(vs, atts[id := agg], epoch);
    if id.epoch == epoch {
      SumUpdate(w, id, Stake(vs, agg.bitmap));
      assert w' == w[id := Stake(vs, agg.bitmap)];
    } else {
      assert w' == w;
    }
  }

  /** Pairwise disjoint bitmaps never hold more than the total stake. */
  lemma {:induction false} DisjointSum(vs: ValidatorSet, bits: map<CheckpointId, seq<bool>>, w: map<CheckpointId,
                                       nat>, used: seq<bool>)
    requires |used| == |vs.indexToId| && w.Keys == bits.Keys
    requires forall id :: id in bits ==> w[id] == Stake(vs, bits[id]) && DisjointBits(used, bits[id])
    requires forall x, y :: x in bits && y in bits && x != y ==> DisjointBits(bits[x], bits[y])
    ensures Sum(w) + Stake(vs, used) <= TotalStake(vs)
    decreases |w|
  {
    if w == map[] {
      StakeAtMost(vs, used);
    } else {
      var k :| k in w && Sum(w) == w[k] + Sum(w - {k});
      StakeUnion(vs, used, bits[k]);
      hide Stake, Sum, DisjointBits, Union;
      UnionLength(used, bits[k]);
      forall id | id in bits && id != k
        ensures DisjointBits(Union(used, bits[k]), bits[id])
      {
        UnionDisjoint(used, bits[k], bits[id]);
      }
      DisjointSum(vs, bits - {k}, w - {k}, Union(used, bits[k]));
    }
  }
}
