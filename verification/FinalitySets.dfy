/**
 Which validator sets the stake accounts are right for: exactly those whose ids are distinct. And what a total
 that does not fit in a u128 means for justification.
 */
module FinalitySets {
  import opened Bytes
  import opened Options
  import opened FinalityModel
  import opened FinalityRun
  import opened FinalityEviction

  /** In every run the attested stake of every live epoch is the stake set in its bitmaps. */
  ghost predicate BalancedAlways(c: Config) {
    forall steps, e :: Balanced(c.vs, Exec(c, steps), e)
  }

  ghost predicate Balanced(vs: ValidatorSet, s: State, e: nat) {
    e in s.checkpoints ==> s.checkpoints[e].attested == Min(EpochStake(vs, s.attestations, e), U128_MAX)
  }

  /** The same vote over and over. */
  ghost function Repeat(a: Attestation, k: nat): seq<Step> {
    if k == 0 then [] else Repeat(a, k - 1) + [Vote(a, true)]
  }

  /** A validator whose index lies beyond every bitmap: its votes leave no trace there. */
  ghost predicate BeyondBitmaps(vs: ValidatorSet, v: ValidatorId) {
    v in vs.validators && vs.validators[v].index >= |vs.validators|
  }

  /** If an id was added twice, the validator added last is one. */
  lemma LastIsBeyond(members: seq<(ValidatorId, nat)>)
    requires !DistinctIds(members)
    ensures BeyondBitmaps(Built(members), members[|members| - 1].0)
    ensures Built(members).validators[members[|members| - 1].0].stake == members[|members| - 1].1
  {
    BuiltSize(members);
    BuiltSize(members[..|members| - 1]);
  }

  /** What is known after k copies of a vote of such a validator: it was counted k times, and no bit is set. */
  ghost predicate CountedUnseen(c: Config, s: State, a: Attestation, k: nat)
    requires a.validator in c.vs.validators
  {
    && NoConflictIn(a, HistoryOf(s.history, a.validator))
    && (forall id :: id in s.attestations ==> id == a.target && s.attestations[id].bitmap == NoBits(|c.vs.validators|))
    && (forall e :: e in s.checkpoints ==> e == a.target.epoch)
    && (k > 0 <==> a.target.epoch in s.checkpoints)
    && (k > 0 ==> var cp := s.checkpoints[a.target.epoch];
                  && cp.attested == Min(k * c.vs.validators[a.validator].stake, U128_MAX)
                  && cp.total == c.vs.total && (cp.IsJustified() <==> ThresholdMet(cp.attested, cp.total)))
  }

  ghost function NoBits(n: nat): seq<bool> {
    seq(n, _ => false)
  }

  lemma RecordedNoConflict(h: seq<Attestation>, a: Attestation)
    requires NoConflictIn(a, h)
    ensures NoConflictIn(a, Recorded(h, a))
  {
  }

  lemma CountOnceMore(c: Config, s: State, a: Attestation, k: nat)
    requires BeyondBitmaps(c.vs, a.validator) && CountedUnseen(c, s, a, k)
    ensures CountedUnseen(c, Attest(c, s, a, true), a, k + 1)
  {
    var h, stake := HistoryOf(s.history, a.validator), c.vs.validators[a.validator].stake;
    assert FirstConflict(h, a).None?;
    RecordedNoConflict(h, a);
    assert (k + 1) * stake == k * stake + stake;
    ThresholdMonotone(c.vs.total);
    hide FirstConflict, ThresholdMet, Recorded, NoConflictIn;
    assert Counts(c.vs, Record(s, a), a);
  }

  lemma {:induction false} CountAgain(c: Config, a: Attestation, k: nat)
    requires BeyondBitmaps(c.vs, a.validator)
    ensures CountedUnseen(c, Exec(c, Repeat(a, k)), a, k)
  {
    if k > 0 {
      CountAgain(c, a, k - 1);
      hide CountedUnseen, Exec, Attest, BeyondBitmaps;
      CountOnceMore(c, Exec(c, Repeat(a, k - 1)), a, k - 1);
      ExecSnoc(c, Repeat(a, k - 1), Vote(a, true));
    }
  }

  lemma UnseenStake(c: Config, s: State, a: Attestation, k: nat, e: nat)
    requires a.validator in c.vs.validators && CountedUnseen(c, s, a, k)
    ensures EpochStake(c.vs, s.attestations, e) == 0
  {
    var w := Weights(c.vs, s.attestations, e);
    StakeNone(c.vs, |c.vs.validators|);
    assert forall id :: id in w ==> w[id] == 0;
    SumOfZeros(w);
  }

  lemma EnoughCopies(total: nat, stake: nat)
    requires 0 < total <= U128_MAX && stake > 0
    ensures ThresholdMet(Min(total * stake, U128_MAX), total)
  {
    assert ThresholdMet(total, total);
    AtLeastOnce(total, stake);
    ThresholdMonotone(total);
    hide ThresholdMet;
  }

  lemma AtLeastOnce(a: nat, b: nat)
    requires b > 0
    ensures a * b >= a
  {
    assert a * b == a + a * (b - 1);
  }

  /** With an id added twice, one validator justifies an epoch alone, by repeating itself, while no bit is set
      there: nothing limits how often it counts. */
  lemma RepeatedIdJustifies(members: seq<(ValidatorId, nat)>, c: Config, h: Hash) returns (steps: seq<Step>)
    requires c.vs == Built(members) && !DistinctIds(members) && members[|members| - 1].1 > 0
    ensures forall step :: step in steps ==> step == Vote(ChainVote(members[|members| - 1].0, h, 0), true)
    ensures 1 in Exec(c, steps).checkpoints && Exec(c, steps).checkpoints[1].IsJustified()
    ensures EpochStake(c.vs, Exec(c, steps).attestations, 1) == 0
  {
    var v, stake := members[|members| - 1].0, members[|members| - 1].1;
    LastIsBeyond(members);
    assert 0 < c.vs.total <= U128_MAX;
    hide Exec, Repeat, Built, DistinctIds, BeyondBitmaps, EpochStake, ThresholdMet;
    var a, k := ChainVote(v, h, 0), c.vs.total;
    CountAgain(c, a, k);
    EnoughCopies(k, stake);
    steps := Repeat(a, k);
    RepeatOnly(a, k);
    UnseenStake(c, Exec(c, steps), a, k, 1);
  }

  lemma {:induction false} RepeatOnly(a: Attestation, k: nat)
    ensures forall step :: step in Repeat(a, k) ==> step == Vote(a, true)
  {
    if k > 0 {
      RepeatOnly(a, k - 1);
    }
  }

  lemma DistinctBalances(c: Config)
    requires WellFormed(c.vs)
    ensures BalancedAlways(c)
  {
    hide Exec, WellFormed, EpochStake, ThresholdMet;
    forall steps, e: nat
      ensures Balanced(c.vs, Exec(c, steps), e)
    {
      AccountsBalance(c, steps);
    }
  }

  lemma RepeatedUnbalances(c: Config, v: ValidatorId)
    requires BeyondBitmaps(c.vs, v) && c.vs.validators[v].stake > 0
    ensures !BalancedAlways(c)
  {
    var zeros: Hash := seq(32, _ => 0);
    var a := ChainVote(v, zeros, 0);
    CountAgain(c, a, 1);
    hide Exec, EpochStake, BeyondBitmaps, ThresholdMet;
    var s := Exec(c, Repeat(a, 1));
    UnseenStake(c, s, a, 1, 1);
    assert !Balanced(c.vs, s, 1);
  }

  /** The accounts of a set built from validators, the last of them with some stake, balance in every run if
      and only if no id was added twice. */
  lemma BalancedIffDistinct(members: seq<(ValidatorId, nat)>, c: Config)
    requires c.vs == Built(members) && (members != [] ==> members[|members| - 1].1 > 0)
    ensures BalancedAlways(c) <==> DistinctIds(members)
  {
    hide Built, BalancedAlways, DistinctIds, WellFormed, BeyondBitmaps;
    BuiltWellFormed(members);
    if DistinctIds(members) {
      DistinctBalances(c);
    } else {
      NotEmpty(members);
      LastIsBeyond(members);
      RepeatedUnbalances(c, members[|members| - 1].0);
    }
  }

  lemma NotEmpty(members: seq<(ValidatorId, nat)>)
    requires !DistinctIds(members)
    ensures members != []
  {
  }

  /** A total past a u128 is recorded as the largest one: two validators of the largest stake each, and one vote
      justifies, with half of the stake. */
  lemma SaturatedTotalJustifies(v: ValidatorId, w: ValidatorId, h: Hash, c: Config)
    requires v != w && c.vs == Built([(v, U128_MAX), (w, U128_MAX)])
    ensures WellFormed(c.vs) && TotalStake(c.vs) == 2 * U128_MAX
    ensures var s := Exec(c, [Vote(ChainVote(v, h, 0), true)]);
            1 in s.checkpoints && s.checkpoints[1].IsJustified() && !Majority(c.vs, s, 1)
  {
    var members := [(v, U128_MAX), (w, U128_MAX)];
    BuiltWellFormed(members);
    assert members[..1] == [(v, U128_MAX)];
    SoloSet(v, U128_MAX);
    AddedStake(Built(members[..1]), w, U128_MAX);
    var steps, a := [Vote(ChainVote(v, h, 0), true)], ChainVote(v, h, 0);
    EmptyRun(c, v);
    NextVote(c, [], a);
    assert [] + steps == steps;
    OpenedEpoch(c, Initial, a);
    ExecSnoc(c, [], steps[0]);
    hide Exec, EpochStake, TotalStake, WellFormed, Attest;
    JustifiedExactly(c, steps, 1);
  }

  lemma OpenedEpoch(c: Config, s: State, a: Attestation)
    requires Admissible(c, s, a, true)
    ensures a.target.epoch in Attest(c, s, a, true).checkpoints
  {
  }
}
