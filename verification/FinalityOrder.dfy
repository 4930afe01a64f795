/**
 In which order epochs become final, and how often: when the last finalised epoch never goes back, and when an
 epoch has one final hash at most, with the runs that break each.
 */
module FinalityOrder {
  import opened Bytes
  import opened Options
  import opened FinalityModel
  import opened FinalityRun
  import opened FinalityEviction
  import opened FinalityPruning

  // ----- the last finalised epoch -----

  ghost function FinalEpoch(s: State): int {
    if s.lastFinalized.Some? then s.lastFinalized.value.epoch else -1
  }

  /** The last finalised epoch never goes back from one step to the next. */
  ghost predicate Rises(c: Config, steps: seq<Step>) {
    steps != [] ==>
      var n := |steps| - 1;
      Rises(c, steps[..n]) && FinalEpoch(Exec(c, steps[..n])) <= FinalEpoch(Exec(c, steps))
  }

  /** No check finalises when the last justification is of no later an epoch than the last finalised one. */
  ghost predicate NeverBehind(c: Config, steps: seq<Step>) {
    steps != [] ==>
      var n := |steps| - 1;
      var s := Exec(c, steps[..n]);
      && NeverBehind(c, steps[..n])
      && (steps[n].Check? && CanFinalize(s) ==> FinalEpoch(s) < s.lastJustified.value.epoch)
  }

  lemma StepFinalEpoch(c: Config, s: State, step: Step)
    requires forall e :: e in s.checkpoints ==> s.checkpoints[e].epoch == e
    ensures FinalEpoch(Apply(c, s, step))
         == if step.Check? && CanFinalize(s) then s.lastJustified.value.epoch - 1 else FinalEpoch(s)
  {
    hide FirstConflict, NextBreaker, NewlyJustified, Counts, CountedVotes, Counted, Recorded;
  }

  /** It rises in a run if and only if no check of the run is behind. */
  lemma {:induction false} RisesIffNeverBehind(c: Config, steps: seq<Step>)
    ensures Rises(c, steps) <==> NeverBehind(c, steps)
  {
    if steps != [] {
      var n := |steps| - 1;
      RisesIffNeverBehind(c, steps[..n]);
      EpochKeys(c, steps[..n]);
      ExecLast(c, steps);
      hide Exec, Apply, CanFinalize;
      StepFinalEpoch(c, Exec(c, steps[..n]), steps[n]);
    }
  }

  /** Every vote is for at least as late an epoch as the votes before it. */
  ghost predicate Ascending(steps: seq<Step>) {
    forall i, j | 0 <= i < j < |steps| && steps[i].Vote? && steps[j].Vote? ::
      steps[i].a.target.epoch <= steps[j].a.target.epoch
  }

  /** The last justified epoch is that of some vote, and later than the last finalised one. */
  ghost predicate Ahead(s: State, steps: seq<Step>) {
    if s.lastJustified.None? then FinalEpoch(s) == -1 else
      && FinalEpoch(s) < s.lastJustified.value.epoch
      && exists i :: 0 <= i < |steps| && steps[i].Vote? && steps[i].a.target.epoch == s.lastJustified.value.epoch
  }

  /** So with votes in ascending order the last finalised epoch never goes back. */
  lemma {:induction false} AscendingRises(c: Config, steps: seq<Step>)
    requires Ascending(steps)
    ensures Ahead(Exec(c, steps), steps) && NeverBehind(c, steps)
  {
    if steps != [] {
      var n := |steps| - 1;
      var before := steps[..n];
      AscendingRises(c, before);
      EpochKeys(c, before);
      ExecLast(c, steps);
      hide Exec, Apply, CanFinalize;
      var s, s' := Exec(c, before), Exec(c, steps);
      StepFinalEpoch(c, s, steps[n]);
      StepLastJustified(c, s, steps[n]);
      CanFinalizeMeans(s);
      if s.lastJustified.Some? {
        var i :| 0 <= i < n && before[i].Vote? && before[i].a.target.epoch == s.lastJustified.value.epoch;
        assert steps[i] == before[i];
      }
    }
  }

  lemma CanFinalizeMeans(s: State)
    ensures CanFinalize(s) ==> s.lastJustified.Some? && s.lastJustified.value.epoch > 0
  {
  }

  // ----- one validator alone -----

  /** A set whose only validator justifies every epoch it votes for. */
  ghost predicate Solo(c: Config, v: ValidatorId, stake: nat) {
    c.vs == AddValidator(EmptyValidatorSet, v, stake) && 0 < stake <= U128_MAX
  }

  function JustifiedCheckpoint(target: CheckpointId, stake: nat): Checkpoint {
    Checkpoint(target.epoch, target.blockHash, 0, CheckpointState.Justified, stake, stake)
  }

  /** What its vote for an epoch that is not live does. */
  lemma SoloVote(c: Config, s: State, v: ValidatorId, stake: nat, a: Attestation)
    requires Solo(c, v, stake) && a.validator == v && NoConflictIn(a, HistoryOf(s.history, v))
    requires a.target.epoch !in s.checkpoints && a.target !in s.attestations
    ensures var s', cp := Apply(c, s, Vote(a, true)), JustifiedCheckpoint(a.target, stake);
            && s'.checkpoints == s.checkpoints[a.target.epoch := cp] && s'.lastJustified == Some(cp)
            && s'.attestations.Keys == s.attestations.Keys + {a.target}
            && HistoryOf(s'.history, v) == Recorded(HistoryOf(s.history, v), a)
            && s'.lastFinalized == s.lastFinalized
  {
    assert FirstConflict(HistoryOf(s.history, v), a).None?;
    assert ThresholdMet(stake, stake);
    hide FirstConflict, Recorded, NoConflictIn, ThresholdMet;
    assert Counts(c.vs, Record(s, a), a);
  }

  /** What a finalising check does to the checkpoints from f - 2 on, f being the finalised epoch. */
  lemma FinalisingCheck(c: Config, s: State, epoch: nat, f: nat)
    requires CanFinalize(s) && s.lastJustified.value.epoch == f + 1 && s.checkpoints[f].epoch == f
    ensures var s' := Apply(c, s, Check(epoch, true));
            && FinalEpoch(s') == f
            && (forall e :: e in s'.checkpoints ==> e in s.checkpoints)
            && (forall e :: e in s.checkpoints && e >= TwoBefore(f) ==> e in s'.checkpoints)
            && (|s.checkpoints| > c.maxCheckpoints ==> forall e :: e in s'.checkpoints ==> e >= TwoBefore(f))
            && (forall e :: e in s'.checkpoints ==>
                  && s'.checkpoints[e].epoch == s.checkpoints[e].epoch
                  && s'.checkpoints[e].blockHash == s.checkpoints[e].blockHash
                  && (s.checkpoints[e].IsJustified() ==> s'.checkpoints[e].IsJustified()))
            && s'.attestations.Keys <= s.attestations.Keys
            && s'.history == s.history && s'.lastJustified == s.lastJustified
  {
    var after := AfterFinality(s);
    assert after.checkpoints.Keys == s.checkpoints.Keys;
    SameSize(after.checkpoints, s.checkpoints);
  }

  function VoteFor(v: ValidatorId, h: Hash, e: nat): Attestation
    requires e > 0
  {
    ChainVote(v, h, e - 1)
  }

  /** Votes for an epoch and the next, and a check. */
  function Pair(v: ValidatorId, h: Hash, e: nat): seq<Step>
    requires e > 0
  {
    [Vote(VoteFor(v, h, e), true), Vote(VoteFor(v, h, e + 1), true), Check(e + 1, true)]
  }

  /** Step k finalises epoch e with hash h. */
  ghost predicate FinalisesAt(c: Config, steps: seq<Step>, k: nat, e: nat, h: Hash) {
    k < |steps| && steps[k].Check? &&
    var s := Exec(c, steps[..k]);
    CanFinalize(s) && s.lastJustified.value.epoch == e + 1 && s.checkpoints[e].blockHash == h
  }

  /** Wherever neither epoch is live and nothing conflicts, such a pair of votes finalises the first epoch. */
  lemma PairFinalises(c: Config, steps: seq<Step>, v: ValidatorId, stake: nat, h: Hash, e: nat)
    requires Solo(c, v, stake) && e > 0
    requires var s, a, b := Exec(c, steps), VoteFor(v, h, e), VoteFor(v, h, e + 1);
             && NoConflictIn(a, HistoryOf(s.history, v)) && NoConflictIn(b, Recorded(HistoryOf(s.history, v), a))
             && e !in s.checkpoints && e + 1 !in s.checkpoints
             && a.target !in s.attestations && b.target !in s.attestations
    ensures var s, s' := Exec(c, steps), Exec(c, steps + Pair(v, h, e));
            && FinalisesAt(c, steps + Pair(v, h, e), |steps| + 2, e, h) && FinalEpoch(s') == e
            && s'.checkpoints.Keys <= s.checkpoints.Keys + {e, e + 1}
            && s'.attestations.Keys <= s.attestations.Keys + {VoteFor(v, h, e).target, VoteFor(v, h, e + 1).target}
            && HistoryOf(s'.history, v)
               == Recorded(Recorded(HistoryOf(s.history, v), VoteFor(v, h, e)), VoteFor(v, h, e + 1))
  {
    hide Exec, Apply, NoConflictIn, Solo, Recorded;
    var a, b, check := VoteFor(v, h, e), VoteFor(v, h, e + 1), Check(e + 1, true);
    ThreeSteps(c, steps, Vote(a, true), Vote(b, true), check);
    var s := Exec(c, steps);
    var s1 := Apply(c, s, Vote(a, true));
    var s2 := Apply(c, s1, Vote(b, true));
    SoloVote(c, s, v, stake, a);
    SoloVote(c, s1, v, stake, b);
    FinalisingCheck(c, s2, e + 1, e);
    SameHistory(s2, Apply(c, s2, check), v);
  }

  lemma SameHistory(s: State, s': State, v: ValidatorId)
    requires s'.history == s.history
    ensures HistoryOf(s'.history, v) == HistoryOf(s.history, v)
  {
  }

  lemma ThreeSteps(c: Config, steps: seq<Step>, x: Step, y: Step, z: Step)
    ensures var three := steps + [x, y, z];
            && three[..|steps| + 2] == steps + [x, y] && three[|steps| + 2] == z
            && Exec(c, steps + [x, y]) == Apply(c, Apply(c, Exec(c, steps), x), y)
            && Exec(c, three) == Apply(c, Exec(c, steps + [x, y]), z)
  {
    hide Apply, Exec;
    ExecTwo(c, steps, x, y);
    ExecSnoc(c, steps + [x, y], z);
    assert steps + [x, y] + [z] == steps + [x, y, z];
  }

  /** For any two epochs that are not consecutive, finalising the later one first makes the last finalised
      epoch go back to the earlier one. */
  lemma FinalEpochFalls(c: Config, v: ValidatorId, stake: nat, h: Hash, d: nat, e: nat)
    requires Solo(c, v, stake) && 0 < d && d + 2 <= e
    ensures FinalEpoch(Exec(c, Pair(v, h, e))) == e && FinalEpoch(Exec(c, Pair(v, h, e) + Pair(v, h, d))) == d
  {
    EmptyExec(c);
    PairApart(v, h, d, e);
    assert [] + Pair(v, h, e) == Pair(v, h, e);
    hide Exec, Pair, Solo, NoConflictIn;
    PairFinalises(c, [], v, stake, h, e);
    PairFinalises(c, Pair(v, h, e), v, stake, h, d);
  }

  lemma PairApart(v: ValidatorId, h: Hash, d: nat, e: nat)
    requires 0 < d && d + 2 <= e
    ensures var a, b, x, y := VoteFor(v, h, e), VoteFor(v, h, e + 1), VoteFor(v, h, d), VoteFor(v, h, d + 1);
            && HistoryOf(map[], v) == [] && Recorded([], a) == [a] && Recorded([a], b) == [a, b]
            && Recorded([a, b], x) == [a, b, x]
            && NoConflictIn(a, []) && NoConflictIn(b, [a]) && NoConflictIn(x, [a, b]) && NoConflictIn(y, [a, b, x])
  {
  }

  lemma EmptyExec(c: Config)
    ensures Exec(c, []) == Initial
  {
  }

  // ----- one hash per epoch -----

  /** Every epoch that is live before is live after, with its hash. */
  ghost predicate SameHashes(before: Checkpoints, after: Checkpoints) {
    forall e :: e in before ==> e in after && after[e].blockHash == before[e].blockHash
  }

  lemma AttestHashes(c: Config, s: State, a: Attestation, signatureOk: bool)
    ensures SameHashes(s.checkpoints, Attest(c, s, a, signatureOk).checkpoints)
  {
    hide FirstConflict, Counts, CountedVotes, Recorded, ThresholdMet, NewlyJustified;
  }

  lemma CheckHashes(c: Config, s: State, epoch: nat)
    requires |s.checkpoints| <= c.maxCheckpoints
    ensures SameHashes(s.checkpoints, Checked(c, s, epoch).checkpoints)
  {
    hide NextBreaker;
    if CanFinalize(s) {
      var after := AfterFinality(s);
      assert after.checkpoints.Keys == s.checkpoints.Keys;
      SameSize(after.checkpoints, s.checkpoints);
    }
  }

  lemma StepHashes(c: Config, s: State, step: Step)
    requires |s.checkpoints| <= c.maxCheckpoints
    ensures SameHashes(s.checkpoints, Apply(c, s, step).checkpoints)
  {
    hide Attest, Checked, SameHashes, CanFinalize;
    match step
    case Vote(a, signatureOk) => AttestHashes(c, s, a, signatureOk);
    case Check(epoch, notifyOk) => CheckHashes(c, s, epoch);
  }

  lemma {:induction false} HashStays(c: Config, steps: seq<Step>, i: nat, e: nat)
    requires i <= |steps| && AdmittedVotes(c, steps) <= c.maxCheckpoints
    requires e in Exec(c, steps[..i]).checkpoints
    ensures e in Exec(c, steps).checkpoints
    ensures Exec(c, steps).checkpoints[e].blockHash == Exec(c, steps[..i]).checkpoints[e].blockHash
  {
    if i == |steps| {
      assert steps[..i] == steps;
    } else {
      var n := |steps| - 1;
      assert steps[..n][..i] == steps[..i];
      HashStays(c, steps[..n], i, e);
      CheckpointsWithinVotes(c, steps[..n]);
      ExecLast(c, steps);
      hide Exec, Apply, Admissible;
      StepHashes(c, Exec(c, steps[..n]), steps[n]);
    }
  }

  /** In a run with no more votes than the checkpoint limit, which therefore prunes nothing, every epoch is
      finalised with one hash at most. */
  lemma OneHashPerEpoch(c: Config, steps: seq<Step>, i: nat, j: nat, e: nat, h: Hash, h': Hash)
    requires AdmittedVotes(c, steps) <= c.maxCheckpoints
    requires FinalisesAt(c, steps, i, e, h) && FinalisesAt(c, steps, j, e, h')
    ensures h == h'
  {
    hide Exec, AdmittedVotes;
    HashStays(c, steps, i, e);
    HashStays(c, steps, j, e);
  }

  // ----- two hashes for one epoch -----

  /** After votes for the epochs 1..n in a row, with nothing pruned. */
  ghost predicate Row(s: State, v: ValidatorId, h: Hash, n: nat) {
    && (forall e :: e in s.checkpoints <==> 1 <= e <= n)
    && (forall e :: e in s.checkpoints ==>
          s.checkpoints[e].IsJustified() && s.checkpoints[e].epoch == e && s.checkpoints[e].blockHash == h)
    && (forall id :: id in s.attestations ==> id.blockHash == h && id.epoch <= n)
    && HistoryOf(s.history, v) == Tail(Chain(v, h, n))
    && (n > 0 ==> s.lastJustified.Some? && s.lastJustified.value.epoch == n)
  }

  lemma RowVote(c: Config, s: State, v: ValidatorId, stake: nat, h: Hash, n: nat)
    requires Solo(c, v, stake) && Row(s, v, h, n)
    ensures Row(Apply(c, s, Vote(ChainVote(v, h, n), true)), v, h, n + 1)
  {
    hide Apply, Solo, Tail, NoConflictIn, Recorded;
    ChainClean(v, h, h, n);
    RecordedTail(Chain(v, h, n), ChainVote(v, h, n));
    SoloVote(c, s, v, stake, ChainVote(v, h, n));
  }

  lemma {:induction false} RowRun(c: Config, steps: seq<Step>, v: ValidatorId, stake: nat, h: Hash, m: nat, n: nat)
    returns (after: seq<Step>)
    requires Solo(c, v, stake) && Row(Exec(c, steps), v, h, m) && m <= n
    ensures Row(Exec(c, after), v, h, n) && steps <= after
  {
    hide Solo, Row, Exec, Apply;
    if m == n {
      after := steps;
    } else {
      after := RowRun(c, steps, v, stake, h, m, n - 1);
      RowVote(c, Exec(c, after), v, stake, h, n - 1);
      ExecSnoc(c, after, Vote(ChainVote(v, h, n - 1), true));
      after := after + [Vote(ChainVote(v, h, n - 1), true)];
    }
  }

  /** The first check finalises epoch 1 and prunes nothing. */
  lemma RowCheck(c: Config, s: State, v: ValidatorId, h: Hash)
    requires Row(s, v, h, 2)
    ensures CanFinalize(s) && Row(Apply(c, s, Check(2, true)), v, h, 2)
  {
    hide Tail, Chain;
    FinalisingCheck(c, s, 2, 1);
    hide Apply;
  }

  lemma RowSize(s: State, v: ValidatorId, h: Hash, n: nat)
    requires Row(s, v, h, n)
    ensures |s.checkpoints| == n
  {
    FirstEpochs(n);
    assert s.checkpoints.Keys == UpTo(n);
    assert |s.checkpoints| == |s.checkpoints.Keys|;
  }

  ghost function UpTo(n: nat): set<nat> {
    if n == 0 then {} else UpTo(n - 1) + {n}
  }

  lemma {:induction false} FirstEpochs(n: nat)
    ensures |UpTo(n)| == n && forall e :: e in UpTo(n) <==> 1 <= e <= n
  {
    if n > 0 {
      FirstEpochs(n - 1);
    }
  }

  /** After more than 64 votes in a row, votes for other hashes of the epochs 1 and 2 conflict with nothing kept. */
  lemma SecondPairClean(v: ValidatorId, h: Hash, other: Hash, n: nat)
    requires n > MAX_HISTORY
    ensures var tail, a, b := Tail(Chain(v, h, n)), VoteFor(v, other, 1), VoteFor(v, other, 2);
            NoConflictIn(a, tail) && NoConflictIn(b, Recorded(tail, a))
  {
    hide Chain, Tail, Slashable;
    var tail, a, b := Tail(Chain(v, h, n)), VoteFor(v, other, 1), VoteFor(v, other, 2);
    ChainClean(v, h, other, n);
    TailSize(Chain(v, h, n));
    forall i | 0 < i < |tail|
      ensures !Slashable(b, tail[i])
    {
      TailAt(v, h, n, i);
      FarApart(v, h, other, n - |tail| + i);
    }
    FarApart(v, h, other, 2);
  }

  lemma TailSize(log: seq<Attestation>)
    ensures |log| > MAX_HISTORY ==> |Tail(log)| == MAX_HISTORY
  {
  }

  lemma FarApart(v: ValidatorId, h: Hash, other: Hash, k: nat)
    requires k >= 2
    ensures !Slashable(VoteFor(v, other, 2), ChainVote(v, h, k))
    ensures !Slashable(VoteFor(v, other, 2), VoteFor(v, other, 1))
  {
  }

  lemma FinalisesEarlier(c: Config, steps: seq<Step>, more: seq<Step>, k: nat, e: nat, h: Hash)
    requires FinalisesAt(c, steps, k, e, h) && steps <= more
    ensures FinalisesAt(c, more, k, e, h)
  {
    assert more[..k] == steps[..k] && more[k] == steps[k];
  }

  /** With pruning and a full history an epoch can become final twice, with two hashes, whatever the limit. */
  lemma TwoHashesForOneEpoch(c: Config, v: ValidatorId, stake: nat, h: Hash, other: Hash)
    returns (steps: seq<Step>, i: nat, j: nat)
    requires Solo(c, v, stake) && h != other
    ensures FinalisesAt(c, steps, i, 1, h) && FinalisesAt(c, steps, j, 1, other)
  {
    hide Exec, Solo, NoConflictIn, Recorded, FinalisesAt, Pair, Tail, Chain, Row;
    var n := if c.maxCheckpoints > MAX_HISTORY then c.maxCheckpoints + 1 else MAX_HISTORY + 1;
    var first := RowFinal(c, v, stake, h);
    i := |first| - 1;
    var long := RowRun(c, first, v, stake, h, 2, n);
    var pruned := long + [Check(n, true)];
    OldEpochsGone(c, long, v, h, n);
    SecondPairClean(v, h, other, n);
    PairFinalises(c, pruned, v, stake, other, 1);
    steps := pruned + Pair(v, other, 1);
    FinalisesEarlier(c, first, steps, i, 1, h);
    j := |pruned| + 2;
  }

  lemma RowFinal(c: Config, v: ValidatorId, stake: nat, h: Hash) returns (steps: seq<Step>)
    requires Solo(c, v, stake)
    ensures steps != [] && FinalisesAt(c, steps, |steps| - 1, 1, h) && Row(Exec(c, steps), v, h, 2)
  {
    EmptyExec(c);
    assert Row(Exec(c, []), v, h, 0);
    var two := RowRun(c, [], v, stake, h, 0, 2);
    steps := two + [Check(2, true)];
    hide Exec, Apply, Tail, Chain, Solo;
    RowCheck(c, Exec(c, two), v, h);
    ExecSnoc(c, two, Check(2, true));
    assert steps[..|two|] == two;
  }

  /** A check after so many votes drops the first epochs and keeps the history. */
  lemma OldEpochsGone(c: Config, steps: seq<Step>, v: ValidatorId, h: Hash, n: nat)
    requires Row(Exec(c, steps), v, h, n) && n > c.maxCheckpoints && n > 5
    ensures var s := Exec(c, steps + [Check(n, true)]);
            && 1 !in s.checkpoints && 2 !in s.checkpoints
            && (forall id :: id in s.attestations ==> id.blockHash == h)
            && HistoryOf(s.history, v) == Tail(Chain(v, h, n))
  {
    hide Exec, Apply, Tail, Chain;
    var s := Exec(c, steps);
    RowSize(s, v, h, n);
    FinalisingCheck(c, s, n, n - 1);
    ExecSnoc(c, steps, Check(n, true));
    SameHistory(s, Apply(c, s, Check(n, true)), v);
  }
}
