/**
 The finality state machine as functions on values, and what holds in every run of it.

 A run is any sequence of two kinds of steps: one attestation is processed, or finalisation is
 checked. The validator set is fixed; signature verdicts and notification results belong to the
 steps. The logs of admitted attestations are defined from the run, not recorded beside it.
 */
module FinalityRun {
  import opened Bytes
  import opened Options
  import opened FinalityModel

  type History = map<ValidatorId, seq<Attestation>>
  type Checkpoints = map<nat, Checkpoint>

  datatype Config = Config(vs: ValidatorSet, alwaysReverify: bool, maxCheckpoints: nat, leakEpochs: nat)

  datatype Breaker = Running | Sync(attempt: nat) | Halted

  datatype BreakerEvent = FinalityAchieved | FinalityFailed | SyncSuccess | SyncFailed | ManualIntervention

  datatype State = State(checkpoints: Checkpoints, attestations: Aggregates, finalizedBlocks: map<Hash, nat>,
                         lastFinalized: Option<Checkpoint>, lastJustified: Option<Checkpoint>,
                         history: History, offenses: seq<Offense>,
                         currentEpoch: nat, epochsWithoutFinality: nat, breaker: Breaker)

  const Initial := State(map[], map[], map[], None, None, map[], [], 0, 0, Running)

  const MAX_SYNC_ATTEMPTS: nat := 3

  // ----- one attestation -----

  function HistoryOf(history: History, v: ValidatorId): seq<Attestation> {
    if v in history then history[v] else []
  }

  function Recorded(h: seq<Attestation>, a: Attestation): seq<Attestation> {
    (if |h| >= MAX_HISTORY then h[|h| - (MAX_HISTORY - 1)..] else h) + [a]
  }

  function Record(s: State, a: Attestation): State {
    s.(history := s.history[a.validator := Recorded(HistoryOf(s.history, a.validator), a)])
  }

  function FirstConflict(h: seq<Attestation>, a: Attestation): (r: Option<Attestation>)
    ensures r.None? <==> forall i :: 0 <= i < |h| ==> !Slashable(a, h[i])
    ensures r.Some? ==> r.value in h && Slashable(a, r.value)
  {
    if h == [] then None else if ConflictsWith(a, h[0]) then Some(h[0]) else FirstConflict(h[1..], a)
  }

  function OffenseFor(a: Attestation, prev: Attestation): Offense {
    Offense(a.validator, if a.target.epoch == prev.target.epoch then DoubleVoteOffense else SurroundVoteOffense,
            a, prev, a.target.epoch)
  }

  function CheckpointFor(vs: ValidatorSet, cps: Checkpoints, target: CheckpointId): Checkpoint {
    if target.epoch in cps then cps[target.epoch]
    else Checkpoint(target.epoch, target.blockHash, 0, Pending, 0, vs.total)
  }

  function AggregateFor(vs: ValidatorSet, atts: Aggregates, a: Attestation): Aggregate {
    if a.target in atts then atts[a.target] else NewAggregate(a.source, |vs.validators|)
  }

  function Counted(cp: Checkpoint, stake: nat): Checkpoint {
    cp.(attested := SaturatingAdd(cp.attested, stake)).TryJustify()
  }

  /** A known validator whose bit is not set yet. */
  predicate Counts(vs: ValidatorSet, s: State, a: Attestation) {
    a.validator in vs.validators && !AggregateFor(vs, s.attestations, a).HasAttested(vs.validators[a.validator].index)
  }

  /** The checkpoint that a counted vote of this stake justifies. */
  function NewlyJustified(vs: ValidatorSet, s: State, a: Attestation, stake: nat): Option<Checkpoint> {
    var cp := CheckpointFor(vs, s.checkpoints, a.target);
    var now := Counted(cp, stake);
    if Counts(vs, s, a) && !cp.IsJustified() && now.IsJustified() then Some(now) else None
  }

  function Opened(vs: ValidatorSet, s: State, a: Attestation): State {
    s.(checkpoints := s.checkpoints[a.target.epoch := CheckpointFor(vs, s.checkpoints, a.target)],
       attestations := s.attestations[a.target := AggregateFor(vs, s.attestations, a)])
  }

  function CountedVotes(vs: ValidatorSet, atts: Aggregates, a: Attestation, stake: nat): Aggregates
    requires a.validator in vs.validators
  {
    atts[a.target := AggregateFor(vs, atts, a).AddAttestation(a, vs.validators[a.validator].index, stake)]
  }

  function Voted(vs: ValidatorSet, s: State, a: Attestation, stake: nat): State {
    if !Counts(vs, s, a) then Opened(vs, s, a) else
      var justified := NewlyJustified(vs, s, a, stake);
      s.(checkpoints := s.checkpoints[a.target.epoch := Counted(CheckpointFor(vs, s.checkpoints, a.target), stake)],
         attestations := CountedVotes(vs, s.attestations, a, stake),
         lastJustified := if justified.Some? then justified else s.lastJustified)
  }

  /** A known validator, and a good signature where one is demanded. */
  predicate Eligible(c: Config, a: Attestation, signatureOk: bool) {
    a.validator in c.vs.validators && (c.alwaysReverify ==> signatureOk)
  }

  predicate Admissible(c: Config, s: State, a: Attestation, signatureOk: bool) {
    Eligible(c, a, signatureOk) && FirstConflict(HistoryOf(s.history, a.validator), a).None?
  }

  predicate Accepted(c: Config, s: State, a: Attestation, signatureOk: bool) {
    Admissible(c, s, a, signatureOk) && Counts(c.vs, s, a)
  }

  function Attest(c: Config, s: State, a: Attestation, signatureOk: bool): State {
    if !Eligible(c, a, signatureOk) then s else
      match FirstConflict(HistoryOf(s.history, a.validator), a)
      case Some(prev) => s.(offenses := s.offenses + [OffenseFor(a, prev)])
      case None => Voted(c.vs, Record(s, a), a, c.vs.validators[a.validator].stake)
  }

  // ----- finalisation -----

  /** The checkpoint one epoch before the last justified one is justified too. */
  predicate CanFinalize(s: State) {
    s.lastJustified.Some? && s.lastJustified.value.epoch > 0
    && s.lastJustified.value.epoch - 1 in s.checkpoints
    && s.checkpoints[s.lastJustified.value.epoch - 1].IsJustified()
  }

  function ToFinalize(s: State): Checkpoint
    requires CanFinalize(s)
  {
    s.checkpoints[s.lastJustified.value.epoch - 1].Finalize()
  }

  function AfterFinality(s: State): State
    requires CanFinalize(s)
  {
    var f := ToFinalize(s);
    s.(checkpoints := s.checkpoints[s.lastJustified.value.epoch - 1 := f],
       finalizedBlocks := s.finalizedBlocks[f.blockHash := f.blockHeight],
       lastFinalized := Some(f))
  }

  function MinKeepEpoch(lastFinalized: Option<Checkpoint>): nat {
    var e := if lastFinalized.Some? then lastFinalized.value.epoch else 0;
    if e >= 2 then e - 2 else 0
  }

  function KeptCheckpoints(cps: Checkpoints, k: nat): Checkpoints {
    map e | e in cps && e >= k :: cps[e]
  }

  function KeptAggregates(atts: Aggregates, k: nat): Aggregates {
    map id | id in atts && id.epoch >= k :: atts[id]
  }

  function Pruned(c: Config, s: State): State {
    if |s.checkpoints| <= c.maxCheckpoints then s else
      var k := MinKeepEpoch(s.lastFinalized);
      s.(checkpoints := KeptCheckpoints(s.checkpoints, k), attestations := KeptAggregates(s.attestations, k))
  }

  function NextBreaker(b: Breaker, e: BreakerEvent): Breaker {
    match (b, e)
    case (Running, FinalityFailed) => Sync(1)
    case (Sync(_), SyncSuccess) => Running
    case (Sync(n), SyncFailed) => if n >= MAX_SYNC_ATTEMPTS then Halted else Sync(n + 1)
    case (Halted, ManualIntervention) => Running
    case _ => b
  }

  function Checked(c: Config, s: State, epoch: nat): State {
    if CanFinalize(s) then
      Pruned(c, AfterFinality(s).(epochsWithoutFinality := 0, breaker := NextBreaker(s.breaker, FinalityAchieved)))
    else if s.currentEpoch != epoch then
      s.(currentEpoch := epoch, epochsWithoutFinality := s.epochsWithoutFinality + 1)
    else s
  }

  /** The notification of block storage after a finalisation. */
  function Notified(s: State, notifyOk: bool): State {
    if notifyOk then s else s.(breaker := NextBreaker(s.breaker, FinalityFailed))
  }

  // ----- runs -----

  datatype Step = Vote(a: Attestation, signatureOk: bool) | Check(epoch: nat, notifyOk: bool)

  function Apply(c: Config, s: State, step: Step): State {
    match step
    case Vote(a, signatureOk) => Attest(c, s, a, signatureOk)
    case Check(epoch, notifyOk) =>
      if CanFinalize(s) then Notified(Checked(c, s, epoch), notifyOk) else Checked(c, s, epoch)
  }

  ghost function ExecFrom(c: Config, s: State, steps: seq<Step>): State {
    if steps == [] then s else Apply(c, ExecFrom(c, s, steps[..|steps| - 1]), steps[|steps| - 1])
  }

  ghost function Exec(c: Config, steps: seq<Step>): State {
    ExecFrom(c, Initial, steps)
  }

  lemma {:induction false} ExecConcat(c: Config, s: State, a: seq<Step>, b: seq<Step>)
    ensures ExecFrom(c, s, a + b) == ExecFrom(c, ExecFrom(c, s, a), b)
    decreases |b|
  {
    hide Apply;
    if b == [] {
      assert a + b == a;
    } else {
      var n := |b| - 1;
      ExecConcat(c, s, a, b[..n]);
      assert (a + b)[..|a| + n] == a + b[..n];
    }
  }

  lemma ExecSnoc(c: Config, steps: seq<Step>, step: Step)
    ensures Exec(c, steps + [step]) == Apply(c, Exec(c, steps), step)
  {
    assert (steps + [step])[..|steps|] == steps;
  }

  // ----- the log of admitted attestations, and the history as its tail -----

  ghost predicate Admits(c: Config, s: State, step: Step, v: ValidatorId) {
    step.Vote? && step.a.validator == v && Admissible(c, s, step.a, step.signatureOk)
  }

  /** The attestations of v admitted in a run, in order. */
  ghost function Log(c: Config, steps: seq<Step>, v: ValidatorId): seq<Attestation> {
    if steps == [] then [] else
      var n := |steps| - 1;
      Log(c, steps[..n], v) + if Admits(c, Exec(c, steps[..n]), steps[n], v) then [steps[n].a] else []
  }

  ghost function Tail(log: seq<Attestation>): seq<Attestation> {
    if |log| <= MAX_HISTORY then log else log[|log| - MAX_HISTORY..]
  }

  lemma RecordedTail(log: seq<Attestation>, a: Attestation)
    ensures Recorded(Tail(log), a) == Tail(log + [a])
  {
  }

  lemma StepHistory(c: Config, s: State, step: Step, v: ValidatorId)
    ensures HistoryOf(Apply(c, s, step).history, v)
         == if Admits(c, s, step, v) then Recorded(HistoryOf(s.history, v), step.a) else HistoryOf(s.history, v)
  {
    hide FirstConflict, NextBreaker, NewlyJustified, Counts, CountedVotes, Counted, Recorded;
  }

  /** The history kept for a validator is the last 64 entries of its log. */
  lemma {:induction false} HistoryIsTail(c: Config, steps: seq<Step>, v: ValidatorId)
    ensures HistoryOf(Exec(c, steps).history, v) == Tail(Log(c, steps, v))
  {
    if steps != [] {
      hide Apply, Admissible, Recorded, Tail;
      var n := |steps| - 1;
      HistoryIsTail(c, steps[..n], v);
      StepHistory(c, Exec(c, steps[..n]), steps[n], v);
      if Admits(c, Exec(c, steps[..n]), steps[n], v) {
        RecordedTail(Log(c, steps[..n], v), steps[n].a);
      } else {
        assert Log(c, steps[..n], v) + [] == Log(c, steps[..n], v);
      }
    } else {
      EmptyTail();
    }
  }

  lemma EmptyTail()
    ensures Tail([]) == []
  {
  }

  /** No admitted attestation conflicts with one of the 64 admitted before it. */
  ghost predicate WindowClean(log: seq<Attestation>) {
    forall i, j :: 0 <= i < j < |log| && j - i <= MAX_HISTORY ==> !Slashable(log[j], log[i])
  }

  ghost predicate OwnEntries(log: seq<Attestation>, v: ValidatorId) {
    forall i :: 0 <= i < |log| ==> log[i].validator == v
  }

  lemma WindowExtends(log: seq<Attestation>, a: Attestation)
    requires WindowClean(log) && FirstConflict(Tail(log), a).None?
    ensures WindowClean(log + [a])
  {
    hide Slashable;
    var n, after := |log|, log + [a];
    var off := |log| - |Tail(log)|;
    forall i | off <= i < n
      ensures !Slashable(a, log[i])
    {
      assert Tail(log)[i - off] == log[i];
    }
    forall i, j | 0 <= i < j < |after| && j - i <= MAX_HISTORY
      ensures !Slashable(after[j], after[i])
    {
      assert after[i] == log[i];
      assert j < n ==> after[j] == log[j];
    }
  }

  lemma {:induction false} LogClean(c: Config, steps: seq<Step>, v: ValidatorId)
    ensures WindowClean(Log(c, steps, v)) && OwnEntries(Log(c, steps, v), v)
  {
    if steps != [] {
      hide WindowClean, FirstConflict, Tail;
      var n := |steps| - 1;
      LogClean(c, steps[..n], v);
      HistoryIsTail(c, steps[..n], v);
      var log := Log(c, steps[..n], v);
      if Admits(c, Exec(c, steps[..n]), steps[n], v) {
        WindowExtends(log, steps[n].a);
      } else {
        assert log + [] == log;
      }
    }
  }

  /** So every history holds at most 64 entries of its validator, none conflicting with an earlier one. */
  lemma HistoryClean(c: Config, steps: seq<Step>, v: ValidatorId)
    ensures var h := HistoryOf(Exec(c, steps).history, v);
            && |h| <= MAX_HISTORY && OwnEntries(h, v)
            && forall i, j :: 0 <= i < j < |h| ==> !Slashable(h[j], h[i])
  {
    HistoryIsTail(c, steps, v);
    LogClean(c, steps, v);
    hide Slashable, Exec, Log;
    var log, h := Log(c, steps, v), HistoryOf(Exec(c, steps).history, v);
    var off := |log| - |h|;
    forall i | 0 <= i < |h|
      ensures h[i] == log[i + off]
    {
    }
  }

  // ----- stake accounts -----

  /** The stake of every live epoch is the stake in the bitmaps of its targets. */
  ghost predicate Accounted(vs: ValidatorSet, cps: Checkpoints, atts: Aggregates) {
    && (forall id :: id in atts ==> id.epoch in cps && |atts[id].bitmap| == |vs.indexToId|)
    && (forall e :: e in cps ==> CheckpointOk(vs, cps[e], atts, e))
  }

  ghost predicate CheckpointOk(vs: ValidatorSet, cp: Checkpoint, atts: Aggregates, e: nat) {
    && cp.epoch == e
    && cp.total == vs.total
    && cp.attested == Min(EpochStake(vs, atts, e), U128_MAX)
    && (cp.IsJustified() <==> ThresholdMet(cp.attested, cp.total))
  }

  /** What an accepted attestation adds to epoch e. */
  ghost function VoteStake(vs: ValidatorSet, a: Attestation, e: nat): nat {
    if a.target.epoch == e && a.validator in vs.validators then vs.validators[a.validator].stake else 0
  }

  /** A counted vote adds its validator's stake to its own epoch and to no other. */
  lemma VoteAdds(vs: ValidatorSet, s: State, a: Attestation, e: nat)
    requires WellFormed(vs) && Counts(vs, s, a)
    requires forall id :: id in s.attestations ==> |s.attestations[id].bitmap| == |vs.indexToId|
    ensures EpochStake(vs, CountedVotes(vs, s.attestations, a, vs.validators[a.validator].stake), e)
         == EpochStake(vs, s.attestations, e) + VoteStake(vs, a, e)
  {
    var Validator(stake, idx) := vs.validators[a.validator];
    var agg := AggregateFor(vs, s.attestations, a);
    StakeSetBit(vs, agg.bitmap, idx);
    StakeNone(vs, |vs.validators|);
    EpochStakeUpdate(vs, s.attestations, a.target, agg.AddAttestation(a, idx, stake), e);
  }

  /** Opening a checkpoint and an aggregate for a target counts nothing. */
  lemma OpenAdds(vs: ValidatorSet, s: State, a: Attestation, e: nat)
    ensures EpochStake(vs, Opened(vs, s, a).attestations, e) == EpochStake(vs, s.attestations, e)
  {
    StakeNone(vs, |vs.validators|);
    EpochStakeUpdate(vs, s.attestations, a.target, AggregateFor(vs, s.attestations, a), e);
  }

  lemma NoTargetsNoStake(vs: ValidatorSet, atts: Aggregates, e: nat)
    requires forall id :: id in atts ==> id.epoch != e
    ensures EpochStake(vs, atts, e) == 0
  {
    assert Weights(vs, atts, e) == map[];
  }

  lemma ThresholdMonotone(total: nat)
    ensures !ThresholdMet(0, total)
    ensures forall x: nat, y: nat :: x <= y && ThresholdMet(x, total) ==> ThresholdMet(y, total)
  {
  }

  lemma SameLength(vs: ValidatorSet)
    requires WellFormed(vs)
    ensures |vs.validators| == |vs.indexToId|
  {
  }

  lemma CountedAccounted(vs: ValidatorSet, s: State, a: Attestation)
    requires WellFormed(vs) && Accounted(vs, s.checkpoints, s.attestations) && Counts(vs, s, a)
    ensures var stake := vs.validators[a.validator].stake;
            Accounted(vs, s.checkpoints[a.target.epoch := Counted(CheckpointFor(vs, s.checkpoints, a.target), stake)],
                      CountedVotes(vs, s.attestations, a, stake))
  {
    hide EpochStake, ThresholdMet, WellFormed;
    SameLength(vs);
    ThresholdMonotone(vs.total);
    if a.target.epoch !in s.checkpoints {
      NoTargetsNoStake(vs, s.attestations, a.target.epoch);
    }
    var stake := vs.validators[a.validator].stake;
    var cps := s.checkpoints[a.target.epoch := Counted(CheckpointFor(vs, s.checkpoints, a.target), stake)];
    var atts := CountedVotes(vs, s.attestations, a, stake);
    forall e | e in cps
      ensures CheckpointOk(vs, cps[e], atts, e)
    {
      VoteAdds(vs, s, a, e);
      assert e in s.checkpoints ==> CheckpointOk(vs, s.checkpoints[e], s.attestations, e);
    }
  }

  lemma OpenedAccounted(vs: ValidatorSet, s: State, a: Attestation)
    requires WellFormed(vs) && Accounted(vs, s.checkpoints, s.attestations)
    ensures Accounted(vs, Opened(vs, s, a).checkpoints, Opened(vs, s, a).attestations)
  {
    hide EpochStake, ThresholdMet, WellFormed;
    SameLength(vs);
    ThresholdMonotone(vs.total);
    if a.target.epoch !in s.checkpoints {
      NoTargetsNoStake(vs, s.attestations, a.target.epoch);
    }
    var s' := Opened(vs, s, a);
    forall e | e in s'.checkpoints
      ensures CheckpointOk(vs, s'.checkpoints[e], s'.attestations, e)
    {
      OpenAdds(vs, s, a, e);
      assert e in s.checkpoints ==> CheckpointOk(vs, s.checkpoints[e], s.attestations, e);
    }
  }

  lemma VotedAccounted(vs: ValidatorSet, s: State, a: Attestation, stake: nat)
    requires WellFormed(vs) && Accounted(vs, s.checkpoints, s.attestations)
    requires a.validator in vs.validators ==> stake == vs.validators[a.validator].stake
    ensures Accounted(vs, Voted(vs, s, a, stake).checkpoints, Voted(vs, s, a, stake).attestations)
  {
    hide Accounted, WellFormed, Opened, Counted, CountedVotes, NewlyJustified;
    if Counts(vs, s, a) {
      CountedAccounted(vs, s, a);
    } else {
      OpenedAccounted(vs, s, a);
    }
  }

  lemma FinalizedAccounted(vs: ValidatorSet, s: State)
    requires Accounted(vs, s.checkpoints, s.attestations) && CanFinalize(s)
    ensures ToFinalize(s).state == Finalized
    ensures Accounted(vs, AfterFinality(s).checkpoints, s.attestations)
  {
    hide EpochStake, ThresholdMet;
    var e := s.lastJustified.value.epoch - 1;
    assert CheckpointOk(vs, s.checkpoints[e], s.attestations, e);
    assert CheckpointOk(vs, ToFinalize(s), s.attestations, e);
  }

  /** Pruning drops whole epochs: the accounts of the others are untouched. */
  lemma PrunedAccounted(c: Config, s: State)
    requires Accounted(c.vs, s.checkpoints, s.attestations)
    ensures Accounted(c.vs, Pruned(c, s).checkpoints, Pruned(c, s).attestations)
  {
    hide EpochStake, ThresholdMet;
    var s', k := Pruned(c, s), MinKeepEpoch(s.lastFinalized);
    forall e | e in s'.checkpoints
      ensures CheckpointOk(c.vs, s'.checkpoints[e], s'.attestations, e)
    {
      assert CheckpointOk(c.vs, s.checkpoints[e], s.attestations, e);
      if s' != s {
        KeptStake(c.vs, s.attestations, k, e);
      }
    }
  }

  lemma KeptStake(vs: ValidatorSet, atts: Aggregates, k: nat, e: nat)
    requires e >= k
    ensures EpochStake(vs, KeptAggregates(atts, k), e) == EpochStake(vs, atts, e)
  {
    assert Weights(vs, KeptAggregates(atts, k), e) == Weights(vs, atts, e);
  }

  lemma StepAccounted(c: Config, s: State, step: Step)
    requires WellFormed(c.vs) && Accounted(c.vs, s.checkpoints, s.attestations)
    ensures var s' := Apply(c, s, step); Accounted(c.vs, s'.checkpoints, s'.attestations)
  {
    hide Accounted, Voted, Pruned, FirstConflict, WellFormed;
    match step
    case Vote(a, signatureOk) =>
      if Eligible(c, a, signatureOk) {
        VotedAccounted(c.vs, Record(s, a), a, c.vs.validators[a.validator].stake);
      }
    case Check(epoch, notifyOk) =>
      if CanFinalize(s) {
        FinalizedAccounted(c.vs, s);
        var f := AfterFinality(s).(epochsWithoutFinality := 0, breaker := NextBreaker(s.breaker, FinalityAchieved));
        PrunedAccounted(c, f);
      }
  }

  /** In every run the attested stake of a live epoch is the sum, over the targets of that epoch, of the
      stakes whose bit is set, and the epoch is justified exactly if that meets the threshold. */
  lemma {:induction false} AccountsBalance(c: Config, steps: seq<Step>)
    requires WellFormed(c.vs)
    ensures Accounted(c.vs, Exec(c, steps).checkpoints, Exec(c, steps).attestations)
  {
    if steps != [] {
      hide Accounted, Apply, WellFormed;
      AccountsBalance(c, steps[..|steps| - 1]);
      StepAccounted(c, Exec(c, steps[..|steps| - 1]), steps[|steps| - 1]);
    }
  }

  /** An attestation moves the stake of its own epoch, by its validator's stake, and only if accepted. */
  lemma AttestGains(c: Config, s: State, a: Attestation, signatureOk: bool, e: nat)
    requires WellFormed(c.vs) && Accounted(c.vs, s.checkpoints, s.attestations)
    ensures EpochStake(c.vs, Attest(c, s, a, signatureOk).attestations, e)
         == EpochStake(c.vs, s.attestations, e) + if Accepted(c, s, a, signatureOk) then VoteStake(c.vs, a, e) else 0
  {
    hide EpochStake, WellFormed, FirstConflict, CheckpointOk;
    if Admissible(c, s, a, signatureOk) {
      var r := Record(s, a);
      if Counts(c.vs, s, a) {
        VoteAdds(c.vs, r, a, e);
      } else {
        OpenAdds(c.vs, r, a, e);
      }
    }
  }

  // ----- who counts where -----

  /** A set bit was set before, or is set by this accepted vote. */
  lemma BitOrigin(c: Config, s: State, step: Step, id: CheckpointId, i: nat)
    requires id in Apply(c, s, step).attestations && Apply(c, s, step).attestations[id].HasAttested(i)
    ensures || (id in s.attestations && s.attestations[id].HasAttested(i))
            || (step.Vote? && Accepted(c, s, step.a, step.signatureOk) && id == step.a.target
                && i == c.vs.validators[step.a.validator].index)
  {
    hide FirstConflict, Voted, NextBreaker, HistoryOf, Recorded, KeptCheckpoints, ToFinalize;
    if step.Vote? && Admissible(c, s, step.a, step.signatureOk) {
      VotedBit(c.vs, Record(s, step.a), step.a, c.vs.validators[step.a.validator].stake, id, i);
    }
  }

  lemma VotedBit(vs: ValidatorSet, s: State, a: Attestation, stake: nat, id: CheckpointId, i: nat)
    requires id in Voted(vs, s, a, stake).attestations && Voted(vs, s, a, stake).attestations[id].HasAttested(i)
    ensures || (id in s.attestations && s.attestations[id].HasAttested(i))
            || (Counts(vs, s, a) && id == a.target && i == vs.validators[a.validator].index)
  {
    hide NewlyJustified, Counted, CheckpointFor;
  }

  /** The validator with index i has an admitted vote for the target. */
  ghost predicate Logged(c: Config, steps: seq<Step>, i: nat, id: CheckpointId) {
    i < |c.vs.indexToId|
    && exists k :: 0 <= k < |Log(c, steps, c.vs.indexToId[i])| && Log(c, steps, c.vs.indexToId[i])[k].target == id
  }

  lemma LogGrows(c: Config, steps: seq<Step>, i: nat, id: CheckpointId)
    requires steps != [] && Logged(c, steps[..|steps| - 1], i, id)
    ensures Logged(c, steps, i, id)
  {
    hide Exec, Admits;
    var v := c.vs.indexToId[i];
    var before, after := Log(c, steps[..|steps| - 1], v), Log(c, steps, v);
    var k :| 0 <= k < |before| && before[k].target == id;
    assert after[k] == before[k];
  }

  /** In every run every counted vote is in its validator's log. */
  lemma {:induction false} BitsAreLogged(c: Config, steps: seq<Step>, id: CheckpointId, i: nat)
    requires Located(c.vs)
    requires id in Exec(c, steps).attestations && Exec(c, steps).attestations[id].HasAttested(i)
    ensures Logged(c, steps, i, id) && c.vs.indexToId[i] in c.vs.validators
  {
    if steps != [] {
      var n := |steps| - 1;
      var before := Exec(c, steps[..n]);
      BitOrigin(c, before, steps[n], id, i);
      if id in before.attestations && before.attestations[id].HasAttested(i) {
        BitsAreLogged(c, steps[..n], id, i);
        LogGrows(c, steps, i, id);
      } else {
        VoterLogged(c, steps);
      }
    }
  }

  lemma VoterLogged(c: Config, steps: seq<Step>)
    requires Located(c.vs) && steps != []
    requires var step := steps[|steps| - 1];
             step.Vote? && Admissible(c, Exec(c, steps[..|steps| - 1]), step.a, step.signatureOk)
    ensures var a := steps[|steps| - 1].a; Logged(c, steps, c.vs.validators[a.validator].index, a.target)
  {
    hide Exec, FirstConflict, TotalStake;
    var a := steps[|steps| - 1].a;
    var log := Log(c, steps, a.validator);
    assert log[|log| - 1] == a;
    assert c.vs.indexToId[c.vs.validators[a.validator].index] == a.validator;
  }

  /** A validator that counts for two targets of one epoch voted for them more than 64 votes apart. */
  lemma TwoTargetsAreFar(c: Config, steps: seq<Step>, x: CheckpointId, y: CheckpointId, i: nat)
    returns (m: nat, n: nat)
    requires Located(c.vs) && x != y && x.epoch == y.epoch
    requires x in Exec(c, steps).attestations && Exec(c, steps).attestations[x].HasAttested(i)
    requires y in Exec(c, steps).attestations && Exec(c, steps).attestations[y].HasAttested(i)
    ensures i < |c.vs.indexToId|
    ensures var log := Log(c, steps, c.vs.indexToId[i]);
            && m < |log| && n < |log| && log[m].target == x && log[n].target == y
            && (m > n + MAX_HISTORY || n > m + MAX_HISTORY)
  {
    BitsAreLogged(c, steps, x, i);
    BitsAreLogged(c, steps, y, i);
    var v := c.vs.indexToId[i];
    LogClean(c, steps, v);
    hide Exec, Log;
    var log := Log(c, steps, v);
    m :| 0 <= m < |log| && log[m].target == x;
    n :| 0 <= n < |log| && log[n].target == y;
    assert Slashable(log[m], log[n]) && Slashable(log[n], log[m]);
  }

  /** No validator has had more than n attestations admitted. */
  ghost predicate LogsWithin(c: Config, steps: seq<Step>, n: nat) {
    forall v :: v in c.vs.validators ==> |Log(c, steps, v)| <= n
  }

  /** So with at most 65 votes per validator nobody counts twice in an epoch. */
  lemma NoDoubleCount(c: Config, steps: seq<Step>, x: CheckpointId, y: CheckpointId, i: nat)
    requires Located(c.vs) && LogsWithin(c, steps, MAX_HISTORY + 1)
    requires x.epoch == y.epoch
    requires x in Exec(c, steps).attestations && Exec(c, steps).attestations[x].HasAttested(i)
    requires y in Exec(c, steps).attestations && Exec(c, steps).attestations[y].HasAttested(i)
    ensures x == y
  {
    if x != y {
      BitsAreLogged(c, steps, x, i);
      assert |Log(c, steps, c.vs.indexToId[i])| <= MAX_HISTORY + 1;
      hide Exec, Log;
      var m, n := TwoTargetsAreFar(c, steps, x, y, i);
    }
  }

  /** And no epoch counts more than the total stake. */
  lemma AttestedWithinTotal(c: Config, steps: seq<Step>, e: nat)
    requires WellFormed(c.vs) && LogsWithin(c, steps, MAX_HISTORY + 1)
    ensures EpochStake(c.vs, Exec(c, steps).attestations, e) <= TotalStake(c.vs)
  {
    AccountsBalance(c, steps);
    hide Exec, LogsWithin, CheckpointOk, TotalStake;
    var atts, n := Exec(c, steps).attestations, |c.vs.indexToId|;
    var bits := map id | id in atts && id.epoch == e :: atts[id].bitmap;
    forall x, y | x in bits && y in bits && x != y
      ensures DisjointBits(bits[x], bits[y])
    {
      forall i | 0 <= i < n
        ensures !(bits[x][i] && bits[y][i])
      {
        if bits[x][i] && bits[y][i] {
          NoDoubleCount(c, steps, x, y, i);
        }
      }
    }
    DisjointSum(c.vs, bits, Weights(c.vs, atts, e), seq(n, _ => false));
  }

  /** More than two thirds of the stake voted in epoch e, by the state's own bitmaps. */
  ghost predicate Majority(vs: ValidatorSet, s: State, e: nat) {
    3 * EpochStake(vs, s.attestations, e) > 2 * TotalStake(vs)
  }

  /** In every run a live epoch is justified exactly if the stake set in its bitmaps is more than two thirds of
      the recorded total, or short of that by a third of a unit where the threshold is too low. */
  lemma JustifiedExactly(c: Config, steps: seq<Step>, e: nat)
    requires WellFormed(c.vs) && e in Exec(c, steps).checkpoints
    ensures var stake := EpochStake(c.vs, Exec(c, steps).attestations, e);
            Exec(c, steps).checkpoints[e].IsJustified()
            <==> if ThresholdTooLow(c.vs.total) then 3 * stake + 1 >= 2 * c.vs.total else 3 * stake > 2 * c.vs.total
  {
    AccountsBalance(c, steps);
    var s := Exec(c, steps);
    if c.vs.total == 0 {
      NoStakeNoVotes(c.vs, s.attestations, e);
    } else {
      ThresholdMeans(s.checkpoints[e].attested, c.vs.total);
    }
    hide Exec, EpochStake, TotalStake, ThresholdMet;
    assert CheckpointOk(c.vs, s.checkpoints[e], s.attestations, e);
    if c.vs.total == 0 {
      ThresholdMonotone(0);
    }
  }

  /** So, unless the total saturates or is one of those, exactly by more than two thirds of the stake. */
  lemma JustifiedIsTwoThirds(c: Config, steps: seq<Step>, e: nat)
    requires WellFormed(c.vs) && TotalStake(c.vs) <= U128_MAX && !ThresholdTooLow(c.vs.total)
    requires e in Exec(c, steps).checkpoints
    ensures Exec(c, steps).checkpoints[e].IsJustified() <==> Majority(c.vs, Exec(c, steps), e)
  {
    JustifiedExactly(c, steps, e);
    hide Exec, EpochStake, TotalStake;
  }

  /** In every run a checkpoint is kept under its own epoch. */
  lemma {:induction false} EpochKeys(c: Config, steps: seq<Step>)
    ensures forall e :: e in Exec(c, steps).checkpoints ==> Exec(c, steps).checkpoints[e].epoch == e
  {
    if steps != [] {
      EpochKeys(c, steps[..|steps| - 1]);
      hide ExecFrom;
      StepKeys(c, Exec(c, steps[..|steps| - 1]), steps[|steps| - 1]);
      ExecLast(c, steps);
    }
  }

  lemma ExecLast(c: Config, steps: seq<Step>)
    requires steps != []
    ensures Exec(c, steps) == Apply(c, Exec(c, steps[..|steps| - 1]), steps[|steps| - 1])
  {
  }

  lemma StepKeys(c: Config, s: State, step: Step)
    requires forall e :: e in s.checkpoints ==> s.checkpoints[e].epoch == e
    ensures forall e :: e in Apply(c, s, step).checkpoints ==> Apply(c, s, step).checkpoints[e].epoch == e
  {
    hide FirstConflict, NextBreaker, Counts, CountedVotes, Recorded, ThresholdMet;
  }

  // ----- what happened in a run -----

  datatype Event = Finalises(hash: Hash) | Convicts(offense: Offense) | FailsToNotify

  /** The step, taken in this state, makes the event happen. */
  ghost predicate Causes(c: Config, s: State, step: Step, ev: Event) {
    match ev
    case Finalises(h) => step.Check? && CanFinalize(s) && ToFinalize(s).blockHash == h
    case Convicts(o) =>
      && step.Vote? && Eligible(c, step.a, step.signatureOk)
      && FirstConflict(HistoryOf(s.history, step.a.validator), step.a) == Some(o.second)
      && o == OffenseFor(step.a, o.second)
    case FailsToNotify => step.Check? && CanFinalize(s) && !step.notifyOk
  }

  ghost predicate HappensAt(c: Config, steps: seq<Step>, k: nat, ev: Event) {
    k < |steps| && Causes(c, Exec(c, steps[..k]), steps[k], ev)
  }

  ghost predicate Happened(c: Config, steps: seq<Step>, ev: Event) {
    exists k: nat :: HappensAt(c, steps, k, ev)
  }

  lemma HappenedSnoc(c: Config, steps: seq<Step>, ev: Event)
    requires steps != []
    ensures var n := |steps| - 1;
            Happened(c, steps, ev) <==> Happened(c, steps[..n], ev) || Causes(c, Exec(c, steps[..n]), steps[n], ev)
  {
    hide Exec, Causes;
    var n := |steps| - 1;
    var before := steps[..n];
    assert forall k :: 0 <= k < n ==> before[..k] == steps[..k];
    if k: nat :| HappensAt(c, before, k, ev) {
      assert HappensAt(c, steps, k, ev);
    }
    if k: nat :| HappensAt(c, steps, k, ev) {
      assert k < n ==> HappensAt(c, before, k, ev);
    }
    assert HappensAt(c, steps, n, ev) <==> Causes(c, Exec(c, before), steps[n], ev);
  }

  // ----- finalised blocks -----

  /** An attestation touches nothing that finalisation keeps. */
  lemma AttestFrame(c: Config, s: State, a: Attestation, signatureOk: bool)
    ensures var s' := Attest(c, s, a, signatureOk);
            && s'.finalizedBlocks == s.finalizedBlocks && s'.lastFinalized == s.lastFinalized
            && s'.breaker == s.breaker && s'.currentEpoch == s.currentEpoch
            && s'.epochsWithoutFinality == s.epochsWithoutFinality
  {
    hide FirstConflict, NewlyJustified, Counts, CountedVotes, Counted, Recorded;
  }

  lemma StepFinal(c: Config, s: State, step: Step, h: Hash)
    ensures h in Apply(c, s, step).finalizedBlocks <==> h in s.finalizedBlocks || Causes(c, s, step, Finalises(h))
  {
    hide Attest, NextBreaker;
    if step.Vote? {
      AttestFrame(c, s, step.a, step.signatureOk);
    }
  }

  /** In every run the final blocks are exactly those that some check finalised: none is lost, none slips in. */
  lemma {:induction false} FinalIffFinalised(c: Config, steps: seq<Step>, h: Hash)
    ensures h in Exec(c, steps).finalizedBlocks <==> Happened(c, steps, Finalises(h))
  {
    if steps != [] {
      hide Apply, Causes, Happened;
      var n := |steps| - 1;
      FinalIffFinalised(c, steps[..n], h);
      StepFinal(c, Exec(c, steps[..n]), steps[n], h);
      HappenedSnoc(c, steps, Finalises(h));
    }
  }

  ghost predicate Justified(s: State, e: nat) {
    e in s.checkpoints && s.checkpoints[e].IsJustified()
  }

  lemma StepLastJustified(c: Config, s: State, step: Step)
    requires forall e :: e in s.checkpoints ==> s.checkpoints[e].epoch == e
    ensures var s' := Apply(c, s, step);
            || s'.lastJustified == s.lastJustified
            || (s'.lastJustified.Some? && step.Vote? && s'.lastJustified.value.epoch == step.a.target.epoch)
  {
    hide FirstConflict, NextBreaker, Counts, CountedVotes, Recorded, ThresholdMet;
  }

  lemma StepJustified(c: Config, s: State, step: Step)
    requires forall e :: e in s.checkpoints ==> s.checkpoints[e].epoch == e
    ensures var s' := Apply(c, s, step);
            || s'.lastJustified == s.lastJustified
            || (s'.lastJustified.Some? && Justified(s', s'.lastJustified.value.epoch))
  {
    hide FirstConflict, NextBreaker, Counts, CountedVotes, Recorded, ThresholdMet;
  }

  /** The last justified checkpoint was justified at some point of the run. */
  lemma {:induction false} LastJustifiedHeld(c: Config, steps: seq<Step>) returns (m: nat)
    ensures m <= |steps|
    ensures var last := Exec(c, steps).lastJustified;
            last.Some? ==> Justified(Exec(c, steps[..m]), last.value.epoch)
  {
    m := |steps|;
    assert steps[..m] == steps;
    if steps != [] {
      var n := |steps| - 1;
      EpochKeys(c, steps[..n]);
      StepJustified(c, Exec(c, steps[..n]), steps[n]);
      hide Apply;
      if Exec(c, steps).lastJustified == Exec(c, steps[..n]).lastJustified {
        m := LastJustifiedHeld(c, steps[..n]);
        assert steps[..n][..m] == steps[..m];
      }
    }
  }

  /** In every run every final block was the checkpoint of an epoch in which more than two thirds of the
      stake had voted by then, and so they had, at that or an earlier point, in the next epoch. */
  lemma FinalMeansTwoMajorities(c: Config, steps: seq<Step>, h: Hash) returns (e: nat, k: nat, m: nat)
    requires WellFormed(c.vs) && TotalStake(c.vs) <= U128_MAX && !ThresholdTooLow(c.vs.total)
    requires h in Exec(c, steps).finalizedBlocks
    ensures m <= k < |steps|
    ensures e in Exec(c, steps[..k]).checkpoints && Exec(c, steps[..k]).checkpoints[e].blockHash == h
    ensures Majority(c.vs, Exec(c, steps[..k]), e) && Majority(c.vs, Exec(c, steps[..m]), e + 1)
  {
    FinalIffFinalised(c, steps, h);
    hide Exec, Majority, TotalStake, WellFormed, ThresholdTooLow;
    k :| HappensAt(c, steps, k, Finalises(h));
    e := Exec(c, steps[..k]).lastJustified.value.epoch - 1;
    JustifiedIsTwoThirds(c, steps[..k], e);
    m := LastJustifiedHeld(c, steps[..k]);
    assert steps[..k][..m] == steps[..m];
    JustifiedIsTwoThirds(c, steps[..m], e + 1);
  }

  // ----- offences -----

  /** An offence names two attestations of one validator that do break the rule it is filed under. */
  ghost predicate OffenseOk(o: Offense) {
    && o.first.validator == o.validator && Slashable(o.first, o.second)
    && o.kind == (if o.first.target.epoch == o.second.target.epoch then DoubleVoteOffense else SurroundVoteOffense)
    && o.detectedEpoch == o.first.target.epoch
  }

  lemma StepOffenses(c: Config, s: State, step: Step, o: Offense)
    ensures o in Apply(c, s, step).offenses <==> o in s.offenses || Causes(c, s, step, Convicts(o))
  {
    hide FirstConflict, NextBreaker, NewlyJustified, Counts, CountedVotes, Counted, Recorded;
  }

  /** In every run the offences on record are exactly the rejected conflicts. */
  lemma {:induction false} OffenseIffConvicted(c: Config, steps: seq<Step>, o: Offense)
    ensures o in Exec(c, steps).offenses <==> Happened(c, steps, Convicts(o))
  {
    if steps != [] {
      hide Apply, Causes, Happened;
      var n := |steps| - 1;
      OffenseIffConvicted(c, steps[..n], o);
      StepOffenses(c, Exec(c, steps[..n]), steps[n], o);
      HappenedSnoc(c, steps, Convicts(o));
    }
  }

  /** And each of them is genuine: the other attestation was admitted earlier in the run. */
  lemma OffenseIsGenuine(c: Config, steps: seq<Step>, o: Offense) returns (k: nat)
    requires o in Exec(c, steps).offenses
    ensures OffenseOk(o) && k < |steps| && steps[k].Vote? && steps[k].a == o.first
    ensures o.second in Log(c, steps[..k], o.validator)
  {
    OffenseIffConvicted(c, steps, o);
    hide Exec, Log;
    k :| HappensAt(c, steps, k, Convicts(o));
    HistoryIsTail(c, steps[..k], o.validator);
  }

  // ----- the circuit breaker -----

  lemma StepBreaker(c: Config, s: State, step: Step)
    requires s.breaker == Running || s.breaker == Sync(1)
    ensures Apply(c, s, step).breaker == if Causes(c, s, step, FailsToNotify) then Sync(1) else s.breaker
  {
    hide FirstConflict, NewlyJustified, Counts, CountedVotes, Counted, Recorded;
  }

  /** In every run the breaker runs until the first failed notification and then stays in its first
      sync attempt: no step of the service takes it out of there, and it never halts. */
  lemma {:induction false} BreakerLatches(c: Config, steps: seq<Step>)
    ensures Exec(c, steps).breaker == if Happened(c, steps, FailsToNotify) then Sync(1) else Running
  {
    if steps != [] {
      hide Apply, Causes, Happened;
      var n := |steps| - 1;
      BreakerLatches(c, steps[..n]);
      StepBreaker(c, Exec(c, steps[..n]), steps[n]);
      HappenedSnoc(c, steps, FailsToNotify);
    }
  }
}
