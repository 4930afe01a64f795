/**
 What every vote does in every run, in epochs, hashes and stakes: which votes are admitted, what is filed against
 the others, what the aggregates and checkpoints hold, and when an epoch counts as the last justified one.
 */
module FinalityAdmission {
  import opened Bytes
  import opened Options
  import opened FinalityModel
  import opened FinalityRun

  // ----- admission -----

  /** The last 64 votes of a log. */
  ghost function Last64(log: seq<Attestation>): seq<Attestation> {
    if |log| <= 64 then log else log[|log| - 64..]
  }

  /** Vote i is the first of these that is slashable together with a. */
  ghost predicate FirstIn(h: seq<Attestation>, i: nat, a: Attestation) {
    i < |h| && Slashable(a, h[i]) && NoneSlashable(h[..i], a)
  }

  ghost predicate NoneSlashable(h: seq<Attestation>, a: Attestation) {
    forall i :: 0 <= i < |h| ==> !Slashable(a, h[i])
  }

  lemma {:induction false} FirstConflictAt(h: seq<Attestation>, a: Attestation) returns (i: nat)
    requires FirstConflict(h, a).Some?
    ensures FirstIn(h, i, a) && FirstConflict(h, a) == Some(h[i])
  {
    hide Slashable;
    i := 0;
    if !ConflictsWith(a, h[0]) {
      NoConflict(a, h[0]);
      var k := FirstConflictAt(h[1..], a);
      i := k + 1;
      assert forall j :: 1 <= j < i ==> h[..i][j] == h[1..][..k][j - 1];
    }
  }

  lemma NoConflict(a: Attestation, b: Attestation)
    ensures ConflictsWith(a, b) <==> Slashable(a, b)
  {
  }

  lemma TailIsLast64(log: seq<Attestation>)
    ensures Tail(log) == Last64(log)
  {
  }

  /** What is filed against vote a. */
  ghost function FiledAgainst(a: Attestation, b: Attestation): Offense {
    Offense(a.validator, if a.target.epoch == b.target.epoch then DoubleVoteOffense else SurroundVoteOffense, a, b,
            a.target.epoch)
  }

  ghost predicate Unsound(c: Config, a: Attestation, signatureOk: bool) {
    a.validator !in c.vs.validators || (c.alwaysReverify && !signatureOk)
  }

  lemma LogSnoc(c: Config, steps: seq<Step>, step: Step, v: ValidatorId)
    ensures Log(c, steps + [step], v)
         == Log(c, steps, v) + if Admits(c, Exec(c, steps), step, v) then [step.a] else []
  {
    hide Exec, Admits;
    assert (steps + [step])[..|steps|] == steps;
  }

  /** What a vote does to the history kept of its validator, and what is filed. */
  lemma AttestOutcome(c: Config, s: State, a: Attestation, signatureOk: bool)
    ensures var h, s' := HistoryOf(s.history, a.validator), Attest(c, s, a, signatureOk);
            if Unsound(c, a, signatureOk) then s' == s && !Admissible(c, s, a, signatureOk)
            else if NoneSlashable(h, a) then s'.offenses == s.offenses && Admissible(c, s, a, signatureOk)
            else && !Admissible(c, s, a, signatureOk)
                 && exists i: nat | FirstIn(h, i, a) :: s' == s.(offenses := s.offenses + [FiledAgainst(a, h[i])])
  {
    hide Slashable, Voted, Record, HistoryOf;
    var h := HistoryOf(s.history, a.validator);
    if !Unsound(c, a, signatureOk) {
      if FirstConflict(h, a).Some? {
        var i := FirstConflictAt(h, a);
        assert FirstIn(h, i, a);
      } else {
        VotedOffenses(c.vs, Record(s, a), a, c.vs.validators[a.validator].stake);
        RecordOffenses(s, a);
      }
    }
  }

  /** In every run a vote of an unknown validator, or without a demanded signature, changes nothing. Any other
      vote is admitted if and only if it is slashable with none of the last 64 votes admitted of its validator;
      if it is, exactly one offence is filed, naming the first of them, and nothing else changes. */
  lemma VoteOutcome(c: Config, steps: seq<Step>, a: Attestation, signatureOk: bool)
    ensures var after := steps + [Vote(a, signatureOk)];
            var s, s' := Exec(c, steps), Exec(c, after);
            var log, log' := Log(c, steps, a.validator), Log(c, after, a.validator);
            var last := Last64(log);
            if Unsound(c, a, signatureOk) then s' == s && log' == log
            else if NoneSlashable(last, a) then s'.offenses == s.offenses && log' == log + [a]
            else && log' == log
                 && exists i: nat | FirstIn(last, i, a) ::
                      s' == s.(offenses := s.offenses + [FiledAgainst(a, last[i])])
  {
    var log := Log(c, steps, a.validator);
    LogSnoc(c, steps, Vote(a, signatureOk), a.validator);
    ExecSnoc(c, steps, Vote(a, signatureOk));
    HistoryIsTail(c, steps, a.validator);
    TailIsLast64(log);
    AttestOutcome(c, Exec(c, steps), a, signatureOk);
    hide Exec, Log, Slashable, Last64, Tail, Attest, Admissible, HistoryOf, FirstIn, NoneSlashable, Unsound;
    assert log + [] == log;
  }

  lemma VotedOffenses(vs: ValidatorSet, s: State, a: Attestation, stake: nat)
    ensures Voted(vs, s, a, stake).offenses == s.offenses
  {
    hide Counts, NewlyJustified, CountedVotes, Counted;
  }

  lemma RecordOffenses(s: State, a: Attestation)
    ensures Record(s, a).offenses == s.offenses
  {
  }

  /** So two votes of a log at most 64 apart are never for two blocks of one epoch, nor one inside the other. */
  lemma NearVotesAgree(c: Config, steps: seq<Step>, v: ValidatorId, i: nat, j: nat)
    requires i < j < |Log(c, steps, v)| && j - i <= 64
    ensures var a, b := Log(c, steps, v)[i], Log(c, steps, v)[j];
            && (a.target.epoch == b.target.epoch ==> a.target.blockHash == b.target.blockHash)
            && (a.source.epoch < b.source.epoch ==> a.target.epoch <= b.target.epoch)
            && (b.source.epoch < a.source.epoch ==> b.target.epoch <= a.target.epoch)
  {
    LogClean(c, steps, v);
    hide Log;
    assert !Slashable(Log(c, steps, v)[j], Log(c, steps, v)[i]);
  }

  // ----- aggregates -----

  /** The attestation is for this target and its validator's bit is set. */
  ghost predicate Entered(vs: ValidatorSet, id: CheckpointId, bitmap: seq<bool>, a: Attestation) {
    && a.target == id && a.validator in vs.validators
    && vs.validators[a.validator].index < |bitmap| && bitmap[vs.validators[a.validator].index]
  }

  ghost predicate HasVoteOf(atts: seq<Attestation>, v: ValidatorId) {
    exists k :: 0 <= k < |atts| && atts[k].validator == v
  }

  ghost predicate OneEach(atts: seq<Attestation>) {
    forall k, l :: 0 <= k < l < |atts| ==> atts[k].validator != atts[l].validator
  }

  /** An aggregate holds one attestation for each bit set, all for its target, in the source of the first one,
      and its total is the stake of those bits. */
  ghost predicate AggregateOk(vs: ValidatorSet, id: CheckpointId, agg: Aggregate) {
    && |agg.bitmap| == |vs.indexToId| && agg.total == Min(Stake(vs, agg.bitmap), U128_MAX)
    && agg.attestations != [] && agg.source == agg.attestations[0].source
    && OneEach(agg.attestations)
    && (forall k :: 0 <= k < |agg.attestations| ==> Entered(vs, id, agg.bitmap, agg.attestations[k]))
    && (forall i :: 0 <= i < |agg.bitmap| && agg.bitmap[i] ==> HasVoteOf(agg.attestations, vs.indexToId[i]))
  }

  lemma HasVoteSnoc(atts: seq<Attestation>, a: Attestation, v: ValidatorId)
    ensures HasVoteOf(atts + [a], v) <==> HasVoteOf(atts, v) || a.validator == v
  {
    var after := atts + [a];
    assert after[|atts|] == a;
    if k :| 0 <= k < |atts| && atts[k].validator == v {
      assert after[k].validator == v;
    }
  }

  lemma StillEntered(vs: ValidatorSet, agg: Aggregate, a: Attestation)
    requires AggregateOk(vs, a.target, agg) || agg.attestations == []
    requires a.validator in vs.validators && vs.validators[a.validator].index < |agg.bitmap|
    ensures var agg' := agg.AddAttestation(a, vs.validators[a.validator].index, vs.validators[a.validator].stake);
            forall k :: 0 <= k < |agg'.attestations| ==> Entered(vs, a.target, agg'.bitmap, agg'.attestations[k])
  {
    hide Stake, HasVoteOf, OneEach;
    var agg' := agg.AddAttestation(a, vs.validators[a.validator].index, vs.validators[a.validator].stake);
    forall k | 0 <= k < |agg'.attestations|
      ensures Entered(vs, a.target, agg'.bitmap, agg'.attestations[k])
    {
      assert k < |agg.attestations| ==> Entered(vs, a.target, agg.bitmap, agg.attestations[k]);
    }
  }

  /** An aggregate before its first vote, or a good one, is good after a vote of a validator without a bit. */
  lemma AddedOk(vs: ValidatorSet, agg: Aggregate, a: Attestation)
    requires WellFormed(vs) && a.validator in vs.validators && !agg.HasAttested(vs.validators[a.validator].index)
    requires AggregateOk(vs, a.target, agg) || agg == NewAggregate(a.source, |vs.indexToId|)
    ensures var Validator(stake, i) := vs.validators[a.validator];
            AggregateOk(vs, a.target, agg.AddAttestation(a, i, stake))
  {
    var Validator(stake, i) := vs.validators[a.validator];
    var agg' := agg.AddAttestation(a, i, stake);
    StakeSetBit(vs, agg.bitmap, i);
    StakeNone(vs, |vs.indexToId|);
    StillEntered(vs, agg, a);
    hide Stake, TotalStake, HasVoteOf;
    forall j | 0 <= j < |agg'.bitmap| && agg'.bitmap[j]
      ensures HasVoteOf(agg'.attestations, vs.indexToId[j])
    {
      HasVoteSnoc(agg.attestations, a, vs.indexToId[j]);
    }
  }

  ghost predicate AggregatesOk(vs: ValidatorSet, atts: Aggregates) {
    forall id :: id in atts ==> AggregateOk(vs, id, atts[id])
  }

  lemma VotedAggregates(vs: ValidatorSet, s: State, a: Attestation, stake: nat)
    requires WellFormed(vs) && AggregatesOk(vs, s.attestations)
    requires a.validator in vs.validators && stake == vs.validators[a.validator].stake
    ensures AggregatesOk(vs, Voted(vs, s, a, stake).attestations)
  {
    var agg := AggregateFor(vs, s.attestations, a);
    SameLength(vs);
    hide AggregateOk, NewlyJustified, Counted, CheckpointFor, TotalStake;
    if Counts(vs, s, a) {
      AddedOk(vs, agg, a);
    } else {
      assert a.target in s.attestations;
    }
  }

  lemma StepAggregates(c: Config, s: State, step: Step)
    requires WellFormed(c.vs) && AggregatesOk(c.vs, s.attestations)
    ensures AggregatesOk(c.vs, Apply(c, s, step).attestations)
  {
    hide AggregateOk, WellFormed, FirstConflict, Voted, NextBreaker;
    if step.Vote? && Admissible(c, s, step.a, step.signatureOk) {
      VotedAggregates(c.vs, Record(s, step.a), step.a, c.vs.validators[step.a.validator].stake);
    }
  }

  /** In every run every aggregate holds exactly the attestations its bitmap and its total say. */
  lemma {:induction false} AggregatesExact(c: Config, steps: seq<Step>)
    requires WellFormed(c.vs)
    ensures AggregatesOk(c.vs, Exec(c, steps).attestations)
  {
    if steps != [] {
      hide AggregatesOk, Apply, WellFormed;
      AggregatesExact(c, steps[..|steps| - 1]);
      StepAggregates(c, Exec(c, steps[..|steps| - 1]), steps[|steps| - 1]);
    }
  }

  // ----- checkpoints -----

  ghost predicate Live(c: Config, steps: seq<Step>, e: nat) {
    e in Exec(c, steps).checkpoints
  }

  /** Vote k opened the checkpoint: it is for its epoch and hash, it was admitted, and the epoch was not live. */
  ghost predicate OpenedBy(c: Config, steps: seq<Step>, k: nat, e: nat, h: Hash) {
    && k < |steps| && steps[k].Vote? && steps[k].a.target == CheckpointId(e, h)
    && Admits(c, Exec(c, steps[..k]), steps[k], steps[k].a.validator) && !Live(c, steps[..k], e)
  }

  lemma StepOrigin(c: Config, s: State, step: Step, e: nat)
    requires e in Apply(c, s, step).checkpoints
    ensures var cp := Apply(c, s, step).checkpoints[e];
            if e in s.checkpoints
            then cp.blockHash == s.checkpoints[e].blockHash && cp.blockHeight == s.checkpoints[e].blockHeight
            else && step.Vote? && Admits(c, s, step, step.a.validator)
                 && step.a.target == CheckpointId(e, cp.blockHash) && cp.blockHeight == 0
  {
    hide Attest, Pruned, NextBreaker, FirstConflict;
    if step.Vote? {
      AttestOrigin(c, s, step.a, step.signatureOk, e);
    } else if CanFinalize(s) {
      PrunedKeeps(c, AfterFinality(s).(epochsWithoutFinality := 0, breaker := NextBreaker(s.breaker, FinalityAchieved)),
                  e);
    }
  }

  lemma AttestOrigin(c: Config, s: State, a: Attestation, signatureOk: bool, e: nat)
    requires e in Attest(c, s, a, signatureOk).checkpoints
    ensures var cp := Attest(c, s, a, signatureOk).checkpoints[e];
            if e in s.checkpoints
            then cp.blockHash == s.checkpoints[e].blockHash && cp.blockHeight == s.checkpoints[e].blockHeight
            else && Admissible(c, s, a, signatureOk)
                 && a.target == CheckpointId(e, cp.blockHash) && cp.blockHeight == 0
  {
    hide FirstConflict, Counts, CountedVotes, Recorded, ThresholdMet;
  }

  lemma PrunedKeeps(c: Config, s: State, e: nat)
    requires e in Pruned(c, s).checkpoints
    ensures e in s.checkpoints && Pruned(c, s).checkpoints[e] == s.checkpoints[e]
  {
  }

  /** In every run the hash of a live checkpoint is the target of the vote that opened it, its height is 0, and it
      has been live ever since. */
  lemma {:induction false} CheckpointOrigin(c: Config, steps: seq<Step>, e: nat) returns (k: nat)
    requires Live(c, steps, e)
    ensures Exec(c, steps).checkpoints[e].blockHeight == 0
    ensures OpenedBy(c, steps, k, e, Exec(c, steps).checkpoints[e].blockHash)
    ensures forall m :: k < m <= |steps| ==> Live(c, steps[..m], e)
  {
    var n := |steps| - 1;
    var before := steps[..n];
    ExecLast(c, steps);
    StepOrigin(c, Exec(c, before), steps[n], e);
    hide ExecFrom, Apply, Admits;
    assert steps[..|steps|] == steps;
    if Live(c, before, e) {
      k := CheckpointOrigin(c, before, e);
      assert forall m :: 0 <= m <= n ==> before[..m] == steps[..m];
    } else {
      k := n;
    }
  }

  lemma StepHeights(c: Config, s: State, step: Step)
    requires forall h :: h in s.finalizedBlocks ==> s.finalizedBlocks[h] == 0
    requires forall e :: e in s.checkpoints ==> s.checkpoints[e].blockHeight == 0
    ensures forall h :: h in Apply(c, s, step).finalizedBlocks ==> Apply(c, s, step).finalizedBlocks[h] == 0
  {
    hide Attest, NextBreaker;
    if step.Vote? {
      AttestFrame(c, s, step.a, step.signatureOk);
    }
  }

  /** So in every run every final block is recorded with height 0, whatever its height. */
  lemma {:induction false} FinalHeightsAreZero(c: Config, steps: seq<Step>)
    ensures forall h :: h in Exec(c, steps).finalizedBlocks ==> Exec(c, steps).finalizedBlocks[h] == 0
  {
    if steps != [] {
      var before := steps[..|steps| - 1];
      FinalHeightsAreZero(c, before);
      ExecLast(c, steps);
      hide ExecFrom, Apply;
      forall e | e in Exec(c, before).checkpoints
        ensures Exec(c, before).checkpoints[e].blockHeight == 0
      {
        var _ := CheckpointOrigin(c, before, e);
      }
      StepHeights(c, Exec(c, before), steps[|steps| - 1]);
    }
  }

  /** In every run the last justified checkpoint is replaced exactly when a vote turns its epoch justified. */
  lemma LastJustifiedMoves(c: Config, steps: seq<Step>, step: Step)
    ensures var s, s' := Exec(c, steps), Exec(c, steps + [step]);
            s'.lastJustified
            == if step.Vote? && !FinalityRun.Justified(s, step.a.target.epoch)
                  && FinalityRun.Justified(s', step.a.target.epoch)
               then Some(s'.checkpoints[step.a.target.epoch]) else s.lastJustified
  {
    ExecSnoc(c, steps, step);
    hide ExecFrom, FirstConflict, NextBreaker, CountedVotes, Recorded, ThresholdMet;
  }

  // ----- finalisation checks -----

  /** The check taken after these steps finalises epoch e: e and the last justified epoch e + 1 are justified. */
  ghost predicate FinalisesEpoch(s: State, e: nat) {
    s.lastJustified.Some? && s.lastJustified.value.epoch == e + 1 && FinalityRun.Justified(s, e)
  }

  ghost predicate FinalisesAny(s: State) {
    exists e: nat :: FinalisesEpoch(s, e)
  }

  lemma FinalisesIff(s: State)
    ensures FinalisesAny(s) <==> CanFinalize(s)
  {
    if CanFinalize(s) {
      assert FinalisesEpoch(s, s.lastJustified.value.epoch - 1);
    }
  }

  lemma CheckFinalises(c: Config, s: State, epoch: nat, notifyOk: bool, e: nat)
    requires FinalisesEpoch(s, e)
    ensures var s' := Apply(c, s, Check(epoch, notifyOk));
            && s'.finalizedBlocks == s.finalizedBlocks[s.checkpoints[e].blockHash := s.checkpoints[e].blockHeight]
            && s'.lastFinalized == Some(s.checkpoints[e].(state := Finalized))
  {
    hide NextBreaker, KeptCheckpoints, KeptAggregates;
  }

  lemma CheckFrame(c: Config, s: State, epoch: nat, notifyOk: bool)
    ensures var s' := Apply(c, s, Check(epoch, notifyOk));
            s'.history == s.history && s'.offenses == s.offenses && s'.lastJustified == s.lastJustified
  {
    hide NextBreaker, KeptCheckpoints, KeptAggregates, ToFinalize, CanFinalize;
  }

  lemma CheckIdles(c: Config, s: State, epoch: nat, notifyOk: bool)
    requires !CanFinalize(s)
    ensures var s' := Apply(c, s, Check(epoch, notifyOk));
            && s'.finalizedBlocks == s.finalizedBlocks && s'.lastFinalized == s.lastFinalized
            && s'.checkpoints == s.checkpoints && s'.attestations == s.attestations && s'.breaker == s.breaker
  {
    hide CanFinalize;
  }

  /** In every run a check that finalises epoch e makes its block final and its checkpoint the last finalised one;
      a check that finalises nothing leaves checkpoints, votes and final blocks alone. */
  lemma CheckOutcome(c: Config, steps: seq<Step>, epoch: nat, notifyOk: bool)
    ensures var s, s' := Exec(c, steps), Exec(c, steps + [Check(epoch, notifyOk)]);
            && s'.history == s.history && s'.offenses == s.offenses && s'.lastJustified == s.lastJustified
            && (forall e: nat | FinalisesEpoch(s, e) ::
                  && s'.finalizedBlocks == s.finalizedBlocks[s.checkpoints[e].blockHash := 0]
                  && s'.lastFinalized == Some(s.checkpoints[e].(state := Finalized)))
            && (!FinalisesAny(s) ==>
                  && s'.finalizedBlocks == s.finalizedBlocks && s'.lastFinalized == s.lastFinalized
                  && s'.checkpoints == s.checkpoints && s'.attestations == s.attestations
                  && s'.breaker == s.breaker)
  {
    var s := Exec(c, steps);
    ExecSnoc(c, steps, Check(epoch, notifyOk));
    FinalisesIff(s);
    CheckFrame(c, s, epoch, notifyOk);
    if !CanFinalize(s) {
      CheckIdles(c, s, epoch, notifyOk);
    }
    hide ExecFrom, Apply, FinalisesAny, CanFinalize;
    forall e: nat | FinalisesEpoch(s, e)
      ensures var s' := Apply(c, s, Check(epoch, notifyOk));
              && s'.finalizedBlocks == s.finalizedBlocks[s.checkpoints[e].blockHash := 0]
              && s'.lastFinalized == Some(s.checkpoints[e].(state := Finalized))
    {
      CheckFinalises(c, s, epoch, notifyOk, e);
      var _ := CheckpointOrigin(c, steps, e);
    }
  }

  // ----- inactivity -----

  ghost predicate Finalising(c: Config, steps: seq<Step>, k: nat) {
    k < |steps| && steps[k].Check? && FinalisesAny(Exec(c, steps[..k]))
  }

  ghost predicate Idle(c: Config, steps: seq<Step>, k: nat) {
    k < |steps| && steps[k].Check? && !FinalisesAny(Exec(c, steps[..k]))
  }

  /** The epoch of the last check that finalised nothing; 0 before the first. */
  ghost function IdleEpoch(c: Config, steps: seq<Step>): nat {
    if steps == [] then 0 else
      var n := |steps| - 1;
      if Idle(c, steps, n) then steps[n].epoch else IdleEpoch(c, steps[..n])
  }

  /** Check k finalised nothing, no later check has finalised anything, and it was for another epoch than the
      check before it that finalised nothing. */
  ghost predicate EntersIdle(c: Config, steps: seq<Step>, k: nat) {
    && Idle(c, steps, k) && steps[k].epoch != IdleEpoch(c, steps[..k])
    && forall m :: k < m < |steps| ==> !Finalising(c, steps, m)
  }

  ghost function IdleChecks(c: Config, steps: seq<Step>): set<nat> {
    set k: nat | k < |steps| && EntersIdle(c, steps, k)
  }

  lemma IdleSnoc(c: Config, steps: seq<Step>, k: nat)
    requires steps != []
    ensures var n := |steps| - 1;
            k in IdleChecks(c, steps) <==>
            !Finalising(c, steps, n) && if k == n then Idle(c, steps, n) && steps[n].epoch != IdleEpoch(c, steps[..n])
                                        else k in IdleChecks(c, steps[..n])
  {
    hide Exec, FinalisesAny, IdleEpoch;
    var n := |steps| - 1;
    var before := steps[..n];
    assert forall m :: 0 <= m < n ==> before[..m] == steps[..m];
    assert forall m :: 0 <= m < n ==> (Finalising(c, before, m) <==> Finalising(c, steps, m));
  }

  lemma StepIdle(c: Config, s: State, step: Step)
    ensures var s' := Apply(c, s, step);
            if step.Vote? then s'.currentEpoch == s.currentEpoch && s'.epochsWithoutFinality == s.epochsWithoutFinality
            else if FinalisesAny(s) then s'.currentEpoch == s.currentEpoch && s'.epochsWithoutFinality == 0
            else && s'.currentEpoch == step.epoch
                 && s'.epochsWithoutFinality
                    == s.epochsWithoutFinality + if step.epoch != s.currentEpoch then 1 else 0
  {
    FinalisesIff(s);
    hide FinalisesAny, Attest, NextBreaker, KeptCheckpoints, KeptAggregates;
    if step.Vote? {
      AttestFrame(c, s, step.a, step.signatureOk);
    }
  }

  /** In every run the epochs without finality are counted by those checks. */
  lemma {:induction false} InactivityCounted(c: Config, steps: seq<Step>)
    ensures Exec(c, steps).currentEpoch == IdleEpoch(c, steps)
    ensures Exec(c, steps).epochsWithoutFinality == |IdleChecks(c, steps)|
  {
    if steps == [] {
      assert IdleChecks(c, steps) == {};
    } else {
      var n := |steps| - 1;
      var before := steps[..n];
      InactivityCounted(c, before);
      ExecLast(c, steps);
      StepIdle(c, Exec(c, before), steps[n]);
      hide Exec, Apply, FinalisesAny;
      forall k: nat
        ensures k in IdleChecks(c, steps) <==>
                !Finalising(c, steps, n)
                && if k == n then Idle(c, steps, n) && steps[n].epoch != IdleEpoch(c, before)
                   else k in IdleChecks(c, before)
      {
        IdleSnoc(c, steps, k);
      }
      IdleSets(c, steps);
    }
  }

  lemma IdleSets(c: Config, steps: seq<Step>)
    requires steps != []
    requires var n := |steps| - 1;
             forall k: nat ::
               k in IdleChecks(c, steps) <==>
               !Finalising(c, steps, n)
               && if k == n then Idle(c, steps, n) && steps[n].epoch != IdleEpoch(c, steps[..n])
                  else k in IdleChecks(c, steps[..n])
    ensures var n := |steps| - 1;
            |IdleChecks(c, steps)|
            == if Finalising(c, steps, n) then 0 else
                 |IdleChecks(c, steps[..n])|
                 + if Idle(c, steps, n) && steps[n].epoch != IdleEpoch(c, steps[..n]) then 1 else 0
  {
    var n := |steps| - 1;
    var now, before := IdleChecks(c, steps), IdleChecks(c, steps[..n]);
    assert n !in before;
    hide IdleChecks, IdleEpoch, Idle, Finalising;
    if Finalising(c, steps, n) {
      assert now == {};
    } else if Idle(c, steps, n) && steps[n].epoch != IdleEpoch(c, steps[..n]) {
      assert now == before + {n};
    } else {
      assert now == before;
    }
  }

  // ----- the circuit breaker by itself -----

  function AfterFailures(b: Breaker, n: nat): Breaker {
    if n == 0 then b else NextBreaker(AfterFailures(b, n - 1), SyncFailed)
  }

  /** The third failed synchronisation in a row after a failed finality halts the breaker, none before it; a
      halted breaker is released by an intervention and by nothing else, a synchronising one by a success, and only
      a failed attempt moves it otherwise. */
  lemma {:induction false} BreakerHaltsAtThird(n: nat)
    ensures AfterFailures(NextBreaker(Running, FinalityFailed), n) == if n < 3 then Sync(n + 1) else Halted
    ensures forall e :: NextBreaker(Halted, e) == if e == ManualIntervention then Running else Halted
    ensures forall k, e :: NextBreaker(Sync(k), e) == Running <==> e == SyncSuccess
    ensures forall k, e :: e != SyncSuccess && e != SyncFailed ==> NextBreaker(Sync(k), e) == Sync(k)
    ensures forall e :: NextBreaker(Running, e) != Running <==> e == FinalityFailed
  {
    if n > 0 {
      BreakerHaltsAtThird(n - 1);
    }
  }
}
