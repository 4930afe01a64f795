/**
 The finality service: the state updated in place, proved against the state machine of FinalityRun.
 Calls are sequential. Signature verdicts and notification results are parameters.
 */
module FinalityService {
  import opened Bytes
  import opened Options
  import opened FinalityModel
  import opened FinalityRun
  import opened FinalityAdmission
  import opened FinalityEviction
  import opened FinalityPruning

  /** Attestations with the verdicts on their signatures. */
  type Batch = seq<(Attestation, bool)>

  /** A service call: the attestations, whether the validator set can be had, whether block storage can be notified. */
  datatype Call = Call(batch: Batch, providerOk: bool, notifyOk: bool)

  datatype Outcome =
    | SystemHalted
    | NoValidatorSet
    | Processed(accepted: nat, rejected: nat, justified: Option<Checkpoint>, finalized: Option<Checkpoint>,
                slashing: seq<Offense>, leak: bool)

  const Nothing := Processed(0, 0, None, None, [], false)

  // ----- what a call means in the state machine -----

  function Votes(batch: Batch): (r: seq<Step>)
    ensures |r| == |batch|
  {
    seq(|batch|, i requires 0 <= i < |batch| => Vote(batch[i].0, batch[i].1))
  }

  /** How many attestations of a batch are accepted. */
  ghost function AcceptedIn(c: Config, s: State, batch: Batch): nat {
    if batch == [] then 0 else
      var n := |batch| - 1;
      AcceptedIn(c, s, batch[..n])
      + if Accepted(c, ExecFrom(c, s, Votes(batch[..n])), batch[n].0, batch[n].1) then 1 else 0
  }

  ghost function Verdict(c: Config, s: State, a: Attestation, signatureOk: bool): Option<Checkpoint> {
    if Accepted(c, s, a, signatureOk) then NewlyJustified(c.vs, s, a, c.vs.validators[a.validator].stake) else None
  }

  /** The checkpoint justified last in a batch. */
  ghost function JustifiedIn(c: Config, s: State, batch: Batch): Option<Checkpoint> {
    if batch == [] then None else
      var n := |batch| - 1;
      var last := Verdict(c, ExecFrom(c, s, Votes(batch[..n])), batch[n].0, batch[n].1);
      if last.Some? then last else JustifiedIn(c, s, batch[..n])
  }

  ghost function FinalizedBy(s: State): Option<Checkpoint> {
    if CanFinalize(s) then Some(ToFinalize(s)) else None
  }

  /** An epoch without finality is entered and the inactivity limit is reached. */
  predicate LeakBy(c: Config, s: State, epoch: nat) {
    !CanFinalize(s) && s.currentEpoch != epoch && s.epochsWithoutFinality + 1 >= c.leakEpochs
  }

  function CallSteps(call: Call): seq<Step> {
    if call.batch == [] || !call.providerOk then []
    else Votes(call.batch) + [Check(call.batch[0].0.target.epoch, call.notifyOk)]
  }

  ghost function CallOutcome(c: Config, s: State, call: Call): Outcome {
    if s.breaker == Halted then SystemHalted
    else if call.batch == [] then Nothing
    else if !call.providerOk then NoValidatorSet
    else
      var batch := call.batch;
      var voted, epoch := ExecFrom(c, s, Votes(batch)), batch[0].0.target.epoch;
      var accepted := AcceptedIn(c, s, batch);
      AcceptedAtMost(c, s, batch);
      Processed(accepted, |batch| - accepted, JustifiedIn(c, s, batch), FinalizedBy(voted),
                NewOffenses(s, voted), LeakBy(c, voted, epoch))
  }

  ghost function NewOffenses(before: State, after: State): seq<Offense> {
    if |before.offenses| <= |after.offenses| then after.offenses[|before.offenses|..] else []
  }

  lemma {:induction false} AcceptedAtMost(c: Config, s: State, batch: Batch)
    ensures AcceptedIn(c, s, batch) <= |batch|
  {
    if batch != [] {
      AcceptedAtMost(c, s, batch[..|batch| - 1]);
    }
  }

  lemma VotesSnoc(c: Config, s: State, batch: Batch, i: nat)
    requires i < |batch|
    ensures batch[..i + 1][..i] == batch[..i]
    ensures ExecFrom(c, s, Votes(batch[..i + 1]))
         == Attest(c, ExecFrom(c, s, Votes(batch[..i])), batch[i].0, batch[i].1)
  {
    hide Attest;
    assert Votes(batch[..i + 1])[..i] == Votes(batch[..i]);
  }

  class FinalityState {
    const config: Config

    var checkpoints: Checkpoints
    var attestations: Aggregates
    var finalizedBlocks: map<Hash, nat>
    var lastFinalized: Option<Checkpoint>
    var lastJustified: Option<Checkpoint>
    var history: History
    var offenses: seq<Offense>
    var currentEpoch: nat
    var epochsWithoutFinality: nat
    var breaker: Breaker

    ghost function Value(): State
      reads this
    {
      State(checkpoints, attestations, finalizedBlocks, lastFinalized, lastJustified, history, offenses,
            currentEpoch, epochsWithoutFinality, breaker)
    }

    constructor (config: Config)
      ensures Value() == Initial && this.config == config
    {
      this.config := config;
      checkpoints, attestations, finalizedBlocks, history := map[], map[], map[], map[];
      lastFinalized, lastJustified, offenses := None, None, [];
      currentEpoch, epochsWithoutFinality, breaker := 0, 0, Running;
    }

    method RecordAttestation(a: Attestation)
      modifies this`history
      ensures Value() == Record(old(Value()), a)
    {
      var h := HistoryOf(history, a.validator);
      ghost var before := h;
      while |h| >= MAX_HISTORY
        invariant |before| < MAX_HISTORY ==> h == before
        invariant |before| >= MAX_HISTORY ==> MAX_HISTORY - 1 <= |h| <= |before| && h == before[|before| - |h|..]
        decreases |h|
      {
        h := h[1..];
      }
      history := history[a.validator := h + [a]];
    }

    /** Records and counts an attestation: an unknown validator or a second vote for a target only opens it. */
    method ApplyAttestation(a: Attestation, stake: nat) returns (accepted: bool, justified: Option<Checkpoint>)
      modifies this`history, this`checkpoints, this`attestations, this`lastJustified
      ensures Value() == Voted(config.vs, Record(old(Value()), a), a, stake)
      ensures accepted == Counts(config.vs, old(Value()), a)
      ensures justified == NewlyJustified(config.vs, old(Value()), a, stake)
    {
      hide Recorded, HistoryOf, ThresholdMet, SaturatingAdd;
      RecordAttestation(a);
      var target := a.target;
      var cp := CheckpointFor(config.vs, checkpoints, target);
      var agg := AggregateFor(config.vs, attestations, a);
      UpdateTwice(checkpoints, target.epoch, cp, Counted(cp, stake));
      UpdateTwice(attestations, target, agg, agg.AddAttestation(a, IndexOf(config.vs, a.validator), stake));
      hide CheckpointFor, AggregateFor;
      checkpoints := checkpoints[target.epoch := cp];
      attestations := attestations[target := agg];
      if a.validator !in config.vs.validators {
        return false, None;
      }
      var idx := config.vs.validators[a.validator].index;
      if agg.HasAttested(idx) {
        return false, None;
      }
      attestations := attestations[target := agg.AddAttestation(a, idx, stake)];

      var counted := cp.(attested := SaturatingAdd(cp.attested, stake));
      var now := counted.TryJustify();
      checkpoints := checkpoints[target.epoch := now];
      if counted.state == Pending && ThresholdMet(counted.attested, counted.total) {
        lastJustified := Some(now);
        return true, Some(now);
      }
      return true, None;
    }

    /** Rejects an attestation that conflicts with the recorded ones and files the offence. */
    method CheckSlashable(a: Attestation) returns (ok: bool)
      modifies this`offenses
      ensures var h := HistoryOf(history, a.validator);
              && (ok <==> NoneSlashable(h, a))
              && (ok ==> offenses == old(offenses))
              && (!ok ==> exists i: nat | FirstIn(h, i, a) :: offenses == old(offenses) + [FiledAgainst(a, h[i])])
      ensures match FirstConflict(HistoryOf(history, a.validator), a)
              case None => ok && offenses == old(offenses)
              case Some(prev) => !ok && offenses == old(offenses) + [OffenseFor(a, prev)]
    {
      var conflict := FirstConflict(HistoryOf(history, a.validator), a);
      if conflict.Some? {
        var prev := conflict.value;
        var kind := if a.target.epoch == prev.target.epoch then DoubleVoteOffense else SurroundVoteOffense;
        offenses := offenses + [Offense(a.validator, kind, a, prev, a.target.epoch)];
        ghost var _ := FirstConflictAt(HistoryOf(history, a.validator), a);
        return false;
      }
      return true;
    }

    /** Pre-validation, then the update. */
    method ProcessAttestation(a: Attestation, signatureOk: bool) returns (ok: bool, justified: Option<Checkpoint>)
      modifies this`history, this`checkpoints, this`attestations, this`lastJustified, this`offenses
      ensures Value() == Attest(config, old(Value()), a, signatureOk)
      ensures ok == Accepted(config, old(Value()), a, signatureOk)
      ensures ok == AcceptedVote(config, old(Value()), a, signatureOk)
      ensures justified == Verdict(config, old(Value()), a, signatureOk)
    {
      AcceptedIff(config, Value(), a, signatureOk);
      hide AcceptedVote, Slashable, FirstConflict, Voted, NewlyJustified, Counts, Record, HistoryOf;
      if a.validator !in config.vs.validators {
        return false, None;
      }
      if config.alwaysReverify && !signatureOk {
        return false, None;
      }
      var clean := CheckSlashable(a);
      if !clean {
        return false, None;
      }
      ok, justified := ApplyAttestation(a, config.vs.validators[a.validator].stake);
      NotCounted(config.vs, old(Value()), a, config.vs.validators[a.validator].stake);
    }

    method ProcessBatch(batch: Batch) returns (accepted: nat, rejected: nat, justified: Option<Checkpoint>)
      modifies this`history, this`checkpoints, this`attestations, this`lastJustified, this`offenses
      ensures Value() == ExecFrom(config, old(Value()), Votes(batch))
      ensures accepted == AcceptedIn(config, old(Value()), batch) && accepted + rejected == |batch|
      ensures justified == JustifiedIn(config, old(Value()), batch)
    {
      hide Attest, Accepted, Verdict, Votes, ExecFrom;
      accepted, rejected, justified := 0, 0, None;
      ghost var s := Value();
      NoVotes(config, s);
      for i := 0 to |batch|
        invariant Value() == ExecFrom(config, s, Votes(batch[..i]))
        invariant accepted == AcceptedIn(config, s, batch[..i]) && accepted + rejected == i
        invariant justified == JustifiedIn(config, s, batch[..i])
      {
        VotesSnoc(config, s, batch, i);
        var ok, j := ProcessAttestation(batch[i].0, batch[i].1);
        if ok {
          accepted := accepted + 1;
          justified := if j.Some? then j else justified;
        } else {
          RejectedVerdict(config, ExecFrom(config, s, Votes(batch[..i])), batch[i].0, batch[i].1);
          rejected := rejected + 1;
        }
      }
      assert batch[..|batch|] == batch;
    }

    /** Above the limit the epochs before the last finalised one minus 2 go; the limit itself need not hold after. */
    method PruneOldCheckpoints()
      modifies this`checkpoints, this`attestations
      ensures Value() == Pruned(config, old(Value()))
    {
      if |checkpoints| <= config.maxCheckpoints {
        return;
      }
      var last := if lastFinalized.Some? then lastFinalized.value.epoch else 0;
      var minKeep := if last >= 2 then last - 2 else 0;
      checkpoints := map e | e in checkpoints && e >= minKeep :: checkpoints[e];
      attestations := map id | id in attestations && id.epoch >= minKeep :: attestations[id];
    }

    /** Finalises the predecessor of the last justified checkpoint if it is justified too. */
    method CheckFinalization() returns (finalized: Option<Checkpoint>)
      modifies this`checkpoints, this`finalizedBlocks, this`lastFinalized
      ensures finalized == FinalizedBy(old(Value()))
      ensures Value() == if finalized.Some? then AfterFinality(old(Value())) else old(Value())
    {
      if lastJustified.None? || lastJustified.value.epoch == 0 {
        return None;
      }
      var prev := lastJustified.value.epoch - 1;
      if prev !in checkpoints || !checkpoints[prev].IsJustified() {
        return None;
      }
      var f := checkpoints[prev].Finalize();
      checkpoints := checkpoints[prev := f];
      finalizedBlocks := finalizedBlocks[f.blockHash := f.blockHeight];
      lastFinalized := Some(f);
      return Some(f);
    }

    method CheckAndProcessFinalization(epoch: nat) returns (finalized: Option<Checkpoint>, leak: bool)
      modifies this
      ensures Value() == Checked(config, old(Value()), epoch)
      ensures finalized == FinalizedBy(old(Value())) && leak == LeakBy(config, old(Value()), epoch)
    {
      hide Pruned;
      leak := false;
      finalized := CheckFinalization();
      if finalized.Some? {
        epochsWithoutFinality := 0;
        breaker := NextBreaker(breaker, FinalityAchieved);
        PruneOldCheckpoints();
      } else if currentEpoch != epoch {
        currentEpoch := epoch;
        epochsWithoutFinality := epochsWithoutFinality + 1;
        leak := epochsWithoutFinality >= config.leakEpochs;
      }
    }

    /** The service call: a batch, then one finalisation check for the epoch of its first attestation. */
    method ProcessAttestations(call: Call) returns (r: Outcome)
      modifies this
      ensures r == CallOutcome(config, old(Value()), call)
      ensures Value() == if old(breaker) == Halted then old(Value())
                         else ExecFrom(config, old(Value()), CallSteps(call))
      ensures r == SystemHalted <==> old(breaker) == Halted
      ensures r == NoValidatorSet <==> old(breaker) != Halted && call.batch != [] && !call.providerOk
      ensures old(breaker) != Halted && call.batch == [] ==> r == Processed(0, 0, None, None, [], false)
      ensures r.Processed? ==> r.accepted + r.rejected == |call.batch| && offenses == old(offenses) + r.slashing
      ensures r.Processed? && r.finalized.Some? ==> lastFinalized == r.finalized
      ensures r.Processed? && call.batch != [] && r.finalized.None? ==>
                currentEpoch == call.batch[0].0.target.epoch && finalizedBlocks == old(finalizedBlocks)
    {
      hide ExecFrom, Votes, AcceptedIn, JustifiedIn, Checked, FinalizedBy, LeakBy, CanFinalize;
      if breaker == Halted {
        return SystemHalted;
      }
      NoSteps(config, Value());
      var batch := call.batch;
      if batch == [] {
        return Nothing;
      }
      if !call.providerOk {
        return NoValidatorSet;
      }
      ghost var s := Value();
      var offensesBefore := |offenses|;
      var epoch := batch[0].0.target.epoch;
      CallSplits(config, s, call);
      VotesKeepOffenses(config, s, batch);
      VotesKeepFinal(config, s, batch);
      var accepted, rejected, justified := ProcessBatch(batch);
      var slashing := offenses[offensesBefore..];
      ghost var voted := Value();
      var finalized, leak := CheckAndProcessFinalization(epoch);
      FinalizedWhen(voted);
      CheckedFrame(config, voted, epoch);
      if finalized.Some? && !call.notifyOk {
        breaker := NextBreaker(breaker, FinalityFailed);
      }
      return Processed(accepted, rejected, justified, finalized, slashing, leak);
    }

    method ResetFromHalted()
      modifies this`breaker
      ensures breaker == if old(breaker) == Halted then Running else old(breaker)
    {
      if breaker != Halted {
        return;
      }
      breaker := NextBreaker(breaker, ManualIntervention);
    }
  }

  // ----- lemmas -----

  ghost function IndexOf(vs: ValidatorSet, v: ValidatorId): nat {
    if v in vs.validators then vs.validators[v].index else 0
  }

  lemma UpdateTwice<K, V>(m: map<K, V>, k: K, v: V, w: V)
    ensures m[k := v][k := w] == m[k := w]
  {
  }

  lemma NotCounted(vs: ValidatorSet, s: State, a: Attestation, stake: nat)
    ensures !Counts(vs, s, a) ==> NewlyJustified(vs, s, a, stake) == None
  {
  }

  lemma RejectedVerdict(c: Config, s: State, a: Attestation, signatureOk: bool)
    ensures !Accepted(c, s, a, signatureOk) ==> Verdict(c, s, a, signatureOk) == None
  {
  }

  lemma NoVotes(c: Config, s: State)
    ensures ExecFrom(c, s, Votes([])) == s
  {
  }

  lemma NoSteps(c: Config, s: State)
    ensures ExecFrom(c, s, []) == s
  {
  }

  lemma FinalizedWhen(s: State)
    ensures FinalizedBy(s).Some? <==> CanFinalize(s)
  {
  }

  lemma CheckedFrame(c: Config, s: State, epoch: nat)
    ensures Checked(c, s, epoch).offenses == s.offenses
    ensures FinalizedBy(s).Some? ==> Checked(c, s, epoch).lastFinalized == FinalizedBy(s)
    ensures FinalizedBy(s).None? ==> Checked(c, s, epoch).currentEpoch == epoch
                                     && Checked(c, s, epoch).finalizedBlocks == s.finalizedBlocks
  {
  }

  ghost function AfterCheck(c: Config, s: State, batch: Batch): State
    requires batch != []
  {
    Checked(c, ExecFrom(c, s, Votes(batch)), batch[0].0.target.epoch)
  }

  lemma CallSplits(c: Config, s: State, call: Call)
    requires call.batch != [] && call.providerOk
    ensures var voted, checked := ExecFrom(c, s, Votes(call.batch)), AfterCheck(c, s, call.batch);
            ExecFrom(c, s, CallSteps(call))
            == (if CanFinalize(voted) then Notified(checked, call.notifyOk) else checked)
  {
    hide Checked, CanFinalize;
    var steps := CallSteps(call);
    assert steps[..|steps| - 1] == Votes(call.batch);
  }

  lemma {:induction false} VotesKeepOffenses(c: Config, s: State, batch: Batch)
    ensures s.offenses <= ExecFrom(c, s, Votes(batch)).offenses
    ensures ExecFrom(c, s, Votes(batch)).breaker == s.breaker
  {
    if batch != [] {
      var n := |batch| - 1;
      VotesKeepOffenses(c, s, batch[..n]);
      assert batch[..n + 1] == batch;
      VotesSnoc(c, s, batch, n);
      hide Votes, ExecFrom;
      AttestKeepsOffenses(c, ExecFrom(c, s, Votes(batch[..n])), batch[n].0, batch[n].1);
    }
  }

  lemma AttestKeepsOffenses(c: Config, s: State, a: Attestation, signatureOk: bool)
    ensures s.offenses <= Attest(c, s, a, signatureOk).offenses && Attest(c, s, a, signatureOk).breaker == s.breaker
  {
    hide FirstConflict, Counts, NewlyJustified, CountedVotes, Counted;
  }

  // ----- what a batch is credited with -----

  /** A known validator, a signature where one is demanded, no vote in its history to be slashed with, and no bit
      for the target yet. */
  ghost predicate AcceptedVote(c: Config, s: State, a: Attestation, signatureOk: bool) {
    var h := HistoryOf(s.history, a.validator);
    && !Unsound(c, a, signatureOk) && NoneSlashable(h, a)
    && !(a.target in s.attestations && s.attestations[a.target].HasAttested(c.vs.validators[a.validator].index))
  }

  lemma AcceptedIff(c: Config, s: State, a: Attestation, signatureOk: bool)
    ensures Accepted(c, s, a, signatureOk) <==> AcceptedVote(c, s, a, signatureOk)
  {
    hide Slashable, HistoryOf;
  }

  /** The state vote i of a batch is processed in. */
  ghost function BeforeVote(c: Config, s: State, batch: Batch, i: nat): State
    requires i <= |batch|
  {
    ExecFrom(c, s, Votes(batch[..i]))
  }

  ghost predicate AcceptedAt(c: Config, s: State, batch: Batch, i: nat) {
    i < |batch| && AcceptedVote(c, BeforeVote(c, s, batch, i), batch[i].0, batch[i].1)
  }

  ghost function AcceptedVotes(c: Config, s: State, batch: Batch): set<nat> {
    set i: nat | i < |batch| && AcceptedAt(c, s, batch, i)
  }

  lemma BatchPrefix(c: Config, s: State, batch: Batch, n: nat, i: nat)
    requires i < n <= |batch|
    ensures BeforeVote(c, s, batch[..n], i) == BeforeVote(c, s, batch, i) && batch[..n][i] == batch[i]
  {
    assert batch[..n][..i] == batch[..i];
  }

  lemma AcceptedVotesSnoc(c: Config, s: State, batch: Batch)
    requires batch != []
    ensures var n := |batch| - 1;
            |AcceptedVotes(c, s, batch)|
            == |AcceptedVotes(c, s, batch[..n])| + if AcceptedAt(c, s, batch, n) then 1 else 0
  {
    hide BeforeVote, AcceptedVote;
    var n := |batch| - 1;
    var before, now := AcceptedVotes(c, s, batch[..n]), AcceptedVotes(c, s, batch);
    forall i: nat | i < n
      ensures i in before <==> i in now
    {
      BatchPrefix(c, s, batch, n, i);
    }
    assert now == before + if AcceptedAt(c, s, batch, n) then {n} else {};
  }

  lemma AcceptedInSnoc(c: Config, s: State, batch: Batch)
    requires batch != []
    ensures var n := |batch| - 1;
            AcceptedIn(c, s, batch)
            == AcceptedIn(c, s, batch[..n]) + if AcceptedAt(c, s, batch, n) then 1 else 0
  {
    hide ExecFrom, Votes, AcceptedVote, Accepted;
    var n := |batch| - 1;
    AcceptedIff(c, BeforeVote(c, s, batch, n), batch[n].0, batch[n].1);
  }

  /** The accepted count of a batch is the number of its votes accepted at their turn. */
  lemma {:induction false} AcceptedInCounts(c: Config, s: State, batch: Batch)
    ensures AcceptedIn(c, s, batch) == |AcceptedVotes(c, s, batch)|
  {
    if batch == [] {
      assert AcceptedVotes(c, s, batch) == {};
    } else {
      AcceptedInCounts(c, s, batch[..|batch| - 1]);
      AcceptedInSnoc(c, s, batch);
      AcceptedVotesSnoc(c, s, batch);
    }
  }

  /** Vote i turned the epoch of its target justified. */
  ghost predicate JustifiesAt(c: Config, s: State, batch: Batch, i: nat) {
    i < |batch|
    && var e := batch[i].0.target.epoch;
       !FinalityRun.Justified(BeforeVote(c, s, batch, i), e) && FinalityRun.Justified(BeforeVote(c, s, batch, i + 1), e)
  }

  ghost predicate LastJustifies(c: Config, s: State, batch: Batch, i: nat) {
    JustifiesAt(c, s, batch, i) && forall j :: i < j < |batch| ==> !JustifiesAt(c, s, batch, j)
  }

  lemma VerdictMeans(c: Config, s: State, a: Attestation, signatureOk: bool)
    ensures var s', e := Attest(c, s, a, signatureOk), a.target.epoch;
            Verdict(c, s, a, signatureOk)
            == if !FinalityRun.Justified(s, e) && FinalityRun.Justified(s', e) then Some(s'.checkpoints[e]) else None
  {
    hide FirstConflict, CountedVotes, Recorded, ThresholdMet;
  }

  /** The checkpoint vote i left its epoch with. */
  ghost function CheckpointAt(c: Config, s: State, batch: Batch, i: nat): Checkpoint
    requires JustifiesAt(c, s, batch, i)
  {
    BeforeVote(c, s, batch, i + 1).checkpoints[batch[i].0.target.epoch]
  }

  lemma JustifiedInSnoc(c: Config, s: State, batch: Batch)
    requires batch != []
    ensures var n := |batch| - 1;
            JustifiedIn(c, s, batch)
            == if JustifiesAt(c, s, batch, n) then Some(CheckpointAt(c, s, batch, n)) else JustifiedIn(c, s, batch[..n])
  {
    var n := |batch| - 1;
    VotesSnoc(c, s, batch, n);
    VerdictMeans(c, BeforeVote(c, s, batch, n), batch[n].0, batch[n].1);
    hide ExecFrom, Verdict, Votes, Attest;
    assert batch[..n + 1] == batch;
  }

  lemma JustifiesPrefix(c: Config, s: State, batch: Batch, n: nat, i: nat)
    requires i < n <= |batch|
    ensures JustifiesAt(c, s, batch[..n], i) <==> JustifiesAt(c, s, batch, i)
    ensures JustifiesAt(c, s, batch, i) ==> CheckpointAt(c, s, batch[..n], i) == CheckpointAt(c, s, batch, i)
  {
    hide ExecFrom, Votes;
    BatchPrefix(c, s, batch, n, i);
    assert batch[..n][..i + 1] == batch[..i + 1];
  }

  lemma JustifiesWithin(c: Config, s: State, batch: Batch)
    ensures forall i: nat :: JustifiesAt(c, s, batch, i) ==> i < |batch|
  {
  }

  /** The last vote of a batch turned an epoch justified, or else the one that did so last in the rest did. */
  lemma LastJustifiesSnoc(c: Config, s: State, batch: Batch, i: nat)
    requires batch != [] && LastJustifies(c, s, batch, i)
    ensures var n := |batch| - 1;
            i == n || (i < n && LastJustifies(c, s, batch[..n], i) && !JustifiesAt(c, s, batch, n)
                       && CheckpointAt(c, s, batch[..n], i) == CheckpointAt(c, s, batch, i))
  {
    JustifiesWithin(c, s, batch);
    hide JustifiesAt, CheckpointAt;
    var n := |batch| - 1;
    if i < n {
      JustifiesPrefix(c, s, batch, n, i);
      forall j | i < j < n
        ensures !JustifiesAt(c, s, batch[..n], j)
      {
        JustifiesPrefix(c, s, batch, n, j);
      }
    }
  }

  /** The checkpoint a batch reports as justified is that of the last vote that turned an epoch justified. */
  lemma {:induction false} JustifiedInMeans(c: Config, s: State, batch: Batch)
    ensures JustifiedIn(c, s, batch).None? <==> forall i: nat :: !JustifiesAt(c, s, batch, i)
    ensures forall i: nat | LastJustifies(c, s, batch, i) ::
              JustifiedIn(c, s, batch) == Some(CheckpointAt(c, s, batch, i))
  {
    JustifiesWithin(c, s, batch);
    if batch != [] {
      hide JustifiesAt, JustifiedIn, CheckpointAt, LastJustifies;
      var n := |batch| - 1;
      JustifiedInMeans(c, s, batch[..n]);
      JustifiesWithin(c, s, batch[..n]);
      JustifiedInSnoc(c, s, batch);
      forall i: nat | i < n
        ensures JustifiesAt(c, s, batch[..n], i) <==> JustifiesAt(c, s, batch, i)
      {
        JustifiesPrefix(c, s, batch, n, i);
      }
      forall i: nat | LastJustifies(c, s, batch, i)
        ensures JustifiedIn(c, s, batch) == Some(CheckpointAt(c, s, batch, i))
      {
        LastJustifiesSnoc(c, s, batch, i);
      }
    }
  }

  /** In every run a check raises the inactivity alarm if and only if it enters an epoch without finality and at
      least the configured number of such epochs have been entered since the last finalisation. */
  lemma LeakMeans(c: Config, steps: seq<Step>, epoch: nat, notifyOk: bool)
    ensures var idle := IdleChecks(c, steps + [Check(epoch, notifyOk)]);
            LeakBy(c, Exec(c, steps), epoch) <==> |steps| in idle && |idle| >= c.leakEpochs
  {
    var step := Check(epoch, notifyOk);
    var s, after := Exec(c, steps), steps + [step];
    assert after[..|steps|] == steps;
    InactivityCounted(c, steps);
    InactivityCounted(c, after);
    IdleSnoc(c, after, |steps|);
    ExecSnoc(c, steps, step);
    StepIdle(c, s, step);
    FinalisesIff(s);
    hide Exec, Apply, IdleChecks, IdleEpoch, FinalisesAny, CanFinalize;
  }

  // ----- whole runs -----

  function RunSteps(calls: seq<Call>): seq<Step> {
    if calls == [] then [] else
      var n := |calls| - 1;
      RunSteps(calls[..n]) + CallSteps(calls[n])
  }

  /** Call i reported block h as final. */
  ghost predicate Reported(results: seq<Outcome>, i: nat, h: Hash) {
    i < |results| && results[i].Processed? && results[i].finalized.Some? && results[i].finalized.value.blockHash == h
  }

  ghost predicate AnyReported(results: seq<Outcome>, h: Hash) {
    exists i: nat :: Reported(results, i, h)
  }

  lemma ReportedSnoc(results: seq<Outcome>, r: Outcome, h: Hash)
    ensures AnyReported(results + [r], h) <==> AnyReported(results, h) || Reported([r], 0, h)
  {
    var after := results + [r];
    if i: nat :| Reported(results, i, h) {
      assert Reported(after, i, h);
    }
    if i: nat :| Reported(after, i, h) {
      assert i < |results| ==> Reported(results, i, h);
    }
    assert Reported(after, |results|, h) <==> Reported([r], 0, h);
  }

  /** A call makes final exactly what it reports. */
  lemma CallFinal(c: Config, s: State, call: Call, h: Hash)
    requires s.breaker != Halted
    ensures h in ExecFrom(c, s, CallSteps(call)).finalizedBlocks
       <==> h in s.finalizedBlocks || Reported([CallOutcome(c, s, call)], 0, h)
  {
    if call.batch != [] && call.providerOk {
      hide ExecFrom, Votes, AcceptedIn, JustifiedIn, LeakBy, CallSteps;
      VotesKeepFinal(c, s, call.batch);
      CallSplits(c, s, call);
      var voted, epoch := ExecFrom(c, s, Votes(call.batch)), call.batch[0].0.target.epoch;
      CheckedFinal(c, voted, epoch, h);
      hide Checked, CanFinalize;
    } else {
      NoSteps(c, s);
    }
  }

  lemma CheckedFinal(c: Config, s: State, epoch: nat, h: Hash)
    ensures h in Checked(c, s, epoch).finalizedBlocks
       <==> h in s.finalizedBlocks || (FinalizedBy(s).Some? && FinalizedBy(s).value.blockHash == h)
  {
  }

  lemma {:induction false} VotesKeepFinal(c: Config, s: State, batch: Batch)
    ensures ExecFrom(c, s, Votes(batch)).finalizedBlocks == s.finalizedBlocks
  {
    if batch != [] {
      var n := |batch| - 1;
      VotesKeepFinal(c, s, batch[..n]);
      assert batch[..n + 1] == batch;
      VotesSnoc(c, s, batch, n);
      hide Votes, ExecFrom, FirstConflict, Counts, NewlyJustified, CountedVotes, Counted;
    }
  }

  /** Any run of service calls is the run of its steps, with these results: it is never halted, and a block
      is final exactly if some call reported it. */
  method ServeCalls(c: Config, calls: seq<Call>) returns (s: FinalityState, results: seq<Outcome>)
    ensures fresh(s) && s.config == c && s.Value() == Exec(c, RunSteps(calls))
    ensures |results| == |calls|
    ensures forall i :: 0 <= i < |calls| ==>
              results[i] != SystemHalted && results[i] == CallOutcome(c, Exec(c, RunSteps(calls[..i])), calls[i])
    ensures forall h :: h in s.finalizedBlocks <==> AnyReported(results, h)
  {
    hide CallOutcome, ExecFrom, CallSteps, AnyReported;
    s := new FinalityState(c);
    results := [];
    NothingReported();
    NoSteps(c, Initial);
    for i := 0 to |calls|
      invariant fresh(s) && s.config == c && s.Value() == Exec(c, RunSteps(calls[..i])) && |results| == i
      invariant forall k :: 0 <= k < i ==>
                  results[k] != SystemHalted && results[k] == CallOutcome(c, Exec(c, RunSteps(calls[..k])), calls[k])
      invariant forall h :: h in s.finalizedBlocks <==> AnyReported(results, h)
    {
      ghost var before := s.Value();
      BreakerLatches(c, RunSteps(calls[..i]));
      NotHalted(c, before, calls[i]);
      RunSnoc(c, calls, i);
      var r := s.ProcessAttestations(calls[i]);
      forall h
        ensures h in s.finalizedBlocks <==> AnyReported(results + [r], h)
      {
        ReportedSnoc(results, r, h);
        CallFinal(c, before, calls[i], h);
      }
      results := results + [r];
    }
    assert calls[..|calls|] == calls;
  }

  /** After any run of service calls stake accounts balance; with at most 65 votes per validator no epoch counts
      more than the total; an epoch is justified exactly by two thirds. */
  method RunService(c: Config, calls: seq<Call>) returns (s: FinalityState, results: seq<Outcome>)
    ensures fresh(s) && s.config == c && s.Value() == Exec(c, RunSteps(calls))
    ensures |results| == |calls| && forall h :: h in s.finalizedBlocks <==> AnyReported(results, h)
    ensures WellFormed(c.vs) ==>
              forall e :: e in s.checkpoints ==>
                            s.checkpoints[e].attested == Min(EpochStake(c.vs, s.attestations, e), U128_MAX)
    ensures WellFormed(c.vs) && (forall v :: v in c.vs.validators ==> VotesOf(RunSteps(calls), v) <= MAX_HISTORY + 1)
            ==> forall e :: EpochStake(c.vs, s.attestations, e) <= TotalStake(c.vs)
    ensures WellFormed(c.vs) && TotalStake(c.vs) <= U128_MAX && !ThresholdTooLow(c.vs.total)
            ==> forall e :: e in s.checkpoints ==> (s.checkpoints[e].IsJustified() <==> Majority(c.vs, s.Value(), e))
  {
    hide CallOutcome, Exec, RunSteps, WellFormed, EpochStake, TotalStake, Majority, ThresholdTooLow, VotesOf;
    hide AnyReported;
    s, results := ServeCalls(c, calls);
    if WellFormed(c.vs) {
      RunClaims(c, RunSteps(calls));
    }
  }

  /** The service itself counts a validator twice in an epoch after 66 attestations: with the only
      validator of a set, whatever its stake, the epoch holds twice the total. */
  method SixtySixCalls(v: ValidatorId, stake: nat, h: Hash, other: Hash) returns (s: FinalityState)
    requires 0 < stake && h != other
    ensures fresh(s) && s.config.vs == Built([(v, stake)])
    ensures WellFormed(s.config.vs) && TotalStake(s.config.vs) == stake
    ensures s.Value() == Exec(s.config, ChainSteps(v, h, 65) + [Vote(SecondVote(v, other), true)])
    ensures EpochStake(s.config.vs, s.attestations, 1) == 2 * stake
  {
    var vs := AddValidator(EmptyValidatorSet, v, stake);
    SoloSet(v, stake);
    hide WellFormed, TotalStake, EpochStake, ExecFrom, Attest, Accepted, Verdict;
    var c := Config(vs, true, 128, 4);
    ghost var steps := SixtySixVotes(c, v, h, other);
    s := new FinalityState(c);
    NoSteps(c, Initial);
    for i := 0 to 65
      invariant fresh(s) && s.config == c && s.Value() == Exec(c, ChainSteps(v, h, i))
    {
      ExecSnoc(c, ChainSteps(v, h, i), Vote(ChainVote(v, h, i), true));
      var _, _ := s.ProcessAttestation(ChainVote(v, h, i), true);
    }
    ExecSnoc(c, ChainSteps(v, h, 65), Vote(SecondVote(v, other), true));
    var _, _ := s.ProcessAttestation(SecondVote(v, other), true);
  }

  lemma NothingReported()
    ensures forall h :: !AnyReported([], h)
  {
  }

  lemma NotHalted(c: Config, s: State, call: Call)
    requires s.breaker != Halted
    ensures CallOutcome(c, s, call) != SystemHalted
  {
  }

  lemma RunSnoc(c: Config, calls: seq<Call>, i: nat)
    requires i < |calls|
    ensures Exec(c, RunSteps(calls[..i + 1]))
         == ExecFrom(c, Exec(c, RunSteps(calls[..i])), CallSteps(calls[i]))
  {
    assert calls[..i + 1][..i] == calls[..i];
    ExecConcat(c, Initial, RunSteps(calls[..i]), CallSteps(calls[i]));
  }

  lemma RunClaims(c: Config, steps: seq<Step>)
    requires WellFormed(c.vs)
    ensures var s := Exec(c, steps);
            && (forall e :: e in s.checkpoints ==>
                              s.checkpoints[e].attested == Min(EpochStake(c.vs, s.attestations, e), U128_MAX))
            && ((forall v :: v in c.vs.validators ==> VotesOf(steps, v) <= MAX_HISTORY + 1)
                ==> forall e :: EpochStake(c.vs, s.attestations, e) <= TotalStake(c.vs))
            && (TotalStake(c.vs) <= U128_MAX && !ThresholdTooLow(c.vs.total)
                ==> forall e :: e in s.checkpoints ==> (s.checkpoints[e].IsJustified() <==> Majority(c.vs, s, e)))
  {
    hide Exec, EpochStake, TotalStake, Majority, ThresholdTooLow, VotesOf, WellFormed, Log, ThresholdMet;
    var s := Exec(c, steps);
    AccountsBalance(c, steps);
    assert forall e :: e in s.checkpoints ==> CheckpointOk(c.vs, s.checkpoints[e], s.attestations, e);
    hide CheckpointOk, Accounted;
    if forall v :: v in c.vs.validators ==> VotesOf(steps, v) <= MAX_HISTORY + 1 {
      forall v | v in c.vs.validators
        ensures |Log(c, steps, v)| <= MAX_HISTORY + 1
      {
        LogWithinVotes(c, steps, v);
      }
      forall e
        ensures EpochStake(c.vs, s.attestations, e) <= TotalStake(c.vs)
      {
        AttestedWithinTotal(c, steps, e);
      }
    }
    if TotalStake(c.vs) <= U128_MAX && !ThresholdTooLow(c.vs.total) {
      forall e | e in s.checkpoints
        ensures s.checkpoints[e].IsJustified() <==> Majority(c.vs, s, e)
      {
        JustifiedIsTwoThirds(c, steps, e);
      }
    }
  }

  /** Calls with one attestation each, two epochs apart. */
  function GapCalls(v: ValidatorId, h: Hash, n: nat): seq<Call> {
    if n == 0 then [] else GapCalls(v, h, n - 1) + [Call([(GapVote(v, h, n - 1), true)], true, true)]
  }

  lemma GapCallStep(v: ValidatorId, h: Hash, k: nat)
    ensures CallSteps(Call([(GapVote(v, h, k), true)], true, true))
         == [Vote(GapVote(v, h, k), true), Check(2 * (k + 1), true)]
  {
  }

  lemma RunStepsSnoc(calls: seq<Call>, call: Call)
    ensures RunSteps(calls + [call]) == RunSteps(calls) + CallSteps(call)
  {
    assert (calls + [call])[..|calls|] == calls;
  }

  lemma GapSplits(v: ValidatorId, h: Hash, n: nat)
    ensures if n == 0 then GapCalls(v, h, n) == [] && GapSteps(v, h, n) == [] && RunSteps([]) == [] else
              && GapCalls(v, h, n) == GapCalls(v, h, n - 1) + [Call([(GapVote(v, h, n - 1), true)], true, true)]
              && GapSteps(v, h, n)
                 == GapSteps(v, h, n - 1) + [Vote(GapVote(v, h, n - 1), true), Check(2 * n, true)]
  {
    hide CallSteps;
  }

  lemma {:induction false} GapCallSteps(v: ValidatorId, h: Hash, n: nat)
    ensures RunSteps(GapCalls(v, h, n)) == GapSteps(v, h, n)
  {
    hide RunSteps, GapCalls, GapSteps, CallSteps, GapVote;
    GapSplits(v, h, n);
    if n > 0 {
      GapCallSteps(v, h, n - 1);
      GapCallStep(v, h, n - 1);
      RunStepsSnoc(GapCalls(v, h, n - 1), Call([(GapVote(v, h, n - 1), true)], true, true));
    }
  }

  /** For every n a run of n service calls of one validator keeps n checkpoints live, whatever the limit. */
  lemma ManyLiveCheckpoints(c: Config, v: ValidatorId, h: Hash, n: nat)
    requires v in c.vs.validators
    ensures |Exec(c, RunSteps(GapCalls(v, h, n))).checkpoints| == n
  {
    GapCallSteps(v, h, n);
    GapRun(c, v, h, n);
    hide Exec;
  }
}
