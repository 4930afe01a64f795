/**
 How many checkpoints stay live. Pruning happens only when a check finalises, and drops by age; the configured
 limit decides only whether it happens.
 */
module FinalityPruning {
  import opened Bytes
  import opened Options
  import opened FinalityModel
  import opened FinalityRun
  import opened FinalityEviction

  // ----- what a finalising check keeps -----

  /** The live epochs from k on. */
  ghost function LiveFrom(cps: Checkpoints, k: nat): set<nat> {
    set e | e in cps && e >= k
  }

  function TwoBefore(f: nat): nat {
    if f >= 2 then f - 2 else 0
  }

  /** A check that finalises epoch f keeps every live epoch below the limit, and above it exactly those from
      f - 2 on; the limit holds afterwards if and only if no more than that many live epochs are so recent. */
  lemma PruneExactly(c: Config, steps: seq<Step>, epoch: nat)
    requires CanFinalize(Exec(c, steps))
    ensures var s := Exec(c, steps);
            var f, s' := s.lastJustified.value.epoch - 1, Checked(c, s, epoch);
            && s'.lastFinalized.Some? && s'.lastFinalized.value.epoch == f
            && f in s'.checkpoints && s'.checkpoints[f].state == CheckpointState.Finalized
            && (|s.checkpoints| <= c.maxCheckpoints ==> s'.checkpoints.Keys == s.checkpoints.Keys)
            && (|s.checkpoints| > c.maxCheckpoints ==> s'.checkpoints.Keys == LiveFrom(s.checkpoints, TwoBefore(f)))
            && (forall d, e :: d in s.checkpoints && d !in s'.checkpoints && e in s'.checkpoints ==> d < e)
            && (|s'.checkpoints| <= c.maxCheckpoints
                <==> |LiveFrom(s.checkpoints, TwoBefore(f))| <= c.maxCheckpoints)
  {
    EpochKeys(c, steps);
    hide Exec;
    var s := Exec(c, steps);
    var f, s' := s.lastJustified.value.epoch - 1, Checked(c, s, epoch);
    assert AfterFinality(s).checkpoints.Keys == s.checkpoints.Keys;
    SameSize(AfterFinality(s).checkpoints, s.checkpoints);
    if |s.checkpoints| <= c.maxCheckpoints {
      SubsetSize(LiveFrom(s.checkpoints, TwoBefore(f)), s.checkpoints.Keys);
      SameSize(s'.checkpoints, s.checkpoints);
    } else {
      assert s'.checkpoints.Keys == LiveFrom(s.checkpoints, TwoBefore(f));
      assert |s'.checkpoints| == |s'.checkpoints.Keys|;
    }
  }

  lemma SameSize<V>(a: map<nat, V>, b: map<nat, V>)
    requires a.Keys == b.Keys
    ensures |a| == |b|
  {
    assert |a| == |a.Keys| && |b| == |b.Keys|;
  }

  lemma SubsetSize<T>(a: set<T>, b: set<T>)
    requires a <= b
    ensures |a| <= |b|
  {
    assert b == a + (b - a);
  }

  // ----- how many there can be -----

  ghost function AdmittedVotes(c: Config, steps: seq<Step>): nat {
    if steps == [] then 0 else
      var n := |steps| - 1;
      var admitted := steps[n].Vote? && Admissible(c, Exec(c, steps[..n]), steps[n].a, steps[n].signatureOk);
      AdmittedVotes(c, steps[..n]) + if admitted then 1 else 0
  }

  /** A step opens at most the epoch of an admitted vote. */
  lemma StepOpens(c: Config, s: State, step: Step)
    ensures var s' := Apply(c, s, step);
            if step.Check? then s'.checkpoints.Keys <= s.checkpoints.Keys
            else if Admissible(c, s, step.a, step.signatureOk)
            then s'.checkpoints.Keys == s.checkpoints.Keys + {step.a.target.epoch}
            else s'.checkpoints == s.checkpoints
  {
    hide FirstConflict, NextBreaker, NewlyJustified, Counts, CountedVotes, Counted, Recorded;
  }

  /** In every run there are at most as many live checkpoints as admitted votes. */
  lemma {:induction false} CheckpointsWithinVotes(c: Config, steps: seq<Step>)
    ensures |Exec(c, steps).checkpoints| <= AdmittedVotes(c, steps) <= |steps|
  {
    if steps != [] {
      var n := |steps| - 1;
      CheckpointsWithinVotes(c, steps[..n]);
      StepOpens(c, Exec(c, steps[..n]), steps[n]);
      ExecLast(c, steps);
      hide Apply, ExecFrom, Admissible;
      var before, after := Exec(c, steps[..n]).checkpoints, Exec(c, steps).checkpoints;
      assert |before| == |before.Keys| && |after| == |after.Keys|;
      if steps[n].Vote? {
        SubsetSize(after.Keys, before.Keys + {steps[n].a.target.epoch});
      }
      if after.Keys <= before.Keys {
        SubsetSize(after.Keys, before.Keys);
      }
    }
  }

  // ----- and that there can be so many -----

  /** No two live epochs are consecutive, so nothing can be finalised. */
  ghost predicate Sparse(s: State) {
    && (forall e, f :: e in s.checkpoints && f in s.checkpoints ==> f != e + 1)
    && (forall e :: e in s.checkpoints ==> s.checkpoints[e].epoch == e)
    && (s.lastJustified.Some? ==> s.lastJustified.value.epoch in s.checkpoints)
  }

  lemma SparseVote(c: Config, s: State, a: Attestation)
    requires Sparse(s) && a.target.epoch + 1 !in s.checkpoints
    requires a.target.epoch > 0 ==> a.target.epoch - 1 !in s.checkpoints
    ensures Sparse(Apply(c, s, Vote(a, true))) && !CanFinalize(Apply(c, s, Vote(a, true)))
  {
    hide Apply, Admissible;
    StepOpens(c, s, Vote(a, true));
    StepKeys(c, s, Vote(a, true));
    StepLastJustified(c, s, Vote(a, true));
    StepJustified(c, s, Vote(a, true));
  }

  function GapVote(v: ValidatorId, h: Hash, k: nat): Attestation {
    Attestation(v, CheckpointId(2 * k, h), CheckpointId(2 * k + 2, h), 0)
  }

  /** One call after another, each with one vote, two epochs apart. */
  ghost function GapSteps(v: ValidatorId, h: Hash, n: nat): seq<Step> {
    if n == 0 then [] else
      GapSteps(v, h, n - 1) + [Vote(GapVote(v, h, n - 1), true), Check(2 * n, true)]
  }

  ghost predicate GapHistory(h: seq<Attestation>, n: nat) {
    forall i :: 0 <= i < |h| ==> h[i].target.epoch <= 2 * n && h[i].source.epoch + 2 == h[i].target.epoch
  }

  lemma GapAdmitted(c: Config, s: State, v: ValidatorId, h: Hash, n: nat)
    requires v in c.vs.validators && GapHistory(HistoryOf(s.history, v), n)
    ensures var a := GapVote(v, h, n);
            && Admissible(c, s, a, true)
            && GapHistory(HistoryOf(Apply(c, s, Vote(a, true)).history, v), n + 1)
  {
    var a := GapVote(v, h, n);
    var hist := HistoryOf(s.history, v);
    assert FirstConflict(hist, a).None?;
    GapRecorded(hist, a, n);
    StepHistory(c, s, Vote(a, true), v);
  }

  lemma GapRecorded(hist: seq<Attestation>, a: Attestation, n: nat)
    requires GapHistory(hist, n) && a.source.epoch == 2 * n && a.target.epoch == 2 * n + 2
    ensures GapHistory(Recorded(hist, a), n + 1)
  {
  }

  lemma ExecTwo(c: Config, steps: seq<Step>, x: Step, y: Step)
    ensures Exec(c, steps + [x, y]) == Apply(c, Apply(c, Exec(c, steps), x), y)
  {
    hide Apply, ExecFrom;
    ExecSnoc(c, steps, x);
    ExecSnoc(c, steps + [x], y);
    assert steps + [x] + [y] == steps + [x, y];
  }

  /** n live epochs, the last of them at most 2n. */
  ghost predicate LiveUpTo(cps: Checkpoints, n: nat) {
    |cps| == n && forall e :: e in cps ==> e <= 2 * n
  }

  lemma OneMoreLive(a: Checkpoints, b: Checkpoints, n: nat)
    requires LiveUpTo(a, n) && b.Keys == a.Keys + {2 * n + 2}
    ensures LiveUpTo(b, n + 1)
  {
    assert |a| == |a.Keys| && |b| == |b.Keys|;
  }

  lemma NotLiveYet(cps: Checkpoints, n: nat)
    requires LiveUpTo(cps, n)
    ensures 2 * n + 1 !in cps && 2 * n + 3 !in cps
  {
  }

  /** What n such calls leave: n live epochs, none next to another, and only these votes in the history. */
  ghost predicate GapState(s: State, v: ValidatorId, n: nat) {
    && Sparse(s) && GapHistory(HistoryOf(s.history, v), n)
    && LiveUpTo(s.checkpoints, n)
  }

  /** One such call opens one epoch and drops none: it does not finalise. */
  lemma GapCall(c: Config, s: State, v: ValidatorId, h: Hash, n: nat)
    requires v in c.vs.validators && GapState(s, v, n)
    ensures GapState(Apply(c, Apply(c, s, Vote(GapVote(v, h, n), true)), Check(2 * n + 2, true)), v, n + 1)
  {
    hide Apply, Sparse, GapHistory, CanFinalize, Admissible, HistoryOf, LiveUpTo;
    var a, check := GapVote(v, h, n), Check(2 * n + 2, true);
    var voted := Apply(c, s, Vote(a, true));
    GapAdmitted(c, s, v, h, n);
    StepOpens(c, s, Vote(a, true));
    NotLiveYet(s.checkpoints, n);
    SparseVote(c, s, a);
    OneMoreLive(s.checkpoints, voted.checkpoints, n);
    IdleCheck(c, voted, check);
  }

  lemma IdleCheck(c: Config, s: State, step: Step)
    requires step.Check? && !CanFinalize(s)
    ensures Apply(c, s, step).checkpoints == s.checkpoints && Apply(c, s, step).history == s.history
    ensures Sparse(s) ==> Sparse(Apply(c, s, step))
  {
  }

  lemma {:induction false} GapRun(c: Config, v: ValidatorId, h: Hash, n: nat)
    requires v in c.vs.validators
    ensures GapState(Exec(c, GapSteps(v, h, n)), v, n)
  {
    hide Exec, Apply;
    if n == 0 {
      EmptyRun(c, v);
    } else {
      hide GapState;
      GapRun(c, v, h, n - 1);
      GapCall(c, Exec(c, GapSteps(v, h, n - 1)), v, h, n - 1);
      ExecTwo(c, GapSteps(v, h, n - 1), Vote(GapVote(v, h, n - 1), true), Check(2 * n, true));
    }
  }

  /** No run with at most n admitted votes ever exceeds the limit. */
  ghost predicate LimitHoldsUpTo(c: Config, n: nat) {
    forall steps | AdmittedVotes(c, steps) <= n :: |Exec(c, steps).checkpoints| <= c.maxCheckpoints
  }

  /** With any validator at all, the limit holds exactly for runs with no more votes than it: pruning adds nothing
      to that, since a run need not finalise. */
  lemma LimitIffFewVotes(c: Config, v: ValidatorId, n: nat)
    requires v in c.vs.validators
    ensures LimitHoldsUpTo(c, n) <==> n <= c.maxCheckpoints
  {
    if n <= c.maxCheckpoints {
      forall steps | AdmittedVotes(c, steps) <= n
        ensures |Exec(c, steps).checkpoints| <= c.maxCheckpoints
      {
        CheckpointsWithinVotes(c, steps);
      }
    } else {
      var zeros: Hash := seq(32, _ => 0);
      GapRun(c, v, zeros, n);
      GapVotes(c, v, zeros, n);
    }
  }

  lemma {:induction false} GapVotes(c: Config, v: ValidatorId, h: Hash, n: nat)
    ensures AdmittedVotes(c, GapSteps(v, h, n)) <= n
  {
    if n > 0 {
      hide Exec, Admissible;
      GapVotes(c, v, h, n - 1);
      var a, b := GapSteps(v, h, n - 1) + [Vote(GapVote(v, h, n - 1), true)], GapSteps(v, h, n);
      assert b == a + [Check(2 * n, true)] && b[..|b| - 1] == a;
      assert a[..|a| - 1] == GapSteps(v, h, n - 1);
    }
  }
}
