/**
 Overlapping calls. The service checks an attestation under one lock and applies it under the next, so calls of
 several threads interleave between the two. As long as no two calls with attestations of one validator overlap,
 an interleaved run is a run of whole attestations; if two do, one validator can count twice.
 */
module FinalityInterleaving {
  import opened Bytes
  import opened Options
  import opened FinalityModel
  import opened FinalityRun
  import opened FinalityEviction

  type Tid = nat

  /** One locked section each. */
  datatype Section =
    | Admit(t: Tid, a: Attestation, signatureOk: bool)
    | Update(t: Tid)
    | Finalise(epoch: nat, notifyOk: bool)

  /** The state, and what the threads between their two sections have had admitted. */
  datatype Machine = Machine(s: State, waiting: map<Tid, Attestation>)

  const Idle := Machine(Initial, map[])

  function Run(c: Config, m: Machine, x: Section): Machine {
    match x
    case Admit(t, a, signatureOk) =>
      if t in m.waiting || !Eligible(c, a, signatureOk) then m else
        (match FirstConflict(HistoryOf(m.s.history, a.validator), a)
         case Some(prev) => m.(s := m.s.(offenses := m.s.offenses + [OffenseFor(a, prev)]))
         case None => m.(waiting := m.waiting[t := a]))
    case Update(t) =>
      if t !in m.waiting then m else
        var a := m.waiting[t];
        if a.validator !in c.vs.validators then m
        else Machine(Voted(c.vs, Record(m.s, a), a, c.vs.validators[a.validator].stake), m.waiting - {t})
    case Finalise(epoch, notifyOk) => m.(s := Apply(c, m.s, Check(epoch, notifyOk)))
  }

  ghost function RunAll(c: Config, xs: seq<Section>): Machine {
    if xs == [] then Idle else Run(c, RunAll(c, xs[..|xs| - 1]), xs[|xs| - 1])
  }

  /** The whole attestations and checks a section completes. */
  ghost function Completes(c: Config, m: Machine, x: Section): seq<Step> {
    match x
    case Admit(t, a, signatureOk) =>
      if t in m.waiting || (Run(c, m, x).waiting != m.waiting) then [] else [Vote(a, signatureOk)]
    case Update(t) => if t in m.waiting then [Vote(m.waiting[t], true)] else []
    case Finalise(epoch, notifyOk) => [Check(epoch, notifyOk)]
  }

  ghost function Sequential(c: Config, xs: seq<Section>): seq<Step> {
    if xs == [] then [] else
      var n := |xs| - 1;
      Sequential(c, xs[..n]) + Completes(c, RunAll(c, xs[..n]), xs[n])
  }

  /** No attestation is admitted while another of the same validator waits to be applied. */
  ghost predicate NoOverlap(c: Config, xs: seq<Section>) {
    xs != [] ==>
      var n := |xs| - 1;
      && NoOverlap(c, xs[..n])
      && (xs[n].Admit? ==>
            forall t :: t in RunAll(c, xs[..n]).waiting ==>
                          RunAll(c, xs[..n]).waiting[t].validator != xs[n].a.validator)
  }

  /** What waits would still be admitted, and no two of it are of one validator. */
  ghost predicate StillAdmissible(c: Config, m: Machine) {
    && (forall t :: t in m.waiting ==> Admissible(c, m.s, m.waiting[t], true))
    && (forall t, u :: t in m.waiting && u in m.waiting && t != u ==> m.waiting[t].validator != m.waiting[u].validator)
  }

  lemma OtherHistory(c: Config, s: State, step: Step, v: ValidatorId)
    requires step.Vote? ==> step.a.validator != v
    ensures HistoryOf(Apply(c, s, step).history, v) == HistoryOf(s.history, v)
  {
    hide Apply;
    StepHistory(c, s, step, v);
  }

  lemma AdmitStep(c: Config, m: Machine, t: Tid, a: Attestation, signatureOk: bool)
    requires StillAdmissible(c, m) && forall u :: u in m.waiting ==> m.waiting[u].validator != a.validator
    ensures var x := Admit(t, a, signatureOk);
            && StillAdmissible(c, Run(c, m, x))
            && Run(c, m, x).s == ExecFrom(c, m.s, Completes(c, m, x))
  {
    hide FirstConflict, NextBreaker;
    var x := Admit(t, a, signatureOk);
    OneStep(c, m.s, Vote(a, signatureOk));
    if t !in m.waiting && Admissible(c, m.s, a, signatureOk) {
      assert t in Run(c, m, x).waiting;
    }
  }

  lemma UpdateStep(c: Config, m: Machine, t: Tid)
    requires StillAdmissible(c, m)
    ensures StillAdmissible(c, Run(c, m, Update(t)))
    ensures Run(c, m, Update(t)).s == ExecFrom(c, m.s, Completes(c, m, Update(t)))
  {
    if t in m.waiting {
      var a := m.waiting[t];
      OneStep(c, m.s, Vote(a, true));
      assert Run(c, m, Update(t)).s == Apply(c, m.s, Vote(a, true));
      forall u | u in m.waiting && u != t
        ensures HistoryOf(Apply(c, m.s, Vote(a, true)).history, m.waiting[u].validator)
             == HistoryOf(m.s.history, m.waiting[u].validator)
      {
        OtherHistory(c, m.s, Vote(a, true), m.waiting[u].validator);
      }
      hide Apply, FirstConflict;
    } else {
      NoStep(c, m.s);
    }
  }

  lemma FinaliseStep(c: Config, m: Machine, epoch: nat, notifyOk: bool)
    requires StillAdmissible(c, m)
    ensures var x := Finalise(epoch, notifyOk);
            StillAdmissible(c, Run(c, m, x)) && Run(c, m, x).s == ExecFrom(c, m.s, Completes(c, m, x))
  {
    OneStep(c, m.s, Check(epoch, notifyOk));
    forall u | u in m.waiting
      ensures HistoryOf(Apply(c, m.s, Check(epoch, notifyOk)).history, m.waiting[u].validator)
           == HistoryOf(m.s.history, m.waiting[u].validator)
    {
      OtherHistory(c, m.s, Check(epoch, notifyOk), m.waiting[u].validator);
    }
    hide Apply, FirstConflict;
  }

  lemma OneStep(c: Config, s: State, step: Step)
    ensures ExecFrom(c, s, [step]) == Apply(c, s, step)
  {
    assert [step][..0] == [];
  }

  lemma NoStep(c: Config, s: State)
    ensures ExecFrom(c, s, []) == s
  {
  }

  /** An interleaved run without such overlaps leaves the state of the run of whole attestations, each at the
      point where it was applied: everything proved of those runs holds of it. */
  lemma {:induction false} InterleavedIsSequential(c: Config, xs: seq<Section>)
    requires NoOverlap(c, xs)
    ensures RunAll(c, xs).s == Exec(c, Sequential(c, xs)) && StillAdmissible(c, RunAll(c, xs))
  {
    if xs == [] {
      NoStep(c, Initial);
    } else {
      var n := |xs| - 1;
      InterleavedIsSequential(c, xs[..n]);
      var m, x := RunAll(c, xs[..n]), xs[n];
      ExecConcat(c, Initial, Sequential(c, xs[..n]), Completes(c, m, x));
      hide ExecFrom, Run, Completes, StillAdmissible;
      match x
      case Admit(t, a, signatureOk) => AdmitStep(c, m, t, a, signatureOk);
      case Update(t) => UpdateStep(c, m, t);
      case Finalise(epoch, notifyOk) => FinaliseStep(c, m, epoch, notifyOk);
    }
  }

  /** So nobody counts twice in it either. */
  lemma InterleavedNoDoubleCount(c: Config, xs: seq<Section>, x: CheckpointId, y: CheckpointId, i: nat)
    requires NoOverlap(c, xs) && Located(c.vs) && LogsWithin(c, Sequential(c, xs), MAX_HISTORY + 1)
    requires x.epoch == y.epoch
    requires x in RunAll(c, xs).s.attestations && RunAll(c, xs).s.attestations[x].HasAttested(i)
    requires y in RunAll(c, xs).s.attestations && RunAll(c, xs).s.attestations[y].HasAttested(i)
    ensures x == y
  {
    InterleavedIsSequential(c, xs);
    hide RunAll, Sequential, Exec, LogsWithin, NoOverlap;
    NoDoubleCount(c, Sequential(c, xs), x, y, i);
  }

  /** Two calls of one validator that overlap. */
  function Overlapping(v: ValidatorId, h: Hash, other: Hash): seq<Section> {
    [Admit(0, ChainVote(v, h, 0), true), Admit(1, SecondVote(v, other), true), Update(0), Update(1)]
  }

  /** With two votes only, any validator is counted for two targets of one epoch. */
  lemma OverlapCountsTwice(c: Config, v: ValidatorId, h: Hash, other: Hash)
    requires WellFormed(c.vs) && v in c.vs.validators && h != other
    ensures EpochStake(c.vs, RunAll(c, Overlapping(v, h, other)).s.attestations, 1) == 2 * c.vs.validators[v].stake
  {
    var a, b, stake := ChainVote(v, h, 0), SecondVote(v, other), c.vs.validators[v].stake;
    var s1 := Voted(c.vs, Record(Initial, a), a, stake);
    var s2 := Voted(c.vs, Record(s1, b), b, stake);
    OverlapRuns(c, v, h, other);
    NoTargetsNoStake(c.vs, map[], 1);
    FreshTarget(c, Record(Initial, a), a, 1);
    StartAccounted(c.vs);
    VotedAccounted(c.vs, Record(Initial, a), a, stake);
    hide EpochStake, WellFormed, RunAll, CheckpointOk;
    assert s1.attestations.Keys == {a.target};
    FreshTarget(c, Record(s1, b), b, 1);
  }

  lemma StartAccounted(vs: ValidatorSet)
    ensures Accounted(vs, map[], map[])
  {
  }

  /** The first vote for a target is counted. */
  lemma FreshTarget(c: Config, s: State, a: Attestation, e: nat)
    requires WellFormed(c.vs) && a.validator in c.vs.validators && a.target !in s.attestations
    requires forall id :: id in s.attestations ==> |s.attestations[id].bitmap| == |c.vs.indexToId|
    ensures var s' := Voted(c.vs, s, a, c.vs.validators[a.validator].stake);
            && EpochStake(c.vs, s'.attestations, e) == EpochStake(c.vs, s.attestations, e) + VoteStake(c.vs, a, e)
            && s'.attestations.Keys == s.attestations.Keys + {a.target}
  {
    hide EpochStake, WellFormed, Counted, NewlyJustified;
    assert Counts(c.vs, s, a);
    VoteAdds(c.vs, s, a, e);
  }

  lemma OverlapRuns(c: Config, v: ValidatorId, h: Hash, other: Hash)
    requires v in c.vs.validators
    ensures var a, b, stake := ChainVote(v, h, 0), SecondVote(v, other), c.vs.validators[v].stake;
            RunAll(c, Overlapping(v, h, other)).s
            == Voted(c.vs, Record(Voted(c.vs, Record(Initial, a), a, stake), b), b, stake)
  {
    hide Voted, Record;
    var a, b, xs := ChainVote(v, h, 0), SecondVote(v, other), Overlapping(v, h, other);
    var m1 := Machine(Initial, map[0 := a]);
    var m2 := Machine(Initial, map[0 := a, 1 := b]);
    var m3 := Machine(Voted(c.vs, Record(Initial, a), a, c.vs.validators[v].stake), map[1 := b]);
    assert Run(c, Idle, xs[0]) == m1 && Run(c, m1, xs[1]) == m2 && Run(c, m2, xs[2]) == m3;
    assert xs[..4] == xs && xs[..3][..2] == xs[..2] && xs[..2][..1] == xs[..1] && xs[..1][..0] == [];
    assert RunAll(c, xs[..1]) == m1;
    assert RunAll(c, xs[..2]) == m2;
    assert RunAll(c, xs[..3]) == m3;
  }
}
