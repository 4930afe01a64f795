/**
 How far the 64-entry history reaches: with 65 admitted votes per validator no epoch counts more than
 the total stake, and with 66 one can.
 */
module FinalityEviction {
  import opened Bytes
  import opened Options
  import opened FinalityModel
  import opened FinalityRun

  /** The votes of v in a run, admitted or not. */
  function VotesOf(steps: seq<Step>, v: ValidatorId): nat {
    if steps == [] then 0 else
      var n := |steps| - 1;
      VotesOf(steps[..n], v) + if steps[n].Vote? && steps[n].a.validator == v then 1 else 0
  }

  /** What a caller can count beforehand bounds the log. */
  lemma {:induction false} LogWithinVotes(c: Config, steps: seq<Step>, v: ValidatorId)
    ensures |Log(c, steps, v)| <= VotesOf(steps, v) <= |steps|
  {
    if steps != [] {
      LogWithinVotes(c, steps[..|steps| - 1], v);
    }
  }

  /** The k-th vote of a validator that attests one epoch after the other. */
  function ChainVote(v: ValidatorId, h: Hash, k: nat): Attestation {
    Attestation(v, CheckpointId(k, h), CheckpointId(k + 1, h), 0)
  }

  /** A second target for the first epoch. */
  function SecondVote(v: ValidatorId, other: Hash): Attestation {
    Attestation(v, CheckpointId(0, other), CheckpointId(1, other), 0)
  }

  ghost function Chain(v: ValidatorId, h: Hash, n: nat): (r: seq<Attestation>)
    ensures |r| == n
  {
    if n == 0 then [] else Chain(v, h, n - 1) + [ChainVote(v, h, n - 1)]
  }

  ghost function ChainSteps(v: ValidatorId, h: Hash, n: nat): (r: seq<Step>)
    ensures |r| == n
  {
    if n == 0 then [] else ChainSteps(v, h, n - 1) + [Vote(ChainVote(v, h, n - 1), true)]
  }

  lemma {:induction false} ChainAt(v: ValidatorId, h: Hash, n: nat, k: nat)
    requires k < n
    ensures Chain(v, h, n)[k] == ChainVote(v, h, k)
  {
    if k < n - 1 {
      ChainAt(v, h, n - 1, k);
    }
  }

  ghost predicate NoConflictIn(a: Attestation, h: seq<Attestation>) {
    forall i :: 0 <= i < |h| ==> !Slashable(a, h[i])
  }

  lemma NewTargetAccepted(c: Config, s: State, a: Attestation)
    requires a.validator in c.vs.validators && a.target !in s.attestations
    requires NoConflictIn(a, HistoryOf(s.history, a.validator))
    ensures Accepted(c, s, a, true)
    ensures Attest(c, s, a, true).attestations.Keys == s.attestations.Keys + {a.target}
  {
    hide Slashable, Counted, NewlyJustified, Recorded;
    assert FirstConflict(HistoryOf(s.history, a.validator), a).None?;
  }

  /** A vote for a target nobody voted for, in conflict with none of the last 64, is accepted. */
  lemma NextVote(c: Config, steps: seq<Step>, a: Attestation)
    requires WellFormed(c.vs) && a.validator in c.vs.validators
    requires a.target !in Exec(c, steps).attestations
    requires NoConflictIn(a, Tail(Log(c, steps, a.validator)))
    ensures var after := steps + [Vote(a, true)];
            && Log(c, after, a.validator) == Log(c, steps, a.validator) + [a]
            && Exec(c, after).attestations.Keys == Exec(c, steps).attestations.Keys + {a.target}
            && forall e :: EpochStake(c.vs, Exec(c, after).attestations, e)
                        == EpochStake(c.vs, Exec(c, steps).attestations, e) + VoteStake(c.vs, a, e)
  {
    hide Exec, NoConflictIn, Tail, WellFormed, Accounted, EpochStake, Attest, FirstConflict;
    var s, after := Exec(c, steps), steps + [Vote(a, true)];
    HistoryIsTail(c, steps, a.validator);
    AccountsBalance(c, steps);
    ExecSnoc(c, steps, Vote(a, true));
    assert after[..|steps|] == steps;
    NewTargetAccepted(c, s, a);
    forall e
      ensures EpochStake(c.vs, Exec(c, after).attestations, e)
           == EpochStake(c.vs, s.attestations, e) + VoteStake(c.vs, a, e)
    {
      AttestGains(c, s, a, true, e);
    }
  }

  lemma Apart(v: ValidatorId, h: Hash, other: Hash, n: nat, k: nat)
    requires k < n
    ensures !Slashable(ChainVote(v, h, n), ChainVote(v, h, k))
    ensures k > 0 ==> !Slashable(SecondVote(v, other), ChainVote(v, h, k))
  {
  }

  lemma TailAt(v: ValidatorId, h: Hash, n: nat, i: nat)
    requires i < |Tail(Chain(v, h, n))|
    ensures |Tail(Chain(v, h, n))| <= MAX_HISTORY && |Tail(Chain(v, h, n))| <= n
    ensures Tail(Chain(v, h, n))[i] == ChainVote(v, h, n - |Tail(Chain(v, h, n))| + i)
  {
    ChainAt(v, h, n, n - |Tail(Chain(v, h, n))| + i);
    hide Chain;
  }

  /** The next vote in the row, and a second target after 65 of them or more, conflict with nothing in the tail. */
  lemma ChainClean(v: ValidatorId, h: Hash, other: Hash, n: nat)
    ensures NoConflictIn(ChainVote(v, h, n), Tail(Chain(v, h, n)))
    ensures n > MAX_HISTORY ==> NoConflictIn(SecondVote(v, other), Tail(Chain(v, h, n)))
  {
    hide Chain, Tail, Slashable;
    var tail := Tail(Chain(v, h, n));
    forall i | 0 <= i < |tail|
      ensures !Slashable(ChainVote(v, h, n), tail[i])
      ensures n > MAX_HISTORY ==> !Slashable(SecondVote(v, other), tail[i])
    {
      TailAt(v, h, n, i);
      Apart(v, h, other, n, n - |tail| + i);
    }
  }

  lemma EmptyRun(c: Config, v: ValidatorId)
    ensures Log(c, [], v) == [] && Exec(c, []) == Initial && EpochStake(c.vs, Initial.attestations, 1) == 0
  {
    NoTargetsNoStake(c.vs, map[], 1);
  }

  lemma {:induction false} ChainRun(c: Config, v: ValidatorId, h: Hash, n: nat)
    requires WellFormed(c.vs) && v in c.vs.validators
    ensures Log(c, ChainSteps(v, h, n), v) == Chain(v, h, n)
    ensures forall id :: id in Exec(c, ChainSteps(v, h, n)).attestations ==> id.blockHash == h && id.epoch <= n
    ensures EpochStake(c.vs, Exec(c, ChainSteps(v, h, n)).attestations, 1)
         == if n > 0 then c.vs.validators[v].stake else 0
  {
    hide Exec, Log, WellFormed, EpochStake, Tail, NoConflictIn;
    if n == 0 {
      EmptyRun(c, v);
    } else {
      ChainRun(c, v, h, n - 1);
      ChainClean(v, h, h, n - 1);
      hide Chain;
      NextVote(c, ChainSteps(v, h, n - 1), ChainVote(v, h, n - 1));
    }
  }

  /** After 65 votes in a row the first is forgotten: a second target for its epoch is counted as well. */
  lemma SixtySixVotes(c: Config, v: ValidatorId, h: Hash, other: Hash) returns (steps: seq<Step>)
    requires WellFormed(c.vs) && v in c.vs.validators && h != other
    ensures steps == ChainSteps(v, h, 65) + [Vote(SecondVote(v, other), true)] && LogsWithin(c, steps, 66)
    ensures EpochStake(c.vs, Exec(c, steps).attestations, 1) == 2 * c.vs.validators[v].stake
  {
    hide Exec, Log, WellFormed, EpochStake, Tail, NoConflictIn, Chain, ChainSteps;
    var n, a := MAX_HISTORY + 1, SecondVote(v, other);
    ChainRun(c, v, h, n);
    ChainClean(v, h, other, n);
    NextVote(c, ChainSteps(v, h, n), a);
    steps := ChainSteps(v, h, n) + [Vote(a, true)];
    forall w | w in c.vs.validators
      ensures |Log(c, steps, w)| <= 66
    {
      LogWithinVotes(c, steps, w);
    }
  }

  /** No run with at most n admitted votes per validator counts more than the total stake in an epoch. */
  ghost predicate SafeUpTo(n: nat) {
    forall c: Config, steps, e | WellFormed(c.vs) && LogsWithin(c, steps, n) ::
      EpochStake(c.vs, Exec(c, steps).attestations, e) <= TotalStake(c.vs)
  }

  /** The bound is exact. */
  lemma SixtyFiveIsExact(n: nat)
    ensures SafeUpTo(n) <==> n <= MAX_HISTORY + 1
  {
    if n <= MAX_HISTORY + 1 {
      forall c: Config, steps, e | WellFormed(c.vs) && LogsWithin(c, steps, n)
        ensures EpochStake(c.vs, Exec(c, steps).attestations, e) <= TotalStake(c.vs)
      {
        AttestedWithinTotal(c, steps, e);
      }
    } else {
      var zeros, ones: Hash := seq(32, _ => 0), seq(32, _ => 1);
      assert zeros[0] != ones[0];
      var vs := AddValidator(EmptyValidatorSet, zeros, 1);
      EmptyWellFormed();
      AddValidatorKeeps(EmptyValidatorSet, zeros, 1);
      AddedStake(EmptyValidatorSet, zeros, 1);
      var c := Config(vs, true, 128, 4);
      hide EpochStake, TotalStake, Exec, WellFormed;
      var steps := SixtySixVotes(c, zeros, zeros, ones);
      assert LogsWithin(c, steps, n);
      assert EpochStake(c.vs, Exec(c, steps).attestations, 1) > TotalStake(c.vs);
    }
  }
}
