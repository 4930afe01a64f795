/**
 Assembly of blocks from three independent events.

 The buffer is a class updated in place. The adapter around it takes the lock once to add a
 component and once more to take a complete assembly, so its handlers interleave; a run of the
 adapter is any sequence of those atomic steps. The claims hold whatever is purged or expired in
 between; RunAdapter connects the steps with the buffer and with what it does purge and expire.
 */
module BlockAssembly {
  import opened Bytes
  import opened Options

  /** validated carries the height of the validated block. */
  datatype Assembly = Assembly(startedAt: nat, validated: Option<nat>, merkle: Option<Hash>, state: Option<Hash>)
  {
    predicate IsComplete() {
      validated.Some? && merkle.Some? && state.Some?
    }

    predicate IsExpired(now: nat, timeout: nat) {
      now > startedAt && now - startedAt > timeout
    }
  }

  type Pending = map<Hash, Assembly>

  function Entry(p: Pending, h: Hash, now: nat): Assembly {
    if h in p then p[h] else Assembly(now, None, None, None)
  }

  function AddValidated(p: Pending, h: Hash, height: nat, now: nat): Pending {
    p[h := Entry(p, h, now).(validated := Some(height))]
  }

  function AddMerkle(p: Pending, h: Hash, root: Hash, now: nat): Pending {
    p[h := Entry(p, h, now).(merkle := Some(root))]
  }

  function AddState(p: Pending, h: Hash, root: Hash, now: nat): Pending {
    p[h := Entry(p, h, now).(state := Some(root))]
  }

  /** Only h is touched, and it keeps the time at which its assembly was started. */
  ghost predicate Touches(before: Pending, after: Pending, h: Hash, now: nat) {
    && after.Keys == before.Keys + {h}
    && (forall x :: x in before && x != h ==> after[x] == before[x])
    && after[h].startedAt == if h in before then before[h].startedAt else now
  }

  class AssemblyBuffer {
    const timeout: nat
    const maxPending: nat
    var pending: Pending

    constructor (timeout: nat, maxPending: nat)
      ensures pending == map[] && this.timeout == timeout && this.maxPending == maxPending
    {
      this.timeout, this.maxPending, pending := timeout, maxPending, map[];
    }

    method AddBlockValidated(h: Hash, height: nat, now: nat)
      modifies this
      ensures Touches(old(pending), pending, h, now)
      ensures pending[h].validated == Some(height)
      ensures pending[h].merkle == Entry(old(pending), h, now).merkle
      ensures pending[h].state == Entry(old(pending), h, now).state
    {
      var assembly := if h in pending then pending[h] else Assembly(now, None, None, None);
      pending := pending[h := assembly.(validated := Some(height))];
    }

    method AddMerkleRoot(h: Hash, root: Hash, now: nat)
      modifies this
      ensures Touches(old(pending), pending, h, now)
      ensures pending[h].merkle == Some(root)
      ensures pending[h].validated == Entry(old(pending), h, now).validated
      ensures pending[h].state == Entry(old(pending), h, now).state
    {
      var assembly := if h in pending then pending[h] else Assembly(now, None, None, None);
      pending := pending[h := assembly.(merkle := Some(root))];
    }

    method AddStateRoot(h: Hash, root: Hash, now: nat)
      modifies this
      ensures Touches(old(pending), pending, h, now)
      ensures pending[h].state == Some(root)
      ensures pending[h].validated == Entry(old(pending), h, now).validated
      ensures pending[h].merkle == Entry(old(pending), h, now).merkle
    {
      var assembly := if h in pending then pending[h] else Assembly(now, None, None, None);
      pending := pending[h := assembly.(state := Some(root))];
    }

    method TakeComplete(h: Hash) returns (r: Option<Assembly>)
      modifies this
      ensures r == if h in old(pending) && old(pending)[h].IsComplete() then Some(old(pending)[h]) else None
      ensures r.Some? <==> h in old(pending) && var a := old(pending)[h];
                                                a.validated.Some? && a.merkle.Some? && a.state.Some?
      ensures pending == if r.Some? then old(pending) - {h} else old(pending)
    {
      if h in pending && pending[h].IsComplete() {
        r := Some(pending[h]);
        pending := pending - {h};
      } else {
        r := None;
      }
    }

    /** Removes exactly the assemblies older than the timeout. */
    method GcExpired(now: nat) returns (expired: set<Hash>)
      modifies this
      ensures expired == set h | h in old(pending) && old(pending)[h].startedAt + timeout < now
      ensures pending == old(pending) - expired
    {
      expired := set h | h in pending && pending[h].IsExpired(now, timeout);
      var todo := expired;
      ghost var start := pending;
      while todo != {}
        invariant todo <= expired && pending == start - (expired - todo)
        decreases todo
      {
        var h :| h in todo;
        todo := todo - {h};
        pending := pending - {h};
        assert expired - todo == (expired - (todo + {h})) + {h};
      }
      assert expired - {} == expired;
    }

    /** Purges the oldest assemblies until the limit holds, and none if it holds already. */
    method EnforceMaxPending() returns (purged: set<Hash>)
      modifies this
      ensures IsPurge(old(pending), purged, maxPending) && pending == old(pending) - purged
    {
      purged := {};
      ghost var start := pending;
      NothingPurged(start, maxPending);
      hide OldestGone;
      while |pending| > maxPending
        invariant OldestGone(start, purged) && pending == start - purged
        invariant if |start| <= maxPending then pending == start else |pending| >= maxPending
        decreases |pending|
      {
        assert pending.Keys != {};
        ghost var x :| x in pending;
        OldestExists(pending, x);
        var h :| h in pending && IsOldest(pending, h);
        PurgeOldest(start, purged, h);
        purged := purged + {h};
        pending := pending - {h};
      }
    }
  }

  /** Nothing that is left is older than anything that is gone. */
  ghost predicate OldestGone(p: Pending, purged: set<Hash>) {
    purged <= p.Keys && forall a, b :: a in purged && b in p && b !in purged ==> p[a].startedAt <= p[b].startedAt
  }

  lemma NothingPurged(p: Pending, max: nat)
    ensures OldestGone(p, {}) && p - {} == p
  {
  }

  lemma PurgeOldest(p: Pending, purged: set<Hash>, h: Hash)
    requires OldestGone(p, purged) && IsOldest(p - purged, h)
    ensures OldestGone(p, purged + {h})
    ensures p - (purged + {h}) == (p - purged) - {h} && |p - (purged + {h})| == |p - purged| - 1
  {
    var left := p - purged;
    RemoveOne(left, h);
    assert forall b :: b in p && b !in purged ==> b in left && left[b] == p[b];
  }

  /** The oldest assemblies, as many as exceed the limit. */
  ghost predicate IsPurge(p: Pending, purged: set<Hash>, max: nat) {
    OldestGone(p, purged) && |p - purged| == if |p| <= max then |p| else max
  }

  lemma RemoveOne(p: Pending, h: Hash)
    requires h in p
    ensures |p - {h}| == |p| - 1
  {
    assert (p - {h}).Keys == p.Keys - {h};
  }

  predicate IsOldest(p: Pending, h: Hash) {
    h in p && forall b :: b in p ==> p[h].startedAt <= p[b].startedAt
  }

  lemma {:induction false} OldestExists(p: Pending, x: Hash)
    requires x in p
    ensures exists h :: IsOldest(p, h)
    decreases p[x].startedAt
  {
    if b :| b in p && p[b].startedAt < p[x].startedAt {
      OldestExists(p, b);
    } else {
      assert IsOldest(p, x);
    }
  }

  // ----- runs of the adapter -----

  /** Events on the bus, in the order in which the adapter receives or publishes them. */
  datatype Event =
    | BlockValidated(h: Hash, height: nat)
    | MerkleRootComputed(h: Hash, root: Hash)
    | StateRootComputed(h: Hash, root: Hash)
    | BlockStored(h: Hash, height: nat, merkle: Hash, state: Hash)

  /** An atomic step: a locked section of a handler. Purging and expiry may drop any assemblies. */
  datatype Step =
    | Validated(h: Hash, height: nat, now: nat, purged: set<Hash>)
    | Merkle(h: Hash, root: Hash, now: nat)
    | State(h: Hash, root: Hash, now: nat)
    | TryComplete(h: Hash, publishOk: bool)
    | Expire(expired: set<Hash>)

  datatype Run = Run(pending: Pending, trace: seq<Event>)

  function Apply(r: Run, s: Step): Run {
    match s
    case Validated(h, height, now, purged) =>
      Run(AddValidated(r.pending - purged, h, height, now), r.trace + [BlockValidated(h, height)])
    case Merkle(h, root, now) => Run(AddMerkle(r.pending, h, root, now), r.trace + [MerkleRootComputed(h, root)])
    case State(h, root, now) => Run(AddState(r.pending, h, root, now), r.trace + [StateRootComputed(h, root)])
    case TryComplete(h, publishOk) =>
      if h in r.pending && r.pending[h].IsComplete() then
        var a := r.pending[h];
        Run(r.pending - {h},
            if publishOk then r.trace + [BlockStored(h, a.validated.value, a.merkle.value, a.state.value)] else r.trace)
      else r
    case Expire(expired) => Run(r.pending - expired, r.trace)
  }

  ghost function Exec(steps: seq<Step>): Run {
    if steps == [] then Run(map[], []) else Apply(Exec(steps[..|steps| - 1]), steps[|steps| - 1])
  }

  // ----- safety -----

  /** Every component held was delivered. */
  ghost predicate Supported(r: Run) {
    forall h :: h in r.pending ==>
      && (r.pending[h].validated.Some? ==> BlockValidated(h, r.pending[h].validated.value) in r.trace)
      && (r.pending[h].merkle.Some? ==> MerkleRootComputed(h, r.pending[h].merkle.value) in r.trace)
      && (r.pending[h].state.Some? ==> StateRootComputed(h, r.pending[h].state.value) in r.trace)
  }

  ghost predicate Caused(trace: seq<Event>, i: nat)
    requires i < |trace|
  {
    match trace[i]
    case BlockStored(h, height, m, s) =>
      && BlockValidated(h, height) in trace[..i]
      && MerkleRootComputed(h, m) in trace[..i]
      && StateRootComputed(h, s) in trace[..i]
    case _ => true
  }

  /** A stored event is published only after the three events it reports were received. */
  lemma {:induction false} StoredIsCaused(steps: seq<Step>)
    ensures Supported(Exec(steps))
    ensures forall i :: 0 <= i < |Exec(steps).trace| ==> Caused(Exec(steps).trace, i)
  {
    if steps != [] {
      var prev, s := Exec(steps[..|steps| - 1]), steps[|steps| - 1];
      StoredIsCaused(steps[..|steps| - 1]);
      var next := Apply(prev, s);
      assert prev.trace <= next.trace;
      forall i | 0 <= i < |next.trace|
        ensures Caused(next.trace, i)
      {
        if i < |prev.trace| {
          assert Caused(prev.trace, i);
          assert next.trace[..i] == prev.trace[..i];
        } else {
          assert next.trace[..i] == prev.trace;
        }
      }
    }
  }

  datatype Kind = KValidated | KMerkle | KState | KStored

  function KindOf(e: Event): Kind {
    match e
    case BlockValidated(_, _) => KValidated
    case MerkleRootComputed(_, _) => KMerkle
    case StateRootComputed(_, _) => KState
    case BlockStored(_, _, _, _) => KStored
  }

  function Count(trace: seq<Event>, k: Kind, h: Hash): nat {
    if trace == [] then 0 else
      var last := trace[|trace| - 1];
      Count(trace[..|trace| - 1], k, h) + if KindOf(last) == k && last.h == h then 1 else 0
  }

  lemma CountSnoc(trace: seq<Event>, e: Event, k: Kind, h: Hash)
    ensures Count(trace + [e], k, h) == Count(trace, k, h) + if KindOf(e) == k && e.h == h then 1 else 0
  {
    assert (trace + [e])[..|trace|] == trace;
  }

  function Held(p: Pending, k: Kind, h: Hash): nat {
    if h !in p then 0 else
      match k
      case KValidated => if p[h].validated.Some? then 1 else 0
      case KMerkle => if p[h].merkle.Some? then 1 else 0
      case KState => if p[h].state.Some? then 1 else 0
      case KStored => 0
  }

  /** A step appends at most one event. */
  lemma StepCounts(r: Run, s: Step, k: Kind, h: Hash)
    ensures var t, t' := r.trace, Apply(r, s).trace;
            && (t' != t ==> t' == t + [t'[|t|]])
            && Count(t', k, h) == Count(t, k, h)
                 + if t' != t && KindOf(t'[|t|]) == k && t'[|t|].h == h then 1 else 0
  {
    var t, t' := r.trace, Apply(r, s).trace;
    if t' != t {
      var e := t'[|t|];
      assert t' == t + [e];
      CountSnoc(t, e, k, h);
    }
  }

  /** Each publication uses up one delivery of every kind: what is published and what is still held never
      exceeds what came in. */
  lemma {:induction false} StoredIsPaidFor(steps: seq<Step>, h: Hash, k: Kind)
    requires k != KStored
    ensures var r := Exec(steps);
            Count(r.trace, KStored, h) + Held(r.pending, k, h) <= Count(r.trace, k, h)
  {
    if steps != [] {
      var prev, s := Exec(steps[..|steps| - 1]), steps[|steps| - 1];
      StoredIsPaidFor(steps[..|steps| - 1], h, k);
      StepCounts(prev, s, KStored, h);
      StepCounts(prev, s, k, h);
      hide Count;
      StepHeld(prev, s, h, k);
    }
  }

  /** How a step changes what is held of h: a delivery adds it, publishing or dropping h removes it. */
  lemma StepHeld(r: Run, s: Step, h: Hash, k: Kind)
    requires k != KStored
    ensures var next, n := Apply(r, s), |r.trace|;
            var delivers := next.trace != r.trace && KindOf(next.trace[n]) == k && next.trace[n].h == h;
            var stores := next.trace != r.trace && KindOf(next.trace[n]) == KStored && next.trace[n].h == h;
            && (stores ==> Held(r.pending, k, h) == 1 && Held(next.pending, k, h) == 0)
            && (delivers ==> Held(next.pending, k, h) == 1)
            && (!delivers ==> Held(next.pending, k, h) <= Held(r.pending, k, h))
            && (!delivers && !stores && Undisturbed(s, h) ==> Held(next.pending, k, h) == Held(r.pending, k, h))
  {
    match s
    case Validated(x, height, now, purged) =>
    case Merkle(x, root, now) =>
    case State(x, root, now) =>
    case TryComplete(x, publishOk) =>
    case Expire(expired) =>
  }

  // ----- exactly once -----

  /** A step that drops nothing of h and does not fail to publish it. */
  predicate Undisturbed(s: Step, h: Hash) {
    match s
    case Validated(_, _, _, purged) => h !in purged
    case TryComplete(x, publishOk) => x == h ==> publishOk
    case Expire(expired) => h !in expired
    case _ => true
  }

  /** Until it is published, an undisturbed block holds every component delivered for it. */
  lemma {:induction false} HoldsUntilStored(steps: seq<Step>, h: Hash, k: Kind)
    requires k != KStored && forall i :: 0 <= i < |steps| ==> Undisturbed(steps[i], h)
    ensures var r := Exec(steps);
            Count(r.trace, KStored, h) == 0 && Count(r.trace, k, h) > 0 ==> Held(r.pending, k, h) == 1
  {
    if steps != [] {
      var prev, s := Exec(steps[..|steps| - 1]), steps[|steps| - 1];
      HoldsUntilStored(steps[..|steps| - 1], h, k);
      assert Undisturbed(s, h);
      StepCounts(prev, s, KStored, h);
      StepCounts(prev, s, k, h);
      hide Count;
      StepHeld(prev, s, h, k);
    }
  }

  /** If each of the three events is delivered once and nothing disturbs the block, then after the
      handler that comes last has tried to complete it, it has been published exactly once. */
  lemma StoredExactlyOnce(steps: seq<Step>, h: Hash)
    requires forall i :: 0 <= i < |steps| ==> Undisturbed(steps[i], h)
    requires var t := Exec(steps).trace;
             Count(t, KValidated, h) == Count(t, KMerkle, h) == Count(t, KState, h) == 1
    ensures Count(Exec(steps + [TryComplete(h, true)]).trace, KStored, h) == 1
  {
    var r, last := Exec(steps), TryComplete(h, true);
    assert (steps + [last])[..|steps|] == steps;
    StoredIsPaidFor(steps, h, KMerkle);
    HoldsUntilStored(steps, h, KValidated);
    HoldsUntilStored(steps, h, KMerkle);
    HoldsUntilStored(steps, h, KState);
    var next := Apply(r, last);
    if Count(r.trace, KStored, h) == 0 {
      var e := next.trace[|r.trace|];
      CountSnoc(r.trace, e, KStored, h);
    } else {
      StoredIsPaidFor(steps, h, KValidated);
      StoredIsPaidFor(steps, h, KState);
    }
  }

  // ----- the size of the buffer -----

  /** Validated steps purge down to the limit first, as the handler does. */
  ghost predicate Enforced(steps: seq<Step>, max: nat) {
    steps != [] ==>
      var n := |steps| - 1;
      && Enforced(steps[..n], max)
      && (steps[n].Validated? ==> |Exec(steps[..n]).pending - steps[n].purged| <= max)
  }

  /** Root deliveries since the last BlockValidated. */
  function TrailingRoots(steps: seq<Step>): nat {
    if steps == [] then 0 else
      var n := |steps| - 1;
      if steps[n].Validated? then 0
      else TrailingRoots(steps[..n]) + if steps[n].Merkle? || steps[n].State? then 1 else 0
  }

  lemma AddOne(p: Pending, h: Hash, a: Assembly)
    ensures |p[h := a]| <= |p| + 1
  {
    assert p[h := a].Keys == p.Keys + {h};
  }

  lemma RemoveSome(p: Pending, hs: set<Hash>)
    ensures |p - hs| <= |p|
  {
    assert (p - hs).Keys <= p.Keys;
    assert p.Keys == (p - hs).Keys + (p.Keys - (p - hs).Keys);
  }

  lemma StepSize(r: Run, s: Step)
    ensures var after := |Apply(r, s).pending|;
            && (s.Validated? ==> after <= |r.pending - s.purged| + 1)
            && (!s.Validated? ==> after <= |r.pending| + if s.Merkle? || s.State? then 1 else 0)
  {
    var p := r.pending;
    match s
    case Validated(h, height, now, purged) =>
      AddOne(p - purged, h, Entry(p - purged, h, now).(validated := Some(height)));
    case Merkle(h, root, now) =>
      AddOne(p, h, Entry(p, h, now).(merkle := Some(root)));
    case State(h, root, now) =>
      AddOne(p, h, Entry(p, h, now).(state := Some(root)));
    case TryComplete(h, _) =>
      RemoveSome(p, {h});
    case Expire(expired) =>
      RemoveSome(p, expired);
  }

  /** The limit is enforced on BlockValidated only, so roots delivered since then come on top of it. */
  lemma {:induction false} PendingBound(steps: seq<Step>, max: nat)
    requires Enforced(steps, max)
    ensures |Exec(steps).pending| <= max + 1 + TrailingRoots(steps)
  {
    if steps != [] {
      hide Apply;
      var n := |steps| - 1;
      var before := steps[..n];
      PendingBound(before, max);
      StepSize(Exec(before), steps[n]);
    }
  }

  /** The hash that spells a number. */
  function Name(i: nat): Hash {
    ToBigEndian(i, 32)
  }

  /** An enforced run that holds `size` assemblies of smaller names than `names`, `roots` of them added since
      the last block. */
  ghost predicate Filled(steps: seq<Step>, max: nat, names: nat, size: nat, roots: nat) {
    && (forall h :: h in Exec(steps).pending ==> FromBigEndian(h) < names)
    && |Exec(steps).pending| == size && TrailingRoots(steps) == roots && Enforced(steps, max)
  }

  lemma AddedKey(p: Pending, h: Hash, a: Assembly)
    requires h !in p
    ensures p[h := a].Keys == p.Keys + {h} && |p[h := a]| == |p| + 1
  {
    assert p[h := a].Keys == p.Keys + {h};
  }

  /** A step for a hash that is not held yet adds one assembly. */
  lemma NewHash(r: Run, s: Step)
    requires s.Merkle? || (s.Validated? && s.purged == {})
    requires s.h !in r.pending
    ensures Apply(r, s).pending.Keys == r.pending.Keys + {s.h}
    ensures |Apply(r, s).pending| == |r.pending| + 1
  {
    var p := r.pending;
    assert p - {} == p;
    match s
    case Validated(h, height, now, _) => AddedKey(p, h, Entry(p, h, now).(validated := Some(height)));
    case Merkle(h, root, now) => AddedKey(p, h, Entry(p, h, now).(merkle := Some(root)));
  }

  lemma FillOne(steps: seq<Step>, s: Step, max: nat, names: nat, size: nat, roots: nat)
    requires Filled(steps, max, names, size, roots) && names < Power256(32)
    requires (s.Merkle? || (s.Validated? && s.purged == {} && size <= max)) && s.h == Name(names)
    ensures Filled(steps + [s], max, names + 1, size + 1, if s.Merkle? then roots + 1 else 0)
  {
    hide Apply, ToBigEndian, FromBigEndian, Power256;
    BigEndianRoundTrip(names, 32);
    var after := steps + [s];
    assert after[..|steps|] == steps;
    assert Exec(steps).pending - {} == Exec(steps).pending;
    NewHash(Exec(steps), s);
  }

  lemma {:induction false} FillMore(steps: seq<Step>, max: nat, names: nat, size: nat, roots: nat, n: nat)
    returns (after: seq<Step>)
    requires Filled(steps, max, names, size, roots) && names + n <= Power256(32)
    ensures Filled(after, max, names + n, size + n, roots + n)
  {
    hide Filled, Name, Power256;
    if n == 0 {
      after := steps;
    } else {
      after := FillMore(steps, max, names, size, roots, n - 1);
      var s := Merkle(Name(names + n - 1), Name(0), 0);
      FillOne(after, s, max, names + n - 1, size + n - 1, roots + n - 1);
      after := after + [s];
    }
  }

  lemma NothingFilled(max: nat)
    ensures Filled([], max, 0, 0, 0)
  {
  }

  /** And that bound is attained, for every limit and every number of roots: the limit is enforced before
      the block is added, and roots are not limited at all. Only the number of hashes limits both. */
  lemma PendingBoundAttained(max: nat, roots: nat) returns (steps: seq<Step>)
    requires max + 1 + roots <= Power256(32)
    ensures Enforced(steps, max) && TrailingRoots(steps) == roots
    ensures |Exec(steps).pending| == max + 1 + roots
  {
    hide Exec, Enforced, TrailingRoots, Name, Power256;
    NothingFilled(max);
    steps := FillMore([], max, 0, 0, 0, max);
    var block := Validated(Name(max), 0, 0, {});
    FillOne(steps, block, max, max, max, max);
    steps := FillMore(steps + [block], max, max + 1, max + 1, 0, roots);
  }

  // ----- the buffer implements the steps -----

  /** What reaches the adapter: the three events, an attempt to complete a block, a collection. */
  datatype Input =
    | OnBlockValidated(h: Hash, height: nat, now: nat)
    | OnMerkleRoot(h: Hash, root: Hash, now: nat)
    | OnStateRoot(h: Hash, root: Hash, now: nat)
    | OnTryComplete(h: Hash, publishOk: bool)
    | OnCollect(now: nat)

  /** The step an input takes: BlockValidated purges the oldest above the limit first, a collection expires
      exactly what is older than the timeout. */
  ghost predicate Takes(timeout: nat, max: nat, p: Pending, input: Input, s: Step) {
    match input
    case OnBlockValidated(h, height, now) =>
      s.Validated? && s == Validated(h, height, now, s.purged) && IsPurge(p, s.purged, max)
    case OnMerkleRoot(h, root, now) => s == Merkle(h, root, now)
    case OnStateRoot(h, root, now) => s == State(h, root, now)
    case OnTryComplete(h, publishOk) => s == TryComplete(h, publishOk)
    case OnCollect(now) => s.Expire? && s.expired == set h | h in p && p[h].startedAt + timeout < now
  }

  ghost predicate AllTaken(timeout: nat, max: nat, inputs: seq<Input>, steps: seq<Step>)
    requires |steps| <= |inputs|
  {
    steps != [] ==>
      var n := |steps| - 1;
      && AllTaken(timeout, max, inputs, steps[..n])
      && Takes(timeout, max, Exec(steps[..n]).pending, inputs[n], steps[n])
  }

  lemma TakeNext(timeout: nat, max: nat, inputs: seq<Input>, steps: seq<Step>, s: Step)
    requires |steps| < |inputs| && AllTaken(timeout, max, inputs, steps) && Enforced(steps, max)
    requires Takes(timeout, max, Exec(steps).pending, inputs[|steps|], s)
    ensures AllTaken(timeout, max, inputs, steps + [s]) && Enforced(steps + [s], max)
    ensures Exec(steps + [s]) == Apply(Exec(steps), s)
  {
    hide Apply;
    assert (steps + [s])[..|steps|] == steps;
  }

  lemma TouchedIsUpdate(before: Pending, after: Pending, h: Hash, now: nat)
    requires Touches(before, after, h, now)
    ensures h in after && after == before[h := after[h]] && after[h].startedAt == Entry(before, h, now).startedAt
  {
  }

  /** Handling one input on the buffer is one step; `events` is what it adds to the trace. */
  method Handle(buffer: AssemblyBuffer, input: Input, ghost r: Run) returns (events: seq<Event>, ghost s: Step)
    requires buffer.pending == r.pending
    modifies buffer
    ensures Takes(buffer.timeout, buffer.maxPending, r.pending, input, s)
    ensures Apply(r, s) == Run(buffer.pending, r.trace + events)
  {
    hide Touches, IsPurge, Entry;
    events := [];
    match input
    case OnBlockValidated(h, height, now) =>
      var purged := buffer.EnforceMaxPending();
      ghost var kept := buffer.pending;
      buffer.AddBlockValidated(h, height, now);
      TouchedIsUpdate(kept, buffer.pending, h, now);
      s := Validated(h, height, now, purged);
      events := [BlockValidated(h, height)];
    case OnMerkleRoot(h, root, now) =>
      buffer.AddMerkleRoot(h, root, now);
      TouchedIsUpdate(r.pending, buffer.pending, h, now);
      s := Merkle(h, root, now);
      events := [MerkleRootComputed(h, root)];
    case OnStateRoot(h, root, now) =>
      buffer.AddStateRoot(h, root, now);
      TouchedIsUpdate(r.pending, buffer.pending, h, now);
      s := State(h, root, now);
      events := [StateRootComputed(h, root)];
    case OnTryComplete(h, publishOk) =>
      var done := buffer.TakeComplete(h);
      s := TryComplete(h, publishOk);
      if done.Some? && publishOk {
        events := [BlockStored(h, done.value.validated.value, done.value.merkle.value, done.value.state.value)];
      }
    case OnCollect(now) =>
      var expired := buffer.GcExpired(now);
      s := Expire(expired);
  }

  /** So the adapter's runs on the buffer are runs of the steps, with the enforcement that PendingBound
      asks for: everything proved of Exec holds of them. */
  method RunAdapter(timeout: nat, max: nat, inputs: seq<Input>)
    returns (buffer: AssemblyBuffer, trace: seq<Event>, ghost steps: seq<Step>)
    ensures fresh(buffer) && |steps| == |inputs| && AllTaken(timeout, max, inputs, steps)
    ensures Exec(steps) == Run(buffer.pending, trace) && Enforced(steps, max)
  {
    hide Takes, Apply;
    buffer := new AssemblyBuffer(timeout, max);
    trace, steps := [], [];
    for i := 0 to |inputs|
      invariant fresh(buffer) && buffer.timeout == timeout && buffer.maxPending == max
      invariant |steps| == i && AllTaken(timeout, max, inputs, steps) && Enforced(steps, max)
      invariant Exec(steps) == Run(buffer.pending, trace)
    {
      var events;
      ghost var s;
      events, s := Handle(buffer, inputs[i], Exec(steps));
      TakeNext(timeout, max, inputs, steps, s);
      trace, steps := trace + events, steps + [s];
    }
  }
}
