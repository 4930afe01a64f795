/**
 The subsystem registry: registration, and the start and stop walks over the computed order.
 The outcome of a subsystem's own start or stop is a parameter.
 */
module SubsystemRegistry {
  import opened DependencyGraph

  datatype Status = Healthy | Degraded | Stopped | Error | Starting | ShuttingDown | Disabled

  datatype Entry<Id> = Entry(status: Status, deps: seq<Id>)

  datatype ErrorKind = MissingDependency | StartFailed

  datatype Outcome = Ok | Err(kind: ErrorKind)

  type Entries<!Id> = map<Id, Entry<Id>>

  function GraphOf<Id>(subs: Entries<Id>): Graph<Id> {
    map id | id in subs :: subs[id].deps
  }

  function SetStatus<Id>(subs: Entries<Id>, id: Id, s: Status): Entries<Id>
    requires id in subs
  {
    subs[id := subs[id].(status := s)]
  }

  /** A dependency blocks a start only if it is required and not registered and healthy. */
  predicate DependencyOk<Id(==)>(subs: Entries<Id>, required: seq<Id>, dep: Id) {
    dep in required ==> dep in subs && subs[dep].status == Healthy
  }

  // ----- what the start walk computes -----

  ghost function StartOne<Id>(subs: Entries<Id>, required: seq<Id>, id: Id, startOk: Id -> bool): (Entries<Id>,
                              Outcome) {
    if id !in subs then (subs, Ok)
    else if exists d :: d in subs[id].deps && !DependencyOk(subs, required, d) then (subs, Err(MissingDependency))
    else if startOk(id) then (SetStatus(subs, id, Healthy), Ok)
    else (SetStatus(subs, id, Error), if id in required then Err(StartFailed) else Ok)
  }

  /** The first n ids of the order, stopping at the first error. */
  ghost function StartRun<Id>(subs: Entries<Id>, required: seq<Id>, order: seq<Id>, startOk: Id -> bool,
                              n: nat): (Entries<Id>, Outcome)
    requires n <= |order|
  {
    if n == 0 then (subs, Ok) else
      var (s, r) := StartRun(subs, required, order, startOk, n - 1);
      if r.Err? then (s, r) else StartOne(s, required, order[n - 1], startOk)
  }

  predicate Running(s: Status) {
    s == Healthy || s == Degraded
  }

  function AfterStop(s: Status, ok: bool): Status {
    if !Running(s) then s else if ok then Stopped else Error
  }

  function StoppedEntries<Id>(subs: Entries<Id>, stopOk: Id -> bool, ids: set<Id>): Entries<Id> {
    map id | id in subs :: if id in ids then subs[id].(status := AfterStop(subs[id].status, stopOk(id))) else subs[id]
  }

  class Registry<Id(==, !new)> {
    var subsystems: Entries<Id>
    const required: seq<Id>
    var initOrder: seq<Id>

    ghost predicate Valid()
      reads this
    {
      IsInitOrder(GraphOf(subsystems), initOrder)
    }

    constructor (required: seq<Id>)
      ensures Valid() && subsystems == map[] && initOrder == [] && this.required == required
    {
      this.required := required;
      subsystems, initOrder := map[], [];
    }

    /** Registration replaces an entry of the same id and recomputes the whole order. */
    method Register(id: Id, deps: seq<Id>)
      modifies this
      ensures Valid()
      ensures subsystems == old(subsystems)[id := Entry(Stopped, deps)]
    {
      subsystems := subsystems[id := Entry(Stopped, deps)];
      initOrder := ComputeInitOrder(GraphOf(subsystems));
    }

    method ValidateRequired() returns (r: Outcome)
      ensures r == if forall x :: x in required ==> x in subsystems then Ok else Err(MissingDependency)
    {
      var missing: seq<Id> := [];
      for i := 0 to |required|
        invariant missing == [] <==> forall k :: 0 <= k < i ==> required[k] in subsystems
      {
        if required[i] !in subsystems {
          missing := missing + [required[i]];
        }
      }
      r := if missing != [] then Err(MissingDependency) else Ok;
    }

    method CheckDependencies(deps: seq<Id>) returns (r: Outcome)
      ensures r == if exists d :: d in deps && !DependencyOk(subsystems, required, d)
                   then Err(MissingDependency) else Ok
    {
      for i := 0 to |deps|
        invariant forall k :: 0 <= k < i ==> DependencyOk(subsystems, required, deps[k])
      {
        var dep := deps[i];
        assert dep in deps;
        if dep !in subsystems {
          if dep in required {
            return Err(MissingDependency);
          }
        } else if subsystems[dep].status != Healthy && dep in required {
          return Err(MissingDependency);
        }
      }
      r := Ok;
    }

    method StartSubsystem(id: Id, startOk: Id -> bool) returns (r: Outcome)
      modifies this`subsystems
      ensures (subsystems, r) == StartOne(old(subsystems), required, id, startOk)
    {
      if id !in subsystems {
        return Ok;
      }
      r := CheckDependencies(subsystems[id].deps);
      if r.Err? {
        return;
      }
      subsystems := SetStatus(subsystems, id, Starting);
      if !startOk(id) {
        subsystems := SetStatus(subsystems, id, Error);
        assert subsystems == SetStatus(old(subsystems), id, Error);
        return if id in required then Err(StartFailed) else Ok;
      }
      subsystems := SetStatus(subsystems, id, Healthy);
      assert subsystems == SetStatus(old(subsystems), id, Healthy);
      return Ok;
    }

    method StartAll(startOk: Id -> bool) returns (r: Outcome)
      requires Valid()
      modifies this`subsystems
      ensures Valid()
      ensures (exists x :: x in required && x !in old(subsystems))
              ==> r == Err(MissingDependency) && subsystems == old(subsystems)
      ensures (forall x :: x in required ==> x in old(subsystems))
              ==> (subsystems, r) == StartRun(old(subsystems), required, initOrder, startOk, |initOrder|)
      ensures r.Ok? ==> forall id :: id in subsystems ==>
                subsystems[id].status == (if startOk(id) then Healthy else Error)
                && (id in required ==> subsystems[id].status == Healthy)
      ensures r.Ok? <==> && (forall x :: x in required ==> x in old(subsystems) && startOk(x))
                         && NothingBlocks(old(subsystems), required, initOrder)
      ensures Acyclic(GraphOf(subsystems))
              ==> (r.Ok? <==> forall x :: x in required ==> x in subsystems && startOk(x))
    {
      r := ValidateRequired();
      if r.Err? {
        return;
      }
      hide Acyclic, IsInitOrder, StartOne, NothingBlocks;
      ghost var before := subsystems;
      for i := 0 to |initOrder|
        invariant r.Ok? && (subsystems, Ok) == StartRun(before, required, initOrder, startOk, i)
      {
        r := StartSubsystem(initOrder[i], startOk);
        if r.Err? {
          StartStays(before, required, initOrder, startOk, i + 1, |initOrder|);
          break;
        }
      }
      StartOutcome(before, required, initOrder, startOk);
    }

    /** Stops what is running, in reverse order; `calls` lists the subsystems whose stop was called. */
    method StopAll(stopOk: Id -> bool) returns (calls: seq<Id>)
      requires Valid()
      modifies this`subsystems
      ensures Valid()
      ensures subsystems == StoppedEntries(old(subsystems), stopOk, old(subsystems).Keys)
      ensures subsystems.Keys == old(subsystems).Keys
      ensures forall id :: id in subsystems ==>
                && subsystems[id].deps == old(subsystems)[id].deps
                && subsystems[id].status == if old(subsystems)[id].status !in {Healthy, Degraded}
                                            then old(subsystems)[id].status
                                            else if stopOk(id) then Stopped else Error
      ensures calls == StopCalls(old(subsystems), initOrder) && NoDuplicates(calls)
      ensures forall id :: id in calls
                           <==> id in old(subsystems) && old(subsystems)[id].status in {Healthy, Degraded}
    {
      calls := [];
      var i := |initOrder|;
      ghost var before := subsystems;
      assert initOrder[..i] == initOrder;
      StopNone(before, stopOk, initOrder);
      hide StoppedEntries, StopCalls, IsInitOrder, GraphOf, Visited;
      while i > 0
        invariant 0 <= i <= |initOrder|
        invariant subsystems == StoppedEntries(before, stopOk, Visited(initOrder, i))
        invariant StopCalls(before, initOrder) == calls + StopCalls(before, initOrder[..i])
      {
        i := i - 1;
        var id := initOrder[i];
        StopStep(before, stopOk, initOrder, i);
        ghost var rest := StopCalls(before, initOrder[..i]);
        var called := StopSubsystem(id, stopOk);
        if called {
          assert calls + ([id] + rest) == (calls + [id]) + rest;
          calls := calls + [id];
        } else {
          assert [] + rest == rest;
        }
      }
      assert initOrder[..0] == [];
      assert calls + [] == calls;
      StopEnd(before, stopOk, initOrder);
      StopMembers(before, initOrder);
    }

    method StopSubsystem(id: Id, stopOk: Id -> bool) returns (called: bool)
      modifies this`subsystems
      ensures called <==> id in old(subsystems) && old(subsystems)[id].status in {Healthy, Degraded}
      ensures subsystems == StoppedEntries(old(subsystems), stopOk, {id})
    {
      if id !in subsystems || !Running(subsystems[id].status) {
        return false;
      }
      subsystems := SetStatus(subsystems, id, ShuttingDown);
      subsystems := SetStatus(subsystems, id, if stopOk(id) then Stopped else Error);
      return true;
    }
  }

  lemma EveryEntryOrdered<Id(!new)>(subs: Entries<Id>, order: seq<Id>)
    requires IsInitOrder(GraphOf(subs), order)
    ensures forall id :: id in subs ==> id in order
  {
    assert forall id :: id in subs ==> id in GraphOf(subs);
  }

  // ----- start -----

  lemma {:induction false} StartStays<Id>(subs: Entries<Id>, required: seq<Id>, order: seq<Id>, startOk: Id -> bool,
                                          n: nat, m: nat)
    requires n <= m <= |order| && StartRun(subs, required, order, startOk, n).1.Err?
    ensures StartRun(subs, required, order, startOk, m) == StartRun(subs, required, order, startOk, n)
  {
    if n < m {
      StartStays(subs, required, order, startOk, n, m - 1);
    }
  }

  /** Starting changes statuses only, and only of ids in the walked prefix. */
  lemma {:induction false} StartFrame<Id>(subs: Entries<Id>, required: seq<Id>, order: seq<Id>, startOk: Id -> bool,
                                          n: nat)
    requires n <= |order|
    ensures var s := StartRun(subs, required, order, startOk, n).0;
            s.Keys == subs.Keys && GraphOf(s) == GraphOf(subs)
            && forall id :: id in subs && id !in order[..n] ==> s[id] == subs[id]
  {
    if n > 0 {
      StartFrame(subs, required, order, startOk, n - 1);
      assert order[..n] == order[..n - 1] + [order[n - 1]];
    }
  }

  /** While no error occurs every walked entry is Healthy or Error, as its own start decided. */
  lemma {:induction false} StartedStatuses<Id>(subs: Entries<Id>, required: seq<Id>, order: seq<Id>,
                                               startOk: Id -> bool, n: nat)
    requires n <= |order| && StartRun(subs, required, order, startOk, n).1.Ok?
    ensures var s := StartRun(subs, required, order, startOk, n).0;
            forall id :: id in s && id in order[..n] ==>
              s[id].status == (if startOk(id) then Healthy else Error) && (id in required ==> startOk(id))
  {
    if n > 0 {
      StartedStatuses(subs, required, order, startOk, n - 1);
      StartFrame(subs, required, order, startOk, n - 1);
      assert order[..n] == order[..n - 1] + [order[n - 1]];
    }
  }

  /** Every required dependency of the id at position j stands before it or is Healthy to begin with. */
  ghost predicate Unblocked<Id>(subs: Entries<Id>, required: seq<Id>, order: seq<Id>, j: nat)
    requires j < |order|
  {
    order[j] in subs ==>
      forall d | d in subs[order[j]].deps && d in required ::
        d in subs && (d in order[..j] || subs[d].status == Healthy)
  }

  ghost predicate NothingBlocks<Id>(subs: Entries<Id>, required: seq<Id>, order: seq<Id>) {
    forall j :: 0 <= j < |order| ==> Unblocked(subs, required, order, j)
  }

  /** The dependency check passes at position j exactly if nothing blocks there, the walk having come so far. */
  lemma CheckPasses<Id>(subs: Entries<Id>, required: seq<Id>, order: seq<Id>, startOk: Id -> bool, j: nat)
    requires j < |order| && StartRun(subs, required, order, startOk, j).1.Ok?
    requires NoDuplicates(order)
    ensures var s := StartRun(subs, required, order, startOk, j).0;
            order[j] in s ==>
              ((forall d :: d in s[order[j]].deps ==> DependencyOk(s, required, d))
               <==> Unblocked(subs, required, order, j))
  {
    StartFrame(subs, required, order, startOk, j);
    StartedStatuses(subs, required, order, startOk, j);
    hide StartRun;
  }

  /** The walk gets through n positions exactly if nothing blocks and no required start fails among them. */
  lemma {:induction false} StartProceeds<Id>(subs: Entries<Id>, required: seq<Id>, order: seq<Id>,
                                             startOk: Id -> bool, n: nat)
    requires n <= |order| && NoDuplicates(order)
    ensures StartRun(subs, required, order, startOk, n).1.Ok?
       <==> forall j :: 0 <= j < n ==> && Unblocked(subs, required, order, j)
                                       && (order[j] in subs && order[j] in required ==> startOk(order[j]))
  {
    if n > 0 {
      StartProceeds(subs, required, order, startOk, n - 1);
      StartFrame(subs, required, order, startOk, n - 1);
      if StartRun(subs, required, order, startOk, n - 1).1.Ok? {
        CheckPasses(subs, required, order, startOk, n - 1);
        hide Unblocked, DependencyOk;
      }
    }
  }

  lemma TopologicalUnblocked<Id>(subs: Entries<Id>, required: seq<Id>, order: seq<Id>)
    requires Topological(GraphOf(subs), order) && forall x :: x in required ==> x in subs
    ensures NothingBlocks(subs, required, order)
  {
    forall j, d | 0 <= j < |order| && order[j] in subs && d in subs[order[j]].deps && d in required
      ensures d in order[..j]
    {
      assert d in Deps(GraphOf(subs), order[j]);
    }
  }

  /** The walk succeeds exactly if nothing blocks and every required start succeeds; on an acyclic graph
      nothing blocks. */
  lemma StartIff<Id(!new)>(subs: Entries<Id>, required: seq<Id>, order: seq<Id>, startOk: Id -> bool)
    requires IsInitOrder(GraphOf(subs), order) && forall x :: x in required ==> x in subs
    ensures StartRun(subs, required, order, startOk, |order|).1.Ok?
       <==> (forall x :: x in required ==> startOk(x)) && NothingBlocks(subs, required, order)
    ensures Acyclic(GraphOf(subs)) ==> NothingBlocks(subs, required, order)
  {
    StartProceeds(subs, required, order, startOk, |order|);
    EveryEntryOrdered(subs, order);
    TopologicalIffAcyclic(GraphOf(subs), order);
    if Topological(GraphOf(subs), order) {
      TopologicalUnblocked(subs, required, order);
    }
    hide StartRun, Acyclic, Ordered, Topological, Unblocked;
  }

  lemma StartOutcome<Id(!new)>(subs: Entries<Id>, required: seq<Id>, order: seq<Id>, startOk: Id -> bool)
    requires IsInitOrder(GraphOf(subs), order) && forall x :: x in required ==> x in subs
    ensures var (s, r) := StartRun(subs, required, order, startOk, |order|);
            && s.Keys == subs.Keys && GraphOf(s) == GraphOf(subs)
            && (r.Ok? ==> forall id :: id in s ==>
                  && s[id].status == (if startOk(id) then Healthy else Error)
                  && (id in required ==> s[id].status == Healthy))
            && (r.Ok? <==> (forall x :: x in required ==> startOk(x)) && NothingBlocks(subs, required, order))
            && (Acyclic(GraphOf(subs)) ==> NothingBlocks(subs, required, order))
  {
    var n := |order|;
    StartFrame(subs, required, order, startOk, n);
    StartIff(subs, required, order, startOk);
    if StartRun(subs, required, order, startOk, n).1.Ok? {
      StartedStatuses(subs, required, order, startOk, n);
      assert order[..n] == order;
      assert forall id :: id in subs ==> id in GraphOf(subs) && id in order;
    }
  }

  /** How far a walk that fails has come: position j is blocked, or is required and does not start. */
  ghost predicate FailsAt<Id>(subs: Entries<Id>, required: seq<Id>, order: seq<Id>, startOk: Id -> bool, j: nat) {
    && j < |order| && order[j] in subs
    && (!Unblocked(subs, required, order, j) || (order[j] in required && !startOk(order[j])))
  }

  /** A walk that fails names the reason, leaves what comes later alone, leaves a blocked subsystem alone and marks
      one that failed to start. */
  lemma {:induction false} StartFailure<Id>(subs: Entries<Id>, required: seq<Id>, order: seq<Id>, startOk: Id -> bool,
                                            n: nat) returns (j: nat)
    requires n <= |order| && NoDuplicates(order) && StartRun(subs, required, order, startOk, n).1.Err?
    ensures j < n && FailsAt(subs, required, order, startOk, j)
    ensures forall i :: 0 <= i < j ==> !FailsAt(subs, required, order, startOk, i)
    ensures var (s, r) := StartRun(subs, required, order, startOk, n);
            var blocked := !Unblocked(subs, required, order, j);
            && r == Err(if blocked then MissingDependency else StartFailed)
            && s.Keys == subs.Keys
            && forall id :: id in subs ==>
                 && s[id].deps == subs[id].deps
                 && s[id].status == if id in order[..j] then (if startOk(id) then Healthy else Error)
                                    else if id == order[j] && !blocked then Error else subs[id].status
  {
    if StartRun(subs, required, order, startOk, n - 1).1.Err? {
      j := StartFailure(subs, required, order, startOk, n - 1);
    } else {
      j := n - 1;
      StartProceeds(subs, required, order, startOk, j);
      StartedStatuses(subs, required, order, startOk, j);
      StartFrame(subs, required, order, startOk, j);
      CheckPasses(subs, required, order, startOk, j);
      var before := StartRun(subs, required, order, startOk, j).0;
      assert forall id :: id in subs ==> before[id].deps == GraphOf(before)[id] == subs[id].deps;
      assert order[j] !in order[..j];
      hide Unblocked, DependencyOk, GraphOf;
    }
  }

  // ----- stop -----

  /** The ids at positions i and later, which the reverse walk has passed. */
  ghost function Visited<Id>(order: seq<Id>, i: nat): set<Id> {
    set k | i <= k < |order| :: order[k]
  }

  lemma StopNone<Id>(subs: Entries<Id>, stopOk: Id -> bool, order: seq<Id>)
    ensures subs == StoppedEntries(subs, stopOk, Visited(order, |order|))
    ensures StopCalls(subs, order) == [] + StopCalls(subs, order)
    ensures StopCalls(subs, []) == []
  {
  }

  lemma StopStep<Id(!new)>(subs: Entries<Id>, stopOk: Id -> bool, order: seq<Id>, i: nat)
    requires IsInitOrder(GraphOf(subs), order) && i < |order|
    ensures var id, s := order[i], StoppedEntries(subs, stopOk, Visited(order, i + 1));
            && StoppedEntries(s, stopOk, {id}) == StoppedEntries(subs, stopOk, Visited(order, i))
            && (id in s <==> id in subs) && (id in s ==> s[id] == subs[id])
            && StopCalls(subs, order[..i + 1])
               == (if id in subs && subs[id].status in {Healthy, Degraded} then [id] else [])
                  + StopCalls(subs, order[..i])
  {
    assert order[..i + 1][..i] == order[..i];
    assert order[i] !in Visited(order, i + 1);
    assert Visited(order, i) == Visited(order, i + 1) + {order[i]};
  }

  lemma StopEnd<Id(!new)>(subs: Entries<Id>, stopOk: Id -> bool, order: seq<Id>)
    requires IsInitOrder(GraphOf(subs), order)
    ensures var s := StoppedEntries(subs, stopOk, Visited(order, 0));
            && s == StoppedEntries(subs, stopOk, subs.Keys)
            && s.Keys == subs.Keys && GraphOf(s) == GraphOf(subs)
            && forall id :: id in s ==>
                 && s[id].deps == subs[id].deps
                 && s[id].status == if subs[id].status !in {Healthy, Degraded} then subs[id].status
                                    else if stopOk(id) then Stopped else Error
    ensures NoDuplicates(order) && forall id :: id in subs ==> id in order
  {
    EveryEntryOrdered(subs, order);
  }

  ghost function StopCalls<Id>(subs: Entries<Id>, order: seq<Id>): seq<Id> {
    if order == [] then [] else
      var n := |order| - 1;
      (if order[n] in subs && Running(subs[order[n]].status) then [order[n]] else []) + StopCalls(subs, order[..n])
  }

  lemma {:induction false} StopMembers<Id>(subs: Entries<Id>, order: seq<Id>)
    requires NoDuplicates(order)
    ensures NoDuplicates(StopCalls(subs, order))
    ensures forall id :: id in StopCalls(subs, order)
                         <==> id in order && id in subs && subs[id].status in {Healthy, Degraded}
    decreases |order|
  {
    if order != [] {
      var n := |order| - 1;
      StopMembers(subs, order[..n]);
      assert order == order[..n] + [order[n]];
    }
  }

  /** Exactly the running subsystems are stopped, each once, and never a dependency before its dependent. */
  lemma {:induction false} StopOrder<Id(!new)>(g: Graph<Id>, subs: Entries<Id>, order: seq<Id>, i: nat, j: nat)
    requires NoDuplicates(order) && Ordered(g, order)
    requires i < j < |StopCalls(subs, order)|
    ensures var calls := StopCalls(subs, order);
            calls[i] in Deps(g, calls[j]) ==> Reaches(g, calls[i], calls[j])
    decreases |order|
  {
    hide Reaches;
    var n := |order| - 1;
    var last, rest := order[n], order[..n];
    var calls, tail := StopCalls(subs, order), StopCalls(subs, rest);
    assert Ordered(g, rest) by {
      forall j, d | 0 <= j < |rest| && d in Deps(g, rest[j])
        ensures d in rest[..j] || Reaches(g, d, rest[j])
      {
        assert rest[j] == order[j] && rest[..j] == order[..j];
      }
    }
    if last in subs && Running(subs[last].status) {
      assert calls == [last] + tail;
      if i == 0 {
        StopMembers(subs, rest);
        assert calls[j] == tail[j - 1] && calls[j] in rest;
        var k :| 0 <= k < n && order[k] == calls[j];
        assert last !in order[..k];
      } else {
        StopOrder(g, subs, rest, i - 1, j - 1);
      }
    } else {
      assert calls == tail;
      StopOrder(g, subs, rest, i, j);
    }
  }
}
