/**
 Dependency graphs over an arbitrary type of ids, and the depth-first topological sort.
 */
module DependencyGraph {

  type Graph<!Id> = map<Id, seq<Id>>

  /** Declared dependencies; an id that is only named as a dependency has none. */
  function Deps<Id>(g: Graph<Id>, id: Id): seq<Id> {
    if id in g then g[id] else []
  }

  /** Every registered id and every id named as a dependency. */
  ghost function Universe<Id>(g: Graph<Id>): set<Id> {
    g.Keys + set id, i | id in g && 0 <= i < |g[id]| :: g[id][i]
  }

  ghost predicate IsWalk<Id>(g: Graph<Id>, w: seq<Id>) {
    w != [] && forall i :: 0 <= i < |w| - 1 ==> w[i + 1] in Deps(g, w[i])
  }

  /** b can be reached from a along zero or more dependency edges. */
  ghost predicate Reaches<Id(!new)>(g: Graph<Id>, a: Id, b: Id) {
    exists w :: IsWalk(g, w) && w[0] == a && w[|w| - 1] == b
  }

  ghost predicate Acyclic<Id(!new)>(g: Graph<Id>) {
    forall a, d :: d in Deps(g, a) ==> !Reaches(g, d, a)
  }

  ghost predicate NoDuplicates<Id>(s: seq<Id>) {
    forall i, j :: 0 <= i < j < |s| ==> s[i] != s[j]
  }

  /** A dependency stands before its dependent unless it reaches that dependent itself. */
  ghost predicate Ordered<Id(!new)>(g: Graph<Id>, order: seq<Id>) {
    forall j, d :: 0 <= j < |order| && d in Deps(g, order[j]) ==>
      d in order[..j] || Reaches(g, d, order[j])
  }

  ghost predicate Topological<Id>(g: Graph<Id>, order: seq<Id>) {
    forall j, d :: 0 <= j < |order| && d in Deps(g, order[j]) ==> d in order[..j]
  }

  /** What the sort promises for any graph. */
  ghost predicate IsInitOrder<Id(!new)>(g: Graph<Id>, order: seq<Id>) {
    && NoDuplicates(order)
    && (forall id :: id in order <==> id in Universe(g))
    && Ordered(g, order)
  }

  // ----- walks -----

  lemma ReachesSelf<Id(!new)>(g: Graph<Id>, a: Id)
    ensures Reaches(g, a, a)
  {
    assert IsWalk(g, [a]);
  }

  lemma ReachesStep<Id(!new)>(g: Graph<Id>, a: Id, b: Id, d: Id)
    requires Reaches(g, a, b) && d in Deps(g, b)
    ensures Reaches(g, a, d)
  {
    var w :| IsWalk(g, w) && w[0] == a && w[|w| - 1] == b;
    assert IsWalk(g, w + [d]);
  }

  lemma {:induction false} WalkGoesBack<Id(!new)>(g: Graph<Id>, order: seq<Id>, w: seq<Id>, j: nat)
    requires NoDuplicates(order) && Topological(g, order)
    requires IsWalk(g, w) && j < |order| && order[j] == w[0]
    ensures w[|w| - 1] in order[..j + 1]
    decreases |w|
  {
    if |w| > 1 {
      var i :| 0 <= i < j && order[i] == w[1];
      assert IsWalk(g, w[1..]) by {
        forall k | 0 <= k < |w[1..]| - 1
          ensures w[1..][k + 1] in Deps(g, w[1..][k])
        {
          assert w[k + 2] in Deps(g, w[k + 1]);
        }
      }
      WalkGoesBack(g, order, w[1..], i);
      assert order[..i + 1] <= order[..j + 1];
    }
  }

  /** The sort yields a topological order exactly for the acyclic graphs. */
  lemma TopologicalIffAcyclic<Id(!new)>(g: Graph<Id>, order: seq<Id>)
    requires IsInitOrder(g, order)
    ensures Topological(g, order) <==> Acyclic(g)
  {
    if Topological(g, order) {
      forall a, d | d in Deps(g, a)
        ensures !Reaches(g, d, a)
      {
        assert a in g && a in order;
        var j :| 0 <= j < |order| && order[j] == a;
        var i :| 0 <= i < j && order[i] == d;
        if Reaches(g, d, a) {
          var w :| IsWalk(g, w) && w[0] == d && w[|w| - 1] == a;
          WalkGoesBack(g, order, w, i);
        }
      }
    }
  }

  // ----- depth-first visit -----

  ghost predicate DfsState<Id(!new)>(g: Graph<Id>, visited: set<Id>, order: seq<Id>) {
    && NoDuplicates(order)
    && (forall id :: id in order ==> id in visited)
    && visited <= Universe(g)
    && Ordered(g, order)
    && (forall id, d :: id in order && d in Deps(g, id) ==> d in visited)
  }

  /** The nodes on the recursion stack: visited and not yet emitted. */
  ghost predicate OnStack<Id>(visited: set<Id>, order: seq<Id>, id: Id) {
    id in visited && id !in order
  }

  method Visit<Id(==, !new)>(g: Graph<Id>, id: Id, visited0: set<Id>, order0: seq<Id>)
    returns (visited: set<Id>, order: seq<Id>)
    requires DfsState(g, visited0, order0) && id in Universe(g)
    requires forall a :: OnStack(visited0, order0, a) ==> Reaches(g, a, id)
    ensures DfsState(g, visited, order) && id in visited
    ensures visited0 <= visited && order0 <= order
    ensures forall a :: OnStack(visited, order, a) <==> OnStack(visited0, order0, a)
    decreases |Universe(g) - visited0|
  {
    visited, order := visited0, order0;
    if id in visited {
      return;
    }
    visited := visited + {id};
    ReachesSelf(g, id);
    if id in g {
      var deps := g[id];
      for k := 0 to |deps|
        invariant DfsState(g, visited, order)
        invariant visited0 + {id} <= visited && order0 <= order
        invariant forall a :: OnStack(visited, order, a) <==> OnStack(visited0, order0, a) || a == id
        invariant forall i :: 0 <= i < k ==> deps[i] in visited
      {
        forall a | OnStack(visited, order, a)
          ensures Reaches(g, a, deps[k])
        {
          ReachesStep(g, a, id, deps[k]);
        }
        FewerLeft(Universe(g), visited0, visited, id);
        visited, order := Visit(g, deps[k], visited, order);
      }
    }
    Emit(g, visited, order, id);
    order := order + [id];
  }

  lemma FewerLeft<T>(u: set<T>, small: set<T>, big: set<T>, x: T)
    requires small <= big && x in u && x !in small && x in big
    ensures |u - big| < |u - small|
  {
    assert u - small == (u - big) + ((u - small) - (u - big));
  }

  /** Emitting the top of the stack once its dependencies are visited keeps the state. */
  lemma Emit<Id(!new)>(g: Graph<Id>, visited: set<Id>, order: seq<Id>, id: Id)
    requires DfsState(g, visited, order) && OnStack(visited, order, id)
    requires forall d :: d in Deps(g, id) ==> d in visited
    requires forall a :: OnStack(visited, order, a) ==> Reaches(g, a, id)
    ensures DfsState(g, visited, order + [id])
    ensures forall a :: OnStack(visited, order + [id], a) <==> OnStack(visited, order, a) && a != id
  {
    var after := order + [id];
    forall j, d | 0 <= j < |after| && d in Deps(g, after[j])
      ensures d in after[..j] || Reaches(g, d, after[j])
    {
      if j < |order| {
        assert after[j] == order[j] && after[..j] == order[..j];
      } else {
        assert after[..j] == order;
        assert d in order || OnStack(visited, order, d);
      }
    }
  }

  /** Visits the registered ids in an arbitrary order. */
  method ComputeInitOrder<Id(==, !new)>(g: Graph<Id>) returns (order: seq<Id>)
    ensures IsInitOrder(g, order)
  {
    var visited: set<Id> := {};
    order := [];
    var remaining := g.Keys;
    while remaining != {}
      invariant DfsState(g, visited, order) && remaining <= g.Keys
      invariant forall a :: !OnStack(visited, order, a)
      invariant forall id :: id in g && id !in remaining ==> id in visited
      decreases remaining
    {
      var id :| id in remaining;
      remaining := remaining - {id};
      visited, order := Visit(g, id, visited, order);
    }
    forall id | id in Universe(g)
      ensures id in order
    {
      assert !OnStack(visited, order, id);
      if id !in g {
        var k, i :| k in g && 0 <= i < |g[k]| && g[k][i] == id;
        assert !OnStack(visited, order, k);
        assert id in Deps(g, k);
      }
    }
  }
}
