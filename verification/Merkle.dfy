/**
 Merkle commitments to vectors of field elements.

 The hash is a parameter about which nothing is assumed: completeness holds for every hash, and
 binding is stated as the extraction of a collision.
 */
module Merkle {
  import opened Options
  import opened Goldilocks
  import opened GoldilocksCertificate

  datatype Hasher<!D(==)> = Hasher(pair: (D, D) -> D, leaf: Fe -> D, zero: D)

  datatype Commitment<D> = Commitment(root: D, leaves: seq<D>, height: nat)

  datatype Proof<D> = Proof(leaf: D, index: nat, siblings: seq<D>)

  // ----- one layer -----

  function Pad<D>(h: Hasher<D>, layer: seq<D>): (r: seq<D>)
    ensures |r| % 2 == 0 && layer <= r && |r| <= |layer| + 1
  {
    if |layer| % 2 == 1 then layer + [h.zero] else layer
  }

  function Parents<D>(h: Hasher<D>, layer: seq<D>): (r: seq<D>)
    ensures |r| == (|layer| + 1) / 2
  {
    var full := Pad(h, layer);
    seq(|full| / 2, i requires 0 <= i < |full| / 2 => h.pair(full[2 * i], full[2 * i + 1]))
  }

  function Sibling(i: nat): nat {
    if i % 2 == 0 then i + 1 else i - 1
  }

  // ----- the whole tree -----

  ghost function Root<D>(h: Hasher<D>, layer: seq<D>): D
    requires layer != []
    decreases |layer|
  {
    if |layer| == 1 then layer[0] else Root(h, Parents(h, layer))
  }

  ghost function Path<D>(h: Hasher<D>, layer: seq<D>, index: nat): seq<D>
    requires index < |layer|
    decreases |layer|
  {
    if |layer| == 1 then [] else
      [Pad(h, layer)[Sibling(index)]] + Path(h, Parents(h, layer), index / 2)
  }

  /** The inputs of the hash above a node, in left-to-right order. */
  function Inputs<D>(node: D, index: nat, sibling: D): (D, D) {
    if index % 2 == 0 then (node, sibling) else (sibling, node)
  }

  function Climb<D>(h: Hasher<D>, node: D, index: nat, siblings: seq<D>): D {
    if siblings == [] then node else
      var (l, r) := Inputs(node, index, siblings[0]);
      Climb(h, h.pair(l, r), index / 2, siblings[1..])
  }

  /** ceil(log2(n)): the k with 2^(k-1) < n <= 2^k. */
  ghost predicate IsCeilLog2(n: nat, k: nat) {
    n <= PowerOfTwo(k) && (k > 0 ==> PowerOfTwo(k - 1) < n)
  }

  function CeilLog2(n: nat): (k: nat)
    requires n > 0
    ensures IsCeilLog2(n, k)
  {
    if n == 1 then 0 else 1 + CeilLog2((n + 1) / 2)
  }

  /** The hashed values. */
  ghost function Leaves<D>(h: Hasher<D>, values: seq<Fe>): (r: seq<D>)
    ensures |r| == |values|
  {
    seq(|values|, i requires 0 <= i < |values| => h.leaf(values[i]))
  }

  /** The root of the commitment to a vector. */
  ghost function RootOf<D>(h: Hasher<D>, values: seq<Fe>): D {
    if values == [] then h.zero else Root(h, Leaves(h, values))
  }

  // ----- operations -----

  method HashChunks<D>(h: Hasher<D>, layer: seq<D>) returns (next: seq<D>)
    requires |layer| % 2 == 0
    ensures next == Parents(h, layer)
  {
    next := [];
    for i := 0 to |layer| / 2
      invariant next == Parents(h, layer)[..i]
    {
      next := next + [h.pair(layer[2 * i], layer[2 * i + 1])];
    }
  }

  method BuildTree<D>(h: Hasher<D>, leaves: seq<D>) returns (root: D)
    ensures root == if leaves == [] then h.zero else Root(h, leaves)
  {
    if |leaves| == 0 {
      return h.zero;
    }
    if |leaves| == 1 {
      return leaves[0];
    }
    var layer := leaves;
    while |layer| > 1
      invariant |layer| > 0 && Root(h, layer) == Root(h, leaves)
      decreases |layer|
    {
      PadOnce(h, layer);
      if |layer| % 2 == 1 {
        layer := layer + [h.zero];
      }
      layer := HashChunks(h, layer);
    }
    return layer[0];
  }

  lemma PathStep<D>(h: Hasher<D>, layer: seq<D>, index: nat, done: seq<D>)
    requires index < |layer| && |layer| > 1
    ensures Sibling(index) < |Pad(h, layer)|
    ensures done + Path(h, layer, index)
         == (done + [Pad(h, layer)[Sibling(index)]]) + Path(h, Parents(h, layer), index / 2)
  {
    hide Parents, Pad;
    var x, rest := Pad(h, layer)[Sibling(index)], Path(h, Parents(h, layer), index / 2);
    assert Path(h, layer, index) == [x] + rest;
    assert done + ([x] + rest) == (done + [x]) + rest;
  }

  lemma PathEnd<D>(h: Hasher<D>, layer: seq<D>)
    requires |layer| == 1
    ensures Path(h, layer, 0) == []
  {
  }

  lemma PadOnce<D>(h: Hasher<D>, layer: seq<D>)
    ensures Parents(h, Pad(h, layer)) == Parents(h, layer)
  {
  }

  method Commit<D>(h: Hasher<D>, values: seq<Fe>) returns (c: Commitment<D>)
    ensures c.leaves == Leaves(h, values)
    ensures c.root == if values == [] then h.zero else Root(h, c.leaves)
    ensures c.root == RootOf(h, values)
    ensures if values == [] then c.height == 0 else IsCeilLog2(|values|, c.height)
  {
    if values == [] {
      return Commitment(h.zero, [], 0);
    }
    var leaves := seq(|values|, i requires 0 <= i < |values| => h.leaf(values[i]));
    var height := CeilLog2(|leaves|);
    var root := BuildTree(h, leaves);
    return Commitment(root, leaves, height);
  }

  method Open<D>(h: Hasher<D>, c: Commitment<D>, index: nat) returns (proof: Option<Proof<D>>)
    ensures proof == if index < |c.leaves|
                     then Some(Proof(c.leaves[index], index, Path(h, c.leaves, index)))
                     else None
    // the last of an odd number of leaves is opened beside the zero digest
    ensures index + 1 == |c.leaves| > 1 && |c.leaves| % 2 == 1 ==>
              proof.value.siblings != [] && proof.value.siblings[0] == h.zero
  {
    if index + 1 == |c.leaves| > 1 && |c.leaves| % 2 == 1 {
      OddLayerEndsInZero(h, c.leaves);
    }
    hide Path, Parents;
    if index >= |c.leaves| {
      return None;
    }
    var siblings: seq<D>, current: nat, layer := [], index, c.leaves;
    while |layer| > 1
      invariant current < |layer|
      invariant siblings + Path(h, layer, current) == Path(h, c.leaves, index)
      decreases |layer|
    {
      PathStep(h, layer, current, siblings);
      PadOnce(h, layer);
      if |layer| % 2 == 1 {
        layer := layer + [h.zero];
      }
      var siblingIdx := if current % 2 == 0 then current + 1 else current - 1;
      if siblingIdx < |layer| {
        siblings := siblings + [layer[siblingIdx]];
      }
      layer := HashChunks(h, layer);
      current := current / 2;
    }
    PathEnd(h, layer);
    assert siblings + [] == siblings;
    return Some(Proof(c.leaves[index], index, siblings));
  }

  method Verify<D(==)>(h: Hasher<D>, proof: Proof<D>, root: D) returns (ok: bool)
    ensures ok <==> Climb(h, proof.leaf, proof.index, proof.siblings) == root
  {
    var current, idx := proof.leaf, proof.index;
    for i := 0 to |proof.siblings|
      invariant Climb(h, current, idx, proof.siblings[i..])
             == Climb(h, proof.leaf, proof.index, proof.siblings)
    {
      var sibling := proof.siblings[i];
      assert proof.siblings[i..][1..] == proof.siblings[i + 1..];
      current := if idx % 2 == 0 then h.pair(current, sibling) else h.pair(sibling, current);
      idx := idx / 2;
    }
    return current == root;
  }

  // ----- completeness -----

  lemma {:induction false} PathClimbsToRoot<D>(h: Hasher<D>, layer: seq<D>, index: nat)
    requires index < |layer|
    ensures Climb(h, layer[index], index, Path(h, layer, index)) == Root(h, layer)
    ensures IsCeilLog2(|layer|, |Path(h, layer, index)|)
    decreases |layer|
  {
    if |layer| > 1 {
      var parents := Parents(h, layer);
      PathClimbsToRoot(h, parents, index / 2);
      ParentHash(h, layer, index);
      assert Path(h, layer, index)[1..] == Path(h, parents, index / 2);
      CeilLog2Halves(|layer|, |Path(h, parents, index / 2)|);
    }
  }

  lemma ParentHash<D>(h: Hasher<D>, layer: seq<D>, index: nat)
    requires index < |layer|
    ensures var (l, r) := Inputs(layer[index], index, Pad(h, layer)[Sibling(index)]);
            Parents(h, layer)[index / 2] == h.pair(l, r)
  {
    var full, i := Pad(h, layer), index / 2;
    assert index == 2 * i || index == 2 * i + 1;
  }

  lemma CeilLog2Halves(n: nat, k: nat)
    requires n > 1 && IsCeilLog2((n + 1) / 2, k)
    ensures IsCeilLog2(n, k + 1)
  {
  }

  lemma {:induction false} CeilLog2Unique(n: nat, k: nat, m: nat)
    requires IsCeilLog2(n, k) && IsCeilLog2(n, m)
    ensures k == m
  {
    if k < m {
      PowerOfTwoMonotone(k, m - 1);
    } else if m < k {
      PowerOfTwoMonotone(m, k - 1);
    }
  }

  lemma {:induction false} PowerOfTwoMonotone(a: nat, b: nat)
    requires a <= b
    ensures PowerOfTwo(a) <= PowerOfTwo(b)
  {
    if a < b {
      PowerOfTwoMonotone(a, b - 1);
    }
  }

  /** Commit, open and verify: every opening of every commitment is accepted, with exactly `height` siblings. */
  method OpenVerifies<D(==)>(h: Hasher<D>, values: seq<Fe>, index: nat)
    returns (c: Commitment<D>, proof: Proof<D>, ok: bool)
    requires index < |values|
    ensures c.leaves == Leaves(h, values) && c.root == Root(h, c.leaves)
    ensures proof.leaf == h.leaf(values[index]) && proof.index == index
    ensures ok && Climb(h, proof.leaf, index, proof.siblings) == c.root
    ensures |proof.siblings| == c.height && IsCeilLog2(|values|, c.height)
  {
    c := Commit(h, values);
    var answer := Open(h, c, index);
    proof := answer.value;
    ok := Verify(h, proof, c.root);
    PathClimbsToRoot(h, c.leaves, index);
    CeilLog2Unique(|values|, |proof.siblings|, c.height);
  }

  // ----- binding -----

  /** Two different openings of one position that climb to the same digest contain a collision of the pair hash. */
  function FindCollision<D>(h: Hasher<D>, index: nat, a: D, sa: seq<D>, b: D, sb: seq<D>): (r: ((D, D), (D, D)))
    requires |sa| == |sb| && (a != b || sa != sb)
    requires Climb(h, a, index, sa) == Climb(h, b, index, sb)
    ensures r.0 != r.1 && h.pair(r.0.0, r.0.1) == h.pair(r.1.0, r.1.1)
    decreases |sa|
  {
    var u, v := Inputs(a, index, sa[0]), Inputs(b, index, sb[0]);
    assert sa == [sa[0]] + sa[1..] && sb == [sb[0]] + sb[1..];
    if u != v && h.pair(u.0, u.1) == h.pair(v.0, v.1) then (u, v) else
      FindCollision(h, index / 2, h.pair(u.0, u.1), sa[1..], h.pair(v.0, v.1), sb[1..])
  }

  /** A proof of the committed height that verifies at a position carries the committed leaf and path, or
      yields a collision. */
  lemma CommitmentBinds<D>(h: Hasher<D>, leaves: seq<D>, p: Proof<D>) returns (x: (D, D), y: (D, D))
    requires p.index < |leaves|
    requires IsCeilLog2(|leaves|, |p.siblings|)
    requires Climb(h, p.leaf, p.index, p.siblings) == Root(h, leaves)
    ensures (p.leaf == leaves[p.index] && p.siblings == Path(h, leaves, p.index))
         || (x != y && h.pair(x.0, x.1) == h.pair(y.0, y.1))
  {
    var path := Path(h, leaves, p.index);
    PathClimbsToRoot(h, leaves, p.index);
    CeilLog2Unique(|leaves|, |path|, |p.siblings|);
    if p.leaf != leaves[p.index] || p.siblings != path {
      var c := FindCollision(h, p.index, p.leaf, p.siblings, leaves[p.index], path);
      x, y := c.0, c.1;
    } else {
      x, y := (h.zero, h.zero), (h.zero, h.zero);
    }
  }

  /** The hash that records its inputs: no two inputs share a digest. */
  datatype Free = FreeLeaf(value: Fe) | FreeZero | FreePair(left: Free, right: Free)

  const FreeHasher: Hasher<Free> := Hasher((l, r) => FreePair(l, r), v => FreeLeaf(v), FreeZero)

  lemma FreeHasNoCollision(x: (Free, Free), y: (Free, Free))
    ensures FreeHasher.pair(x.0, x.1) == FreeHasher.pair(y.0, y.1) ==> x == y
  {
  }

  lemma {:induction false} FreeRoot(layer: seq<Free>)
    requires |layer| > 1
    ensures Root(FreeHasher, layer).FreePair?
    decreases |layer|
  {
    var parents := Parents(FreeHasher, layer);
    if |parents| > 1 {
      FreeRoot(parents);
    }
  }

  /** The sibling count must be checked for that: for any hash the root without siblings is a proof that
      verifies at every index, and with a hash that has no collisions at all its leaf is never a committed one,
      for any vector of two values or more. */
  lemma BindingNeedsHeight(values: seq<Fe>, index: nat)
    requires index < |values| && |values| > 1
    ensures var leaves := Leaves(FreeHasher, values);
            var root := Root(FreeHasher, leaves);
            Climb(FreeHasher, root, index, []) == root && root !in leaves
  {
    var leaves := Leaves(FreeHasher, values);
    FreeRoot(leaves);
    assert forall i :: 0 <= i < |leaves| ==> leaves[i].FreeLeaf?;
  }

  /** Two different leaf vectors of one length with the same root yield a collision. */
  lemma RootBindsVector<D>(h: Hasher<D>, a: seq<D>, b: seq<D>) returns (x: (D, D), y: (D, D))
    requires |a| == |b| && a != b && a != [] && Root(h, a) == Root(h, b)
    ensures x != y && h.pair(x.0, x.1) == h.pair(y.0, y.1)
  {
    var i :| 0 <= i < |a| && a[i] != b[i];
    PathClimbsToRoot(h, a, i);
    PathClimbsToRoot(h, b, i);
    CeilLog2Unique(|a|, |Path(h, a, i)|, |Path(h, b, i)|);
    var c := FindCollision(h, i, a[i], Path(h, a, i), b[i], Path(h, b, i));
    x, y := c.0, c.1;
  }

  // ----- what the root is made of -----

  /** An odd layer counts as if it ended in the zero digest, which is the first sibling of its last node. */
  lemma OddLayerEndsInZero<D>(h: Hasher<D>, layer: seq<D>)
    requires |layer| > 1 && |layer| % 2 == 1
    ensures Root(h, layer) == Root(h, layer + [h.zero])
    ensures Path(h, layer, |layer| - 1) != [] && Path(h, layer, |layer| - 1)[0] == h.zero
  {
    PadOnce(h, layer);
    hide Parents;
  }

  /** The parents of two even layers in a row are their parents in a row. */
  lemma ParentsConcat<D>(h: Hasher<D>, a: seq<D>, b: seq<D>)
    requires |a| % 2 == 0 && |b| % 2 == 0
    ensures Parents(h, a + b) == Parents(h, a) + Parents(h, b)
  {
    var all, m := a + b, |a| / 2;
    forall i | 0 <= i < |all| / 2
      ensures Parents(h, all)[i] == (Parents(h, a) + Parents(h, b))[i]
    {
      if i >= m {
        assert all[2 * i] == b[2 * (i - m)] && all[2 * i + 1] == b[2 * (i - m) + 1];
      }
    }
  }

  lemma RootStep<D>(h: Hasher<D>, layer: seq<D>)
    requires |layer| > 1
    ensures Root(h, layer) == Root(h, Parents(h, layer))
  {
  }

  lemma HalvesStart<D>(h: Hasher<D>, a: seq<D>, b: seq<D>)
    requires |a| == |b| == 1
    ensures Root(h, a + b) == h.pair(Root(h, a), Root(h, b))
  {
    assert Parents(h, a + b) == [h.pair(a[0], b[0])];
  }

  lemma HalvesStep<D>(h: Hasher<D>, a: seq<D>, b: seq<D>)
    requires |a| == |b| > 1 && |a| % 2 == 0
    requires Root(h, Parents(h, a) + Parents(h, b)) == h.pair(Root(h, Parents(h, a)), Root(h, Parents(h, b)))
    ensures Root(h, a + b) == h.pair(Root(h, a), Root(h, b))
  {
    hide Parents;
    ParentsConcat(h, a, b);
    RootStep(h, a);
    RootStep(h, b);
    RootStep(h, a + b);
    hide Root;
  }

  lemma PowerOfTwoSplits(k: nat)
    ensures if k == 0 then PowerOfTwo(k) == 1 else PowerOfTwo(k) == 2 * PowerOfTwo(k - 1) > 1
  {
    if k > 0 {
      PowerOfTwoMonotone(0, k - 1);
    }
  }

  /** The root of a vector of 2^(k+1) digests is the hash of the roots of its halves, the left one first. */
  lemma {:induction false} RootOfHalves<D>(h: Hasher<D>, a: seq<D>, b: seq<D>, k: nat)
    requires |a| == |b| == PowerOfTwo(k)
    ensures a != [] && b != [] && Root(h, a + b) == h.pair(Root(h, a), Root(h, b))
    decreases k
  {
    hide Parents, PowerOfTwo, Root;
    PowerOfTwoSplits(k);
    if k == 0 {
      HalvesStart(h, a, b);
    } else {
      RootOfHalves(h, Parents(h, a), Parents(h, b), k - 1);
      HalvesStep(h, a, b);
    }
  }

  /** How often one can go left. */
  function LeftDepth(t: Free): nat {
    match t
    case FreePair(left, _) => 1 + LeftDepth(left)
    case _ => 0
  }

  /** The nodes of one level of a tree: none is the zero digest. */
  ghost predicate Level(layer: seq<Free>, depth: nat) {
    forall i :: 0 <= i < |layer| ==> layer[i] != FreeZero && LeftDepth(layer[i]) == depth
  }

  lemma ParentsLevel(layer: seq<Free>, depth: nat)
    requires Level(layer, depth)
    ensures Level(Parents(FreeHasher, layer), depth + 1)
  {
  }

  lemma {:induction false} RootDepth(layer: seq<Free>, depth: nat)
    requires layer != [] && Level(layer, depth)
    ensures Root(FreeHasher, layer) != FreeZero
    ensures LeftDepth(Root(FreeHasher, layer)) == depth + CeilLog2(|layer|)
    decreases |layer|
  {
    if |layer| > 1 {
      ParentsLevel(layer, depth);
      hide Parents, Level;
      RootDepth(Parents(FreeHasher, layer), depth + 1);
    }
  }

  /** The last node of a padded level is the zero digest exactly if it was added. */
  lemma PadTells(layer: seq<Free>, depth: nat)
    requires Level(layer, depth) && layer != []
    ensures var full := Pad(FreeHasher, layer); full[|full| - 1] == FreeZero <==> |layer| == |full| - 1
  {
  }

  lemma PairsTell(a: seq<Free>, b: seq<Free>)
    requires Parents(FreeHasher, a) == Parents(FreeHasher, b)
    ensures Pad(FreeHasher, a) == Pad(FreeHasher, b)
  {
    var p, q, pa, pb := Parents(FreeHasher, a), Parents(FreeHasher, b), Pad(FreeHasher, a), Pad(FreeHasher, b);
    assert |pa| == 2 * |p| == |pb|;
    forall i | 0 <= i < |pa|
      ensures pa[i] == pb[i]
    {
      assert p[i / 2] == FreePair(pa[2 * (i / 2)], pa[2 * (i / 2) + 1]);
      assert q[i / 2] == FreePair(pb[2 * (i / 2)], pb[2 * (i / 2) + 1]);
    }
  }

  /** Parents tell their children, and whether the last one was added. */
  lemma ParentsInjective(a: seq<Free>, b: seq<Free>, depth: nat)
    requires a != [] && b != [] && Level(a, depth) && Level(b, depth)
    requires Parents(FreeHasher, a) == Parents(FreeHasher, b)
    ensures a == b
  {
    PairsTell(a, b);
    PadTells(a, depth);
    PadTells(b, depth);
    hide Parents, Level;
    assert |a| == |b|;
  }

  lemma {:induction false} LevelsInjective(a: seq<Free>, b: seq<Free>, depth: nat)
    requires a != [] && b != [] && Level(a, depth) && Level(b, depth)
    requires CeilLog2(|a|) == CeilLog2(|b|) && Root(FreeHasher, a) == Root(FreeHasher, b)
    ensures a == b
    decreases |a|
  {
    hide Parents, Level, IsCeilLog2;
    if |a| > 1 {
      ParentsLevel(a, depth);
      ParentsLevel(b, depth);
      LevelsInjective(Parents(FreeHasher, a), Parents(FreeHasher, b), depth + 1);
      ParentsInjective(a, b, depth);
    }
  }

  lemma LeavesTell(v: seq<Fe>, w: seq<Fe>)
    requires Leaves(FreeHasher, v) == Leaves(FreeHasher, w)
    ensures v == w
  {
    assert forall i :: 0 <= i < |v| ==> Leaves(FreeHasher, v)[i] == FreeLeaf(v[i]);
    assert forall i :: 0 <= i < |w| ==> Leaves(FreeHasher, w)[i] == FreeLeaf(w[i]);
  }

  lemma LeavesLevel(v: seq<Fe>)
    ensures Level(Leaves(FreeHasher, v), 0)
  {
  }

  /** With the hash that records its inputs, vectors of any lengths have the same root exactly if they are the same. */
  lemma RootTellsVector(v: seq<Fe>, w: seq<Fe>)
    ensures RootOf(FreeHasher, v) == RootOf(FreeHasher, w) <==> v == w
  {
    hide Level, Leaves, Root, IsCeilLog2;
    var a, b := Leaves(FreeHasher, v), Leaves(FreeHasher, w);
    LeavesLevel(v);
    LeavesLevel(w);
    if v != [] {
      RootDepth(a, 0);
    }
    if w != [] {
      RootDepth(b, 0);
    }
    if v != [] && w != [] && RootOf(FreeHasher, v) == RootOf(FreeHasher, w) {
      LevelsInjective(a, b, 0);
      LeavesTell(v, w);
    }
  }
}
