/** The ancestry tree (genealogy) of the particles as an arena: node `id`
    is `nodes[id]`, parent links are arena ids, and a released node keeps
    its slot but is listed in `released`. Nodes are only ever appended. */
module Ancestry {
  import opened SlamTypes

  /** Every parent link points to an earlier node, so following parents
      always ends at a root and the tree has no cycle. */
  predicate Acyclic<R>(nodes: seq<TNode<R>>) {
    forall id :: 0 <= id < |nodes| && nodes[id].parent.Some? ==> nodes[id].parent.value < id
  }

  /** No node of the arena hangs from a released node. */
  predicate NoOrphans<R>(nodes: seq<TNode<R>>, released: set<nat>) {
    forall id :: 0 <= id < |nodes| && nodes[id].parent.Some? ==> nodes[id].parent.value !in released
  }

  /** The state of the tree between two filter steps, for particles whose
      current leaves are `leaves`: each leaf is a live node of its own that
      has no child yet, and nothing hangs from a released node. */
  predicate TreeValid<R>(leaves: seq<nat>, nodes: seq<TNode<R>>, released: set<nat>) {
    && Acyclic(nodes)
    && NoOrphans(nodes, released)
    && (forall r :: r in released ==> r < |nodes|)
    && (forall i :: 0 <= i < |leaves| ==> leaves[i] < |nodes| && leaves[i] !in released)
    && (forall i, j :: 0 <= i < j < |leaves| ==> leaves[i] != leaves[j])
    && (forall id, i :: 0 <= id < |nodes| && 0 <= i < |leaves| ==> nodes[id].parent != Some(leaves[i]))
  }

  /** The arena ids base, base + 1, ..., base + count - 1. */
  function FreshIds(base: nat, count: nat): seq<nat> {
    seq(count, k requires 0 <= k < count => base + k)
  }

  /** The leaves of the particles whose index is not selected. */
  function DroppedLeaves(leaves: seq<nat>, indexes: seq<nat>): set<nat> {
    set d | 0 <= d < |leaves| && d !in indexes :: leaves[d]
  }

  /** The leaves of the particles listed in `ds`, as the release loop of the
      resampling branch frees them one after the other. */
  function LeavesAt(leaves: seq<nat>, ds: seq<nat>): set<nat> {
    if |ds| == 0 then {} else
      var last := ds[|ds| - 1];
      LeavesAt(leaves, ds[..|ds| - 1]) + (if last < |leaves| then {leaves[last]} else {})
  }

  /** `LeavesAt` holds exactly the leaves of the listed particles. */
  lemma {:induction false} LeavesAtMembers(leaves: seq<nat>, ds: seq<nat>)
    ensures forall x :: x in LeavesAt(leaves, ds) <==>
      exists q :: 0 <= q < |ds| && ds[q] < |leaves| && leaves[ds[q]] == x
  {
    if |ds| > 0 {
      var init := ds[..|ds| - 1];
      LeavesAtMembers(leaves, init);
      assert forall q :: 0 <= q < |init| ==> init[q] == ds[q];
    }
  }

  /** Releasing the leaves of the particles listed in `ds` releases exactly
      the dropped leaves when `ds` lists exactly the unselected particles. */
  lemma ReleasedAreDropped(leaves: seq<nat>, ds: seq<nat>, indexes: seq<nat>)
    requires forall d :: d in ds <==> 0 <= d < |leaves| && d !in indexes
    ensures LeavesAt(leaves, ds) == DroppedLeaves(leaves, indexes)
  {
    LeavesAtMembers(leaves, ds);
    forall x | x in DroppedLeaves(leaves, indexes)
      ensures x in LeavesAt(leaves, ds)
    {
      var d :| 0 <= d < |leaves| && d !in indexes && leaves[d] == x;
      var q :| 0 <= q < |ds| && ds[q] == d;
    }
    forall x | x in LeavesAt(leaves, ds)
      ensures x in DroppedLeaves(leaves, indexes)
    {
      var q :| 0 <= q < |ds| && ds[q] < |leaves| && leaves[ds[q]] == x;
      assert ds[q] in ds;
    }
  }

  /** `next` is `nodes` followed by one fresh node per entry of `indexes`,
      the k-th hanging from the leaf of the particle `indexes[k]`. */
  ghost predicate Grown<R>(nodes: seq<TNode<R>>, next: seq<TNode<R>>, leaves: seq<nat>, indexes: seq<nat>) {
    && |next| == |nodes| + |indexes|
    && next[..|nodes|] == nodes
    && forall k :: 0 <= k < |indexes| ==>
         indexes[k] < |leaves| && next[|nodes| + k].parent == Some(leaves[indexes[k]])
  }

  /** The path from node `id` up to its root: the trajectory it closes. */
  function Lineage<R>(nodes: seq<TNode<R>>, id: nat): seq<nat>
    requires Acyclic(nodes) && id < |nodes|
    decreases id
  {
    match nodes[id].parent
    case None => [id]
    case Some(p) => [id] + Lineage(nodes, p)
  }

  /** Since leaves are not shared, a particle's leaf is released by the
      resampling step exactly when the particle's index is not selected. */
  lemma DroppedExactlyUnselected<R>(leaves: seq<nat>, nodes: seq<TNode<R>>, released: set<nat>, indexes: seq<nat>)
    requires TreeValid(leaves, nodes, released)
    ensures forall d :: 0 <= d < |leaves| ==> (leaves[d] in DroppedLeaves(leaves, indexes) <==> d !in indexes)
  {
    forall d | 0 <= d < |leaves| && leaves[d] in DroppedLeaves(leaves, indexes)
      ensures d !in indexes
    {
      var e :| 0 <= e < |leaves| && e !in indexes && leaves[e] == leaves[d];
    }
  }

  /** Growing the tree by one node per selected index and releasing the
      leaves of the unselected particles keeps the tree valid for the fresh
      leaves; in particular no fresh node hangs from a released node. */
  lemma GrowthKeepsTreeValid<R>(
    leaves: seq<nat>, nodes: seq<TNode<R>>, released: set<nat>, indexes: seq<nat>, next: seq<TNode<R>>)
    requires TreeValid(leaves, nodes, released)
    requires Grown(nodes, next, leaves, indexes)
    ensures forall k :: 0 <= k < |indexes| ==>
      indexes[k] < |leaves| && leaves[indexes[k]] !in released + DroppedLeaves(leaves, indexes)
    ensures TreeValid(FreshIds(|nodes|, |indexes|), next, released + DroppedLeaves(leaves, indexes))
  {
    var base, newLeaves := |nodes|, FreshIds(|nodes|, |indexes|);
    var gone := released + DroppedLeaves(leaves, indexes);
    DroppedExactlyUnselected(leaves, nodes, released, indexes);
    assert forall id :: 0 <= id < base ==> next[id] == nodes[id];
    forall k | 0 <= k < |indexes|
      ensures indexes[k] < |leaves| && leaves[indexes[k]] !in gone
    {
      assert indexes[k] in indexes;
    }
    forall id | 0 <= id < |next| && next[id].parent.Some?
      ensures next[id].parent.value < id && next[id].parent.value !in gone
    {
      if id >= base {
        var k := id - base;
        assert next[base + k].parent == Some(leaves[indexes[k]]);
      }
    }
    forall id, i | 0 <= id < |next| && 0 <= i < |newLeaves|
      ensures next[id].parent != Some(newLeaves[i])
    {
      if id >= base {
        assert indexes[id - base] < |leaves|;
      }
    }
  }

  /** Appending nodes does not change the lineage of an existing node. */
  lemma {:induction false} LineageOfPrefix<R>(nodes: seq<TNode<R>>, next: seq<TNode<R>>, id: nat)
    requires Acyclic(nodes) && Acyclic(next)
    requires |nodes| <= |next| && next[..|nodes|] == nodes
    requires id < |nodes|
    ensures Lineage(next, id) == Lineage(nodes, id)
    decreases id
  {
    assert next[id] == nodes[id];
    match nodes[id].parent
    case None =>
    case Some(p) => LineageOfPrefix(nodes, next, p);
  }

  /** The trajectory of every fresh leaf is one new node on top of the
      unchanged trajectory of the leaf it hangs from. */
  lemma GrownLineage<R>(
    leaves: seq<nat>, nodes: seq<TNode<R>>, released: set<nat>, indexes: seq<nat>, next: seq<TNode<R>>, k: nat)
    requires TreeValid(leaves, nodes, released)
    requires Grown(nodes, next, leaves, indexes)
    requires k < |indexes|
    ensures Acyclic(next) && leaves[indexes[k]] < |nodes|
    ensures Lineage(next, |nodes| + k) == [|nodes| + k] + Lineage(nodes, leaves[indexes[k]])
  {
    GrowthKeepsTreeValid(leaves, nodes, released, indexes, next);
    LineageOfPrefix(nodes, next, leaves[indexes[k]]);
  }

  /** When nothing hangs from a released node, the whole lineage of a live
      node is live: releasing a leaf never removes an ancestor another
      particle still needs. */
  lemma {:induction false} LineageLive<R>(nodes: seq<TNode<R>>, released: set<nat>, id: nat)
    requires Acyclic(nodes) && NoOrphans(nodes, released)
    requires id < |nodes| && id !in released
    ensures forall a :: a in Lineage(nodes, id) ==> a !in released
    decreases id
  {
    match nodes[id].parent
    case None =>
    case Some(p) => LineageLive(nodes, released, p);
  }

  /** The lineage of a fresh leaf is its node on top of the lineage of the
      leaf it hangs from, and none of it is released. */
  lemma LiveFreshLineage<R>(
    leaves: seq<nat>, nodes: seq<TNode<R>>, released: set<nat>, indexes: seq<nat>, next: seq<TNode<R>>, k: nat)
    requires TreeValid(leaves, nodes, released)
    requires Grown(nodes, next, leaves, indexes)
    requires k < |indexes|
    ensures Acyclic(next) && indexes[k] < |leaves| && leaves[indexes[k]] < |nodes|
    ensures Lineage(next, |nodes| + k) == [|nodes| + k] + Lineage(nodes, leaves[indexes[k]])
    ensures forall a :: a in Lineage(next, |nodes| + k) ==> a !in released + DroppedLeaves(leaves, indexes)
  {
    GrownLineage(leaves, nodes, released, indexes, next, k);
    FreshLeafLive(leaves, nodes, released, indexes, next, k);
  }

  /** A fresh leaf and its whole lineage survive the release of the dropped leaves. */
  lemma FreshLeafLive<R>(
    leaves: seq<nat>, nodes: seq<TNode<R>>, released: set<nat>, indexes: seq<nat>, next: seq<TNode<R>>, k: nat)
    requires TreeValid(leaves, nodes, released)
    requires Grown(nodes, next, leaves, indexes)
    requires k < |indexes|
    ensures Acyclic(next) && |nodes| + k < |next|
    ensures forall a :: a in Lineage(next, |nodes| + k) ==> a !in released + DroppedLeaves(leaves, indexes)
  {
    var gone := released + DroppedLeaves(leaves, indexes);
    GrowthKeepsTreeValid(leaves, nodes, released, indexes, next);
    assert FreshIds(|nodes|, |indexes|)[k] == |nodes| + k;
    LineageLive(next, gone, |nodes| + k);
  }
}
