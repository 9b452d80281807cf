/** The cursor walk of the resampling branch: given the non-decreasing list
    of selected source indexes, it collects the indexes of the particles
    that were not selected, whose ancestry leaves are then released. */
module IndexWalk {

  /** Non-decreasing, as the resampler produces its indexes. */
  predicate Sorted(s: seq<nat>) {
    forall a, b :: 0 <= a < b < |s| ==> s[a] <= s[b]
  }

  /** Every entry is a valid index into a set of `n` particles. */
  predicate Below(s: seq<nat>, n: nat) {
    forall k :: 0 <= k < |s| ==> s[k] < n
  }

  /** One past the last (for a sorted list: the largest) entry; 0 for the empty list. */
  function Top(s: seq<nat>): nat {
    if |s| == 0 then 0 else s[|s| - 1] + 1
  }

  /** Where the walk stops when its trailing loop runs up to `bound`:
      the cursor has already passed every selected index. */
  function WalkEnd(indexes: seq<nat>, bound: nat): nat {
    if bound < Top(indexes) then Top(indexes) else bound
  }

  /** The indexes below `bound` that do not occur in `indexes`, in increasing order. */
  function Unselected(indexes: seq<nat>, bound: nat): seq<nat> {
    if bound == 0 then []
    else Unselected(indexes, bound - 1) + (if bound - 1 in indexes then [] else [bound - 1])
  }

  /** `Unselected` holds exactly the indexes below `bound` missing from `indexes`. */
  lemma {:induction false} UnselectedMembers(indexes: seq<nat>, bound: nat)
    ensures forall k :: k in Unselected(indexes, bound) <==> 0 <= k < bound && k !in indexes
  {
    if bound > 0 {
      UnselectedMembers(indexes, bound - 1);
      var tail := if bound - 1 in indexes then [] else [bound - 1];
      assert Unselected(indexes, bound) == Unselected(indexes, bound - 1) + tail;
      forall k
        ensures k in Unselected(indexes, bound) <==> 0 <= k < bound && k !in indexes
      {
        assert k in Unselected(indexes, bound) <==> k in Unselected(indexes, bound - 1) || k in tail;
      }
    }
  }

  /** `Unselected` is strictly increasing, so it lists no index twice. */
  lemma {:induction false} UnselectedIncreasing(indexes: seq<nat>, bound: nat)
    ensures forall a, b :: 0 <= a < b < |Unselected(indexes, bound)| ==>
      Unselected(indexes, bound)[a] < Unselected(indexes, bound)[b]
  {
    if bound > 0 {
      UnselectedIncreasing(indexes, bound - 1);
      UnselectedMembers(indexes, bound - 1);
      var u := Unselected(indexes, bound - 1);
      assert forall a :: 0 <= a < |u| ==> u[a] in u;
    }
  }

  /** In a sorted list, nothing between the entries before position `i` and the entry at `i` occurs. */
  lemma GapIsUnselected(indexes: seq<nat>, i: nat, j: nat)
    requires Sorted(indexes) && i < |indexes|
    requires Top(indexes[..i]) <= j < indexes[i]
    ensures j !in indexes
  {
    forall k | 0 <= k < |indexes|
      ensures indexes[k] != j
    {
      if k < i {
        assert indexes[k] <= indexes[i - 1];
      }
    }
  }

  /** Past the last entry of a sorted list nothing occurs. */
  lemma PastTopIsUnselected(indexes: seq<nat>, j: nat)
    requires Sorted(indexes) && Top(indexes) <= j
    ensures j !in indexes
  {
    forall k | 0 <= k < |indexes|
      ensures indexes[k] != j
    {
      assert indexes[k] <= indexes[|indexes| - 1];
    }
  }

  /** The walk of the resampling branch. For each selected index it pushes
      every skipped index, steps over the selected one, and finally pushes
      every index from the cursor up to `bound`. The source runs the trailing
      loop up to the number of indexes; the filter step here passes the
      number of particles (see `ShortIndexListLeaks` and `LongIndexListOverruns`). */
  method CollectDeleted(indexes: seq<nat>, bound: nat) returns (deleted: seq<nat>)
    requires Sorted(indexes)
    ensures deleted == Unselected(indexes, WalkEnd(indexes, bound))
  {
    var j: nat := 0;
    deleted := [];
    for i := 0 to |indexes|
      invariant j == Top(indexes[..i])
      invariant deleted == Unselected(indexes, j)
    {
      while j < indexes[i]
        invariant Top(indexes[..i]) <= j
        invariant j <= indexes[i] || j == Top(indexes[..i])
        invariant deleted == Unselected(indexes, j)
      {
        GapIsUnselected(indexes, i, j);
        deleted := deleted + [j];
        j := j + 1;
      }
      if j == indexes[i] {
        j := j + 1;
      }
      assert indexes[..i + 1][..i] == indexes[..i];
    }
    assert indexes[..|indexes|] == indexes;
    while j < bound
      invariant Top(indexes) <= j
      invariant j <= bound || j == Top(indexes)
      invariant deleted == Unselected(indexes, j)
    {
      PastTopIsUnselected(indexes, j);
      deleted := deleted + [j];
      j := j + 1;
    }
  }

  /** With the trailing bound equal to the number of particles `n`, the walk
      yields exactly the unselected particles of [0, n), each once, in order. */
  lemma WalkToParticleCountIsExact(indexes: seq<nat>, n: nat)
    requires Sorted(indexes) && Below(indexes, n)
    ensures WalkEnd(indexes, n) == n
    ensures forall k :: k in Unselected(indexes, n) <==> 0 <= k < n && k !in indexes
    ensures forall a, b :: 0 <= a < b < |Unselected(indexes, n)| ==>
      Unselected(indexes, n)[a] < Unselected(indexes, n)[b]
  {
    UnselectedMembers(indexes, n);
    UnselectedIncreasing(indexes, n);
  }

  /** As written, the trailing loop stops at the number of indexes. With
      fewer indexes than particles, an unselected particle above both that
      count and the last selected index is never collected, so its leaf is
      never released. */
  lemma ShortIndexListLeaks(indexes: seq<nat>, n: nat)
    requires Sorted(indexes) && Below(indexes, n)
    requires |indexes| < n && Top(indexes) < n
    ensures n - 1 !in indexes
    ensures n - 1 !in Unselected(indexes, WalkEnd(indexes, |indexes|))
  {
    PastTopIsUnselected(indexes, n - 1);
    UnselectedMembers(indexes, WalkEnd(indexes, |indexes|));
  }

  /** As written, with more indexes than particles the trailing loop
      collects an index at or past the end of the particle set, which the
      release loop then uses to index the particles. */
  lemma LongIndexListOverruns(indexes: seq<nat>, n: nat)
    requires Sorted(indexes) && Below(indexes, n)
    requires |indexes| > n
    ensures |indexes| - 1 >= n
    ensures |indexes| - 1 in Unselected(indexes, WalkEnd(indexes, |indexes|))
  {
    assert Top(indexes) <= n;
    PastTopIsUnselected(indexes, |indexes| - 1);
    UnselectedMembers(indexes, WalkEnd(indexes, |indexes|));
  }

  /** When there are as many indexes as particles, the bound as written and
      the particle count agree, so the walk as written is exact. */
  lemma FullIndexListAgrees(indexes: seq<nat>, n: nat)
    requires Sorted(indexes) && Below(indexes, n) && |indexes| == n
    ensures WalkEnd(indexes, |indexes|) == WalkEnd(indexes, n) == n
  {
  }

  /** As written, the walk yields exactly the unselected particles if and
      only if it stops at the particle count, that is, when the larger of
      the number of indexes and one past the last selected index is `n`. */
  lemma WalkAsWrittenExactIff(indexes: seq<nat>, n: nat)
    requires Sorted(indexes) && Below(indexes, n)
    ensures Unselected(indexes, WalkEnd(indexes, |indexes|)) == Unselected(indexes, n)
      <==> WalkEnd(indexes, |indexes|) == n
  {
    var e := WalkEnd(indexes, |indexes|);
    if e != n {
      UnselectedMembers(indexes, e);
      UnselectedMembers(indexes, n);
      if e < n {
        PastTopIsUnselected(indexes, n - 1);
        assert n - 1 in Unselected(indexes, n);
      } else {
        assert Top(indexes) <= n;
        PastTopIsUnselected(indexes, e - 1);
        assert e - 1 in Unselected(indexes, e);
      }
    }
  }

  /** A concrete instance of the leak: two particles drawn from the first of
      three; particle 2 is not selected, yet the walk as written collects only 1.
      With indexes `[0, 2]` the list is just as short, but the last particle is
      drawn, so the walk as written is exact. */
  lemma ShortIndexListExample()
    ensures Unselected([0, 0], WalkEnd([0, 0], 2)) == [1]
    ensures Unselected([0, 0], WalkEnd([0, 0], 3)) == [1, 2]
    ensures Unselected([0, 2], WalkEnd([0, 2], 2)) == Unselected([0, 2], 3) == [1]
  {
    assert 0 in [0, 0] && 1 !in [0, 0] && 2 !in [0, 0];
    assert Unselected([0, 0], 1) == [];
    assert 0 in [0, 2] && 1 !in [0, 2] && 2 in [0, 2];
    assert Unselected([0, 2], 1) == [];
  }
}
