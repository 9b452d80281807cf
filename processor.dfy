/** One step of the grid-based Rao-Blackwellized particle filter: scan
    matching of every particle, normalisation of the log-weights with the
    effective sample size, and the resampling step that grows the ancestry
    tree and releases the leaves of the particles resampled away. */
module GridSlam {
  import opened SlamTypes
  import opened Weights
  import opened IndexWalk
  import opened Ancestry
  import opened ScanMatching

  /** The per-step log-weights of the particles, in order. */
  function LogWeights<M>(ps: seq<Particle<M>>): seq<real> {
    seq(|ps|, i requires 0 <= i < |ps| => ps[i].weight)
  }

  /** The ancestry leaves of the particles, in order. */
  function Leaves<M>(ps: seq<Particle<M>>): seq<nat> {
    seq(|ps|, i requires 0 <= i < |ps| => ps[i].node)
  }

  /** The indexes 0, 1, ..., n - 1: every particle selected once, in place. */
  function Identity(n: nat): seq<nat> {
    seq(n, i requires 0 <= i < n => i)
  }

  /** The ancestry nodes one step adds, one per entry of `indexes`: the k-th
      records the pose of particle `indexes[k]`, has weight 0, hangs from
      that particle's leaf and holds this step's reading. */
  function NewGeneration<M, R>(ps: seq<Particle<M>>, indexes: seq<nat>, reading: R): (g: seq<TNode<R>>)
    requires Below(indexes, |ps|)
    ensures |g| == |indexes|
    ensures forall k :: 0 <= k < |g| ==>
      && g[k].parent == Some(ps[indexes[k]].node)
      && g[k].pose == ps[indexes[k]].pose
      && g[k].weight == 0.0
      && g[k].reading == Some(reading)
  {
    seq(|indexes|, k requires 0 <= k < |indexes| =>
      TNode(ps[indexes[k]].pose, 0.0, Some(ps[indexes[k]].node), Some(reading)))
  }

  /** The particle set after resampling: the k-th particle is a copy of
      particle `indexes[k]` that sits on fresh node `base + k`, remembers
      its source in `previousIndex`, restarts its per-step weight at 0 and
      has the current scan registered into its own copy of the map. */
  function Resampled<M>(ps: seq<Particle<M>>, indexes: seq<nat>, base: nat, matcher: Matcher<M>, plainReading: Ranges): (r: seq<Particle<M>>)
    requires Below(indexes, |ps|)
    ensures |r| == |indexes| && Leaves(r) == FreshIds(base, |indexes|)
    ensures forall k :: 0 <= k < |r| ==>
      && r[k].previousIndex == indexes[k] < |ps|
      && var src := ps[r[k].previousIndex];
      && r[k].pose == src.pose
      && r[k].weight == 0.0
      && r[k].weightSum == src.weightSum
      && r[k].grid == matcher.registerScan(src.grid, src.pose, plainReading)
  {
    var r := seq(|indexes|, k requires 0 <= k < |indexes| =>
      var src := ps[indexes[k]];
      src.(weight := 0.0, grid := matcher.registerScan(src.grid, src.pose, plainReading),
           node := base + k, previousIndex := indexes[k]));
    assert Leaves(r) == FreshIds(base, |indexes|);
    r
  }

  /** The particle set when no resampling takes place: every particle stays
      where it is, moves on to fresh node `base + i`, keeps its weights and
      has the current scan registered into its map. */
  function Extended<M>(ps: seq<Particle<M>>, base: nat, matcher: Matcher<M>, plainReading: Ranges): (r: seq<Particle<M>>)
    ensures |r| == |ps| && Leaves(r) == FreshIds(base, |ps|)
    ensures forall i :: 0 <= i < |r| ==>
      && r[i].previousIndex == i
      && r[i].pose == ps[i].pose
      && r[i].weight == ps[i].weight
      && r[i].weightSum == ps[i].weightSum
      && r[i].grid == matcher.registerScan(ps[i].grid, ps[i].pose, plainReading)
  {
    var r := seq(|ps|, i requires 0 <= i < |ps| =>
      ps[i].(node := base + i, grid := matcher.registerScan(ps[i].grid, ps[i].pose, plainReading),
             previousIndex := i));
    assert Leaves(r) == FreshIds(base, |ps|);
    r
  }

  /** Resampling is due when the effective sample size is below
      `threshold` times the number of particles. */
  predicate ResampleDue(neff: real, threshold: real, n: nat) {
    neff < threshold * n as real
  }

  /** The grid-based SLAM processor, reduced to the state one filter step
      reads and writes. The ancestry tree is the arena `nodes` with the set
      `released` of nodes already freed. */
  class GridSlamProcessor<M, R> {
    /** The scan matcher the particles are corrected with. */
    const matcher: Matcher<M>
    /** Matches scoring at most this fall back to the odometry pose. */
    const minimumScore: real
    /** The gain that flattens the observation likelihoods. */
    const obsSigmaGain: real
    /** Resampling happens when the effective sample size drops below this
        fraction of the particle count. */
    const resampleThreshold: real

    var particles: seq<Particle<M>>
    /** The normalised weights, in particle order. */
    var weights: seq<real>
    /** The effective sample size of `weights`. */
    var neff: real
    /** The source indexes of the last resampling. */
    var indexes: seq<nat>
    var nodes: seq<TNode<R>>
    var released: set<nat>

    /** The ancestry tree is consistent with the particles' leaves. */
    ghost predicate Valid()
      reads this
    {
      TreeValid(Leaves(particles), nodes, released)
    }

    /** A processor with no particles and an empty ancestry tree. */
    constructor (matcher: Matcher<M>, minimumScore: real, obsSigmaGain: real, resampleThreshold: real)
      ensures Valid()
      ensures this.matcher == matcher && this.minimumScore == minimumScore
      ensures this.obsSigmaGain == obsSigmaGain && this.resampleThreshold == resampleThreshold
      ensures particles == [] && weights == [] && indexes == [] && nodes == [] && released == {}
    {
      this.matcher := matcher;
      this.minimumScore := minimumScore;
      this.obsSigmaGain := obsSigmaGain;
      this.resampleThreshold := resampleThreshold;
      particles := [];
      weights := [];
      neff := 0.0;
      indexes := [];
      nodes := [];
      released := {};
    }

    /** Scan-matches every particle in turn against its own map. */
    method ScanMatch(plainReading: Ranges)
      requires Valid()
      modifies this`particles
      ensures Valid()
      ensures |particles| == |old(particles)|
      ensures forall i :: 0 <= i < |particles| ==>
        particles[i] == ScanMatched(old(particles)[i], matcher, plainReading, minimumScore)
    {
      for i := 0 to |particles|
        invariant |particles| == |old(particles)|
        invariant forall k :: 0 <= k < i ==>
          particles[k] == ScanMatched(old(particles)[k], matcher, plainReading, minimumScore)
        invariant forall k :: i <= k < |particles| ==> particles[k] == old(particles)[k]
      {
        var p := particles[i];
        var c := matcher.optimize(p.grid, p.pose, plainReading);
        var pose := p.pose;
        if c.score > minimumScore {
          pose := c.corrected;
        }
        var e := matcher.likelihoodAndScore(p.grid, pose, plainReading);
        p := p.(pose := pose, weight := p.weight + e.likelihood, weightSum := p.weightSum + e.likelihood);
        p := p.(grid := matcher.computeActiveArea(p.grid, pose, plainReading));
        particles := particles[i := p];
      }
      assert Leaves(particles) == Leaves(old(particles));
    }

    /** Turns the log-weights into a probability vector: the maximum is
        subtracted before exponentiating with gain 1 / (obsSigmaGain * N),
        the results are divided by their sum, and the effective sample size
        is the reciprocal of the sum of the squared normalised weights.
        `exp` is the exponential function of the platform. */
    method Normalize(exp: real -> real)
      requires ExpLike(exp)
      requires |particles| > 0 && obsSigmaGain != 0.0
      modifies this`weights, this`neff
      ensures weights == Normalized(LogWeights(particles), Gain(obsSigmaGain, |particles|), exp)
      ensures SumSquares(weights) > 0.0 && neff == Neff(weights)
    {
      var n := |particles|;
      var gain := Gain(obsSigmaGain, n);
      ghost var ws := LogWeights(particles);
      var lmax := particles[0].weight;
      for i := 1 to n
        invariant lmax == MaxOf(ws[..i])
      {
        MaxOfLonger(ws, i);
        lmax := if particles[i].weight > lmax then particles[i].weight else lmax;
      }
      assert ws[..n] == ws;

      weights := [];
      var wcum := 0.0;
      for i := 0 to n
        invariant weights == Exps(ws[..i], gain, lmax, exp)
        invariant wcum == Sum(weights)
      {
        ExpsOfLonger(ws, i, gain, lmax, exp);
        weights := weights + [Unnormalized(particles[i].weight, gain, lmax, exp)];
        wcum := wcum + weights[|weights| - 1];
      }
      ghost var us := weights;
      ExpsBounds(ws, gain, exp);

      neff := 0.0;
      for i := 0 to n
        invariant |weights| == n
        invariant forall k :: 0 <= k < i ==> weights[k] == us[k] / wcum
        invariant forall k :: i <= k < n ==> weights[k] == us[k]
        invariant neff == SumSquares(weights[..i])
      {
        ghost var before := weights;
        weights := weights[i := weights[i] / wcum];
        assert weights[..i] == before[..i];
        var w := weights[i];
        SumSquaresOfLonger(weights, i, neff, w);
        neff := neff + w * w;
      }
      NormalizedIsScaledExps(ws, gain, exp, us, weights);
      NeffBounds(ws, gain, exp);
      assert ws == LogWeights(particles);
      neff := 1.0 / neff;
    }

    /** Decides on the effective sample size whether to resample, and in
        either case adds one ancestry node per new particle and registers the
        scan into every new particle's map. `drawn` are the source indexes
        the resampler draws from the weights, in non-decreasing order; the
        leaves of the particles it does not select are released. */
    method Resample(plainReading: Ranges, drawn: seq<nat>, reading: R) returns (hasResampled: bool)
      requires Valid()
      requires Sorted(drawn) && Below(drawn, |particles|)
      modifies this`particles, this`indexes, this`nodes, this`released
      ensures Valid()
      ensures hasResampled == ResampleDue(old(neff), resampleThreshold, |old(particles)|)
      ensures hasResampled ==>
        && indexes == drawn
        && particles == Resampled(old(particles), drawn, |old(nodes)|, matcher, plainReading)
        && nodes == old(nodes) + NewGeneration(old(particles), drawn, reading)
        && released == old(released) + DroppedLeaves(Leaves(old(particles)), drawn)
      ensures !hasResampled ==>
        && indexes == old(indexes)
        && particles == Extended(old(particles), |old(nodes)|, matcher, plainReading)
        && nodes == old(nodes) + NewGeneration(old(particles), Identity(|old(particles)|), reading)
        && released == old(released)
    {
      var n := |particles|;
      var oldGeneration: seq<nat> := [];
      for i := 0 to n
        invariant oldGeneration == Leaves(particles[..i])
      {
        assert Leaves(particles[..i + 1]) == Leaves(particles[..i]) + [particles[i].node];
        oldGeneration := oldGeneration + [particles[i].node];
      }
      assert particles[..n] == particles;

      hasResampled := false;
      if ResampleDue(neff, resampleThreshold, n) {
        ResampleParticles(plainReading, drawn, reading, oldGeneration);
        NewGenerationGrows(old(particles), old(nodes), drawn, reading);
        GrowthKeepsTreeValid(oldGeneration, old(nodes), old(released), drawn, nodes);
        hasResampled := true;
      } else {
        ExtendParticles(plainReading, reading, oldGeneration);
        NewGenerationGrows(old(particles), old(nodes), Identity(n), reading);
        IdentityDropsNothing(oldGeneration);
        GrowthKeepsTreeValid(oldGeneration, old(nodes), old(released), Identity(n), nodes);
      }
    }

    /** The resampling branch: records the drawn indexes, grows the tree,
        releases the leaves of the particles not drawn and replaces the
        particle set by the copies, weights reset and scan registered. */
    method ResampleParticles(plainReading: Ranges, drawn: seq<nat>, reading: R, oldGeneration: seq<nat>)
      requires Sorted(drawn) && Below(drawn, |particles|)
      requires oldGeneration == Leaves(particles)
      modifies this`particles, this`indexes, this`nodes, this`released
      ensures indexes == drawn
      ensures particles == Resampled(old(particles), drawn, |old(nodes)|, matcher, plainReading)
      ensures nodes == old(nodes) + NewGeneration(old(particles), drawn, reading)
      ensures released == old(released) + DroppedLeaves(oldGeneration, drawn)
    {
      indexes := drawn;
      var temp := BuildTree(reading, oldGeneration);
      ReleaseUnselected(oldGeneration);
      var next: seq<Particle<M>> := [];
      for k := 0 to |temp|
        invariant |next| == k
        invariant forall q :: 0 <= q < k ==>
          next[q] == temp[q].(weight := 0.0, grid := matcher.registerScan(temp[q].grid, temp[q].pose, plainReading))
      {
        var p := temp[k].(weight := 0.0);
        p := p.(grid := matcher.registerScan(p.grid, p.pose, plainReading));
        next := next + [p];
      }
      CopiesAreResampled(particles, drawn, |old(nodes)|, matcher, plainReading, temp, next);
      particles := next;
    }

    /** Hangs one fresh node per selected index from the leaf of the selected
        particle, and returns the selected particles moved onto those nodes
        with their source recorded in `previousIndex`. */
    method BuildTree(reading: R, oldGeneration: seq<nat>) returns (temp: seq<Particle<M>>)
      requires Below(indexes, |particles|) && oldGeneration == Leaves(particles)
      modifies this`nodes
      ensures nodes == old(nodes) + NewGeneration(particles, indexes, reading)
      ensures |temp| == |indexes|
      ensures forall q :: 0 <= q < |temp| ==>
        temp[q] == particles[indexes[q]].(node := |old(nodes)| + q, previousIndex := indexes[q])
    {
      var base := |nodes|;
      temp := [];
      for k := 0 to |indexes|
        invariant nodes == old(nodes) + NewGeneration(particles, indexes[..k], reading)
        invariant |temp| == k
        invariant forall q :: 0 <= q < k ==>
          temp[q] == particles[indexes[q]].(node := base + q, previousIndex := indexes[q])
      {
        assert NewGeneration(particles, indexes[..k + 1], reading)
          == NewGeneration(particles, indexes[..k], reading)
             + [TNode(particles[indexes[k]].pose, 0.0, Some(oldGeneration[indexes[k]]), Some(reading))];
        var p := particles[indexes[k]];
        var node := TNode(p.pose, 0.0, Some(oldGeneration[indexes[k]]), Some(reading));
        nodes := nodes + [node];
        temp := temp + [p.(node := base + k, previousIndex := indexes[k])];
      }
      assert indexes[..|indexes|] == indexes;
    }

    /** Walks the sorted indexes to collect the particles not selected and
        releases their leaves. */
    method ReleaseUnselected(oldGeneration: seq<nat>)
      requires Sorted(indexes) && Below(indexes, |particles|)
      requires oldGeneration == Leaves(particles)
      modifies this`released
      ensures released == old(released) + DroppedLeaves(oldGeneration, indexes)
    {
      var deleted := CollectDeleted(indexes, |particles|);
      WalkToParticleCountIsExact(indexes, |particles|);
      for d := 0 to |deleted|
        invariant released == old(released) + LeavesAt(oldGeneration, deleted[..d])
      {
        assert deleted[d] in deleted;
        assert deleted[..d + 1][..d] == deleted[..d];
        released := released + {particles[deleted[d]].node};
      }
      assert deleted[..|deleted|] == deleted;
      ReleasedAreDropped(oldGeneration, deleted, indexes);
    }

    /** The branch without resampling: every particle moves onto a fresh node
        hung from its own leaf, has the scan registered into its map and
        records its own position as its previous index. */
    method ExtendParticles(plainReading: Ranges, reading: R, oldGeneration: seq<nat>)
      requires oldGeneration == Leaves(particles)
      modifies this`particles, this`nodes
      ensures particles == Extended(old(particles), |old(nodes)|, matcher, plainReading)
      ensures nodes == old(nodes) + NewGeneration(old(particles), Identity(|old(particles)|), reading)
    {
      var n := |particles|;
      var base := |nodes|;
      // the loop position doubles as the particle's previous index
      for i := 0 to n
        invariant |particles| == n
        invariant nodes == old(nodes) + NewGeneration(old(particles), Identity(i), reading)
        invariant forall q :: 0 <= q < i ==>
          particles[q] == Extended(old(particles), base, matcher, plainReading)[q]
        invariant forall q :: i <= q < n ==> particles[q] == old(particles)[q]
      {
        assert NewGeneration(old(particles), Identity(i + 1), reading)
          == NewGeneration(old(particles), Identity(i), reading)
             + [TNode(particles[i].pose, 0.0, Some(oldGeneration[i]), Some(reading))];
        var node := TNode(particles[i].pose, 0.0, Some(oldGeneration[i]), Some(reading));
        nodes := nodes + [node];
        var p := particles[i].(node := base + i);
        p := p.(grid := matcher.registerScan(p.grid, p.pose, plainReading));
        p := p.(previousIndex := i);
        particles := particles[i := p];
      }
      assert particles == Extended(old(particles), base, matcher, plainReading);
    }
  }

  /** One more entry updates the running maximum of a prefix. */
  lemma MaxOfLonger(s: seq<real>, i: nat)
    requires 0 < i < |s|
    ensures MaxOf(s[..i + 1]) == if s[i] > MaxOf(s[..i]) then s[i] else MaxOf(s[..i])
  {
    assert s[..i + 1][..i] == s[..i];
  }

  /** One more log-weight appends its unnormalised weight and adds it to the sum. */
  lemma ExpsOfLonger(ws: seq<real>, i: nat, gain: real, lmax: real, exp: real -> real)
    requires i < |ws|
    ensures Exps(ws[..i + 1], gain, lmax, exp) == Exps(ws[..i], gain, lmax, exp) + [Unnormalized(ws[i], gain, lmax, exp)]
    ensures Sum(Exps(ws[..i + 1], gain, lmax, exp)) == Sum(Exps(ws[..i], gain, lmax, exp)) + Unnormalized(ws[i], gain, lmax, exp)
  {
    var longer := Exps(ws[..i + 1], gain, lmax, exp);
    assert longer[..i] == Exps(ws[..i], gain, lmax, exp);
    assert longer == longer[..i] + [longer[i]];
  }

  /** One more entry adds its square to the sum of squares of a prefix. */
  lemma SumSquaresOfLonger(s: seq<real>, i: nat, acc: real, w: real)
    requires i < |s| && acc == SumSquares(s[..i]) && w == s[i]
    ensures SumSquares(s[..i + 1]) == acc + w * w
  {
    assert s[..i + 1][..i] == s[..i];
  }

  /** The unnormalised weights divided entry by entry by their sum are the
      normalised weights. */
  lemma NormalizedIsScaledExps(ws: seq<real>, gain: real, exp: real -> real, us: seq<real>, w: seq<real>)
    requires |ws| > 0 && ExpLike(exp)
    requires us == Exps(ws, gain, MaxOf(ws), exp)
    requires Sum(us) != 0.0 && |w| == |us|
    requires forall k :: 0 <= k < |us| ==> w[k] == us[k] / Sum(us)
    ensures w == Normalized(ws, gain, exp)
    ensures w[..|w|] == w
  {
  }

  /** The two passes of the resampling branch (copy the selected particles
      onto fresh leaves, then reset their weights and register the scan)
      produce the resampled particle set. */
  lemma CopiesAreResampled<M>(
    ps: seq<Particle<M>>, indexes: seq<nat>, base: nat, matcher: Matcher<M>, plainReading: Ranges,
    temp: seq<Particle<M>>, r: seq<Particle<M>>)
    requires Below(indexes, |ps|)
    requires |temp| == |r| == |indexes|
    requires forall q :: 0 <= q < |temp| ==>
      temp[q] == ps[indexes[q]].(node := base + q, previousIndex := indexes[q])
    requires forall q :: 0 <= q < |r| ==>
      r[q] == temp[q].(weight := 0.0, grid := matcher.registerScan(temp[q].grid, temp[q].pose, plainReading))
    ensures r == Resampled(ps, indexes, base, matcher, plainReading)
  {
    var expected := Resampled(ps, indexes, base, matcher, plainReading);
    forall q | 0 <= q < |r|
      ensures r[q] == expected[q]
    {
      var src := ps[indexes[q]];
      assert r[q].previousIndex == expected[q].previousIndex;
    }
  }

  /** Appending the new generation grows the tree as `Grown` describes. */
  lemma NewGenerationGrows<M, R>(ps: seq<Particle<M>>, nodes: seq<TNode<R>>, indexes: seq<nat>, reading: R)
    requires Below(indexes, |ps|)
    ensures Grown(nodes, nodes + NewGeneration(ps, indexes, reading), Leaves(ps), indexes)
  {
    var next := nodes + NewGeneration(ps, indexes, reading);
    assert next[..|nodes|] == nodes;
  }

  /** Selecting every particle once drops no leaf. */
  lemma IdentityDropsNothing(leaves: seq<nat>)
    ensures DroppedLeaves(leaves, Identity(|leaves|)) == {}
  {
    forall d | 0 <= d < |leaves|
      ensures d in Identity(|leaves|)
    {
      assert Identity(|leaves|)[d] == d;
    }
  }

  /** After either branch the trajectory of the k-th new particle is its
      fresh node on top of the unchanged trajectory of the particle it was
      drawn from, and no node on it has been released. */
  lemma NewGenerationLineage<M, R>(
    ps: seq<Particle<M>>, nodes: seq<TNode<R>>, released: set<nat>, indexes: seq<nat>, reading: R,
    next: seq<TNode<R>>, k: nat)
    requires TreeValid(Leaves(ps), nodes, released)
    requires Below(indexes, |ps|) && k < |indexes|
    requires next == nodes + NewGeneration(ps, indexes, reading)
    ensures Acyclic(next) && ps[indexes[k]].node < |nodes| && |nodes| + k < |next|
    ensures Lineage(next, |nodes| + k) == [|nodes| + k] + Lineage(nodes, ps[indexes[k]].node)
    ensures forall a :: a in Lineage(next, |nodes| + k) ==> a !in released + DroppedLeaves(Leaves(ps), indexes)
  {
    NewGenerationGrows(ps, nodes, indexes, reading);
    LiveFreshLineage(Leaves(ps), nodes, released, indexes, next, k);
    assert Leaves(ps)[indexes[k]] == ps[indexes[k]].node;
  }

  /** Not resampling is resampling with every particle drawn once in place,
      except that the per-step weights are kept rather than reset. */
  lemma ExtendedIsIdentityResampling<M>(ps: seq<Particle<M>>, base: nat, matcher: Matcher<M>, plainReading: Ranges)
    ensures Below(Identity(|ps|), |ps|)
    ensures |Extended(ps, base, matcher, plainReading)| == |Resampled(ps, Identity(|ps|), base, matcher, plainReading)|
    ensures forall i :: 0 <= i < |ps| ==>
      Extended(ps, base, matcher, plainReading)[i]
        == Resampled(ps, Identity(|ps|), base, matcher, plainReading)[i].(weight := ps[i].weight)
  {
    var e, r := Extended(ps, base, matcher, plainReading), Resampled(ps, Identity(|ps|), base, matcher, plainReading);
    forall i | 0 <= i < |ps|
      ensures e[i] == r[i].(weight := ps[i].weight)
    {
      assert Identity(|ps|)[i] == i;
      assert Leaves(e)[i] == Leaves(r)[i] == FreshIds(base, |ps|)[i];
    }
  }

  /** With normalised weights the effective sample size lies in [1, N], so
      a threshold of at most 1/N never triggers resampling. */
  lemma LowThresholdNeverResamples(ws: seq<real>, gain: real, exp: real -> real, threshold: real)
    requires |ws| > 0 && ExpLike(exp)
    requires threshold * |ws| as real <= 1.0
    ensures SumSquares(Normalized(ws, gain, exp)) > 0.0
    ensures !ResampleDue(Neff(Normalized(ws, gain, exp)), threshold, |ws|)
  {
    NeffBounds(ws, gain, exp);
  }

  /** A threshold above 1 triggers resampling at every step, whatever the weights. */
  lemma HighThresholdAlwaysResamples(ws: seq<real>, gain: real, exp: real -> real, threshold: real)
    requires |ws| > 0 && ExpLike(exp)
    requires threshold > 1.0
    ensures SumSquares(Normalized(ws, gain, exp)) > 0.0
    ensures ResampleDue(Neff(Normalized(ws, gain, exp)), threshold, |ws|)
  {
    NeffBounds(ws, gain, exp);
    ProductOfPositives(threshold - 1.0, |ws| as real);
  }

  /** Equal log-weights give the largest effective sample size N, so they
      never trigger resampling with a threshold of at most 1. */
  lemma EqualWeightsDoNotResample(ws: seq<real>, gain: real, exp: real -> real, threshold: real)
    requires |ws| > 0 && ExpLike(exp)
    requires forall i :: 0 <= i < |ws| ==> ws[i] == ws[0]
    requires threshold <= 1.0
    ensures SumSquares(Normalized(ws, gain, exp)) > 0.0
    ensures !ResampleDue(Neff(Normalized(ws, gain, exp)), threshold, |ws|)
  {
    NeffOfEqualWeights(ws, gain, exp);
    if threshold < 1.0 {
      ProductOfPositives(1.0 - threshold, |ws| as real);
    }
  }
}
