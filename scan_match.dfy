/** The per-particle scan-matching correction and likelihood weighting of
    one filter step. */
module ScanMatching {
  import opened SlamTypes

  /** The pose a particle keeps after matching: the matcher's corrected pose
      when the match score is above `minimumScore`, otherwise the pose it
      already had (the odometry fallback). */
  function MatchedPose<M>(p: Particle<M>, matcher: Matcher<M>, plainReading: Ranges, minimumScore: real): (pose: Pose)
    ensures matcher.optimize(p.grid, p.pose, plainReading).score > minimumScore ==>
      pose == matcher.optimize(p.grid, p.pose, plainReading).corrected
    ensures matcher.optimize(p.grid, p.pose, plainReading).score <= minimumScore ==>
      pose == p.pose
  {
    var c := matcher.optimize(p.grid, p.pose, plainReading);
    if c.score > minimumScore then c.corrected else p.pose
  }

  /** A particle after scan matching: it takes its matched pose, adds the
      log-likelihood of that pose to both its per-step and its lifetime
      weight, and its map gets the active area of that pose; its leaf and
      previous index are untouched. */
  function ScanMatched<M>(p: Particle<M>, matcher: Matcher<M>, plainReading: Ranges, minimumScore: real): (r: Particle<M>)
    ensures r.pose == MatchedPose(p, matcher, plainReading, minimumScore)
    ensures r.weight - p.weight == r.weightSum - p.weightSum
      == matcher.likelihoodAndScore(p.grid, r.pose, plainReading).likelihood
    ensures r.grid == matcher.computeActiveArea(p.grid, r.pose, plainReading)
    ensures r.node == p.node && r.previousIndex == p.previousIndex
  {
    var pose := MatchedPose(p, matcher, plainReading, minimumScore);
    var l := matcher.likelihoodAndScore(p.grid, pose, plainReading).likelihood;
    p.(pose := pose, weight := p.weight + l, weightSum := p.weightSum + l,
       grid := matcher.computeActiveArea(p.grid, pose, plainReading))
  }

  /** A rejected match leaves the pose exactly as it was, and the lifetime
      weight keeps its distance to the per-step weight. */
  lemma RejectedMatchKeepsPose<M>(p: Particle<M>, matcher: Matcher<M>, plainReading: Ranges, minimumScore: real)
    requires matcher.optimize(p.grid, p.pose, plainReading).score <= minimumScore
    ensures ScanMatched(p, matcher, plainReading, minimumScore).pose == p.pose
    ensures var r := ScanMatched(p, matcher, plainReading, minimumScore);
      r.weightSum - r.weight == p.weightSum - p.weight
  {
  }
}
