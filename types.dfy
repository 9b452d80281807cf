/** Value types shared by one step of the grid-based particle filter:
    poses, particles, ancestry-tree nodes and the scan matcher's interface. */
module SlamTypes {

  datatype Option<T> = None | Some(value: T)

  /** A planar pose (an oriented point): position and heading. */
  datatype Pose = Pose(x: real, y: real, theta: real)

  /** The plain range reading handed to the scan matcher (an array of doubles). */
  type Ranges = seq<real>

  /** One filter hypothesis over a map of type `M`.
      `weight` is the per-step log-likelihood, `weightSum` the lifetime one;
      `grid` is the particle's own map;
      `node` is the arena id of the particle's current ancestry leaf;
      `previousIndex` is the position, in the set before resampling, of the
      particle it descends from. */
  datatype Particle<M> = Particle(
    pose: Pose,
    weight: real,
    weightSum: real,
    grid: M,
    node: nat,
    previousIndex: nat)

  /** A node of the ancestry tree: the pose it records, a diagnostic weight,
      the arena id of its parent and the range reading (of type `R`) that
      produced it. Root nodes have neither parent nor reading. */
  datatype TNode<R> = TNode(pose: Pose, weight: real, parent: Option<nat>, reading: Option<R>)

  /** What `optimize` hands back: the corrected pose and the match score. */
  datatype Correction = Correction(corrected: Pose, score: real)

  /** What `likelihoodAndScore` hands back: a score and the log-likelihood. */
  datatype Evaluation = Evaluation(score: real, likelihood: real)

  /** The scan matcher, an external collaborator, as the four capabilities
      the filter step uses. Each works on a particle's own map; the two that
      change the map return the new map. */
  datatype Matcher<!M> = Matcher(
    optimize: (M, Pose, Ranges) -> Correction,
    likelihoodAndScore: (M, Pose, Ranges) -> Evaluation,
    computeActiveArea: (M, Pose, Ranges) -> M,
    registerScan: (M, Pose, Ranges) -> M)
}
