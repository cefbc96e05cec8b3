/** The pipeline orchestrator: prepares a (previous, current) pair of frame
    containers, applies the skip guards in their fixed order, and otherwise
    writes the triangulation results into the current container. */
module Pipeline {
  import opened Types
  import opened Geometry
  import opened EgoMotion
  import opened Correspondence
  import opened Triangulation

  /** One video frame: its detected traffic-light pixels, its ego-motion
      relative to the previous frame, and the three results the pipeline
      attaches to it (absent until a call that is not skipped sets them). */
  class Container {
    var trafficLight: seq<Point2>
    var em: seq<seq<real>>
    var correspondingInd: Option<seq<nat>>
    var trafficLights3dLocation: Option<seq<Vec3>>
    var valid: Option<seq<bool>>

    constructor (trafficLight: seq<Point2>, em: seq<seq<real>>)
      ensures this.trafficLight == trafficLight && this.em == em
      ensures correspondingInd == None && trafficLights3dLocation == None && valid == None
    {
      this.trafficLight := trafficLight;
      this.em := em;
      correspondingInd := None;
      trafficLights3dLocation := None;
      valid := None;
    }
  }

  /** The forward translation below which the motion counts as degenerate
      (written 10e-6 in the source, that is 1e-5). */
  const TzEpsilon: real := 0.00001

  /** Why a frame pair is skipped, one reason per guard. */
  datatype SkipReason = DegenerateMotion | NoPrevPoints | NoCurrPoints

  /** The guards, tested in order: a near-zero forward translation first,
      then an empty previous point set, then an empty current point set. None
      means that triangulation goes ahead, which needs tZ != 0. */
  function Guard(tZ: real, prevCount: nat, currCount: nat): (g: Option<SkipReason>)
    ensures g == Some(DegenerateMotion) <==> Abs(tZ) < TzEpsilon
    ensures g == Some(NoPrevPoints) <==> Abs(tZ) >= TzEpsilon && prevCount == 0
    ensures g == Some(NoCurrPoints) <==> Abs(tZ) >= TzEpsilon && prevCount > 0 && currCount == 0
    ensures g == None <==> Abs(tZ) >= TzEpsilon && prevCount > 0 && currCount > 0
    ensures g == None ==> tZ != 0.0
  {
    if Abs(tZ) < TzEpsilon then Some(DegenerateMotion)
    else if prevCount == 0 then Some(NoPrevPoints)
    else if currCount == 0 then Some(NoCurrPoints)
    else None
  }

  /** What prepare_3D_data hands on: both point sets in normalized
      coordinates, and the decomposed ego-motion of the current frame. */
  datatype Prepared = Prepared(normPrev: seq<Point2>, normCurr: seq<Point2>, R: seq<seq<real>>, foe: Option<Point2>, tZ: real)

  /** Both frames' points normalized, in order and recoverable as pixels, and
      the current ego-motion split into rotation, focus of expansion and tZ. */
  function Prepare3DData(prev: Container, curr: Container, focal: real, pp: Point2): (d: Prepared)
    reads prev, curr
    requires focal != 0.0 && IsMatrix(curr.em, 4, 4)
    ensures |d.normPrev| == |prev.trafficLight| && |d.normCurr| == |curr.trafficLight|
    ensures Unnormalize(d.normPrev, focal, pp) == prev.trafficLight
    ensures Unnormalize(d.normCurr, focal, pp) == curr.trafficLight
    ensures IsMatrix(d.R, 3, 3) && forall i, j :: 0 <= i < 3 && 0 <= j < 3 ==> d.R[i][j] == curr.em[i][j]
    ensures d.tZ == curr.em[2][3]
    ensures d.foe.None? <==> d.tZ == 0.0
    ensures d.foe.Some? ==> d.foe.value.x * d.tZ == curr.em[0][3] && d.foe.value.y * d.tZ == curr.em[1][3]
  {
    NormalizeRoundTrip(prev.trafficLight, focal, pp);
    NormalizeRoundTrip(curr.trafficLight, focal, pp);
    var motion := Decompose(curr.em);
    Prepared(Normalize(prev.trafficLight, focal, pp), Normalize(curr.trafficLight, focal, pp),
             motion.R, motion.foe, motion.tZ)
  }

  /** What the source needs of its caller: a non-zero focal length, a 4x4
      ego-motion, and, when no guard skips the pair, a triangulation in which
      every division is defined. */
  predicate WellPosed(prev: Container, curr: Container, focal: real, pp: Point2)
    reads prev, curr
  {
    focal != 0.0 && IsMatrix(curr.em, 4, 4) &&
    var d := Prepare3DData(prev, curr, focal, pp);
    Guard(d.tZ, |d.normPrev|, |d.normCurr|) == None ==>
      d.foe.Some? && Triangulable(d.normPrev, d.normCurr, d.R, d.foe.value)
  }

  /** Skips the pair when a guard fires, leaving the current container as it
      was; otherwise sets exactly its three result fields, one entry per
      current point in order. A previous container distinct from the current
      one is never written, and the current container is returned. */
  method CalcTflDist(prev: Container, curr: Container, focal: real, pp: Point2) returns (res: Container)
    requires WellPosed(prev, curr, focal, pp)
    modifies curr`correspondingInd, curr`trafficLights3dLocation, curr`valid
    ensures res == curr
    ensures prev != curr ==> unchanged(prev)
    ensures curr.trafficLight == old(curr.trafficLight) && curr.em == old(curr.em)
    ensures var d := Prepare3DData(prev, curr, focal, pp);
      if Guard(d.tZ, |d.normPrev|, |d.normCurr|).Some? then
        unchanged(curr)
      else
        var es := Triangulate(d.normPrev, d.normCurr, d.R, d.foe.value, d.tZ);
        curr.correspondingInd == Some(Indices(es)) &&
        curr.trafficLights3dLocation == Some(Locations(es)) &&
        curr.valid == Some(Validity(es))
  {
    var d := Prepare3DData(prev, curr, focal, pp);
    if Abs(d.tZ) < TzEpsilon {
      // degenerate forward motion: skipped
    } else if |d.normPrev| == 0 {
      // no previous points: skipped
    } else if |d.normCurr| == 0 {
      // no current points: skipped
    } else {
      var correspondingInd, pts3D, validVec := Calc3DData(d.normPrev, d.normCurr, d.R, d.foe.value, d.tZ);
      curr.correspondingInd, curr.trafficLights3dLocation, curr.valid := Some(correspondingInd), Some(pts3D), Some(validVec);
    }
    res := curr;
  }
}
