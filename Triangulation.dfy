/** Depth triangulation: a depth per correspondence from the x- and y-axis
    estimates, validity gating on a positive depth, and the three parallel
    outputs (matched index, 3D location, validity) for a frame's points. */
module Triangulation {
  import opened Types
  import opened Geometry
  import opened Correspondence

  /** The depth implied by the x coordinates alone. */
  function DepthPerX(pCurr: Point2, pRot: Point2, foe: Point2, tZ: real): real
    requires pCurr.x != pRot.x
  {
    (tZ * (foe.x - pRot.x)) / (pCurr.x - pRot.x)
  }

  /** The depth implied by the y coordinates alone. */
  function DepthPerY(pCurr: Point2, pRot: Point2, foe: Point2, tZ: real): real
    requires pCurr.y != pRot.y
  {
    (tZ * (foe.y - pRot.y)) / (pCurr.y - pRot.y)
  }

  /** The combined estimate |z_x + z_y| / 2: never negative, and zero exactly
      when the two axis estimates cancel. */
  function CalcDist(pCurr: Point2, pRot: Point2, foe: Point2, tZ: real): (z: real)
    requires pCurr.x != pRot.x && pCurr.y != pRot.y
    ensures z >= 0.0
    ensures z == 0.0 <==> DepthPerX(pCurr, pRot, foe, tZ) + DepthPerY(pCurr, pRot, foe, tZ) == 0.0
  {
    Abs(DepthPerX(pCurr, pRot, foe, tZ) + DepthPerY(pCurr, pRot, foe, tZ)) / 2.0
  }

  /** One axis of a noise-free observation: a static point at coordinate a and
      depth Z in the current camera frame, after the camera moved by t on that
      axis and by tZ forward, is seen at c = a / Z now and at
      r = (a - t) / (Z - tZ) in the de-rotated previous frame, and the focus of
      expansion is at f = t / tZ. The displacement c - r is then not zero and,
      scaled by Z, equals tZ * (f - r), the relation each axis estimate inverts. */
  lemma AxisDisplacement(a: real, t: real, Z: real, tZ: real)
    requires Z != 0.0 && tZ != 0.0 && Z != tZ
    requires Z * t != a * tZ
    ensures a / Z != (a - t) / (Z - tZ)
    ensures (a / Z - (a - t) / (Z - tZ)) * Z == tZ * (t / tZ - (a - t) / (Z - tZ))
  {
  }

  /** The x-axis estimate gives back the depth Z of any observation that is
      consistent with Z on that axis. */
  lemma DepthPerXConsistent(pCurr: Point2, pRot: Point2, foe: Point2, tZ: real, Z: real)
    requires pCurr.x != pRot.x
    requires (pCurr.x - pRot.x) * Z == tZ * (foe.x - pRot.x)
    ensures DepthPerX(pCurr, pRot, foe, tZ) == Z
  {
  }

  /** The y-axis estimate gives back the depth Z of any observation that is
      consistent with Z on that axis. */
  lemma DepthPerYConsistent(pCurr: Point2, pRot: Point2, foe: Point2, tZ: real, Z: real)
    requires pCurr.y != pRot.y
    requires (pCurr.y - pRot.y) * Z == tZ * (foe.y - pRot.y)
    ensures DepthPerY(pCurr, pRot, foe, tZ) == Z
  {
  }

  /** Triangulation is exact on noise-free data: for a static point at
      (X, Y, Z) in the current camera frame, a camera translation (tX, tY, tZ)
      and no displacement that is degenerate on either axis, the combined
      estimate is |Z|. */
  lemma CalcDistExact(X: real, Y: real, Z: real, tX: real, tY: real, tZ: real)
    requires Z != 0.0 && tZ != 0.0 && Z != tZ
    requires Z * tX != X * tZ && Z * tY != Y * tZ
    ensures var pCurr := Point2(X / Z, Y / Z);
            var pRot := Point2((X - tX) / (Z - tZ), (Y - tY) / (Z - tZ));
            var foe := Point2(tX / tZ, tY / tZ);
            pCurr.x != pRot.x && pCurr.y != pRot.y && CalcDist(pCurr, pRot, foe, tZ) == Abs(Z)
  {
    var pCurr := Point2(X / Z, Y / Z);
    var pRot := Point2((X - tX) / (Z - tZ), (Y - tY) / (Z - tZ));
    var foe := Point2(tX / tZ, tY / tZ);
    AxisDisplacement(X, tX, Z, tZ);
    AxisDisplacement(Y, tY, Z, tZ);
    DepthPerXConsistent(pCurr, pRot, foe, tZ, Z);
    DepthPerYConsistent(pCurr, pRot, foe, tZ, Z);
  }

  /** The output of the pipeline for one current-frame point: the matched
      previous-point index, the 3D location and the validity flag. */
  datatype Entry = Entry(ind: nat, loc: Vec3, valid: bool)

  /** Every division made for p is defined: there is a candidate, the
      epipolar line is not vertical, and the matched candidate differs from p
      on both axes. */
  predicate Matchable(p: Point2, rot: seq<Point2>, foe: Point2)
  {
    |rot| > 0 && foe.x != p.x &&
    var k := MatchIndex(p, rot, foe);
    p.x != rot[k].x && p.y != rot[k].y
  }

  /** The entry for p: valid exactly when the estimated depth is positive; a
      valid entry lies on the viewing ray through p at that depth, an invalid
      one is the origin. */
  function TriangulatePoint(p: Point2, rot: seq<Point2>, foe: Point2, tZ: real): (e: Entry)
    requires Matchable(p, rot, foe)
    ensures e.ind == MatchIndex(p, rot, foe)
    ensures e.valid <==> CalcDist(p, rot[e.ind], foe, tZ) > 0.0
    ensures e.valid <==> DepthPerX(p, rot[e.ind], foe, tZ) + DepthPerY(p, rot[e.ind], foe, tZ) != 0.0
    ensures e.valid ==> e.loc.z == CalcDist(p, rot[e.ind], foe, tZ)
    ensures e.loc.z >= 0.0 && (e.valid <==> e.loc.z > 0.0)
    ensures !e.valid ==> e.loc == Vec3(0.0, 0.0, 0.0)
    ensures e.loc.x == e.loc.z * p.x && e.loc.y == e.loc.z * p.y
  {
    var k := MatchIndex(p, rot, foe);
    var z := CalcDist(p, rot[k], foe, tZ);
    var valid := z > 0.0;
    var depth := if valid then z else 0.0;
    Entry(k, Scale(depth, Lift(p)), valid)
  }

  /** Every current point can be triangulated against the rotated previous
      points. */
  predicate Triangulable(normPrev: seq<Point2>, normCurr: seq<Point2>, R: seq<seq<real>>, foe: Point2)
    requires IsMatrix(R, 3, 3)
  {
    AllProjectable(R, normPrev) &&
    forall i :: 0 <= i < |normCurr| ==> Matchable(normCurr[i], Rotated(normPrev, R), foe)
  }

  /** The entries of all current points, in current-point order. */
  function Triangulate(normPrev: seq<Point2>, normCurr: seq<Point2>, R: seq<seq<real>>, foe: Point2, tZ: real)
    : (es: seq<Entry>)
    requires IsMatrix(R, 3, 3) && Triangulable(normPrev, normCurr, R, foe)
    ensures |es| == |normCurr|
  {
    var rot := Rotated(normPrev, R);
    seq(|normCurr|, i requires 0 <= i < |normCurr| => TriangulatePoint(normCurr[i], rot, foe, tZ))
  }

  function Indices(es: seq<Entry>): (r: seq<nat>)
    ensures |r| == |es| && forall i :: 0 <= i < |es| ==> r[i] == es[i].ind
  {
    seq(|es|, i requires 0 <= i < |es| => es[i].ind)
  }

  function Locations(es: seq<Entry>): (r: seq<Vec3>)
    ensures |r| == |es| && forall i :: 0 <= i < |es| ==> r[i] == es[i].loc
  {
    seq(|es|, i requires 0 <= i < |es| => es[i].loc)
  }

  function Validity(es: seq<Entry>): (r: seq<bool>)
    ensures |r| == |es| && forall i :: 0 <= i < |es| ==> r[i] == es[i].valid
  {
    seq(|es|, i requires 0 <= i < |es| => es[i].valid)
  }

  /** Rotates the previous points, then for each current point in order
      appends its matched index, its 3D location and its validity flag. */
  method Calc3DData(normPrevPts: seq<Point2>, normCurrPts: seq<Point2>, R: seq<seq<real>>, foe: Point2, tZ: real)
    returns (correspondingInd: seq<nat>, pts3D: seq<Vec3>, validVec: seq<bool>)
    requires IsMatrix(R, 3, 3) && Triangulable(normPrevPts, normCurrPts, R, foe)
    ensures |correspondingInd| == |pts3D| == |validVec| == |normCurrPts|
    ensures forall i :: 0 <= i < |normCurrPts| ==>
      correspondingInd[i] < |normPrevPts| &&
      (validVec[i] <==> pts3D[i].z > 0.0) &&
      (!validVec[i] ==> pts3D[i] == Vec3(0.0, 0.0, 0.0))
    ensures var es := Triangulate(normPrevPts, normCurrPts, R, foe, tZ);
      correspondingInd == Indices(es) && pts3D == Locations(es) && validVec == Validity(es)
  {
    var normRotPts := Rotate(normPrevPts, R);
    ghost var es := Triangulate(normPrevPts, normCurrPts, R, foe, tZ);
    correspondingInd, pts3D, validVec := [], [], [];
    for i := 0 to |normCurrPts|
      invariant |correspondingInd| == |pts3D| == |validVec| == i
      invariant forall k :: 0 <= k < i ==> Entry(correspondingInd[k], pts3D[k], validVec[k]) == es[k]
    {
      var pCurr := normCurrPts[i];
      assert Matchable(pCurr, normRotPts, foe);
      var ind, pRot := FindCorrespondingPoint(pCurr, normRotPts, foe);
      var z := CalcDist(pCurr, pRot, foe, tZ);
      var valid := z > 0.0;
      if !valid {
        z := 0.0;
      }
      validVec := validVec + [valid];
      var P := Scale(z, Lift(pCurr));
      assert Entry(ind, P, valid) == es[i] by {
        assert es[i] == TriangulatePoint(pCurr, normRotPts, foe, tZ);
      }
      pts3D := pts3D + [P];
      correspondingInd := correspondingInd + [ind];
    }
    assert correspondingInd == Indices(es) && pts3D == Locations(es) && validVec == Validity(es);
    forall i | 0 <= i < |normCurrPts|
      ensures correspondingInd[i] < |normPrevPts|
      ensures validVec[i] <==> pts3D[i].z > 0.0
      ensures !validVec[i] ==> pts3D[i] == Vec3(0.0, 0.0, 0.0)
    {
      assert es[i] == TriangulatePoint(normCurrPts[i], normRotPts, foe, tZ);
    }
  }
}
