/** Geometry utilities: conversion between pixels and camera-normalized
    coordinates, and re-projection of image points through a rotation. */
module Geometry {
  import opened Types

  // ---------------------------------------------------------------------------
  // Pixels <-> normalized coordinates
  // ---------------------------------------------------------------------------

  /** (pixel - principal point) / focal, coordinate by coordinate. */
  function NormalizePoint(p: Point2, focal: real, pp: Point2): Point2
    requires focal != 0.0
  {
    Point2((p.x - pp.x) / focal, (p.y - pp.y) / focal)
  }

  /** normalized * focal + principal point, coordinate by coordinate. */
  function UnnormalizePoint(q: Point2, focal: real, pp: Point2): Point2
  {
    Point2(q.x * focal + pp.x, q.y * focal + pp.y)
  }

  /** Each normalized point, scaled by the focal length, is its pixel's offset
      from the principal point; the order of the points is kept. */
  function Normalize(pts: seq<Point2>, focal: real, pp: Point2): (r: seq<Point2>)
    requires focal != 0.0
    ensures |r| == |pts|
    ensures forall i :: 0 <= i < |r| ==>
      r[i].x * focal == pts[i].x - pp.x && r[i].y * focal == pts[i].y - pp.y
  {
    seq(|pts|, i requires 0 <= i < |pts| => NormalizePoint(pts[i], focal, pp))
  }

  /** Each pixel, taken back to normalized coordinates, gives the input point. */
  function Unnormalize(pts: seq<Point2>, focal: real, pp: Point2): (r: seq<Point2>)
    ensures |r| == |pts|
    ensures focal != 0.0 ==> forall i :: 0 <= i < |r| ==> NormalizePoint(r[i], focal, pp) == pts[i]
  {
    seq(|pts|, i requires 0 <= i < |pts| => UnnormalizePoint(pts[i], focal, pp))
  }

  lemma PointRoundTrip(p: Point2, focal: real, pp: Point2)
    requires focal != 0.0
    ensures UnnormalizePoint(NormalizePoint(p, focal, pp), focal, pp) == p
    ensures NormalizePoint(UnnormalizePoint(p, focal, pp), focal, pp) == p
  {
  }

  /** Normalization and its inverse undo each other exactly over the reals. */
  lemma NormalizeRoundTrip(pts: seq<Point2>, focal: real, pp: Point2)
    requires focal != 0.0
    ensures Unnormalize(Normalize(pts, focal, pp), focal, pp) == pts
    ensures Normalize(Unnormalize(pts, focal, pp), focal, pp) == pts
  {
    var there := Normalize(pts, focal, pp);
    var back := Unnormalize(there, focal, pp);
    forall i | 0 <= i < |pts| ensures back[i] == pts[i] {
      assert there[i] == NormalizePoint(pts[i], focal, pp);
      assert back[i] == UnnormalizePoint(there[i], focal, pp);
      PointRoundTrip(pts[i], focal, pp);
    }
    var up := Unnormalize(pts, focal, pp);
    var down := Normalize(up, focal, pp);
    forall i | 0 <= i < |pts| ensures down[i] == pts[i] {
      assert up[i] == UnnormalizePoint(pts[i], focal, pp);
      assert down[i] == NormalizePoint(up[i], focal, pp);
      PointRoundTrip(pts[i], focal, pp);
    }
  }

  // ---------------------------------------------------------------------------
  // Rotation
  // ---------------------------------------------------------------------------

  /** The homogeneous lift (x, y, 1) of an image point. */
  function Lift(p: Point2): Vec3
  {
    Vec3(p.x, p.y, 1.0)
  }

  /** The vector v scaled by k. */
  function Scale(k: real, v: Vec3): Vec3
  {
    Vec3(k * v.x, k * v.y, k * v.z)
  }

  /** The matrix-vector product R * v. */
  function Apply(R: seq<seq<real>>, v: Vec3): Vec3
    requires IsMatrix(R, 3, 3)
  {
    Vec3(R[0][0] * v.x + R[0][1] * v.y + R[0][2] * v.z,
         R[1][0] * v.x + R[1][1] * v.y + R[1][2] * v.z,
         R[2][0] * v.x + R[2][1] * v.y + R[2][2] * v.z)
  }

  /** The rotated ray through p does not lie in the plane z = 0, so it can be
      projected back onto the image plane. */
  predicate Projectable(R: seq<seq<real>>, p: Point2)
    requires IsMatrix(R, 3, 3)
  {
    Apply(R, Lift(p)).z != 0.0
  }

  predicate AllProjectable(R: seq<seq<real>>, pts: seq<Point2>)
    requires IsMatrix(R, 3, 3)
  {
    forall i :: 0 <= i < |pts| ==> Projectable(R, pts[i])
  }

  /** The central projection of R * (x, y, 1): its lift, scaled by the rotated
      depth c, is the rotated vector (a, b, c). */
  function RotatePoint(p: Point2, R: seq<seq<real>>): (q: Point2)
    requires IsMatrix(R, 3, 3) && Projectable(R, p)
    ensures var v := Apply(R, Lift(p)); v.z * q.x == v.x && v.z * q.y == v.y
  {
    var v := Apply(R, Lift(p));
    Point2(v.x / v.z, v.y / v.z)
  }

  function Rotated(pts: seq<Point2>, R: seq<seq<real>>): (r: seq<Point2>)
    requires IsMatrix(R, 3, 3) && AllProjectable(R, pts)
    ensures |r| == |pts|
  {
    seq(|pts|, i requires 0 <= i < |pts| => RotatePoint(pts[i], R))
  }

  const Identity3: seq<seq<real>> := [[1.0, 0.0, 0.0], [0.0, 1.0, 0.0], [0.0, 0.0, 1.0]]

  /** Rotating by the identity keeps every point (the rotated depth is 1). */
  lemma RotateIdentity(pts: seq<Point2>)
    ensures IsMatrix(Identity3, 3, 3) && AllProjectable(Identity3, pts)
    ensures Rotated(pts, Identity3) == pts
  {
  }

  /** Appends, point by point and in input order, the re-projection of each
      rotated point. */
  method Rotate(pts: seq<Point2>, R: seq<seq<real>>) returns (res: seq<Point2>)
    requires IsMatrix(R, 3, 3) && AllProjectable(R, pts)
    ensures |res| == |pts|
    ensures forall i :: 0 <= i < |pts| ==> res[i] == RotatePoint(pts[i], R)
    ensures res == Rotated(pts, R)
  {
    res := [];
    for i := 0 to |pts|
      invariant |res| == i
      invariant forall k :: 0 <= k < i ==> res[k] == RotatePoint(pts[k], R)
    {
      var v := Apply(R, Lift(pts[i]));
      res := res + [Point2(v.x / v.z, v.y / v.z)];
    }
  }
}
