/** Value types shared by the distance pipeline: optional values, 2D and 3D points
    over the reals, absolute value and a shape predicate for dense matrices. */
module Types {

  /** A value that may be absent (an attribute not yet set, an undefined quotient). */
  datatype Option<+T> = None | Some(value: T)

  /** A 2D point: a pixel, or a point in camera-normalized coordinates. */
  datatype Point2 = Point2(x: real, y: real)

  /** A 3D vector: a homogeneous image point or a camera-relative location (X, Y, Z). */
  datatype Vec3 = Vec3(x: real, y: real, z: real)

  function Abs(r: real): (a: real)
    ensures a >= 0.0
    ensures a == r || a == -r
  {
    if r < 0.0 then -r else r
  }

  /** m is a dense rows-by-cols matrix, stored row by row. */
  predicate IsMatrix(m: seq<seq<real>>, rows: nat, cols: nat)
  {
    |m| == rows && forall i :: 0 <= i < rows ==> |m[i]| == cols
  }
}
