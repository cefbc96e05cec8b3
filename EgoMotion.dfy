/** Ego-motion decomposition: a 4x4 rigid transform from the previous camera
    pose to the current one, split into its rotation, its focus of expansion
    and its forward translation. */
module EgoMotion {
  import opened Types

  /** R is the 3x3 rotation block; foe is absent when tZ is zero. */
  datatype Decomposition = Decomposition(R: seq<seq<real>>, foe: Option<Point2>, tZ: real)

  /** The rotation is the top-left 3x3 block, tZ the third entry of the
      translation column, and the focus of expansion is the image point whose
      lift, scaled by tZ, is the translation (tX, tY, tZ). */
  function Decompose(em: seq<seq<real>>): (d: Decomposition)
    requires IsMatrix(em, 4, 4)
    ensures IsMatrix(d.R, 3, 3)
    ensures forall i, j :: 0 <= i < 3 && 0 <= j < 3 ==> d.R[i][j] == em[i][j]
    ensures d.tZ == em[2][3]
    ensures d.foe.None? <==> d.tZ == 0.0
    ensures d.foe.Some? ==> d.foe.value.x * d.tZ == em[0][3] && d.foe.value.y * d.tZ == em[1][3]
  {
    var R := [em[0][..3], em[1][..3], em[2][..3]];
    var tX, tY, tZ := em[0][3], em[1][3], em[2][3];
    var foe := if tZ == 0.0 then None else Some(Point2(tX / tZ, tY / tZ));
    Decomposition(R, foe, tZ)
  }
}
