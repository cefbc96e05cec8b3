/** Correspondence matching: for a current-frame point, the rotated
    previous-frame point nearest the epipolar line through that point and the
    focus of expansion, found by a linear scan in which the first minimum wins. */
module Correspondence {
  import opened Types

  /** The line y = m * x + n. */
  datatype Line = Line(m: real, n: real)

  /** The epipolar line: the line through p and the focus of expansion. */
  function EpipolarLine(p: Point2, foe: Point2): (l: Line)
    requires foe.x != p.x
    ensures l.m * p.x + l.n == p.y
    ensures l.m * foe.x + l.n == foe.y
  {
    var d := foe.x - p.x;
    var m := (foe.y - p.y) / d;
    var n := (p.y * foe.x - foe.y * p.x) / d;
    assert m * d == foe.y - p.y && n * d == p.y * foe.x - foe.y * p.x;
    assert (m * p.x + n) * d == p.y * d;
    assert (m * foe.x + n) * d == foe.y * d;
    Line(m, n)
  }

  /** The vertical residual |m * x + n - y| of q against the line; the
      perpendicular distance is this value divided by sqrt(m * m + 1). */
  function Residual(l: Line, q: Point2): (r: real)
    ensures r >= 0.0
    ensures r == 0.0 <==> l.m * q.x + l.n == q.y
  {
    Abs(l.m * q.x + l.n - q.y)
  }

  function Residuals(l: Line, cands: seq<Point2>): (ds: seq<real>)
    ensures |ds| == |cands|
    ensures forall i :: 0 <= i < |ds| ==> ds[i] == Residual(l, cands[i])
  {
    seq(|cands|, i requires 0 <= i < |cands| => Residual(l, cands[i]))
  }

  /** k is the position of the first minimum of ds: no entry is smaller, and
      every earlier entry is strictly larger. */
  predicate IsFirstMin(ds: seq<real>, k: nat)
  {
    k < |ds| &&
    (forall j :: 0 <= j < |ds| ==> ds[k] <= ds[j]) &&
    (forall j :: 0 <= j < k ==> ds[k] < ds[j])
  }

  /** The index a left-to-right scan keeps when it replaces its candidate only
      on a strictly smaller value. */
  function FirstMinIndex(ds: seq<real>): (k: nat)
    requires |ds| > 0
    ensures IsFirstMin(ds, k)
    decreases |ds|
  {
    if |ds| == 1 then 0
    else
      var k := FirstMinIndex(ds[..|ds| - 1]);
      if ds[|ds| - 1] < ds[k] then |ds| - 1 else k
  }

  /** The first minimum is unique, so the scan is deterministic. */
  lemma FirstMinUnique(ds: seq<real>, k: nat)
    requires IsFirstMin(ds, k)
    ensures k == FirstMinIndex(ds)
  {
  }

  /** Every entry of ds divided by the same positive s. */
  function Scaled(ds: seq<real>, s: real): (r: seq<real>)
    requires s > 0.0
    ensures |r| == |ds|
  {
    seq(|ds|, i requires 0 <= i < |ds| => ds[i] / s)
  }

  /** Dividing every value by the same positive constant selects the same
      first minimum. */
  lemma ScaledFirstMin(ds: seq<real>, s: real)
    requires |ds| > 0 && s > 0.0
    ensures FirstMinIndex(Scaled(ds, s)) == FirstMinIndex(ds)
  {
    var k := FirstMinIndex(ds);
    var sd := Scaled(ds, s);
    forall j | 0 <= j < |ds| ensures sd[k] <= sd[j] && (ds[k] < ds[j] ==> sd[k] < sd[j]) {
      DivisionKeepsOrder(ds[k], ds[j], s);
    }
    FirstMinUnique(sd, k);
  }

  lemma DivisionKeepsOrder(a: real, b: real, s: real)
    requires s > 0.0
    ensures a <= b ==> a / s <= b / s
    ensures a < b ==> a / s < b / s
  {
  }

  /** The index of the candidate that the matcher pairs with p. */
  function MatchIndex(p: Point2, cands: seq<Point2>, foe: Point2): (k: nat)
    requires |cands| > 0 && foe.x != p.x
    ensures k < |cands|
  {
    FirstMinIndex(Residuals(EpipolarLine(p, foe), cands))
  }

  /** Ranking the candidates by their perpendicular distance to the epipolar
      line, |m * x + n - y| / s with s the positive root of m * m + 1, selects
      the same candidate as ranking them by the residual alone. */
  lemma MatchByPerpendicularDistance(p: Point2, cands: seq<Point2>, foe: Point2, s: real)
    requires |cands| > 0 && foe.x != p.x
    requires s > 0.0 && s * s == EpipolarLine(p, foe).m * EpipolarLine(p, foe).m + 1.0
    ensures FirstMinIndex(Scaled(Residuals(EpipolarLine(p, foe), cands), s)) == MatchIndex(p, cands, foe)
  {
    ScaledFirstMin(Residuals(EpipolarLine(p, foe), cands), s);
  }

  /** Scans the rotated previous points in order, keeping the first one with
      the smallest residual against the epipolar line through p and foe. */
  method FindCorrespondingPoint(p: Point2, normPtsRot: seq<Point2>, foe: Point2)
    returns (index: nat, q: Point2)
    requires |normPtsRot| > 0 && foe.x != p.x
    ensures index < |normPtsRot| && q == normPtsRot[index]
    ensures forall j :: 0 <= j < |normPtsRot| ==>
      Residual(EpipolarLine(p, foe), q) <= Residual(EpipolarLine(p, foe), normPtsRot[j])
    ensures forall j :: 0 <= j < index ==>
      Residual(EpipolarLine(p, foe), q) < Residual(EpipolarLine(p, foe), normPtsRot[j])
    ensures index == MatchIndex(p, normPtsRot, foe)
  {
    var line := EpipolarLine(p, foe);
    ghost var ds := Residuals(line, normPtsRot);
    var min: real := 0.0;
    var best: int := -1;
    for i := 0 to |normPtsRot|
      invariant (best == -1) == (i == 0)
      invariant best < i
      invariant i > 0 ==> best == FirstMinIndex(ds[..i]) && min == ds[best]
    {
      var tmp := Residual(line, normPtsRot[i]);
      assert ds[..i + 1][..i] == ds[..i];
      if best == -1 || tmp < min {
        min := tmp;
        best := i;
      }
    }
    assert ds[..|normPtsRot|] == ds;
    index := best;
    q := normPtsRot[index];
  }
}
