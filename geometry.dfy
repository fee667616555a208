/**
 * The exact normalisation steps of dollarN.py: bouding_box_size,
 * scale_dim_to and translate_to. Coordinates are Dafny reals, so float
 * round-off is abstracted away; numpy's arrays of points become sequences
 * of Point values.
 */
module Geometry {

  datatype Point = Point(x: real, y: real)

  function Xs(ps: seq<Point>): seq<real>
  {
    seq(|ps|, i requires 0 <= i < |ps| => ps[i].x)
  }

  function Ys(ps: seq<Point>): seq<real>
  {
    seq(|ps|, i requires 0 <= i < |ps| => ps[i].y)
  }

  function Max2(a: real, b: real): real { if a >= b then a else b }

  function Min2(a: real, b: real): real { if a <= b then a else b }

  /** np.max over one column */
  function Max(xs: seq<real>): real
    requires |xs| > 0
  {
    if |xs| == 1 then xs[0] else Max2(Max(xs[..|xs| - 1]), xs[|xs| - 1])
  }

  /** np.min over one column */
  function Min(xs: seq<real>): real
    requires |xs| > 0
  {
    if |xs| == 1 then xs[0] else Min2(Min(xs[..|xs| - 1]), xs[|xs| - 1])
  }

  /** Max is the largest value of the column, and one of its values */
  lemma {:induction false} MaxIsMaximum(xs: seq<real>)
    requires |xs| > 0
    ensures forall i :: 0 <= i < |xs| ==> xs[i] <= Max(xs)
    ensures exists i :: 0 <= i < |xs| && xs[i] == Max(xs)
  {
    if |xs| > 1 {
      var init := xs[..|xs| - 1];
      MaxIsMaximum(init);
      assert forall i :: 0 <= i < |init| ==> init[i] == xs[i];
      var j :| 0 <= j < |init| && init[j] == Max(init);
      if Max(xs) == Max(init) {
        assert xs[j] == Max(xs);
      } else {
        assert xs[|xs| - 1] == Max(xs);
      }
    } else {
      assert xs[0] == Max(xs);
    }
  }

  /** Min is the smallest value of the column, and one of its values */
  lemma {:induction false} MinIsMinimum(xs: seq<real>)
    requires |xs| > 0
    ensures forall i :: 0 <= i < |xs| ==> Min(xs) <= xs[i]
    ensures exists i :: 0 <= i < |xs| && xs[i] == Min(xs)
  {
    if |xs| > 1 {
      var init := xs[..|xs| - 1];
      MinIsMinimum(init);
      assert forall i :: 0 <= i < |init| ==> init[i] == xs[i];
      var j :| 0 <= j < |init| && init[j] == Min(init);
      if Min(xs) == Min(init) {
        assert xs[j] == Min(xs);
      } else {
        assert xs[|xs| - 1] == Min(xs);
      }
    } else {
      assert xs[0] == Min(xs);
    }
  }

  /** bouding_box_size: the extents max - min of each axis */
  function BoundingBoxSize(ps: seq<Point>): (b: Point)
    requires |ps| > 0
    ensures b.x >= 0.0 && b.y >= 0.0
  {
    MaxIsMaximum(Xs(ps));
    MinIsMinimum(Xs(ps));
    MaxIsMaximum(Ys(ps));
    MinIsMinimum(Ys(ps));
    Point(Max(Xs(ps)) - Min(Xs(ps)), Max(Ys(ps)) - Min(Ys(ps)))
  }

  /**
   * The extents bound every difference between two points, and are
   * reached by some pair of points
   */
  lemma BoxIsTight(ps: seq<Point>)
    requires |ps| > 0
    ensures forall i, j :: 0 <= i < |ps| && 0 <= j < |ps| ==> ps[i].x - ps[j].x <= BoundingBoxSize(ps).x
    ensures forall i, j :: 0 <= i < |ps| && 0 <= j < |ps| ==> ps[i].y - ps[j].y <= BoundingBoxSize(ps).y
    ensures exists i, j :: 0 <= i < |ps| && 0 <= j < |ps| && ps[i].x - ps[j].x == BoundingBoxSize(ps).x
    ensures exists i, j :: 0 <= i < |ps| && 0 <= j < |ps| && ps[i].y - ps[j].y == BoundingBoxSize(ps).y
  {
    var xs, ys := Xs(ps), Ys(ps);
    assert |xs| == |ps| && |ys| == |ps|;
    assert forall i :: 0 <= i < |ps| ==> xs[i] == ps[i].x && ys[i] == ps[i].y;
    MaxIsMaximum(xs);
    MinIsMinimum(xs);
    MaxIsMaximum(ys);
    MinIsMinimum(ys);
    var a :| 0 <= a < |xs| && xs[a] == Max(xs);
    var c :| 0 <= c < |xs| && xs[c] == Min(xs);
    assert ps[a].x - ps[c].x == BoundingBoxSize(ps).x;
    var d :| 0 <= d < |ys| && ys[d] == Max(ys);
    var e :| 0 <= e < |ys| && ys[e] == Min(ys);
    assert ps[d].y - ps[e].y == BoundingBoxSize(ps).y;
  }

  // ---------------------------------------------------------------------------
  // scale_dim_to

  /**
   * A bounding box is treated as line-like, and scaled uniformly, when one
   * extent is zero or the smaller-to-larger ratio is at most ratio1D.
   */
  predicate LineLike(b: Point, ratio1D: real)
  {
    b.x == 0.0 || b.y == 0.0 || Min2(b.x / b.y, b.y / b.x) <= ratio1D
  }

  /** The factors scale_dim_to multiplies x and y by */
  function ScaleFactors(b: Point, size: real, ratio1D: real): Point
    requires b.x >= 0.0 && b.y >= 0.0 && (b.x != 0.0 || b.y != 0.0)
  {
    if LineLike(b, ratio1D) then Point(size / Max2(b.x, b.y), size / Max2(b.x, b.y))
    else Point(size / b.x, size / b.y)
  }

  /**
   * The product of two reals. Scaled coordinates are written with it so
   * that proofs about them rest on equalities of products rather than on
   * nonlinear arithmetic.
   */
  function Mul(a: real, b: real): real { a * b }

  /** p with its x multiplied by f.x and its y by f.y */
  function ScalePointBy(p: Point, f: Point): Point
  {
    Point(Mul(p.x, f.x), Mul(p.y, f.y))
  }

  function ScaleBy(ps: seq<Point>, f: Point): seq<Point>
  {
    seq(|ps|, i requires 0 <= i < |ps| => ScalePointBy(ps[i], f))
  }

  /**
   * scale_dim_to(points, size, ratio1D). The source divides by
   * max(bx, by) without a guard, so a box with both extents zero (all points
   * equal) is excluded here.
   */
  method ScaleDimTo(points: seq<Point>, size: real, ratio1D: real) returns (newPoints: seq<Point>)
    requires |points| > 0
    requires BoundingBoxSize(points) != Point(0.0, 0.0)
    ensures newPoints == ScaleBy(points, ScaleFactors(BoundingBoxSize(points), size, ratio1D))
  {
    var b := BoundingBoxSize(points);
    ghost var f := ScaleFactors(b, size, ratio1D);
    newPoints := [];
    for k := 0 to |points|
      invariant newPoints == ScaleBy(points[..k], f)
    {
      var q := ScalePoint(points[k], b, size, ratio1D);
      ScaleByAppend(points, k, f, newPoints, q);
      newPoints := newPoints + [q];
    }
    assert points[..|points|] == points;
  }

  /** The body of scale_dim_to's loop: one point, scaled as the box's shape demands */
  method ScalePoint(p: Point, b: Point, size: real, ratio1D: real) returns (q: Point)
    requires b.x >= 0.0 && b.y >= 0.0 && (b.x != 0.0 || b.y != 0.0)
    ensures q == ScalePointBy(p, ScaleFactors(b, size, ratio1D))
  {
    if b.x == 0.0 || b.y == 0.0 {
      q := Point(p.x * size / Max2(b.x, b.y), p.y * size / Max2(b.x, b.y));
      UniformStep(p, b, size, ratio1D, q);
    } else if Min2(b.x / b.y, b.y / b.x) <= ratio1D {
      q := Point(p.x * size / Max2(b.x, b.y), p.y * size / Max2(b.x, b.y));
      UniformStep(p, b, size, ratio1D, q);
    } else {
      q := Point(p.x * size / b.x, p.y * size / b.y);
      AxisStep(p, b, size, ratio1D, q);
    }
  }

  lemma UniformStep(p: Point, b: Point, size: real, ratio1D: real, q: Point)
    requires b.x >= 0.0 && b.y >= 0.0 && (b.x != 0.0 || b.y != 0.0) && LineLike(b, ratio1D)
    requires q == Point(p.x * size / Max2(b.x, b.y), p.y * size / Max2(b.x, b.y))
    ensures q == ScalePointBy(p, ScaleFactors(b, size, ratio1D))
  {
    MulDiv(p.x, size, Max2(b.x, b.y));
    MulDiv(p.y, size, Max2(b.x, b.y));
  }

  lemma AxisStep(p: Point, b: Point, size: real, ratio1D: real, q: Point)
    requires b.x > 0.0 && b.y > 0.0 && !LineLike(b, ratio1D)
    requires q == Point(p.x * size / b.x, p.y * size / b.y)
    ensures q == ScalePointBy(p, ScaleFactors(b, size, ratio1D))
  {
    MulDiv(p.x, size, b.x);
    MulDiv(p.y, size, b.y);
  }

  lemma ScaleByAppend(ps: seq<Point>, k: nat, f: Point, done: seq<Point>, q: Point)
    requires k < |ps| && done == ScaleBy(ps[..k], f)
    requires q == ScalePointBy(ps[k], f)
    ensures done + [q] == ScaleBy(ps[..k + 1], f)
  {
    assert ps[..k + 1][k] == ps[k];
  }

  lemma MulDiv(a: real, s: real, m: real)
    requires m != 0.0
    ensures a * s / m == Mul(a, s / m)
  {
  }

  lemma MulMonotone(a: real, b: real, k: real)
    requires a <= b && k > 0.0
    ensures Mul(a, k) <= Mul(b, k)
  {
  }

  /** Max2 and Min2 commute with multiplying both arguments by k > 0 */
  lemma Max2Min2Scale(a: real, b: real, k: real)
    requires k > 0.0
    ensures Max2(Mul(a, k), Mul(b, k)) == Mul(Max2(a, b), k)
    ensures Min2(Mul(a, k), Mul(b, k)) == Mul(Min2(a, b), k)
  {
    if a <= b {
      MulMonotone(a, b, k);
    } else {
      MulMonotone(b, a, k);
    }
  }

  /** Scaling a column by a positive factor scales its largest and smallest value by it */
  lemma {:induction false} ScaleExtremes(xs: seq<real>, ys: seq<real>, k: real)
    requires |xs| > 0 && |ys| == |xs| && k > 0.0
    requires forall i :: 0 <= i < |xs| ==> ys[i] == Mul(xs[i], k)
    ensures Max(ys) == Mul(Max(xs), k) && Min(ys) == Mul(Min(xs), k)
  {
    if |xs| > 1 {
      var n := |xs| - 1;
      var xi, yi := xs[..n], ys[..n];
      assert forall i :: 0 <= i < n ==> yi[i] == ys[i] && xi[i] == xs[i];
      ScaleExtremes(xi, yi, k);
      Max2Min2Scale(Max(xi), xs[n], k);
      Max2Min2Scale(Min(xi), xs[n], k);
    }
  }

  /** Scaling the points by positive factors scales the bounding box by them */
  lemma ScaledBox(ps: seq<Point>, f: Point)
    requires |ps| > 0 && f.x > 0.0 && f.y > 0.0
    ensures BoundingBoxSize(ScaleBy(ps, f)) == ScalePointBy(BoundingBoxSize(ps), f)
  {
    var qs := ScaleBy(ps, f);
    ScaleExtremes(Xs(ps), Xs(qs), f.x);
    ScaleExtremes(Ys(ps), Ys(qs), f.y);
    MulSub(Max(Xs(ps)), Min(Xs(ps)), f.x);
    MulSub(Max(Ys(ps)), Min(Ys(ps)), f.y);
  }

  lemma MulSub(a: real, b: real, k: real)
    ensures Mul(a, k) - Mul(b, k) == Mul(a - b, k)
  {
  }

  lemma MulDivCancel(m: real, s: real)
    requires m != 0.0
    ensures Mul(m, s / m) == s
  {
  }

  /** A shape that is not line-like is scaled to exactly size x size */
  lemma ScaledToSquare(ps: seq<Point>, size: real, ratio1D: real)
    requires |ps| > 0 && size > 0.0
    requires !LineLike(BoundingBoxSize(ps), ratio1D)
    ensures BoundingBoxSize(ScaleBy(ps, ScaleFactors(BoundingBoxSize(ps), size, ratio1D))) == Point(size, size)
  {
    var b := BoundingBoxSize(ps);
    ScaledBox(ps, ScaleFactors(b, size, ratio1D));
    MulDivCancel(b.x, size);
    MulDivCancel(b.y, size);
  }

  /**
   * A line-like shape is scaled by one factor: its larger extent becomes
   * size and the ratio of its extents is kept.
   */
  lemma ScaledLineLike(ps: seq<Point>, size: real, ratio1D: real)
    requires |ps| > 0 && size > 0.0
    requires BoundingBoxSize(ps) != Point(0.0, 0.0) && LineLike(BoundingBoxSize(ps), ratio1D)
    ensures var b := BoundingBoxSize(ps);
            var c := BoundingBoxSize(ScaleBy(ps, ScaleFactors(b, size, ratio1D)));
            Max2(c.x, c.y) == size && c.x * b.y == c.y * b.x
  {
    var b := BoundingBoxSize(ps);
    var m := Max2(b.x, b.y);
    var t := size / m;
    assert ScaleFactors(b, size, ratio1D) == Point(t, t);
    ScaledBox(ps, Point(t, t));
    var c := BoundingBoxSize(ScaleBy(ps, Point(t, t)));
    assert c == Point(Mul(b.x, t), Mul(b.y, t));
    MulDivCancel(m, size);
    Max2Min2Scale(b.x, b.y, t);
    SameRatio(b.x, b.y, t);
  }

  lemma SameRatio(a: real, b: real, t: real)
    ensures Mul(a, t) * b == Mul(b, t) * a
  {
  }

  // ---------------------------------------------------------------------------
  // translate_to

  function SumX(ps: seq<Point>): real
  {
    if ps == [] then 0.0 else SumX(ps[..|ps| - 1]) + ps[|ps| - 1].x
  }

  function SumY(ps: seq<Point>): real
  {
    if ps == [] then 0.0 else SumY(ps[..|ps| - 1]) + ps[|ps| - 1].y
  }

  /** np.mean(points, axis=0) */
  function Centroid(ps: seq<Point>): Point
    requires |ps| > 0
  {
    Point(SumX(ps) / (|ps| as real), SumY(ps) / (|ps| as real))
  }

  /** translate_to(points, pt): points + pt - centroid */
  function TranslateTo(ps: seq<Point>, pt: Point): (r: seq<Point>)
    requires |ps| > 0
    ensures |r| == |ps|
  {
    var c := Centroid(ps);
    seq(|ps|, i requires 0 <= i < |ps| => Point(ps[i].x + pt.x - c.x, ps[i].y + pt.y - c.y))
  }

  /** Shifting every point by (dx, dy) shifts the coordinate sums by n dx and n dy */
  lemma {:induction false} ShiftSums(ps: seq<Point>, qs: seq<Point>, dx: real, dy: real)
    requires |qs| == |ps|
    requires forall i :: 0 <= i < |ps| ==> qs[i] == Point(ps[i].x + dx, ps[i].y + dy)
    ensures SumX(qs) == SumX(ps) + (|ps| as real) * dx
    ensures SumY(qs) == SumY(ps) + (|ps| as real) * dy
  {
    if ps != [] {
      var n := |ps| - 1;
      ShiftSums(ps[..n], qs[..n], dx, dy);
    }
  }

  /** The translated points have their centroid at pt */
  lemma TranslatedCentroid(ps: seq<Point>, pt: Point)
    requires |ps| > 0
    ensures Centroid(TranslateTo(ps, pt)) == pt
  {
    var c := Centroid(ps);
    var r := TranslateTo(ps, pt);
    var n := |ps| as real;
    ShiftSums(ps, r, pt.x - c.x, pt.y - c.y);
    assert SumX(r) == SumX(ps) + n * (pt.x - c.x);
    assert SumX(ps) == c.x * n;
    assert SumY(ps) == c.y * n;
  }

  /** Every point moves by the same offset, so differences between points are kept */
  lemma TranslateKeepsDifferences(ps: seq<Point>, pt: Point, i: nat, j: nat)
    requires i < |ps| && j < |ps|
    ensures var r := TranslateTo(ps, pt);
            r[i].x - r[j].x == ps[i].x - ps[j].x && r[i].y - r[j].y == ps[i].y - ps[j].y
            && r[i].x - ps[i].x == pt.x - Centroid(ps).x && r[i].y - ps[i].y == pt.y - Centroid(ps).y
  {
  }
}
