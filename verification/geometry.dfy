/**
 * Rectangle arithmetic shared by the three detection engines: box centres,
 * squared distances, the centre-in-region test and the IoU overlap test,
 * plus the three fixed container regions the engines monitor.
 *
 * Coordinates are exact reals. Where the engines compare a Euclidean
 * distance with a radius, the model compares squared distance with the
 * squared radius, which is the same test because both sides are non-negative.
 */
module Geometry {
  import opened Wrappers

  /** An axis-aligned box with corners (x1, y1) and (x2, y2), as the detector reports it. */
  datatype Box = Box(x1: real, y1: real, x2: real, y2: real)

  datatype Point = Point(x: real, y: real)

  function Max(a: real, b: real): real { if a >= b then a else b }

  function Min(a: real, b: real): real { if a <= b then a else b }

  function Centre(b: Box): Point {
    Point((b.x1 + b.x2) / 2.0, (b.y1 + b.y2) / 2.0)
  }

  /** Squared Euclidean distance between two points. */
  function SqDist(p: Point, q: Point): (d: real)
    ensures d >= 0.0
  {
    (p.x - q.x) * (p.x - q.x) + (p.y - q.y) * (p.y - q.y)
  }

  /** The box's centre lies in the region, every bound inclusive. */
  predicate IsInside(b: Box, roi: Box)
    ensures IsInside(b, roi) <==>
              && 2.0 * roi.x1 <= b.x1 + b.x2 <= 2.0 * roi.x2
              && 2.0 * roi.y1 <= b.y1 + b.y2 <= 2.0 * roi.y2
  {
    var c := Centre(b);
    roi.x1 <= c.x <= roi.x2 && roi.y1 <= c.y <= roi.y2
  }

  /** Area of the overlap of two boxes; a negative extent counts as zero. */
  function Intersection(a: Box, b: Box): real {
    Max(0.0, Min(a.x2, b.x2) - Max(a.x1, b.x1)) * Max(0.0, Min(a.y2, b.y2) - Max(a.y1, b.y1))
  }

  /** Signed area: negative for a box whose corners are given in reverse. */
  function Area(b: Box): real {
    (b.x2 - b.x1) * (b.y2 - b.y1)
  }

  function Union(a: Box, b: Box): real {
    Area(a) + Area(b) - Intersection(a, b)
  }

  /** Intersection over union, defined as 0 when the union is not positive. */
  function Iou(a: Box, b: Box): (r: real)
    ensures 0.0 <= r <= 1.0
  {
    IntersectionBounds(a, b);
    if Union(a, b) > 0.0 then Intersection(a, b) / Union(a, b) else 0.0
  }

  /** The overlap test: IoU strictly above the threshold. */
  predicate BoxesOverlap(a: Box, b: Box, t: real)
    ensures t >= 0.0 && BoxesOverlap(a, b, t) ==> Intersection(a, b) > 0.0 && Union(a, b) > 0.0
    ensures t >= 1.0 ==> !BoxesOverlap(a, b, t)
  {
    Iou(a, b) > t
  }

  /** Some box of `xs` overlaps some box of `ys`. */
  predicate AnyOverlap(xs: seq<Box>, ys: seq<Box>, t: real) {
    exists i, j | 0 <= i < |xs| && 0 <= j < |ys| :: BoxesOverlap(xs[i], ys[j], t)
  }

  /**
   * A positive intersection is only possible between two properly oriented
   * boxes, and it is never larger than either box, so it never exceeds the union.
   */
  lemma IntersectionBounds(a: Box, b: Box)
    ensures Intersection(a, b) >= 0.0
    ensures Intersection(a, b) > 0.0 ==> Intersection(a, b) <= Area(a) && Intersection(a, b) <= Area(b)
    ensures Intersection(a, b) > 0.0 ==> Intersection(a, b) <= Union(a, b)
  {
    var w := Max(0.0, Min(a.x2, b.x2) - Max(a.x1, b.x1));
    var h := Max(0.0, Min(a.y2, b.y2) - Max(a.y1, b.y1));
    assert Intersection(a, b) == w * h;
    if w * h > 0.0 {
      assert w > 0.0 && h > 0.0;
      assert w <= a.x2 - a.x1 && h <= a.y2 - a.y1;
      assert w <= b.x2 - b.x1 && h <= b.y2 - b.y1;
      MulMonotone(w, h, a.x2 - a.x1, a.y2 - a.y1);
      MulMonotone(w, h, b.x2 - b.x1, b.y2 - b.y1);
    }
  }

  lemma MulMonotone(w: real, h: real, w': real, h': real)
    requires 0.0 < w <= w' && 0.0 < h <= h'
    ensures w * h <= w' * h'
  {
    assert w * h <= w' * h;
  }

  /** The overlap test reads the same with its two boxes exchanged. */
  lemma OverlapSymmetric(a: Box, b: Box, t: real)
    ensures BoxesOverlap(a, b, t) == BoxesOverlap(b, a, t)
  {
    assert Intersection(a, b) == Intersection(b, a);
  }

  /**
   * The division-free form of the overlap test: with a positive union the
   * IoU exceeds `t` exactly when the intersection exceeds `t` times the
   * union; otherwise the IoU is 0 and the test holds only for negative `t`.
   */
  lemma OverlapCrossMultiplied(a: Box, b: Box, t: real)
    ensures Union(a, b) > 0.0 ==> (BoxesOverlap(a, b, t) <==> Intersection(a, b) > t * Union(a, b))
    ensures Union(a, b) <= 0.0 ==> (BoxesOverlap(a, b, t) <==> t < 0.0)
  {
    var i, u := Intersection(a, b), Union(a, b);
    if u > 0.0 {
      assert (i / u) * u == i;
      if i / u > t {
        assert (i / u) * u > t * u;
      } else {
        assert (i / u) * u <= t * u;
      }
    }
  }

  /** A monitored container: its number and its rectangle. */
  datatype Container = Container(id: nat, area: Box)

  /** The three container regions all engines watch, in the order they are scanned. */
  const Containers: seq<Container> := [
    Container(0, Box(480.0, 270.0, 525.0, 320.0)),
    Container(1, Box(460.0, 317.0, 515.0, 350.0)),
    Container(2, Box(460.0, 350.0, 510.0, 400.0))
  ]

  /** Index of the first container in `cs` whose region holds the box's centre. */
  function FirstContaining(b: Box, cs: seq<Container>): (r: Option<nat>)
    ensures r.None? <==> forall k :: 0 <= k < |cs| ==> !IsInside(b, cs[k].area)
    ensures r.Some? ==> r.value < |cs| && IsInside(b, cs[r.value].area)
    ensures r.Some? ==> forall k :: 0 <= k < r.value ==> !IsInside(b, cs[k].area)
  {
    if cs == [] then None
    else if IsInside(b, cs[0].area) then Some(0)
    else match FirstContaining(b, cs[1..])
         case None => None
         case Some(k) => Some(k + 1)
  }
}
