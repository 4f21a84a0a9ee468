/**
 * Axis-aligned rectangles of package go3d/vec2 (rect.go). Coordinates are
 * modelled as exact reals. Comparisons and componentwise minima and maxima
 * are exact in float32 too; the subtractions of `Width` and `Height` and the
 * product of `Area` round in float32 and are exact here.
 */
module Vec2Rect {

  datatype Vec2 = Vec2(x: real, y: real)

  /** `vec2.Min`: componentwise minimum, keeping `a`'s component on ties. */
  function Min(a: Vec2, b: Vec2): (m: Vec2)
    ensures m.x <= a.x && m.x <= b.x && (m.x == a.x || m.x == b.x)
    ensures m.y <= a.y && m.y <= b.y && (m.y == a.y || m.y == b.y)
  {
    Vec2(if b.x < a.x then b.x else a.x, if b.y < a.y then b.y else a.y)
  }

  /** `vec2.Max`: componentwise maximum, keeping `a`'s component on ties. */
  function Max(a: Vec2, b: Vec2): (m: Vec2)
    ensures m.x >= a.x && m.x >= b.x && (m.x == a.x || m.x == b.x)
    ensures m.y >= a.y && m.y >= b.y && (m.y == a.y || m.y == b.y)
  {
    Vec2(if b.x > a.x then b.x else a.x, if b.y > a.y then b.y else a.y)
  }

  function AbsReal(r: real): real {
    if r < 0.0 then -r else r
  }

  function MaxReal(a: real, b: real): real {
    if a > b then a else b
  }

  /** A rectangle given by its two corners; `Join` and `Extend` update it in place. */
  class Rect {
    var min: Vec2
    var max: Vec2

    constructor (min: Vec2, max: Vec2)
      ensures this.min == min && this.max == max
    {
      this.min := min;
      this.max := max;
    }

    /** Min is below Max on both axes, as `NewRect` and `Joined` produce. */
    ghost predicate WellFormed()
      reads this
    {
      min.x <= max.x && min.y <= max.y
    }

    /** `Width`: the extent along x, whichever corner is larger. */
    function Width(): (w: real)
      reads this
      ensures w >= 0.0
      ensures w == max.x - min.x || w == min.x - max.x
      ensures WellFormed() ==> w == max.x - min.x
    {
      AbsReal(max.x - min.x)
    }

    /** `Height`: the extent along y, whichever corner is larger. */
    function Height(): (h: real)
      reads this
      ensures h >= 0.0
      ensures h == max.y - min.y || h == min.y - max.y
      ensures WellFormed() ==> h == max.y - min.y
    {
      AbsReal(max.y - min.y)
    }

    /** `Size`: the longer of the two sides. */
    function Size(): (s: real)
      reads this
      ensures s >= Width() && s >= Height()
      ensures s == Width() || s == Height()
    {
      MaxReal(Width(), Height())
    }

    /** `Area`: the signed product of the two extents. */
    function Area(): real
      reads this
    {
      (max.x - min.x) * (max.y - min.y)
    }

    /** `Array`: the four coordinates, Min before Max. */
    function Array(): (a: seq<real>)
      reads this
      ensures |a| == 4
    {
      [min.x, min.y, max.x, max.y]
    }

    /** `ContainsPoint`: inclusive on all four bounds. */
    predicate ContainsPoint(p: Vec2)
      reads this
    {
      p.x >= min.x && p.x <= max.x && p.y >= min.y && p.y <= max.y
    }

    /** `Contains`: `other` lies within this rectangle. */
    predicate Contains(other: Rect)
      reads this, other
    {
      min.x <= other.min.x && min.y <= other.min.y && max.x >= other.max.x && max.y >= other.max.y
    }

    /** `Intersects`: inclusive overlap on both axes. */
    predicate Intersects(other: Rect)
      reads this, other
    {
      other.max.x >= min.x && other.min.x <= max.x && other.max.y >= min.y && other.min.y <= max.y
    }

    /** `Join`: grows this rectangle to the componentwise min of the Mins and max of the Maxes. */
    method Join(other: Rect)
      modifies this
      ensures min == Min(old(min), other.min) && max == Max(old(max), other.max)
      ensures old(WellFormed()) ==> WellFormed()
    {
      min := Min(min, other.min);
      max := Max(max, other.max);
    }

    /** `Extend`: grows this rectangle so that it also covers `p`. */
    method Extend(p: Vec2)
      modifies this
      ensures min == Min(old(min), p) && max == Max(old(max), p)
      ensures ContainsPoint(p)
      ensures forall q :: old(ContainsPoint(q)) ==> ContainsPoint(q)
    {
      min := Min(min, p);
      max := Max(max, p);
    }
  }

  /** `NewRect`: the rectangle spanned by two points, whatever their order. */
  method NewRect(a: Vec2, b: Vec2) returns (r: Rect)
    ensures fresh(r)
    ensures r.min == Min(a, b) && r.max == Max(a, b)
    ensures r.WellFormed() && r.ContainsPoint(a) && r.ContainsPoint(b)
  {
    r := new Rect(Min(a, b), Max(a, b));
  }

  /** `Joined`: a new rectangle covering both `a` and `b`. */
  method Joined(a: Rect, b: Rect) returns (r: Rect)
    ensures fresh(r)
    ensures r.min == Min(a.min, b.min) && r.max == Max(a.max, b.max)
  {
    r := new Rect(Min(a.min, b.min), Max(a.max, b.max));
  }

  /** Swapping the two corners changes neither side length. */
  lemma SidesIgnoreCornerOrder(r: Rect, s: Rect)
    requires s.min == r.max && s.max == r.min
    ensures s.Width() == r.Width() && s.Height() == r.Height() && s.Size() == r.Size()
  {
  }

  /** The area of a well-formed rectangle is the product of its sides, hence non-negative. */
  lemma AreaOfWellFormed(r: Rect)
    requires r.WellFormed()
    ensures r.Area() == r.Width() * r.Height()
    ensures r.Area() >= 0.0
  {
  }

  /** `Array` lists Min then Max, so the corners can be read back from it. */
  lemma ArrayListsCorners(r: Rect)
    ensures Vec2(r.Array()[0], r.Array()[1]) == r.min
    ensures Vec2(r.Array()[2], r.Array()[3]) == r.max
  {
  }

  /** `Contains` is reflexive and transitive. */
  lemma ContainsIsPreorder(a: Rect, b: Rect, c: Rect)
    ensures a.Contains(a)
    ensures a.Contains(b) && b.Contains(c) ==> a.Contains(c)
  {
  }

  /** For a well-formed `b`, `a.Contains(b)` holds exactly when `a` holds every point of `b`. */
  lemma ContainsMeansAllPoints(a: Rect, b: Rect)
    requires b.WellFormed()
    ensures a.Contains(b) <==> forall p :: b.ContainsPoint(p) ==> a.ContainsPoint(p)
  {
    if forall p :: b.ContainsPoint(p) ==> a.ContainsPoint(p) {
      assert b.ContainsPoint(b.min) && b.ContainsPoint(b.max);
    }
  }

  /** `Intersects` is symmetric. */
  lemma IntersectsSymmetric(a: Rect, b: Rect)
    ensures a.Intersects(b) <==> b.Intersects(a)
  {
  }

  /** Two well-formed rectangles intersect exactly when some point lies in both. */
  lemma IntersectsMeansCommonPoint(a: Rect, b: Rect)
    requires a.WellFormed() && b.WellFormed()
    ensures a.Intersects(b) <==> exists p :: a.ContainsPoint(p) && b.ContainsPoint(p)
  {
    if a.Intersects(b) {
      var p := Max(a.min, b.min);
      assert a.ContainsPoint(p) && b.ContainsPoint(p);
    }
  }

  /** The rectangle `Join` and `Joined` build contains both well-formed inputs. */
  lemma JoinContainsBoth(a: Rect, b: Rect, j: Rect)
    requires a.WellFormed() && b.WellFormed()
    requires j.min == Min(a.min, b.min) && j.max == Max(a.max, b.max)
    ensures j.WellFormed() && j.Contains(a) && j.Contains(b)
  {
  }

  /** `Join` gives the least rectangle containing both: any rectangle containing both contains it. */
  lemma JoinIsLeast(a: Rect, b: Rect, j: Rect, c: Rect)
    requires j.min == Min(a.min, b.min) && j.max == Max(a.max, b.max)
    requires c.Contains(a) && c.Contains(b)
    ensures c.Contains(j)
  {
  }

  lemma RectExamples()
    ensures Min(Vec2(1.0, 2.0), Vec2(3.0, 4.0)) == Vec2(1.0, 2.0)
    ensures Max(Vec2(1.0, 2.0), Vec2(3.0, 4.0)) == Vec2(3.0, 4.0)
    ensures Min(Vec2(0.0, 0.0), Vec2(1.0, 1.0)) == Vec2(0.0, 0.0)
    ensures Max(Vec2(2.0, 2.0), Vec2(3.0, 3.0)) == Vec2(3.0, 3.0)
  {
  }
}
