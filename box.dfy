/**
 * Axis-aligned boxes of package pkg/go3d/vec3 (box.go). Coordinates are
 * modelled as reals; `Intersects` halves and doubles, which is exact over reals.
 */
module Vec3Box {

  datatype Vec3 = Vec3(x: real, y: real, z: real)

  /** `math.MaxFloat64`, the largest finite float64, (2^53 - 1) * 2^971. */
  const MaxFloat64: real := 179769313486231570814527423731704356798070567525844996598917476803157260780028538760589558632766878171540458953514382464234321326889464182768467546703537516986049910576551282076245490090389328944075868508455133942304583236903222948165808559332123348274797826204144723168738177180919299881250404026184124858368.0

  /** `MinVal` and `MaxVal`: the vectors of the smallest and the largest finite components. */
  const MinVal: Vec3 := Vec3(-MaxFloat64, -MaxFloat64, -MaxFloat64)
  const MaxVal: Vec3 := Vec3(MaxFloat64, MaxFloat64, MaxFloat64)

  /** A vector whose components are all finite float64 values in magnitude. */
  predicate Finite(v: Vec3) {
    -MaxFloat64 <= v.x <= MaxFloat64 && -MaxFloat64 <= v.y <= MaxFloat64 && -MaxFloat64 <= v.z <= MaxFloat64
  }

  /** `vec3.Min`: componentwise minimum, keeping `a`'s component on ties. */
  function Min(a: Vec3, b: Vec3): (m: Vec3)
    ensures m.x <= a.x && m.x <= b.x && (m.x == a.x || m.x == b.x)
    ensures m.y <= a.y && m.y <= b.y && (m.y == a.y || m.y == b.y)
    ensures m.z <= a.z && m.z <= b.z && (m.z == a.z || m.z == b.z)
  {
    Vec3(if b.x < a.x then b.x else a.x, if b.y < a.y then b.y else a.y, if b.z < a.z then b.z else a.z)
  }

  /** `vec3.Max`: componentwise maximum, keeping `a`'s component on ties. */
  function Max(a: Vec3, b: Vec3): (m: Vec3)
    ensures m.x >= a.x && m.x >= b.x && (m.x == a.x || m.x == b.x)
    ensures m.y >= a.y && m.y >= b.y && (m.y == a.y || m.y == b.y)
    ensures m.z >= a.z && m.z >= b.z && (m.z == a.z || m.z == b.z)
  {
    Vec3(if b.x > a.x then b.x else a.x, if b.y > a.y then b.y else a.y, if b.z > a.z then b.z else a.z)
  }

  function AbsReal(r: real): real {
    if r < 0.0 then -r else r
  }

  /** A box given by its Min and Max corners; `Join` and `Extend` update it in place. */
  class Box {
    var min: Vec3
    var max: Vec3

    constructor (min: Vec3, max: Vec3)
      ensures this.min == min && this.max == max
    {
      this.min := min;
      this.max := max;
    }

    /** Min is below Max on every axis. */
    ghost predicate WellFormed()
      reads this
    {
      min.x <= max.x && min.y <= max.y && min.z <= max.z
    }

    /** `Array`: the six coordinates, Min before Max. */
    function Array(): (a: seq<real>)
      reads this
      ensures |a| == 6
    {
      [min.x, min.y, min.z, max.x, max.y, max.z]
    }

    /** `ContainsPoint`: inclusive on all six bounds. */
    predicate ContainsPoint(p: Vec3)
      reads this
    {
      p.x >= min.x && p.x <= max.x && p.y >= min.y && p.y <= max.y && p.z >= min.z && p.z <= max.z
    }

    /** `Contains`: `t` lies completely inside this box. */
    predicate Contains(t: Box)
      reads this, t
    {
      t.min.x >= min.x && t.max.x <= max.x && t.min.y >= min.y && t.max.y <= max.y
      && t.min.z >= min.z && t.max.z <= max.z
    }

    /** `Center`: the midpoint of Min and Max. */
    function Center(): Vec3
      reads this
    {
      Vec3((min.x + max.x) * 0.5, (min.y + max.y) * 0.5, (min.z + max.z) * 0.5)
    }

    /** `Diagonal`: Max minus Min. */
    function Diagonal(): Vec3
      reads this
    {
      Vec3(max.x - min.x, max.y - min.y, max.z - min.z)
    }

    /**
     * `Intersects`: on each axis, twice the distance between the centres is
     * at most the sum of the two diagonals.
     */
    predicate Intersects(other: Box)
      reads this, other
    {
      var d1 := Diagonal();
      var d2 := other.Diagonal();
      var c1 := Center();
      var c2 := other.Center();
      AbsReal((c1.x - c2.x) * 2.0) <= d1.x + d2.x
      && AbsReal((c1.y - c2.y) * 2.0) <= d1.y + d2.y
      && AbsReal((c1.z - c2.z) * 2.0) <= d1.z + d2.z
    }

    /** `Join`: grows this box to the componentwise min of the Mins and max of the Maxes. */
    method Join(other: Box)
      modifies this
      ensures min == Min(old(min), other.min) && max == Max(old(max), other.max)
      ensures old(WellFormed()) ==> WellFormed()
    {
      min := Min(min, other.min);
      max := Max(max, other.max);
    }

    /** `Extend`: grows this box so that it also covers `p`. */
    method Extend(p: Vec3)
      modifies this
      ensures min == Min(old(min), p) && max == Max(old(max), p)
      ensures ContainsPoint(p)
      ensures forall q :: old(ContainsPoint(q)) ==> ContainsPoint(q)
    {
      min := Min(min, p);
      max := Max(max, p);
    }
  }

  /** `MaxBox`: the box from MinVal to MaxVal, holding every finite point. */
  method MaxBox() returns (b: Box)
    ensures fresh(b)
    ensures b.min == MinVal && b.max == MaxVal
    ensures forall p :: Finite(p) ==> b.ContainsPoint(p)
  {
    b := new Box(MinVal, MaxVal);
  }

  /** `MinBox`: the inverted box from MaxVal to MinVal, which holds no point. */
  method MinBox() returns (b: Box)
    ensures fresh(b)
    ensures b.min == MaxVal && b.max == MinVal
    ensures forall p :: !b.ContainsPoint(p)
  {
    b := new Box(MaxVal, MinVal);
  }

  /** `FromSlice`: Min from the first three elements, Max from the next three. */
  method FromSlice(s: seq<real>) returns (b: Box)
    requires |s| >= 6
    ensures fresh(b)
    ensures b.Array() == s[..6]
  {
    b := new Box(Vec3(s[0], s[1], s[2]), Vec3(s[3], s[4], s[5]));
  }

  /** `Joined`: a new box covering both `a` and `b`. */
  method Joined(a: Box, b: Box) returns (r: Box)
    ensures fresh(r)
    ensures r.min == Min(a.min, b.min) && r.max == Max(a.max, b.max)
  {
    r := new Box(Min(a.min, b.min), Max(a.max, b.max));
  }

  /** `Array` determines the box: two boxes with the same array have the same corners, so `FromSlice(b.Array())` rebuilds `b`. */
  lemma ArrayDeterminesBox(a: Box, b: Box)
    requires a.Array() == b.Array()
    ensures a.min == b.min && a.max == b.max
  {
    assert a.Array()[0] == b.Array()[0] && a.Array()[1] == b.Array()[1] && a.Array()[2] == b.Array()[2];
    assert a.Array()[3] == b.Array()[3] && a.Array()[4] == b.Array()[4] && a.Array()[5] == b.Array()[5];
  }

  /** `Contains` is reflexive and transitive. */
  lemma ContainsIsPreorder(a: Box, b: Box, c: Box)
    ensures a.Contains(a)
    ensures a.Contains(b) && b.Contains(c) ==> a.Contains(c)
  {
  }

  /** For a well-formed `t`, `b.Contains(t)` holds exactly when `b` holds every point of `t`. */
  lemma ContainsMeansAllPoints(b: Box, t: Box)
    requires t.WellFormed()
    ensures b.Contains(t) <==> forall p :: t.ContainsPoint(p) ==> b.ContainsPoint(p)
  {
    if forall p :: t.ContainsPoint(p) ==> b.ContainsPoint(p) {
      assert t.ContainsPoint(t.min) && t.ContainsPoint(t.max);
    }
  }

  /** A box containing the larger box `t` is not contained in the smaller one: the bigger box of the unit test is not inside. */
  lemma BiggerBoxNotContained(b: Box, t: Box)
    requires b.min == Vec3(0.0, 0.0, 0.0) && b.max == Vec3(2.0, 2.0, 2.0)
    requires t.min == Vec3(-1.0, -1.0, -1.0) && t.max == Vec3(3.0, 3.0, 3.0)
    ensures !b.Contains(t) && t.Contains(b)
  {
  }

  /** The centre/diagonal test is exactly inclusive overlap on every axis, for any two boxes. */
  lemma IntersectsIsOverlap(a: Box, b: Box)
    ensures a.Intersects(b) <==>
      b.max.x >= a.min.x && b.min.x <= a.max.x && b.max.y >= a.min.y && b.min.y <= a.max.y
      && b.max.z >= a.min.z && b.min.z <= a.max.z
  {
  }

  /** Two well-formed boxes intersect exactly when some point lies in both. */
  lemma IntersectsMeansCommonPoint(a: Box, b: Box)
    requires a.WellFormed() && b.WellFormed()
    ensures a.Intersects(b) <==> exists p :: a.ContainsPoint(p) && b.ContainsPoint(p)
  {
    IntersectsIsOverlap(a, b);
    if a.Intersects(b) {
      var p := Max(a.min, b.min);
      assert a.ContainsPoint(p) && b.ContainsPoint(p);
    }
  }

  /** The box `Join` and `Joined` build contains both well-formed inputs. */
  lemma JoinContainsBoth(a: Box, b: Box, j: Box)
    requires a.WellFormed() && b.WellFormed()
    requires j.min == Min(a.min, b.min) && j.max == Max(a.max, b.max)
    ensures j.WellFormed() && j.Contains(a) && j.Contains(b)
  {
  }

  /** `Join` gives the least box containing both: any box containing both contains it. */
  lemma JoinIsLeast(a: Box, b: Box, j: Box, c: Box)
    requires j.min == Min(a.min, b.min) && j.max == Max(a.max, b.max)
    requires c.Contains(a) && c.Contains(b)
    ensures c.Contains(j)
  {
  }

  /** Joining anything finite into `MaxBox` leaves it `MaxBox`. */
  lemma MaxBoxAbsorbs(u: Vec3, v: Vec3)
    requires Finite(u) && Finite(v)
    ensures Min(MinVal, u) == MinVal && Max(MaxVal, v) == MaxVal
  {
  }

  /** Joining a finite box into `MinBox` yields that box. */
  lemma MinBoxIsJoinIdentity(u: Vec3, v: Vec3)
    requires Finite(u) && Finite(v)
    ensures Min(MaxVal, u) == u && Max(MinVal, v) == v
  {
  }
}
