/** The scene-wide bounding box that the display-list interpreter accumulates
    (update_bounds), over coordinates kept as exact integers in 1/4096 units. */
module Bounds {

  /** FLT_MAX, (2^24 - 1) * 2^104, scaled to 1/4096 units. */
  const FLT_MAX_UNITS: int := 0xFFFFFF_00000000_00000000_00000000_00000

  /** A vertex position, in 1/4096 units. */
  datatype Vec = Vec(x: int, y: int, z: int)

  datatype Box = Box(minX: int, minY: int, minZ: int, maxX: int, maxY: int, maxZ: int)

  /** The box build_meshes starts from: every minimum at FLT_MAX, every maximum at -FLT_MAX. */
  const INITIAL_BOX: Box := Box(FLT_MAX_UNITS, FLT_MAX_UNITS, FLT_MAX_UNITS, -FLT_MAX_UNITS, -FLT_MAX_UNITS, -FLT_MAX_UNITS)

  function Min(a: int, b: int): int { if a <= b then a else b }
  function Max(a: int, b: int): int { if a >= b then a else b }

  /** update_bounds. Per axis, a coordinate below the minimum lowers the minimum;
      otherwise one above the maximum raises the maximum (else-if: never both).
      The z minimum receives the x coordinate. */
  function UpdateBounds(b: Box, v: Vec): (r: Box)
    // each axis changes at most one of its minimum and maximum
    ensures r.minX == b.minX || r.maxX == b.maxX
    ensures r.minY == b.minY || r.maxY == b.maxY
    ensures r.minZ == b.minZ || r.maxZ == b.maxZ
    // no maximum shrinks; it becomes the coordinate's maximum unless the coordinate set a new minimum
    ensures r.maxX == (if v.x < b.minX then b.maxX else Max(b.maxX, v.x))
    ensures r.maxY == (if v.y < b.minY then b.maxY else Max(b.maxY, v.y))
    ensures r.maxZ == (if v.z < b.minZ then b.maxZ else Max(b.maxZ, v.z))
    // the x and y minima become the true minima
    ensures r.minX == Min(b.minX, v.x) && r.minY == Min(b.minY, v.y)
    // the z minimum is compared against z but assigned x
    ensures r.minZ == (if v.z < b.minZ then v.x else b.minZ)
  {
    var x := if v.x < b.minX then (v.x, b.maxX) else if v.x > b.maxX then (b.minX, v.x) else (b.minX, b.maxX);
    var y := if v.y < b.minY then (v.y, b.maxY) else if v.y > b.maxY then (b.minY, v.y) else (b.minY, b.maxY);
    var z := if v.z < b.minZ then (v.x, b.maxZ) else if v.z > b.maxZ then (b.minZ, v.z) else (b.minZ, b.maxZ);
    Box(x.0, y.0, z.0, x.1, y.1, z.1)
  }

  /** The box after a sequence of vertices, in order. */
  function Accumulate(b: Box, vs: seq<Vec>): Box
  {
    if |vs| == 0 then b else UpdateBounds(Accumulate(b, vs[..|vs| - 1]), vs[|vs| - 1])
  }

  predicate InFloatRange(v: Vec)
  {
    -FLT_MAX_UNITS < v.x < FLT_MAX_UNITS && -FLT_MAX_UNITS < v.y < FLT_MAX_UNITS && -FLT_MAX_UNITS < v.z < FLT_MAX_UNITS
  }

  /** From the initial box, the first vertex sets only the minima (z's to the x coordinate). */
  lemma FirstVertexSetsOnlyMinima(v: Vec)
    requires InFloatRange(v)
    ensures UpdateBounds(INITIAL_BOX, v) == Box(v.x, v.y, v.x, -FLT_MAX_UNITS, -FLT_MAX_UNITS, -FLT_MAX_UNITS)
  {
  }

  /** The z minimum can grow: a vertex below it brings in a larger x. */
  lemma MinimumZCanGrow()
    ensures UpdateBounds(Box(0, 0, 0, 0, 0, 0), Vec(5, 0, -1)).minZ == 5
  {
  }

  /** The vertices (0,0,0), (5,2,-3), (-1,4,1) from the initial box give minima (-1, 0, -1)
      and maxima (5, 4, -FLT_MAX): the first vertex only sets minima, the z minimum takes x
      coordinates, and no z coordinate ever exceeds the z minimum it is compared with. */
  lemma ThreeVertexExample()
    ensures Accumulate(INITIAL_BOX, [Vec(0, 0, 0), Vec(5, 2, -3), Vec(-1, 4, 1)])
            == Box(-1, 0, -1, 5, 4, -FLT_MAX_UNITS)
  {
    var vs := [Vec(0, 0, 0), Vec(5, 2, -3), Vec(-1, 4, 1)];
    assert vs[..2] == [Vec(0, 0, 0), Vec(5, 2, -3)];
    assert vs[..2][..1] == [Vec(0, 0, 0)];
    assert Accumulate(INITIAL_BOX, vs[..1]) == Box(0, 0, 0, -FLT_MAX_UNITS, -FLT_MAX_UNITS, -FLT_MAX_UNITS);
    assert Accumulate(INITIAL_BOX, vs[..2]) == Box(0, 0, 5, 5, 2, -FLT_MAX_UNITS);
  }

  /** Over any sequence of vertices, the x minimum is exactly the least of the start
      value and every x coordinate, and no maximum ever decreases. */
  lemma {:induction false} AccumulateMinX(b: Box, vs: seq<Vec>)
    ensures var r := Accumulate(b, vs);
            && r.minX <= b.minX
            && (forall i :: 0 <= i < |vs| ==> r.minX <= vs[i].x)
            && (r.minX == b.minX || exists i :: 0 <= i < |vs| && r.minX == vs[i].x)
            && r.maxX >= b.maxX && r.maxY >= b.maxY && r.maxZ >= b.maxZ
  {
    if |vs| > 0 {
      var init := vs[..|vs| - 1];
      AccumulateMinX(b, init);
      var prev := Accumulate(b, init);
      var r := Accumulate(b, vs);
      assert r == UpdateBounds(prev, vs[|vs| - 1]);
      forall i | 0 <= i < |vs|
        ensures r.minX <= vs[i].x
      {
        if i < |vs| - 1 {
          assert vs[i] == init[i];
        }
      }
      if r.minX != b.minX && r.minX != vs[|vs| - 1].x {
        assert r.minX == prev.minX;
        var i :| 0 <= i < |init| && prev.minX == init[i].x;
        assert vs[i] == init[i];
      }
    }
  }
}
