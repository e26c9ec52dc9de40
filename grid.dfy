/** Geometry shared by the tiling and classification code: points, axes,
    the tile-index function, extrema along an axis, triangle bounding boxes
    and the abstract ray-triangle hit predicate. */
module Grid {
  import opened Mesh

  /** A point of the mesh. The program stores f64 coordinates; they are reals here. */
  datatype Vec3 = Vec3(x: real, y: real, z: real)

  /** The three vertex positions of a triangle, as handed to the hit test. */
  datatype Facet = Facet(vertex1: Vec3, vertex2: Vec3, vertex3: Vec3)

  /** The ray-triangle test (Möller–Trumbore in the Rust code) left abstract:
      hits(origin, direction, facet). */
  type HitTest = (Vec3, Vec3, Facet) -> bool

  datatype Axis = X | Y | Z

  type TileKey = (int, int)
  type TileIndexMap = map<TileKey, set<nat>>
  type TileTripletMap = map<TileKey, set<Triangle>>

  /** f64::MAX, the start value of the running minima and maxima. */
  const LARGE: real := 179769313486231570814527423731704356798070567525844996598917476803157260780028538760589558632766878171540458953514382464234321326889464182768467546703537516986049910576551282076245490090389328944075868508455133942304583236903222948165808559332123348274797826204144723168738177180919299881250404026184124858368.0

  function Coord(p: Vec3, a: Axis): real {
    match a
    case X => p.x
    case Y => p.y
    case Z => p.z
  }

  /** A coordinate an f64 can hold. */
  predicate Finite(p: Vec3) {
    -LARGE <= p.x <= LARGE && -LARGE <= p.y <= LARGE && -LARGE <= p.z <= LARGE
  }

  function Min(a: real, b: real): real {
    if a <= b then a else b
  }

  function Max(a: real, b: real): real {
    if a >= b then a else b
  }

  /** floor((value - origin) / step): the index of the cell of width step that holds value. */
  function TileIndex(value: real, origin: real, step: real): (i: int)
    requires step > 0.0
    ensures i as real <= (value - origin) / step < i as real + 1.0
  {
    ((value - origin) / step).Floor
  }

  lemma DivMonotone(a: real, b: real, s: real)
    requires a <= b && s > 0.0
    ensures a / s <= b / s
  {
    assert (b - a) / s >= 0.0;
    assert b / s - a / s == (b - a) / s;
  }

  /** The cell index is the only integer k with k <= (value - origin) / step < k + 1. */
  lemma TileIndexUnique(value: real, origin: real, step: real, k: int)
    requires step > 0.0
    requires k as real <= (value - origin) / step < k as real + 1.0
    ensures TileIndex(value, origin, step) == k
  {
  }

  /** Floor division is monotone in the value. */
  lemma TileIndexMonotone(v1: real, v2: real, origin: real, step: real)
    requires step > 0.0 && v1 <= v2
    ensures TileIndex(v1, origin, step) <= TileIndex(v2, origin, step)
  {
    DivMonotone(v1 - origin, v2 - origin, step);
  }

  /** The four values the program's unit test fixes: floor, not truncation. */
  lemma TileIndexTestValues()
    ensures TileIndex(0.4, 0.0, 1.0) == 0
    ensures TileIndex(-0.4, 0.0, 1.0) == -1
    ensures TileIndex(-0.4, 0.0, 0.4) == -1
    ensures TileIndex(-0.4000001, 0.0, 0.4) == -2
  {
    TileIndexUnique(0.4, 0.0, 1.0, 0);
    TileIndexUnique(-0.4, 0.0, 1.0, -1);
    TileIndexUnique(-0.4, 0.0, 0.4, -1);
    TileIndexUnique(-0.4000001, 0.0, 0.4, -2);
  }

  /** The smallest coordinate along an axis. */
  function MinAlong(ps: seq<Vec3>, a: Axis): (m: real)
    requires |ps| > 0
    ensures forall i :: 0 <= i < |ps| ==> m <= Coord(ps[i], a)
    ensures exists i :: 0 <= i < |ps| && m == Coord(ps[i], a)
  {
    if |ps| == 1 then Coord(ps[0], a)
    else
      var m := MinAlong(ps[..|ps| - 1], a);
      assert forall i :: 0 <= i < |ps| - 1 ==> ps[..|ps| - 1][i] == ps[i];
      Min(m, Coord(ps[|ps| - 1], a))
  }

  /** The largest coordinate along an axis. */
  function MaxAlong(ps: seq<Vec3>, a: Axis): (m: real)
    requires |ps| > 0
    ensures forall i :: 0 <= i < |ps| ==> Coord(ps[i], a) <= m
    ensures exists i :: 0 <= i < |ps| && m == Coord(ps[i], a)
  {
    if |ps| == 1 then Coord(ps[0], a)
    else
      var m := MaxAlong(ps[..|ps| - 1], a);
      assert forall i :: 0 <= i < |ps| - 1 ==> ps[..|ps| - 1][i] == ps[i];
      Max(m, Coord(ps[|ps| - 1], a))
  }

  /** The running minimum of the program's loop: f64::MAX before the first point. */
  function RunMin(ps: seq<Vec3>, a: Axis): real {
    if |ps| == 0 then LARGE else MinAlong(ps, a)
  }

  /** The running maximum of the program's loop: -f64::MAX before the first point. */
  function RunMax(ps: seq<Vec3>, a: Axis): real {
    if |ps| == 0 then -LARGE else MaxAlong(ps, a)
  }

  /** One step of the running extrema over a prefix, for a point an f64 can hold. */
  lemma RunStep(ps: seq<Vec3>, i: nat, a: Axis)
    requires i < |ps| && Finite(ps[i])
    ensures RunMin(ps[..i + 1], a) == Min(RunMin(ps[..i], a), Coord(ps[i], a))
    ensures RunMax(ps[..i + 1], a) == Max(RunMax(ps[..i], a), Coord(ps[i], a))
  {
    assert ps[..i + 1][..i] == ps[..i];
  }

  /** (max - min) / numSteps along one axis. */
  function StepAlong(ps: seq<Vec3>, a: Axis, numSteps: nat): real
    requires |ps| > 0 && numSteps > 0
  {
    (MaxAlong(ps, a) - MinAlong(ps, a)) / numSteps as real
  }

  /** Over a non-empty list the running extrema give the step, and it is never negative. */
  lemma StepAlongNonNegative(ps: seq<Vec3>, a: Axis, numSteps: nat)
    requires |ps| > 0 && numSteps > 0
    ensures (RunMax(ps, a) - RunMin(ps, a)) / numSteps as real == StepAlong(ps, a, numSteps)
    ensures StepAlong(ps, a, numSteps) >= 0.0
  {
    var lo, hi := MinAlong(ps, a), MaxAlong(ps, a);
    assert RunMin(ps, a) == lo && RunMax(ps, a) == hi;
    assert lo <= Coord(ps[0], a) <= hi;
    DivNonNegative(hi - lo, numSteps as real);
  }

  lemma DivNonNegative(x: real, d: real)
    requires x >= 0.0 && d > 0.0
    ensures x / d >= 0.0
  {
  }

  predicate ValidTriangle(coords: seq<Vec3>, t: Triangle) {
    t.0 < |coords| && t.1 < |coords| && t.2 < |coords|
  }

  /** The tile of a point in the grid over axes a (cell width sa) and b (cell width sb),
      anchored at the origin. */
  function PointTile(p: Vec3, a: Axis, sa: real, b: Axis, sb: real): TileKey
    requires sa > 0.0 && sb > 0.0
  {
    (TileIndex(Coord(p, a), 0.0, sa), TileIndex(Coord(p, b), 0.0, sb))
  }

  function BoxMin(coords: seq<Vec3>, t: Triangle, a: Axis): real
    requires ValidTriangle(coords, t)
  {
    Min(Min(Coord(coords[t.0], a), Coord(coords[t.1], a)), Coord(coords[t.2], a))
  }

  function BoxMax(coords: seq<Vec3>, t: Triangle, a: Axis): real
    requires ValidTriangle(coords, t)
  {
    Max(Max(Coord(coords[t.0], a), Coord(coords[t.1], a)), Coord(coords[t.2], a))
  }

  /** The key lies in the inclusive tile range of the triangle's bounding box. */
  predicate InBox(coords: seq<Vec3>, t: Triangle, a: Axis, sa: real, b: Axis, sb: real, key: TileKey)
    requires ValidTriangle(coords, t) && sa > 0.0 && sb > 0.0
  {
    && TileIndex(BoxMin(coords, t, a), 0.0, sa) <= key.0 <= TileIndex(BoxMax(coords, t, a), 0.0, sa)
    && TileIndex(BoxMin(coords, t, b), 0.0, sb) <= key.1 <= TileIndex(BoxMax(coords, t, b), 0.0, sb)
  }

  /** Coverage: the tile of each vertex of a triangle lies within the triangle's tile range,
      so bucketing by bounding box never misses a vertex's own tile. */
  lemma VertexTilesInBox(coords: seq<Vec3>, t: Triangle, a: Axis, sa: real, b: Axis, sb: real)
    requires ValidTriangle(coords, t) && sa > 0.0 && sb > 0.0
    ensures InBox(coords, t, a, sa, b, sb, PointTile(coords[t.0], a, sa, b, sb))
    ensures InBox(coords, t, a, sa, b, sb, PointTile(coords[t.1], a, sa, b, sb))
    ensures InBox(coords, t, a, sa, b, sb, PointTile(coords[t.2], a, sa, b, sb))
  {
    var vs := [coords[t.0], coords[t.1], coords[t.2]];
    forall v | v in vs
      ensures InBox(coords, t, a, sa, b, sb, PointTile(v, a, sa, b, sb))
    {
      TileIndexMonotone(BoxMin(coords, t, a), Coord(v, a), 0.0, sa);
      TileIndexMonotone(Coord(v, a), BoxMax(coords, t, a), 0.0, sa);
      TileIndexMonotone(BoxMin(coords, t, b), Coord(v, b), 0.0, sb);
      TileIndexMonotone(Coord(v, b), BoxMax(coords, t, b), 0.0, sb);
    }
    assert vs[0] in vs && vs[1] in vs && vs[2] in vs;
  }

  function FacetOf(coords: seq<Vec3>, t: Triangle): Facet
    requires ValidTriangle(coords, t)
  {
    Facet(coords[t.0], coords[t.1], coords[t.2])
  }

  /** ray_intersects_batch: the ray hits at least one triangle of the set. The order in
      which the program tests the triangles does not change the answer. */
  predicate RayHitsBatch(hits: HitTest, origin: Vec3, direction: Vec3, coords: seq<Vec3>, triangles: set<Triangle>)
    requires forall t :: t in triangles ==> ValidTriangle(coords, t)
  {
    exists t :: t in triangles && hits(origin, direction, FacetOf(coords, t))
  }

  /** The bucket of a key, empty when the key is absent. */
  function Get<V>(m: map<TileKey, set<V>>, k: TileKey): set<V> {
    if k in m then m[k] else {}
  }

  /** The maps the program builds only hold keys whose bucket received an element. */
  predicate NoEmptyBucket<V>(m: map<TileKey, set<V>>) {
    forall key :: key in m ==> m[key] != {}
  }

  /** `entry(k).or_insert(HashSet::new()).insert(v)`: v joins the bucket of k, no other bucket changes. */
  function AddTo<V>(m: map<TileKey, set<V>>, k: TileKey, v: V): (r: map<TileKey, set<V>>)
    ensures forall key :: Get(r, key) == if key == k then Get(m, k) + {v} else Get(m, key)
    ensures NoEmptyBucket(m) ==> NoEmptyBucket(r)
  {
    m[k := Get(m, k) + {v}]
  }
}
