/** The tile index of the outside-surface extractor: step sizes, two point groupings
    ((y, z) tiles for rays along x, (x, z) tiles for rays along y), the matching triangle
    groupings, and the inside-point classifier over an abstract ray-triangle test. */
module OutsideTiles {
  import opened Mesh
  import opened Grid
  import opened Tiling

  /** find_inside_points: a point is inside when, using only the triangles of a tile it is
      bucketed in, a ray in `direction` and a ray in `opposite` both hit some triangle. */
  method FindInsidePoints(coords: seq<Vec3>, tilesToPoints: TileIndexMap, tilesToTriangles: TileTripletMap,
                          direction: Vec3, opposite: Vec3, hits: HitTest)
    returns (inside: set<nat>)
    requires forall key :: key in tilesToPoints ==> key in tilesToTriangles
    requires forall key, p :: key in tilesToPoints && p in tilesToPoints[key] ==> p < |coords|
    requires forall key, t :: key in tilesToTriangles && t in tilesToTriangles[key] ==> ValidTriangle(coords, t)
    ensures forall p :: p in inside ==> exists key :: InsideIn(coords, tilesToPoints, tilesToTriangles, direction, opposite, hits, key, p)
    ensures forall key, p :: InsideIn(coords, tilesToPoints, tilesToTriangles, direction, opposite, hits, key, p) ==> p in inside
  {
    inside := {};
    var keys := tilesToPoints.Keys;
    ghost var done: set<TileKey> := {};
    while keys != {}
      invariant keys + done == tilesToPoints.Keys && keys !! done
      invariant forall p :: p in inside ==> exists key :: key in done && InsideIn(coords, tilesToPoints, tilesToTriangles, direction, opposite, hits, key, p)
      invariant forall key, p :: key in done && InsideIn(coords, tilesToPoints, tilesToTriangles, direction, opposite, hits, key, p) ==> p in inside
      decreases keys
    {
      var key :| key in keys;
      var triangles := tilesToTriangles[key];
      var points := tilesToPoints[key];
      ghost var seen: set<nat> := {};
      while points != {}
        invariant points + seen == tilesToPoints[key] && points !! seen
        invariant forall p :: p in inside ==> exists k :: k in done + {key} && InsideIn(coords, tilesToPoints, tilesToTriangles, direction, opposite, hits, k, p)
        invariant forall k, p :: k in done && InsideIn(coords, tilesToPoints, tilesToTriangles, direction, opposite, hits, k, p) ==> p in inside
        invariant forall p :: p in seen && InsideIn(coords, tilesToPoints, tilesToTriangles, direction, opposite, hits, key, p) ==> p in inside
        decreases points
      {
        var p :| p in points;
        var origin := coords[p];
        if RayHitsBatch(hits, origin, direction, coords, triangles)
          && RayHitsBatch(hits, origin, opposite, coords, triangles)
        {
          assert InsideIn(coords, tilesToPoints, tilesToTriangles, direction, opposite, hits, key, p);
          inside := inside + {p};
        }
        points := points - {p};
        seen := seen + {p};
      }
      keys := keys - {key};
      done := done + {key};
    }
  }

  /** Point p is bucketed in tile key, and both rays from it hit a triangle of that tile. */
  ghost predicate InsideIn(coords: seq<Vec3>, tilesToPoints: TileIndexMap, tilesToTriangles: TileTripletMap,
                           direction: Vec3, opposite: Vec3, hits: HitTest, key: TileKey, p: nat)
    requires forall key :: key in tilesToPoints ==> key in tilesToTriangles
    requires forall key, p :: key in tilesToPoints && p in tilesToPoints[key] ==> p < |coords|
    requires forall key, t :: key in tilesToTriangles && t in tilesToTriangles[key] ==> ValidTriangle(coords, t)
  {
    && key in tilesToPoints
    && p in tilesToPoints[key]
    && RayHitsBatch(hits, coords[p], direction, coords, tilesToTriangles[key])
    && RayHitsBatch(hits, coords[p], opposite, coords, tilesToTriangles[key])
  }

  /** get_step_sizes: per axis, the extent of the coordinates divided by numSteps. */
  method GetStepSizes(numSteps: nat, coords: seq<Vec3>) returns (step: Vec3)
    requires numSteps > 0
    requires forall i :: 0 <= i < |coords| ==> Finite(coords[i])
    ensures |coords| > 0 ==> step == Vec3(StepAlong(coords, X, numSteps), StepAlong(coords, Y, numSteps), StepAlong(coords, Z, numSteps))
    ensures |coords| > 0 ==> step.x >= 0.0 && step.y >= 0.0 && step.z >= 0.0
    ensures |coords| == 0 ==> step.x < 0.0 && step.y < 0.0 && step.z < 0.0
  {
    var xMin, xMax := LARGE, -LARGE;
    var yMin, yMax := LARGE, -LARGE;
    var zMin, zMax := LARGE, -LARGE;
    for i := 0 to |coords|
      invariant xMin == RunMin(coords[..i], X) && xMax == RunMax(coords[..i], X)
      invariant yMin == RunMin(coords[..i], Y) && yMax == RunMax(coords[..i], Y)
      invariant zMin == RunMin(coords[..i], Z) && zMax == RunMax(coords[..i], Z)
    {
      var p := coords[i];
      RunStep(coords, i, X);
      RunStep(coords, i, Y);
      RunStep(coords, i, Z);
      xMin, xMax := Min(xMin, p.x), Max(xMax, p.x);
      yMin, yMax := Min(yMin, p.y), Max(yMax, p.y);
      zMin, zMax := Min(zMin, p.z), Max(zMax, p.z);
    }
    assert coords[..|coords|] == coords;
    step := Vec3((xMax - xMin) / numSteps as real, (yMax - yMin) / numSteps as real, (zMax - zMin) / numSteps as real);
    if |coords| > 0 {
      StepAlongNonNegative(coords, X, numSteps);
      StepAlongNonNegative(coords, Y, numSteps);
      StepAlongNonNegative(coords, Z, numSteps);
    }
  }

  /** distribute_points_to_tiles: the bucket of each key in the first map is exactly the set of
      point indices whose (y, z) tile is that key, in the second map those whose (x, z) tile is;
      a key is present only with a non-empty bucket. */
  method DistributePointsToTiles(coords: seq<Vec3>, step: Vec3)
    returns (alongX: TileIndexMap, alongY: TileIndexMap)
    requires step.x > 0.0 && step.y > 0.0 && step.z > 0.0
    ensures forall key :: Get(alongX, key) == PointBucket(coords, |coords|, Y, step.y, Z, step.z, key)
    ensures forall key :: Get(alongY, key) == PointBucket(coords, |coords|, X, step.x, Z, step.z, key)
    ensures NoEmptyBucket(alongX) && NoEmptyBucket(alongY)
  {
    alongX, alongY := map[], map[];
    var i: nat := 0;
    while i < |coords|
      invariant i <= |coords|
      invariant forall key :: Get(alongX, key) == PointBucket(coords, i, Y, step.y, Z, step.z, key)
      invariant forall key :: Get(alongY, key) == PointBucket(coords, i, X, step.x, Z, step.z, key)
      invariant NoEmptyBucket(alongX) && NoEmptyBucket(alongY)
    {
      var p := coords[i];
      var ix := TileIndex(p.x, 0.0, step.x);
      var iy := TileIndex(p.y, 0.0, step.y);
      var iz := TileIndex(p.z, 0.0, step.z);
      assert (iy, iz) == PointTile(p, Y, step.y, Z, step.z);
      assert (ix, iz) == PointTile(p, X, step.x, Z, step.z);
      PointBucketStep(alongX, coords, i, Y, step.y, Z, step.z);
      PointBucketStep(alongY, coords, i, X, step.x, Z, step.z);
      alongX := AddTo(alongX, (iy, iz), i);
      alongY := AddTo(alongY, (ix, iz), i);
      i := i + 1;
    }
  }

  /** distribute_triangles_to_tiles: a triangle is put into every tile of the inclusive tile
      range of its bounding box, (y, z) tiles in the first map and (x, z) tiles in the second. */
  method DistributeTrianglesToTiles(coords: seq<Vec3>, triangles: set<Triangle>, step: Vec3)
    returns (alongX: TileTripletMap, alongY: TileTripletMap)
    requires step.x > 0.0 && step.y > 0.0 && step.z > 0.0
    requires forall t :: t in triangles ==> ValidTriangle(coords, t)
    ensures forall key :: Get(alongX, key) == TriangleBucket(coords, triangles, Y, step.y, Z, step.z, key)
    ensures forall key :: Get(alongY, key) == TriangleBucket(coords, triangles, X, step.x, Z, step.z, key)
    ensures NoEmptyBucket(alongX) && NoEmptyBucket(alongY)
  {
    alongX, alongY := map[], map[];
    var todo := triangles;
    ghost var done: set<Triangle> := {};
    while todo != {}
      invariant todo + done == triangles && todo !! done
      invariant forall key :: Get(alongX, key) == TriangleBucket(coords, done, Y, step.y, Z, step.z, key)
      invariant forall key :: Get(alongY, key) == TriangleBucket(coords, done, X, step.x, Z, step.z, key)
      invariant NoEmptyBucket(alongX) && NoEmptyBucket(alongY)
      decreases todo
    {
      var t :| t in todo;
      var ixMin := TileIndex(BoxMin(coords, t, X), 0.0, step.x);
      var ixMax := TileIndex(BoxMax(coords, t, X), 0.0, step.x);
      var iyMin := TileIndex(BoxMin(coords, t, Y), 0.0, step.y);
      var iyMax := TileIndex(BoxMax(coords, t, Y), 0.0, step.y);
      var izMin := TileIndex(BoxMin(coords, t, Z), 0.0, step.z);
      var izMax := TileIndex(BoxMax(coords, t, Z), 0.0, step.z);
      TriangleBucketAdd(coords, done, t, Y, step.y, Z, step.z);
      TriangleBucketAdd(coords, done, t, X, step.x, Z, step.z);
      alongX := InsertIntoRange(alongX, t, iyMin, iyMax, izMin, izMax);
      alongY := InsertIntoRange(alongY, t, ixMin, ixMax, izMin, izMax);
      todo := todo - {t};
      done := done + {t};
    }
  }
}
