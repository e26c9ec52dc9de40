/** The tile index of the outer-shell extractor: a single grid over (x, z), for rays along y. */
module ShellTiles {
  import opened Mesh
  import opened Grid
  import opened Tiling

  /** get_step_sizes: the x extent and the z extent of the coordinates, each divided by
      numSteps; the y coordinates play no part. */
  method GetStepSizes(numSteps: nat, coords: seq<Vec3>) returns (stepX: real, stepZ: real)
    requires numSteps > 0
    requires forall i :: 0 <= i < |coords| ==> Finite(coords[i])
    ensures |coords| > 0 ==> stepX == StepAlong(coords, X, numSteps) && stepZ == StepAlong(coords, Z, numSteps)
    ensures |coords| > 0 ==> stepX >= 0.0 && stepZ >= 0.0
    ensures |coords| == 0 ==> stepX < 0.0 && stepZ < 0.0
  {
    var xMin, xMax := LARGE, -LARGE;
    var zMin, zMax := LARGE, -LARGE;
    var i: nat := 0;
    while i < |coords|
      invariant i <= |coords|
      invariant xMin == RunMin(coords[..i], X) && xMax == RunMax(coords[..i], X)
      invariant zMin == RunMin(coords[..i], Z) && zMax == RunMax(coords[..i], Z)
    {
      var p := coords[i];
      RunStep(coords, i, X);
      RunStep(coords, i, Z);
      xMin, xMax := Min(xMin, p.x), Max(xMax, p.x);
      zMin, zMax := Min(zMin, p.z), Max(zMax, p.z);
      i := i + 1;
    }
    assert coords[..|coords|] == coords;
    stepX := (xMax - xMin) / numSteps as real;
    stepZ := (zMax - zMin) / numSteps as real;
    if |coords| > 0 {
      StepAlongNonNegative(coords, X, numSteps);
      StepAlongNonNegative(coords, Z, numSteps);
    } else {
      assert stepX == (-LARGE - LARGE) / numSteps as real;
    }
  }

  /** distribute_points_to_tiles: the bucket of each key is exactly the set of point indices
      whose (x, z) tile is that key; a key is present only with a non-empty bucket. */
  method DistributePointsToTiles(coords: seq<Vec3>, stepX: real, stepZ: real) returns (mapping: TileIndexMap)
    requires stepX > 0.0 && stepZ > 0.0
    ensures forall key :: Get(mapping, key) == PointBucket(coords, |coords|, X, stepX, Z, stepZ, key)
    ensures NoEmptyBucket(mapping)
  {
    mapping := map[];
    var i: nat := 0;
    while i < |coords|
      invariant i <= |coords|
      invariant forall key :: Get(mapping, key) == PointBucket(coords, i, X, stepX, Z, stepZ, key)
      invariant NoEmptyBucket(mapping)
    {
      var p := coords[i];
      var ix := TileIndex(p.x, 0.0, stepX);
      var iz := TileIndex(p.z, 0.0, stepZ);
      assert (ix, iz) == PointTile(p, X, stepX, Z, stepZ);
      PointBucketStep(mapping, coords, i, X, stepX, Z, stepZ);
      mapping := AddTo(mapping, (ix, iz), i);
      i := i + 1;
    }
  }

  /** distribute_triangles_to_tiles: a triangle is put into every (x, z) tile of the inclusive
      tile range of its bounding box, and into no other. */
  method DistributeTrianglesToTiles(coords: seq<Vec3>, triangles: set<Triangle>, stepX: real, stepZ: real)
    returns (mapping: TileTripletMap)
    requires stepX > 0.0 && stepZ > 0.0
    requires forall t :: t in triangles ==> ValidTriangle(coords, t)
    ensures forall key :: Get(mapping, key) == TriangleBucket(coords, triangles, X, stepX, Z, stepZ, key)
    ensures NoEmptyBucket(mapping)
  {
    mapping := map[];
    var todo := triangles;
    ghost var done: set<Triangle> := {};
    while todo != {}
      invariant todo + done == triangles && todo !! done
      invariant forall key :: Get(mapping, key) == TriangleBucket(coords, done, X, stepX, Z, stepZ, key)
      invariant NoEmptyBucket(mapping)
      decreases todo
    {
      var t :| t in todo;
      var ixMin := TileIndex(BoxMin(coords, t, X), 0.0, stepX);
      var ixMax := TileIndex(BoxMax(coords, t, X), 0.0, stepX);
      var izMin := TileIndex(BoxMin(coords, t, Z), 0.0, stepZ);
      var izMax := TileIndex(BoxMax(coords, t, Z), 0.0, stepZ);
      TriangleBucketAdd(coords, done, t, X, stepX, Z, stepZ);
      mapping := InsertIntoRange(mapping, t, ixMin, ixMax, izMin, izMax);
      todo := todo - {t};
      done := done + {t};
    }
  }
}
