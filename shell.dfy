/** The outer-shell extractor: classify points as inside the surface with a vertical ray
    and its opposite, then keep the triangles none of whose vertices is inside. */
module Shell {
  import opened Mesh
  import opened Grid
  import opened Tiling
  import opened OutsideTiles
  import ShellTiles

  /** The number of tiles per axis. */
  const NumSteps: nat := 100

  /** The two ray directions, straight up and straight down. */
  const Up: Vec3 := Vec3(0.0, 1.0, 0.0)
  const Down: Vec3 := Vec3(0.0, -1.0, 0.0)

  /** The second direction is the exact negation of the first. */
  lemma DirectionsOpposite()
    ensures Down == Vec3(-Up.x, -Up.y, -Up.z)
    ensures Up != Down
  {
  }

  /** The inside-point loop: a point is inside iff it is bucketed in a tile whose triangles
      give a hit both upwards and downwards. Every tile holding points must hold triangles. */
  method InsidePoints(coords: seq<Vec3>, tilesToPoints: TileIndexMap, tilesToTriangles: TileTripletMap, hits: HitTest)
    returns (inside: set<nat>)
    requires forall key :: key in tilesToPoints ==> key in tilesToTriangles
    requires forall key, p :: key in tilesToPoints && p in tilesToPoints[key] ==> p < |coords|
    requires forall key, t :: key in tilesToTriangles && t in tilesToTriangles[key] ==> ValidTriangle(coords, t)
    ensures forall p :: p in inside ==> exists key :: InsideIn(coords, tilesToPoints, tilesToTriangles, Up, Down, hits, key, p)
    ensures forall key, p :: InsideIn(coords, tilesToPoints, tilesToTriangles, Up, Down, hits, key, p) ==> p in inside
  {
    inside := FindInsidePoints(coords, tilesToPoints, tilesToTriangles, Up, Down, hits);
  }

  /** No vertex of t is an inside point. */
  predicate NoInsideVertex(t: Triangle, inside: set<nat>) {
    t.0 !in inside && t.1 !in inside && t.2 !in inside
  }

  /** The outer shell: the triangles with no inside vertex. */
  ghost function OuterShell(triangles: set<Triangle>, inside: set<nat>): set<Triangle> {
    set t | t in triangles && NoInsideVertex(t, inside)
  }

  /** The outer-shell filter: one pass over the triangles. */
  method OutsideTriangles(triangles: set<Triangle>, inside: set<nat>) returns (outside: set<Triangle>)
    ensures outside == OuterShell(triangles, inside)
  {
    outside := {};
    var todo := triangles;
    while todo != {}
      invariant todo <= triangles
      invariant outside == OuterShell(triangles - todo, inside)
      decreases todo
    {
      var t :| t in todo;
      if t.0 !in inside && t.1 !in inside && t.2 !in inside {
        outside := outside + {t};
      }
      todo := todo - {t};
      assert OuterShell(triangles - todo, inside) == OuterShell(triangles - (todo + {t}), inside)
        + (if NoInsideVertex(t, inside) then {t} else {});
    }
  }

  /** The shell is part of the input, a triangle is kept iff it has no inside vertex, and every
      dropped triangle has an inside vertex. */
  lemma OuterShellMembers(triangles: set<Triangle>, inside: set<nat>, t: Triangle)
    ensures OuterShell(triangles, inside) <= triangles
    ensures t in OuterShell(triangles, inside) <==> t in triangles && NoInsideVertex(t, inside)
    ensures t in triangles && t !in OuterShell(triangles, inside) ==> t.0 in inside || t.1 in inside || t.2 in inside
  {
  }

  /** Filtering twice removes nothing more. */
  lemma OuterShellIdempotent(triangles: set<Triangle>, inside: set<nat>)
    ensures OuterShell(OuterShell(triangles, inside), inside) == OuterShell(triangles, inside)
  {
  }

  /** More inside points never keep more triangles. */
  lemma OuterShellAntitone(triangles: set<Triangle>, inside1: set<nat>, inside2: set<nat>)
    requires inside1 <= inside2
    ensures OuterShell(triangles, inside2) <= OuterShell(triangles, inside1)
  {
  }

  /** The points are written out uncompacted, so the kept triangles index the original list. */
  lemma OuterShellValid(coords: seq<Vec3>, triangles: set<Triangle>, inside: set<nat>)
    requires forall t :: t in triangles ==> ValidTriangle(coords, t)
    ensures forall t :: t in OuterShell(triangles, inside) ==> ValidTriangle(coords, t)
  {
  }

  /** Point p is inside: both rays from it hit a triangle of its own (x, z) tile. */
  ghost predicate InsidePoint(coords: seq<Vec3>, triangles: set<Triangle>, hits: HitTest, stepX: real, stepZ: real, p: nat)
    requires forall t :: t in triangles ==> ValidTriangle(coords, t)
    requires stepX > 0.0 && stepZ > 0.0
  {
    && p < |coords|
    && var bucket := TriangleBucket(coords, triangles, X, stepX, Z, stepZ, PointTile(coords[p], X, stepX, Z, stepZ));
       RayHitsBatch(hits, coords[p], Up, coords, bucket) && RayHitsBatch(hits, coords[p], Down, coords, bucket)
  }

  /** Point i is a vertex of some triangle. */
  ghost predicate IsVertex(triangles: set<Triangle>, i: nat) {
    exists t :: t in triangles && (i == t.0 || i == t.1 || i == t.2)
  }

  /** The tile of point i holds at least one triangle. */
  ghost predicate TileCovered(coords: seq<Vec3>, triangles: set<Triangle>, stepX: real, stepZ: real, i: nat)
    requires forall t :: t in triangles ==> ValidTriangle(coords, t)
    requires stepX > 0.0 && stepZ > 0.0 && i < |coords|
  {
    TriangleBucket(coords, triangles, X, stepX, Z, stepZ, PointTile(coords[i], X, stepX, Z, stepZ)) != {}
  }

  /** The tile of every point holds at least one triangle. */
  ghost predicate PointTilesCovered(coords: seq<Vec3>, triangles: set<Triangle>, stepX: real, stepZ: real)
    requires forall t :: t in triangles ==> ValidTriangle(coords, t)
    requires stepX > 0.0 && stepZ > 0.0
  {
    forall i :: 0 <= i < |coords| ==> TileCovered(coords, triangles, stepX, stepZ, i)
  }

  /** The lookup `tiles_to_triangles[&key]` of the inside-point loop succeeds for every key of the
      point grouping exactly when the tile of every point holds a triangle. */
  lemma PointTilesHaveTriangles(coords: seq<Vec3>, triangles: set<Triangle>, stepX: real, stepZ: real,
                                tilesToPoints: TileIndexMap, tilesToTriangles: TileTripletMap)
    requires stepX > 0.0 && stepZ > 0.0
    requires forall t :: t in triangles ==> ValidTriangle(coords, t)
    requires forall key :: Get(tilesToPoints, key) == PointBucket(coords, |coords|, X, stepX, Z, stepZ, key)
    requires NoEmptyBucket(tilesToPoints)
    requires forall key :: Get(tilesToTriangles, key) == TriangleBucket(coords, triangles, X, stepX, Z, stepZ, key)
    requires NoEmptyBucket(tilesToTriangles)
    ensures (forall key :: key in tilesToPoints ==> key in tilesToTriangles) <==> PointTilesCovered(coords, triangles, stepX, stepZ)
  {
    if PointTilesCovered(coords, triangles, stepX, stepZ) {
      forall key | key in tilesToPoints
        ensures key in tilesToTriangles
      {
        assert Get(tilesToPoints, key) != {};
        var p :| p in Get(tilesToPoints, key);
        assert TileCovered(coords, triangles, stepX, stepZ, p);
      }
    }
    if forall key :: key in tilesToPoints ==> key in tilesToTriangles {
      forall i | 0 <= i < |coords|
        ensures TileCovered(coords, triangles, stepX, stepZ, i)
      {
        var key := PointTile(coords[i], X, stepX, Z, stepZ);
        assert i in Get(tilesToPoints, key);
        assert Get(tilesToTriangles, key) == tilesToTriangles[key];
      }
    }
  }

  /** A mesh whose every point is a vertex of some triangle covers the tiles of all its points. */
  lemma VerticesCoverTiles(coords: seq<Vec3>, triangles: set<Triangle>, stepX: real, stepZ: real)
    requires stepX > 0.0 && stepZ > 0.0
    requires forall t :: t in triangles ==> ValidTriangle(coords, t)
    requires forall i :: 0 <= i < |coords| ==> IsVertex(triangles, i)
    ensures PointTilesCovered(coords, triangles, stepX, stepZ)
  {
    forall i | 0 <= i < |coords|
      ensures TileCovered(coords, triangles, stepX, stepZ, i)
    {
      assert IsVertex(triangles, i);
      var t :| t in triangles && (i == t.0 || i == t.1 || i == t.2);
      VertexTileHasTriangles(coords, triangles, X, stepX, Z, stepZ, i, t);
    }
  }

  /** With the groupings built from the mesh, the tile-wise inside test of the loop is the
      point-wise one: both rays hit a triangle of the point's own tile. */
  lemma InsideInOwnTile(coords: seq<Vec3>, triangles: set<Triangle>, hits: HitTest, stepX: real, stepZ: real,
                        tilesToPoints: TileIndexMap, tilesToTriangles: TileTripletMap, p: nat)
    requires stepX > 0.0 && stepZ > 0.0
    requires forall t :: t in triangles ==> ValidTriangle(coords, t)
    requires forall key :: Get(tilesToPoints, key) == PointBucket(coords, |coords|, X, stepX, Z, stepZ, key)
    requires forall key :: Get(tilesToTriangles, key) == TriangleBucket(coords, triangles, X, stepX, Z, stepZ, key)
    requires forall key :: key in tilesToPoints ==> key in tilesToTriangles
    requires forall key, q :: key in tilesToPoints && q in tilesToPoints[key] ==> q < |coords|
    requires forall key, t :: key in tilesToTriangles && t in tilesToTriangles[key] ==> ValidTriangle(coords, t)
    ensures (exists key :: InsideIn(coords, tilesToPoints, tilesToTriangles, Up, Down, hits, key, p))
            <==> InsidePoint(coords, triangles, hits, stepX, stepZ, p)
  {
    if p < |coords| {
      var key := PointTile(coords[p], X, stepX, Z, stepZ);
      assert p in Get(tilesToPoints, key);
      if InsidePoint(coords, triangles, hits, stepX, stepZ, p) {
        assert InsideIn(coords, tilesToPoints, tilesToTriangles, Up, Down, hits, key, p);
      }
      if exists k :: InsideIn(coords, tilesToPoints, tilesToTriangles, Up, Down, hits, k, p) {
        var k :| InsideIn(coords, tilesToPoints, tilesToTriangles, Up, Down, hits, k, p);
        assert p in Get(tilesToPoints, k);
      }
    }
  }

  /** The whole extractor after reading the mesh: step sizes, the two groupings, the inside
      points and the outer shell. The tile lookup of the inside-point loop fails unless the
      tile of every point holds a triangle. */
  method ExtractOuterShell(coords: seq<Vec3>, triangles: set<Triangle>, hits: HitTest)
    returns (inside: set<nat>, outside: set<Triangle>)
    requires |coords| > 0 && forall i :: 0 <= i < |coords| ==> Finite(coords[i])
    requires StepAlong(coords, X, NumSteps) > 0.0 && StepAlong(coords, Z, NumSteps) > 0.0
    requires forall t :: t in triangles ==> ValidTriangle(coords, t)
    requires PointTilesCovered(coords, triangles, StepAlong(coords, X, NumSteps), StepAlong(coords, Z, NumSteps))
    ensures forall p :: p in inside <==> InsidePoint(coords, triangles, hits, StepAlong(coords, X, NumSteps), StepAlong(coords, Z, NumSteps), p)
    ensures outside == OuterShell(triangles, inside)
  {
    var stepX, stepZ := ShellTiles.GetStepSizes(NumSteps, coords);
    var tilesToPoints := ShellTiles.DistributePointsToTiles(coords, stepX, stepZ);
    var tilesToTriangles := ShellTiles.DistributeTrianglesToTiles(coords, triangles, stepX, stepZ);
    PointTilesHaveTriangles(coords, triangles, stepX, stepZ, tilesToPoints, tilesToTriangles);
    assert forall key, q :: key in tilesToPoints && q in tilesToPoints[key] ==> q < |coords| by {
      forall key, q | key in tilesToPoints && q in tilesToPoints[key] ensures q < |coords| {
        assert q in Get(tilesToPoints, key);
      }
    }
    assert forall key, t :: key in tilesToTriangles && t in tilesToTriangles[key] ==> ValidTriangle(coords, t) by {
      forall key, t | key in tilesToTriangles && t in tilesToTriangles[key] ensures ValidTriangle(coords, t) {
        assert t in Get(tilesToTriangles, key);
      }
    }
    inside := InsidePoints(coords, tilesToPoints, tilesToTriangles, hits);
    forall p
      ensures p in inside <==> InsidePoint(coords, triangles, hits, stepX, stepZ, p)
    {
      InsideInOwnTile(coords, triangles, hits, stepX, stepZ, tilesToPoints, tilesToTriangles, p);
    }
    outside := OutsideTriangles(triangles, inside);
  }
}
