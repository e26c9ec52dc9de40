/** Bucketing shared by both tilers: the bucket a point belongs to, the buckets a triangle
    belongs to, the nested range insertion, and coverage of a vertex's own tile. */
module Tiling {
  import opened Mesh
  import opened Grid

  /** The indices below n whose point lies in tile key of the (a, b) grid. */
  ghost function PointBucket(coords: seq<Vec3>, n: nat, a: Axis, sa: real, b: Axis, sb: real, key: TileKey): set<nat>
    requires n <= |coords| && sa > 0.0 && sb > 0.0
  {
    set j: nat | j < n && PointTile(coords[j], a, sa, b, sb) == key
  }

  /** Adding point n to the bucket of its own tile extends every bucket from the first n
      points to the first n + 1. */
  lemma PointBucketStep(m: TileIndexMap, coords: seq<Vec3>, n: nat, a: Axis, sa: real, b: Axis, sb: real)
    requires n < |coords| && sa > 0.0 && sb > 0.0
    requires forall key :: Get(m, key) == PointBucket(coords, n, a, sa, b, sb, key)
    ensures forall key :: Get(AddTo(m, PointTile(coords[n], a, sa, b, sb), n), key) == PointBucket(coords, n + 1, a, sa, b, sb, key)
  {
    var k := PointTile(coords[n], a, sa, b, sb);
    var r := AddTo(m, k, n);
    forall key ensures Get(r, key) == PointBucket(coords, n + 1, a, sa, b, sb, key) {
      if key == k {
        assert PointBucket(coords, n + 1, a, sa, b, sb, key) == PointBucket(coords, n, a, sa, b, sb, key) + {n};
      } else {
        assert PointBucket(coords, n + 1, a, sa, b, sb, key) == PointBucket(coords, n, a, sa, b, sb, key);
      }
    }
  }


  /** The triangles of ts whose bounding-box tile range over the (a, b) grid holds key. */
  ghost function TriangleBucket(coords: seq<Vec3>, ts: set<Triangle>, a: Axis, sa: real, b: Axis, sb: real, key: TileKey): set<Triangle>
    requires forall t :: t in ts ==> ValidTriangle(coords, t)
    requires sa > 0.0 && sb > 0.0
  {
    set t | t in ts && InBox(coords, t, a, sa, b, sb, key)
  }

  /** Adding triangle t adds it to exactly the buckets of its tile range. */
  lemma TriangleBucketAdd(coords: seq<Vec3>, ts: set<Triangle>, t: Triangle, a: Axis, sa: real, b: Axis, sb: real)
    requires forall u :: u in ts ==> ValidTriangle(coords, u)
    requires ValidTriangle(coords, t) && sa > 0.0 && sb > 0.0
    ensures forall key :: TriangleBucket(coords, ts + {t}, a, sa, b, sb, key) == TriangleBucket(coords, ts, a, sa, b, sb, key) + if InBox(coords, t, a, sa, b, sb, key) then {t} else {}
  {
    forall key
      ensures TriangleBucket(coords, ts + {t}, a, sa, b, sb, key) == TriangleBucket(coords, ts, a, sa, b, sb, key) + if InBox(coords, t, a, sa, b, sb, key) then {t} else {}
    {
      if InBox(coords, t, a, sa, b, sb, key) {
        assert TriangleBucket(coords, ts + {t}, a, sa, b, sb, key) == TriangleBucket(coords, ts, a, sa, b, sb, key) + {t};
      } else {
        assert TriangleBucket(coords, ts + {t}, a, sa, b, sb, key) == TriangleBucket(coords, ts, a, sa, b, sb, key);
      }
    }
  }

  /** The two nested inclusive loops of distribute_triangles_to_tiles: t is added to the
      bucket of every key (i, j) with lo1 <= i <= hi1 and lo2 <= j <= hi2, and to no other. */
  method InsertIntoRange(m: TileTripletMap, t: Triangle, lo1: int, hi1: int, lo2: int, hi2: int)
    returns (r: TileTripletMap)
    requires NoEmptyBucket(m)
    ensures forall key :: Get(r, key) == if lo1 <= key.0 <= hi1 && lo2 <= key.1 <= hi2 then Get(m, key) + {t} else Get(m, key)
    ensures NoEmptyBucket(r)
  {
    r := m;
    var i := lo1;
    while i <= hi1
      invariant lo1 <= i && (i <= hi1 + 1 || i == lo1)
      invariant forall key :: Get(r, key) == if lo1 <= key.0 < i && lo2 <= key.1 <= hi2 then Get(m, key) + {t} else Get(m, key)
      invariant NoEmptyBucket(r)
      decreases hi1 - i
    {
      var j := lo2;
      while j <= hi2
        invariant lo2 <= j && (j <= hi2 + 1 || j == lo2)
        invariant forall key :: Get(r, key) == if (lo1 <= key.0 < i && lo2 <= key.1 <= hi2) || (key.0 == i && lo2 <= key.1 < j) then Get(m, key) + {t} else Get(m, key)
        invariant NoEmptyBucket(r)
        decreases hi2 - j
      {
        r := AddTo(r, (i, j), t);
        j := j + 1;
      }
      i := i + 1;
    }
  }

  /** Each point index lies in the bucket of its own tile and in no other. */
  lemma PointInOneBucket(coords: seq<Vec3>, a: Axis, sa: real, b: Axis, sb: real, i: nat, key: TileKey)
    requires i < |coords| && sa > 0.0 && sb > 0.0
    ensures i in PointBucket(coords, |coords|, a, sa, b, sb, key) <==> key == PointTile(coords[i], a, sa, b, sb)
  {
  }

  /** Coverage: a triangle is in the bucket of the tile of each of its vertices. */
  lemma TriangleInVertexTiles(coords: seq<Vec3>, ts: set<Triangle>, t: Triangle, a: Axis, sa: real, b: Axis, sb: real)
    requires forall u :: u in ts ==> ValidTriangle(coords, u)
    requires t in ts && ValidTriangle(coords, t) && sa > 0.0 && sb > 0.0
    ensures t in TriangleBucket(coords, ts, a, sa, b, sb, PointTile(coords[t.0], a, sa, b, sb))
    ensures t in TriangleBucket(coords, ts, a, sa, b, sb, PointTile(coords[t.1], a, sa, b, sb))
    ensures t in TriangleBucket(coords, ts, a, sa, b, sb, PointTile(coords[t.2], a, sa, b, sb))
  {
    VertexTilesInBox(coords, t, a, sa, b, sb);
  }

  /** A point that is a vertex of some triangle has a non-empty triangle bucket in its own tile,
      so the lookup of its tile in the triangle map succeeds. */
  lemma VertexTileHasTriangles(coords: seq<Vec3>, ts: set<Triangle>, a: Axis, sa: real, b: Axis, sb: real, i: nat, t: Triangle)
    requires forall u :: u in ts ==> ValidTriangle(coords, u)
    requires t in ts && ValidTriangle(coords, t) && (i == t.0 || i == t.1 || i == t.2) && sa > 0.0 && sb > 0.0
    ensures TriangleBucket(coords, ts, a, sa, b, sb, PointTile(coords[i], a, sa, b, sb)) != {}
  {
    TriangleInVertexTiles(coords, ts, t, a, sa, b, sb);
  }
}
