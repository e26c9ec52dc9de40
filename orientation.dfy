/** Orientation by seen half-edges. Triangles are taken in traversal order; a triangle that
    repeats a half-edge already used by an earlier output triangle is reversed, or dropped
    when bad triangles are to be dropped. */
module Orientation {
  import opened Mesh

  /** All half-edges of the triangles of ts. */
  function HalfEdgesOf(ts: seq<Triangle>): set<Edge>
    decreases |ts|
  {
    if |ts| == 0 then {} else HalfEdgesOf(ts[..|ts| - 1]) + HalfEdges(ts[|ts| - 1])
  }

  /** Some half-edge of t is already in H. */
  predicate Conflicts(t: Triangle, H: set<Edge>) {
    (t.0, t.1) in H || (t.1, t.2) in H || (t.2, t.0) in H
  }

  /** The output of the orientation loop for triangles taken in the order of visit. */
  function Orient(visit: seq<Triangle>, drop: bool): seq<Triangle>
    decreases |visit|
  {
    if |visit| == 0 then []
    else
      var o := Orient(visit[..|visit| - 1], drop);
      var t := visit[|visit| - 1];
      if Conflicts(t, HalfEdgesOf(o)) then (if drop then o else o + [Reverse(t)]) else o + [t]
  }

  /** No directed half-edge is used by two triangles: the mesh is consistently oriented. */
  predicate NoSharedHalfEdge(ts: seq<Triangle>) {
    forall i, j :: 0 <= i < j < |ts| ==> HalfEdges(ts[i]) !! HalfEdges(ts[j])
  }

  lemma ConflictsMeaning(t: Triangle, H: set<Edge>)
    ensures Conflicts(t, H) <==> HalfEdges(t) * H != {}
  {
    if Conflicts(t, H) {
      if (t.0, t.1) in H { assert (t.0, t.1) in HalfEdges(t) * H; }
      else if (t.1, t.2) in H { assert (t.1, t.2) in HalfEdges(t) * H; }
      else { assert (t.2, t.0) in HalfEdges(t) * H; }
    }
  }

  /** A half-edge is in HalfEdgesOf(ts) exactly when some triangle of ts has it. */
  lemma {:induction false} HalfEdgesOfMembers(ts: seq<Triangle>, e: Edge)
    ensures e in HalfEdgesOf(ts) <==> exists i :: 0 <= i < |ts| && e in HalfEdges(ts[i])
    decreases |ts|
  {
    if |ts| > 0 {
      var init := ts[..|ts| - 1];
      HalfEdgesOfMembers(init, e);
      if e in HalfEdgesOf(init) {
        var i :| 0 <= i < |init| && e in HalfEdges(init[i]);
        assert ts[i] == init[i];
      }
      if exists i :: 0 <= i < |ts| && e in HalfEdges(ts[i]) {
        var i :| 0 <= i < |ts| && e in HalfEdges(ts[i]);
        if i < |init| {
          assert init[i] == ts[i];
        }
      }
    }
  }

  /** The half-edges of a concatenation are those of its parts. */
  lemma {:induction false} HalfEdgesOfAppend(a: seq<Triangle>, b: seq<Triangle>)
    ensures HalfEdgesOf(a + b) == HalfEdgesOf(a) + HalfEdgesOf(b)
    decreases |b|
  {
    if |b| == 0 {
      assert a + b == a;
    } else {
      assert (a + b)[..|a + b| - 1] == a + b[..|b| - 1];
      HalfEdgesOfAppend(a, b[..|b| - 1]);
    }
  }

  /** Extending the input only appends to the output. */
  lemma {:induction false} OrientExtends(visit: seq<Triangle>, k: nat, drop: bool)
    requires k <= |visit|
    ensures |Orient(visit[..k], drop)| <= |Orient(visit, drop)|
    ensures Orient(visit[..k], drop) == Orient(visit, drop)[..|Orient(visit[..k], drop)|]
    decreases |visit|
  {
    if k < |visit| {
      var init := visit[..|visit| - 1];
      assert init[..k] == visit[..k];
      OrientExtends(init, k, drop);
    } else {
      assert visit[..k] == visit;
    }
  }

  /** With drop set, the output keeps triangles of the input, in input order. */
  lemma {:induction false} OrientSublist(visit: seq<Triangle>)
    ensures Sublist(Orient(visit, true), visit)
    decreases |visit|
  {
    if |visit| > 0 {
      var init := visit[..|visit| - 1];
      var o := Orient(init, true);
      OrientSublist(init);
      var out := Orient(visit, true);
      if out == o {
        assert Sublist(out, visit);
      } else {
        assert out[..|out| - 1] == o && out[|out| - 1] == visit[|visit| - 1];
      }
    }
  }

  /** With drop set, the output is consistently oriented. */
  lemma {:induction false} OrientNoShared(visit: seq<Triangle>)
    ensures NoSharedHalfEdge(Orient(visit, true))
    decreases |visit|
  {
    if |visit| > 0 {
      var init := visit[..|visit| - 1];
      var o := Orient(init, true);
      var t := visit[|visit| - 1];
      OrientNoShared(init);
      if !Conflicts(t, HalfEdgesOf(o)) {
        var out := o + [t];
        ConflictsMeaning(t, HalfEdgesOf(o));
        forall i, j | 0 <= i < j < |out| ensures HalfEdges(out[i]) !! HalfEdges(out[j]) {
          if j == |o| {
            forall e | e in HalfEdges(o[i]) ensures e in HalfEdgesOf(o) {
              HalfEdgesOfMembers(o, e);
            }
          }
        }
      }
    }
  }

  /** With drop set, nothing more could be kept: every input triangle is in the output or
      shares a half-edge with it. */
  lemma {:induction false} OrientMaximal(visit: seq<Triangle>, t: Triangle)
    requires t in visit
    ensures t in Orient(visit, true) || Conflicts(t, HalfEdgesOf(Orient(visit, true)))
    decreases |visit|
  {
    var init := visit[..|visit| - 1];
    var o := Orient(init, true);
    var last := visit[|visit| - 1];
    var out := Orient(visit, true);
    if out != o {
      var single: seq<Triangle> := [last];
      HalfEdgesOfAppend(o, single);
      assert single[..0] == [];
    }
    assert HalfEdgesOf(o) <= HalfEdgesOf(out);
    if t != last {
      assert t in init;
      OrientMaximal(init, t);
    }
  }

  /** The first triangle is always kept as it is. */
  lemma {:induction false} OrientFirst(visit: seq<Triangle>, drop: bool)
    requires |visit| > 0
    ensures |Orient(visit, drop)| > 0 && Orient(visit, drop)[0] == visit[0]
  {
    OrientExtends(visit, 1, drop);
    var one := visit[..1];
    assert one[..0] == [];
  }

  /** Without drop, every triangle is kept, at its own position, reversed exactly when it
      repeats a half-edge of the triangles output before it. */
  lemma {:induction false} OrientKeepsAll(visit: seq<Triangle>)
    ensures |Orient(visit, false)| == |visit|
    ensures forall k :: 0 <= k < |visit| ==>
              Orient(visit, false)[k]
              == if Conflicts(visit[k], HalfEdgesOf(Orient(visit, false)[..k])) then Reverse(visit[k]) else visit[k]
    decreases |visit|
  {
    if |visit| > 0 {
      var init := visit[..|visit| - 1];
      var o := Orient(init, false);
      OrientKeepsAll(init);
      var out := Orient(visit, false);
      assert out[..|o|] == o;
      forall k | 0 <= k < |visit|
        ensures out[k] == if Conflicts(visit[k], HalfEdgesOf(out[..k])) then Reverse(visit[k]) else visit[k]
      {
        if k < |init| {
          assert out[..k] == o[..k] && init[k] == visit[k];
        }
      }
    }
  }

  /** A consistently oriented list holds no triangle twice. */
  lemma NoSharedDistinct(ts: seq<Triangle>)
    requires NoSharedHalfEdge(ts)
    ensures Distinct(ts)
  {
    forall i, j | 0 <= i < j < |ts| ensures ts[i] != ts[j] {
      assert (ts[i].0, ts[i].1) in HalfEdges(ts[i]);
    }
  }

  /** Dropping triangles keeps a list consistently oriented. */
  lemma {:induction false} SublistNoShared(xs: seq<Triangle>, ys: seq<Triangle>)
    requires Sublist(xs, ys) && NoSharedHalfEdge(ys)
    ensures NoSharedHalfEdge(xs)
    decreases |ys|
  {
    if |xs| > 0 {
      var yinit := ys[..|ys| - 1];
      assert NoSharedHalfEdge(yinit) by {
        forall i, j | 0 <= i < j < |yinit| ensures HalfEdges(yinit[i]) !! HalfEdges(yinit[j]) {
          assert yinit[i] == ys[i] && yinit[j] == ys[j];
        }
      }
      if xs[|xs| - 1] == ys[|ys| - 1] && Sublist(xs[..|xs| - 1], yinit) {
        var xinit := xs[..|xs| - 1];
        SublistNoShared(xinit, yinit);
        SublistFacts(xinit, yinit);
        forall i, j | 0 <= i < j < |xs| ensures HalfEdges(xs[i]) !! HalfEdges(xs[j]) {
          if j == |xs| - 1 {
            assert xs[i] == xinit[i] && xinit[i] in yinit;
            var k :| 0 <= k < |yinit| && yinit[k] == xs[i];
            assert ys[k] == xs[i];
          } else {
            assert xs[i] == xinit[i] && xs[j] == xinit[j];
          }
        }
      } else {
        SublistNoShared(xs, yinit);
      }
    }
  }
}
