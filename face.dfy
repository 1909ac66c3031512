/** A face: triangles sharing one normal, the normal taken from the first
    (src/model_conversion/face.py). */
module Faces {
  import opened Collections
  import opened Edges
  import opened Triangles
  import opened UniqueEdgeLists

  /** The edges of `ts`, triangle by triangle, each triangle's in order. */
  function AllEdges(ts: seq<Triangle>): seq<Edge>
  {
    if ts == [] then [] else AllEdges(ts[..|ts| - 1]) + ts[|ts| - 1].Edges()
  }

  /** Every entry of AllEdges is an edge of one of the triangles, and every
      edge of every triangle is an entry. */
  lemma {:induction false} AllEdgesOfTriangles(ts: seq<Triangle>)
    ensures forall k :: 0 <= k < |AllEdges(ts)| ==>
      exists i :: 0 <= i < |ts| && AllEdges(ts)[k] in ts[i].Edges()
    ensures forall i, j :: 0 <= i < |ts| && 0 <= j < 3 ==> ts[i].Edges()[j] in AllEdges(ts)
  {
    if ts != [] {
      var init, t := ts[..|ts| - 1], ts[|ts| - 1];
      AllEdgesOfTriangles(init);
      var a := AllEdges(init);
      assert AllEdges(ts) == a + t.Edges();
      forall k | 0 <= k < |AllEdges(ts)|
        ensures exists i :: 0 <= i < |ts| && AllEdges(ts)[k] in ts[i].Edges()
      {
        if k < |a| {
          var i :| 0 <= i < |init| && a[k] in init[i].Edges();
          assert ts[i] == init[i];
          assert AllEdges(ts)[k] == a[k];
        } else {
          assert AllEdges(ts)[k] == t.Edges()[k - |a|];
          assert AllEdges(ts)[k] in ts[|ts| - 1].Edges();
        }
      }
      forall i, j | 0 <= i < |ts| && 0 <= j < 3
        ensures ts[i].Edges()[j] in AllEdges(ts)
      {
        if i < |init| {
          assert ts[i] == init[i];
        }
      }
    } else {
      assert AllEdges(ts) == [];
    }
  }

  /** Offering one more triangle's edges, in order. */
  lemma UniqueEdgesStep(ts: seq<Triangle>, i: nat)
    requires i < |ts|
    ensures UniqueByOverlap(AllEdges(ts[..i + 1])) ==
      AddUnique(AddUnique(AddUnique(UniqueByOverlap(AllEdges(ts[..i])), ts[i].first), ts[i].second), ts[i].third)
  {
    var t := ts[i];
    var before := AllEdges(ts[..i]);
    assert ts[..i + 1][..i] == ts[..i];
    assert AllEdges(ts[..i + 1]) == before + [t.first, t.second, t.third];
    UniqueByOverlapAppend(before, t.first);
    UniqueByOverlapAppend(before + [t.first], t.second);
    UniqueByOverlapAppend(before + [t.first, t.second], t.third);
    assert before + [t.first] + [t.second] == before + [t.first, t.second];
    assert before + [t.first, t.second] + [t.third] == before + [t.first, t.second, t.third];
  }

  /** Every entry of the de-duplicated list is an edge of one of the
      triangles. */
  lemma UniqueEdgesFromTriangles(ts: seq<Triangle>)
    ensures forall k :: 0 <= k < |UniqueByOverlap(AllEdges(ts))| ==>
      exists i :: 0 <= i < |ts| && UniqueByOverlap(AllEdges(ts))[k] in ts[i].Edges()
  {
    var all := AllEdges(ts);
    var u := UniqueByOverlap(all);
    UniqueByOverlapSubset(all);
    AllEdgesOfTriangles(ts);
    forall k | 0 <= k < |u|
      ensures exists i :: 0 <= i < |ts| && u[k] in ts[i].Edges()
    {
      var m :| 0 <= m < |all| && all[m] == u[k];
    }
  }

  /** Every edge of every triangle overlaps an entry of the de-duplicated
      list. */
  lemma UniqueEdgesCoverTriangles(ts: seq<Triangle>)
    ensures forall i, j :: 0 <= i < |ts| && 0 <= j < 3 ==>
      Covers(UniqueByOverlap(AllEdges(ts)), ts[i].Edges()[j])
  {
    var all := AllEdges(ts);
    var u := UniqueByOverlap(all);
    UniqueByOverlapCovers(all);
    AllEdgesOfTriangles(ts);
    forall i, j | 0 <= i < |ts| && 0 <= j < 3
      ensures Covers(u, ts[i].Edges()[j])
    {
      var m :| 0 <= m < |all| && all[m] == ts[i].Edges()[j];
    }
  }

  /** What `get_edges` promises, stated on the specification: no two
      overlapping edges, only edges of the triangles, and every triangle edge
      represented. */
  lemma UniqueEdgesOfTriangles(ts: seq<Triangle>)
    ensures NoOverlaps(UniqueByOverlap(AllEdges(ts)))
    ensures forall k :: 0 <= k < |UniqueByOverlap(AllEdges(ts))| ==>
      exists i :: 0 <= i < |ts| && UniqueByOverlap(AllEdges(ts))[k] in ts[i].Edges()
    ensures forall i, j :: 0 <= i < |ts| && 0 <= j < 3 ==>
      Covers(UniqueByOverlap(AllEdges(ts)), ts[i].Edges()[j])
  {
    UniqueByOverlapNoOverlaps(AllEdges(ts));
    UniqueEdgesFromTriangles(ts);
    UniqueEdgesCoverTriangles(ts);
  }

  class Face {
    var triangles: seq<Triangle>
    var normal: Option<Normal>

    /** A normal, once there is one, is that of the first triangle. */
    ghost predicate Valid()
      reads this
    {
      normal.Some? ==> triangles != [] && triangles[0].normal == normal.value
    }

    /** Built from a list (Python's `None` and `[]` both give an empty face). */
    constructor (triangles: seq<Triangle>)
      ensures this.triangles == triangles
      ensures normal == if triangles == [] then None else Some(triangles[0].GetNormal())
      ensures Valid()
    {
      this.triangles := triangles;
      if triangles != [] {
        normal := Some(triangles[0].GetNormal());
      } else {
        normal := None;
      }
    }

    /** Whether `n` equals the face normal, component by component.  Without a
        normal the source raises AttributeError, so one is required here. */
    function MatchNormal(n: Normal): (r: bool)
      reads this
      requires normal.Some?
      ensures r <==> normal.value.x == n.x && normal.value.y == n.y && normal.value.z == n.z
    {
      normal.value == n
    }

    /** The number of stored triangles. */
    function Count(): (r: nat)
      reads this
      ensures r == |triangles|
    {
      |triangles|
    }

    method AddTriangle(triangle: Triangle)
      modifies this
      ensures triangles == old(triangles) + [triangle] && normal == old(normal)
      ensures Count() == old(Count()) + 1
      ensures old(Valid()) ==> Valid()
    {
      triangles := triangles + [triangle];
    }

    /** Some stored triangle is a neighbour of `testTriangle`. */
    function HasNeighbor(testTriangle: Triangle): (r: bool)
      reads this
      ensures r <==> exists i :: 0 <= i < |triangles| && AreNeighbors(triangles[i], testTriangle)
    {
      HasNeighborIn(triangles, testTriangle)
    }

    /** The edges of all triangles, collected into a new list that keeps one
        representative of each segment. */
    method GetEdges() returns (result: UniqueEdgeList)
      ensures fresh(result) && result.Valid()
      ensures result.edgeList == UniqueByOverlap(AllEdges(triangles))
      ensures forall k :: 0 <= k < |result.edgeList| ==>
        exists i :: 0 <= i < |triangles| && result.edgeList[k] in triangles[i].Edges()
      ensures forall i, j :: 0 <= i < |triangles| && 0 <= j < 3 ==>
        Covers(result.edgeList, triangles[i].Edges()[j])
    {
      result := new UniqueEdgeList();
      var i := 0;
      while i < |triangles|
        invariant 0 <= i <= |triangles|
        invariant fresh(result)
        invariant result.edgeList == UniqueByOverlap(AllEdges(triangles[..i]))
      {
        UniqueEdgesStep(triangles, i);
        AddEdgesOf(result, triangles[i]);
        i := i + 1;
      }
      assert triangles[..i] == triangles;
      UniqueEdgesOfTriangles(triangles);
    }

    /** One pass of the loop in GetEdges: the three edges of `triangle`
        offered to `list` in order. */
    static method AddEdgesOf(list: UniqueEdgeList, triangle: Triangle)
      modifies list
      ensures list.edgeList ==
        AddUnique(AddUnique(AddUnique(old(list.edgeList), triangle.first), triangle.second), triangle.third)
    {
      var added := list.Add(triangle.first);
      added := list.Add(triangle.second);
      added := list.Add(triangle.third);
    }

    /** The triangles of `group1` that are not, by identity, in `group2`,
        each once, in no promised order. */
    static function SetDifference(group1: seq<Triangle>, group2: seq<Triangle>): (r: seq<Triangle>)
      ensures NoDuplicates(r)
      ensures forall i :: 0 <= i < |r| ==> r[i] in group1 && r[i] !in group2
      ensures forall i :: 0 <= i < |group1| && group1[i] !in group2 ==> group1[i] in r
    {
      Difference(group1, group2)
    }
  }

  /** Every stored triangle is its own neighbour, so the face reports it. */
  lemma StoredTriangleHasNeighbor(f: Face, k: nat)
    requires k < |f.triangles|
    ensures f.HasNeighbor(f.triangles[k])
  {
    NeighborsReflexive(f.triangles[k]);
  }

  /** A valid face with a normal matches its first triangle's normal and
      nothing else. */
  lemma ValidFaceMatchesFirstNormal(f: Face, n: Normal)
    requires f.Valid() && f.normal.Some?
    ensures f.MatchNormal(n) <==> n == f.triangles[0].normal
  {
  }

  /** {t0, t1} minus {t0, t2} is {t1} for three distinct triangles. */
  lemma SetDifferenceOfPairs(t0: Triangle, t1: Triangle, t2: Triangle)
    requires t0 != t1 && t0 != t2 && t1 != t2
    ensures Face.SetDifference([t0, t1], [t0, t2]) == [t1]
  {
    assert [t0, t1][..1] == [t0];
    assert [t0][..0] == [];
    assert Difference([t0], [t0, t2]) == [];
  }
}
