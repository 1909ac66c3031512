/** A list of edges that never holds two overlapping edges
    (src/model_conversion/unique_edge_list.py). */
module UniqueEdgeLists {
  import opened Collections
  import opened Edges

  /** No two entries of `es` are the same segment, in either direction. */
  predicate NoOverlaps(es: seq<Edge>)
  {
    forall i, j :: 0 <= i < j < |es| ==> !AreOverlappingEdges(es[i], es[j])
  }

  /** Some entry of `es` overlaps `e`. */
  predicate Covers(es: seq<Edge>, e: Edge)
  {
    exists i :: 0 <= i < |es| && AreOverlappingEdges(e, es[i])
  }

  /** The list after offering it `e`: unchanged when an entry already
      overlaps `e`, otherwise `e` appended at the end. */
  function AddUnique(es: seq<Edge>, e: Edge): (r: seq<Edge>)
    ensures es <= r && |r| <= |es| + 1
    ensures |r| == |es| <==> Covers(es, e)
  {
    if Covers(es, e) then es else es + [e]
  }

  lemma AddUniquePreservesNoOverlaps(es: seq<Edge>, e: Edge)
    requires NoOverlaps(es)
    ensures NoOverlaps(AddUnique(es, e))
  {
    if !Covers(es, e) {
      forall i | 0 <= i < |es|
        ensures !AreOverlappingEdges(es[i], e)
      {
        OverlapSymmetric(es[i], e);
      }
    }
  }

  /** After an offer, `e` is represented; a second offer of `e`, of an edge
      with its coordinates, or of its reversal, is refused. */
  lemma AddUniqueThenRefused(es: seq<Edge>, e: Edge, again: Edge)
    requires AreOverlappingEdges(again, e)
    ensures Covers(AddUnique(es, e), e)
    ensures Covers(AddUnique(es, e), again)
    ensures AddUnique(AddUnique(es, e), again) == AddUnique(es, e)
  {
    var r := AddUnique(es, e);
    if Covers(es, e) {
      var i :| 0 <= i < |es| && AreOverlappingEdges(e, es[i]);
      OverlapTransitive(again, e, es[i]);
    } else {
      assert AreOverlappingEdges(e, r[|es|]);
      assert AreOverlappingEdges(again, r[|es|]);
    }
  }

  /** Offering the edges of `es` one after another to an empty list. */
  function UniqueByOverlap(es: seq<Edge>): seq<Edge>
  {
    if es == [] then [] else AddUnique(UniqueByOverlap(es[..|es| - 1]), es[|es| - 1])
  }

  lemma UniqueByOverlapAppend(es: seq<Edge>, e: Edge)
    ensures UniqueByOverlap(es + [e]) == AddUnique(UniqueByOverlap(es), e)
  {
    assert (es + [e])[..|es|] == es;
  }

  /** The de-duplicated list holds no two overlapping edges. */
  lemma {:induction false} UniqueByOverlapNoOverlaps(es: seq<Edge>)
    ensures NoOverlaps(UniqueByOverlap(es))
  {
    if es != [] {
      UniqueByOverlapNoOverlaps(es[..|es| - 1]);
      AddUniquePreservesNoOverlaps(UniqueByOverlap(es[..|es| - 1]), es[|es| - 1]);
    }
  }

  /** It holds only edges (the very objects) of `es`. */
  lemma {:induction false} UniqueByOverlapSubset(es: seq<Edge>)
    ensures forall k :: 0 <= k < |UniqueByOverlap(es)| ==> UniqueByOverlap(es)[k] in es
  {
    if es != [] {
      var init := es[..|es| - 1];
      UniqueByOverlapSubset(init);
      assert es == init + [es[|es| - 1]];
    }
  }

  /** It represents every edge of `es`. */
  lemma {:induction false} UniqueByOverlapCovers(es: seq<Edge>)
    ensures forall k :: 0 <= k < |es| ==> Covers(UniqueByOverlap(es), es[k])
  {
    if es != [] {
      var init, e := es[..|es| - 1], es[|es| - 1];
      UniqueByOverlapCovers(init);
      var u := UniqueByOverlap(init);
      AddUniqueThenRefused(u, e, e);
      var r := AddUnique(u, e);
      forall k | 0 <= k < |init|
        ensures Covers(r, es[k])
      {
        assert es[k] == init[k];
        var i :| 0 <= i < |u| && AreOverlappingEdges(init[k], u[i]);
        assert r[i] == u[i];
      }
    }
  }

  class UniqueEdgeList {
    var edgeList: seq<Edge>

    /** The invariant every operation keeps. */
    ghost predicate Valid()
      reads this
    {
      NoOverlaps(edgeList)
    }

    /** A new list is empty. */
    constructor ()
      ensures edgeList == [] && Valid()
    {
      edgeList := [];
    }

    /** Appends `newEdge` unless a stored edge overlaps it; reports whether
        it did. */
    method Add(newEdge: Edge) returns (added: bool)
      modifies this
      ensures added <==> !Covers(old(edgeList), newEdge)
      ensures edgeList == AddUnique(old(edgeList), newEdge)
      ensures edgeList == if added then old(edgeList) + [newEdge] else old(edgeList)
      ensures Covers(edgeList, newEdge)
      ensures old(Valid()) ==> Valid()
    {
      var found := false;
      var i := 0;
      while i < |edgeList|
        invariant 0 <= i <= |edgeList|
        invariant forall k :: 0 <= k < i ==> !AreOverlappingEdges(newEdge, edgeList[k])
      {
        if AreOverlappingEdges(newEdge, edgeList[i]) {
          found := true;
          break;
        }
        i := i + 1;
      }
      if !found {
        edgeList := edgeList + [newEdge];
      }
      added := !found;
      AddUniqueThenRefused(old(edgeList), newEdge, newEdge);
      if old(Valid()) {
        AddUniquePreservesNoOverlaps(old(edgeList), newEdge);
      }
    }

    /** The edges of `a` that are not, by identity, in `b`, each once, in no
        promised order. */
    static function SetDifference(a: UniqueEdgeList, b: UniqueEdgeList): (r: seq<Edge>)
      reads a, b
      ensures NoDuplicates(r)
      ensures forall i :: 0 <= i < |r| ==> r[i] in a.edgeList && r[i] !in b.edgeList
      ensures forall i :: 0 <= i < |a.edgeList| && a.edgeList[i] !in b.edgeList ==> a.edgeList[i] in r
    {
      Difference(a.edgeList, b.edgeList)
    }
  }
}
