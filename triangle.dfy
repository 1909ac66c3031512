/** A triangle: three edges and the unit normal supplied by the mesh loader
    (src/model_conversion/triangle.py). */
module Triangles {
  import opened Collections
  import opened Edges

  /** A normal vector, compared component by component. */
  datatype Normal = Normal(x: real, y: real, z: real)

  /** Triangles are compared by identity where the source puts them in a
      Python set; their edges and normal never change after construction. */
  class Triangle {
    const first: Edge
    const second: Edge
    const third: Edge
    const normal: Normal

    constructor (e1: Edge, e2: Edge, e3: Edge, normal: Normal)
      ensures Edges() == [e1, e2, e3] && this.normal == normal
      ensures GetFirstEdge() == e1 && GetSecondEdge() == e2 && GetThirdEdge() == e3
      ensures GetNormal() == normal
    {
      first, second, third := e1, e2, e3;
      this.normal := normal;
    }

    /** The edge list, in construction order. */
    function Edges(): seq<Edge> { [first, second, third] }

    function GetFirstEdge(): Edge { first }

    function GetSecondEdge(): Edge { second }

    function GetThirdEdge(): Edge { third }

    function GetNormal(): Normal { normal }

    /** Every pair of edges has a vertex in common.  The source returns the
        conjunction of the three shared points, which is truthy exactly when
        none of them is `None`. */
    function IsClosedLoop(): (r: bool)
      ensures r <==> Touch(first, second) && Touch(first, third) && Touch(second, third)
    {
      HasSharedVertex(first, second).Some? &&
      HasSharedVertex(first, third).Some? &&
      HasSharedVertex(second, third).Some?
    }

    /** Some edge of the triangle overlaps `checkEdge`, tried in order. */
    function HasEdge(checkEdge: Edge): (r: bool)
      ensures r <==> exists i :: 0 <= i < 3 && AreOverlappingEdges(Edges()[i], checkEdge)
    {
      if AreOverlappingEdges(first, checkEdge) then
        assert AreOverlappingEdges(Edges()[0], checkEdge);
        true
      else if AreOverlappingEdges(second, checkEdge) then
        assert AreOverlappingEdges(Edges()[1], checkEdge);
        true
      else
        assert AreOverlappingEdges(third, checkEdge) ==> AreOverlappingEdges(Edges()[2], checkEdge);
        AreOverlappingEdges(third, checkEdge)
    }
  }

  /** Some endpoint of `a` is an endpoint of `b`. */
  predicate Touch(a: Edge, b: Edge)
  {
    Start(a) in GetVertices(b) || End(a) in GetVertices(b)
  }

  /** A triangle built from three vertices p, q, r the way the loaders build
      it (p to q, q to r, and r to p or p to r) is a closed loop. */
  lemma TriangleOfVerticesIsClosedLoop(t: Triangle, p: Point, q: Point, r: Point)
    requires Start(t.first) == p && End(t.first) == q
    requires Start(t.second) == q && End(t.second) == r
    requires (Start(t.third) == r && End(t.third) == p) || (Start(t.third) == p && End(t.third) == r)
    ensures t.IsClosedLoop()
  {
  }

  /** Every edge of the triangle, and every reversal of one, is found. */
  lemma HasEdgeFindsOwnEdges(t: Triangle, i: nat, e: Edge)
    requires i < 3
    requires SameEdge(e, t.Edges()[i]) || IsReversal(t.Edges()[i], e)
    ensures t.HasEdge(e)
  {
    assert AreOverlappingEdges(t.Edges()[i], e);
  }

  /** An edge that is found starts and ends at vertices of the triangle; so
      an edge with an endpoint elsewhere is not found. */
  lemma HasEdgeOnlyAtVertices(t: Triangle, e: Edge)
    requires t.HasEdge(e)
    ensures exists i :: 0 <= i < 3 && Start(e) in GetVertices(t.Edges()[i])
    ensures exists i :: 0 <= i < 3 && End(e) in GetVertices(t.Edges()[i])
  {
    var i :| 0 <= i < 3 && AreOverlappingEdges(t.Edges()[i], e);
    assert Start(e) in GetVertices(t.Edges()[i]) && End(e) in GetVertices(t.Edges()[i]);
  }

  /** Some edge of `t1` is the same edge as some edge of `t2`: it has that
      edge's start and its end.  The source loops over `t1` and `t2`
      themselves; this is the loop over their edge lists (see
      AreNeighborsAsWritten and AreNeighborsOverEdgeLists). */
  function AreNeighbors(t1: Triangle, t2: Triangle): (r: bool)
    ensures r <==> (exists i, j :: 0 <= i < 3 && 0 <= j < 3 &&
                      Start(t1.Edges()[i]) == Start(t2.Edges()[j]) && End(t1.Edges()[i]) == End(t2.Edges()[j]))
  {
    exists i, j :: 0 <= i < 3 && 0 <= j < 3 && SameEdge(t1.Edges()[i], t2.Edges()[j])
  }

  lemma NeighborsReflexive(t: Triangle)
    ensures AreNeighbors(t, t)
  {
    assert SameEdge(t.Edges()[0], t.Edges()[0]);
  }

  lemma NeighborsSymmetric(t1: Triangle, t2: Triangle)
    ensures AreNeighbors(t1, t2) == AreNeighbors(t2, t1)
  {
    if AreNeighbors(t1, t2) {
      var i, j :| 0 <= i < 3 && 0 <= j < 3 && SameEdge(t1.Edges()[i], t2.Edges()[j]);
      assert SameEdge(t2.Edges()[j], t1.Edges()[i]);
    }
    if AreNeighbors(t2, t1) {
      var i, j :| 0 <= i < 3 && 0 <= j < 3 && SameEdge(t2.Edges()[i], t1.Edges()[j]);
      assert SameEdge(t1.Edges()[j], t2.Edges()[i]);
    }
  }

  /** A directed match is also an overlap, so neighbours share an edge in
      the sense of HasEdge. */
  lemma NeighborsShareAnEdge(t1: Triangle, t2: Triangle)
    requires AreNeighbors(t1, t2)
    ensures exists i :: 0 <= i < 3 && t2.HasEdge(t1.Edges()[i])
  {
    var i, j :| 0 <= i < 3 && 0 <= j < 3 && SameEdge(t1.Edges()[i], t2.Edges()[j]);
    HasEdgeFindsOwnEdges(t2, j, t1.Edges()[i]);
  }

  /** Neighbourhood needs the same direction: if every edge of `t2` has an
      endpoint that no edge of `t1` starts at, the two are not neighbours
      even when they share a segment. */
  lemma NeighborsNeedSameStart(t1: Triangle, t2: Triangle)
    requires forall i, j :: 0 <= i < 3 && 0 <= j < 3 ==> Start(t1.Edges()[i]) != Start(t2.Edges()[j])
    ensures !AreNeighbors(t1, t2)
  {
  }

  /** Python's outcome of a call: a value, or a raised TypeError. */
  datatype Outcome<T> = Returned(value: T) | RaisedTypeError

  /** What a `for` loop of `are_neighbors` can be handed: a list of edges,
      or a Triangle object. */
  datatype Iterable = EdgeList(items: seq<Edge>) | TriangleObject(triangle: Triangle)

  /** Python's `iter()`: a list yields its items; a Triangle defines neither
      `__iter__` nor `__getitem__`, so iterating over it raises TypeError. */
  function Iter(v: Iterable): Outcome<seq<Edge>>
  {
    match v
    case EdgeList(items) => Returned(items)
    case TriangleObject(_) => RaisedTypeError
  }

  /** The nested loop of `are_neighbors` over whatever it is handed: the
      outer loop iterates `x`; the inner loop, entered only when `x` has an
      element, iterates `y`; the flag ends true iff some pair is the same
      edge. */
  function AreNeighborsAsWritten(x: Iterable, y: Iterable): (r: Outcome<bool>)
    ensures x.TriangleObject? ==> r == RaisedTypeError
    ensures x.EdgeList? && x.items == [] ==> r == Returned(false)
    ensures x.EdgeList? && x.items != [] && y.TriangleObject? ==> r == RaisedTypeError
    ensures x.EdgeList? && y.EdgeList? ==>
      r == Returned(exists i, j :: 0 <= i < |x.items| && 0 <= j < |y.items| && SameEdge(x.items[i], y.items[j]))
  {
    match Iter(x)
    case RaisedTypeError => RaisedTypeError
    case Returned(xs) =>
      if xs == [] then Returned(false)
      else
        match Iter(y)
        case RaisedTypeError => RaisedTypeError
        case Returned(ys) =>
          Returned(exists i, j :: 0 <= i < |xs| && 0 <= j < |ys| && SameEdge(xs[i], ys[j]))
  }

  /** The call as written, `are_neighbors(t, t)`, raises instead of giving
      the True that the intended AreNeighbors gives. */
  lemma AreNeighborsAsWrittenNeverAnswers(t1: Triangle, t2: Triangle)
    ensures AreNeighborsAsWritten(TriangleObject(t1), TriangleObject(t2)) == RaisedTypeError
    ensures AreNeighbors(t1, t1)
    ensures AreNeighborsAsWritten(TriangleObject(t1), TriangleObject(t1)) != Returned(AreNeighbors(t1, t1))
  {
    NeighborsReflexive(t1);
  }

  /** The same loop handed the two edge lists computes AreNeighbors: the
      correction is to iterate `t1.edges` and `t2.edges`. */
  lemma AreNeighborsOverEdgeLists(t1: Triangle, t2: Triangle)
    ensures AreNeighborsAsWritten(EdgeList(t1.Edges()), EdgeList(t2.Edges())) == Returned(AreNeighbors(t1, t2))
  {
  }

  /** Some triangle of `ts` is a neighbour of `t`: the loop of
      `has_neighbor`, which stops at the first one. */
  function HasNeighborIn(ts: seq<Triangle>, t: Triangle): (r: bool)
    ensures r <==> exists i :: 0 <= i < |ts| && AreNeighbors(ts[i], t)
  {
    if ts == [] then false
    else if AreNeighbors(ts[0], t) then true
    else
      var rest := HasNeighborIn(ts[1..], t);
      assert forall i :: 1 <= i < |ts| ==> ts[i] == ts[1..][i - 1];
      rest
  }

  /** Every triangle of a list is a neighbour of something in it: itself. */
  lemma MemberHasNeighborIn(ts: seq<Triangle>, k: nat)
    requires k < |ts|
    ensures HasNeighborIn(ts, ts[k])
  {
    NeighborsReflexive(ts[k]);
  }

  /** The index of the first triangle that has `edge`, or None when none has. */
  function MatchTriangleIndex(edge: Edge, triangles: seq<Triangle>): (r: Option<nat>)
    ensures r.None? <==> forall i :: 0 <= i < |triangles| ==> !triangles[i].HasEdge(edge)
    ensures r.Some? ==> r.value < |triangles| && triangles[r.value].HasEdge(edge)
    ensures r.Some? ==> forall i :: 0 <= i < r.value ==> !triangles[i].HasEdge(edge)
  {
    if triangles == [] then None
    else if triangles[0].HasEdge(edge) then Some(0)
    else
      match MatchTriangleIndex(edge, triangles[1..])
      case None => None
      case Some(i) => Some(i + 1)
  }
}
