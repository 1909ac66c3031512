/** A 3D line segment with a start and an end point, and the exact-coordinate
    predicates the mesh simplification builds on (src/model_conversion/edge.py). */
module Edges {
  import opened Collections

  /** A point in space, compared by value. */
  datatype Point = Point(x: real, y: real, z: real)

  /** An edge from (x1, y1, z1) to (x2, y2, z2).  Its coordinates are fixed
      at construction; distinct edge objects with equal coordinates stay
      distinct, as Python objects without `__eq__` do. */
  class Edge {
    const x1: real
    const y1: real
    const z1: real
    const x2: real
    const y2: real
    const z2: real

    constructor (x1: real, y1: real, z1: real, x2: real, y2: real, z2: real)
      ensures Start(this) == Point(x1, y1, z1) && End(this) == Point(x2, y2, z2)
    {
      this.x1, this.y1, this.z1 := x1, y1, z1;
      this.x2, this.y2, this.z2 := x2, y2, z2;
    }
  }

  function Start(e: Edge): Point { Point(e.x1, e.y1, e.z1) }

  function End(e: Edge): Point { Point(e.x2, e.y2, e.z2) }

  /** `b` runs over the same two points as `a`, the other way round. */
  predicate IsReversal(a: Edge, b: Edge)
  {
    Start(b) == End(a) && End(b) == Start(a)
  }

  /** The two vertices of the edge, start first. */
  function GetVertices(e: Edge): (vs: seq<Point>)
    ensures |vs| == 2 && vs[0] == Start(e) && vs[1] == End(e)
  {
    [Point(e.x1, e.y1, e.z1), Point(e.x2, e.y2, e.z2)]
  }

  /** Dot product of the direction vectors of `a` and `b`.  A zero-length
      edge gives 0, and the product of an edge with itself, its squared
      length, is never negative. */
  function Dot(a: Edge, b: Edge): (r: real)
    ensures Start(a) == End(a) || Start(b) == End(b) ==> r == 0.0
    ensures a == b ==> r >= 0.0
  {
    var dx, dy, dz := a.x2 - a.x1, a.y2 - a.y1, a.z2 - a.z1;
    assert dx * dx >= 0.0 && dy * dy >= 0.0 && dz * dz >= 0.0;
    dx * (b.x2 - b.x1) + dy * (b.y2 - b.y1) + dz * (b.z2 - b.z1)
  }

  lemma DotSymmetric(a: Edge, b: Edge)
    ensures Dot(a, b) == Dot(b, a)
  {
  }

  /** Reversing one edge negates the dot product. */
  lemma DotOfReversal(a: Edge, b: Edge, rb: Edge)
    requires IsReversal(b, rb)
    ensures Dot(a, rb) == -Dot(a, b)
  {
    assert rb.x2 - rb.x1 == -(b.x2 - b.x1);
    assert rb.y2 - rb.y1 == -(b.y2 - b.y1);
    assert rb.z2 - rb.z1 == -(b.z2 - b.z1);
  }

  /** Exact match of all six coordinates, in the same direction: the same
      start point and the same end point. */
  function SameEdge(a: Edge, b: Edge): (r: bool)
    ensures r <==> Start(a) == Start(b) && End(a) == End(b)
  {
    a.x1 == b.x1 && a.y1 == b.y1 && a.z1 == b.z1 &&
    a.x2 == b.x2 && a.y2 == b.y2 && a.z2 == b.z2
  }

  lemma SameEdgeReflexive(a: Edge)
    ensures SameEdge(a, a)
  {
  }

  lemma SameEdgeSymmetric(a: Edge, b: Edge)
    ensures SameEdge(a, b) == SameEdge(b, a)
  {
  }

  /** Direction matters: a non-degenerate edge is not the same as its reversal. */
  lemma SameEdgeRejectsReversal(a: Edge, ra: Edge)
    requires IsReversal(a, ra) && Start(a) != End(a)
    ensures !SameEdge(a, ra)
  {
  }

  /** The same segment in either direction: the same edge, or `b` is the
      reversal of `a`. */
  function AreOverlappingEdges(a: Edge, b: Edge): (r: bool)
    ensures r <==> SameEdge(a, b) || IsReversal(a, b)
  {
    if SameEdge(a, b) then true
    else
      a.x1 == b.x2 && a.y1 == b.y2 && a.z1 == b.z2 &&
      b.x1 == a.x2 && b.y1 == a.y2 && b.z1 == a.z2
  }

  lemma SameEdgeImpliesOverlap(a: Edge, b: Edge)
    requires SameEdge(a, b)
    ensures AreOverlappingEdges(a, b)
  {
  }

  lemma OverlapSymmetric(a: Edge, b: Edge)
    ensures AreOverlappingEdges(a, b) == AreOverlappingEdges(b, a)
  {
  }

  /** Reversing either argument does not change the answer. */
  lemma OverlapIgnoresDirection(a: Edge, b: Edge, ra: Edge, rb: Edge)
    requires IsReversal(a, ra) && IsReversal(b, rb)
    ensures AreOverlappingEdges(ra, b) == AreOverlappingEdges(a, b)
    ensures AreOverlappingEdges(a, rb) == AreOverlappingEdges(a, b)
  {
  }

  /** Overlap is an equivalence: it also chains. */
  lemma OverlapTransitive(a: Edge, b: Edge, c: Edge)
    requires AreOverlappingEdges(a, b) && AreOverlappingEdges(b, c)
    ensures AreOverlappingEdges(a, c)
  {
  }

  /** The point the two edges have in common, checking end/start,
      start/start, start/end and end/end in that order; `None` when no
      endpoint of `a` is an endpoint of `b`. */
  function HasSharedVertex(a: Edge, b: Edge): (r: Option<Point>)
    ensures r.None? <==>
      End(a) != Start(b) && Start(a) != Start(b) && Start(a) != End(b) && End(a) != End(b)
    ensures End(a) == Start(b) ==> r == Some(End(a))
    ensures End(a) != Start(b) && Start(a) == Start(b) ==> r == Some(Start(a))
    ensures End(a) != Start(b) && Start(a) != Start(b) && Start(a) == End(b) ==> r == Some(Start(a))
    ensures End(a) != Start(b) && Start(a) != Start(b) && Start(a) != End(b) && End(a) == End(b) ==>
      r == Some(End(a))
  {
    if a.x2 == b.x1 && a.y2 == b.y1 && a.z2 == b.z1 then Some(Point(a.x2, a.y2, a.z2))
    else if a.x1 == b.x1 && a.y1 == b.y1 && a.z1 == b.z1 then Some(Point(a.x1, a.y1, a.z1))
    else if a.x1 == b.x2 && a.y1 == b.y2 && a.z1 == b.z2 then Some(Point(a.x1, a.y1, a.z1))
    else if a.x2 == b.x2 && a.y2 == b.y2 && a.z2 == b.z2 then Some(Point(a.x2, a.y2, a.z2))
    else None
  }

  /** A point reported as shared is a vertex of both edges. */
  lemma SharedVertexIsCommon(a: Edge, b: Edge)
    requires HasSharedVertex(a, b).Some?
    ensures HasSharedVertex(a, b).value in GetVertices(a)
    ensures HasSharedVertex(a, b).value in GetVertices(b)
  {
  }

  /** Whether a vertex is shared does not depend on the argument order,
      although which vertex is reported may. */
  lemma SharingIsSymmetric(a: Edge, b: Edge)
    ensures HasSharedVertex(a, b).Some? == HasSharedVertex(b, a).Some?
  {
  }

  /** The distance between two edges: never negative, and zero for edges
      that overlap.  The source has not implemented it and returns the
      constant 0, which meets both. */
  function ShortestDistance(a: Edge, b: Edge): (r: real)
    ensures r >= 0.0
    ensures AreOverlappingEdges(a, b) ==> r == 0.0
  {
    0.0
  }

  /** Parallel within `toleranceAngle` and no farther apart than
      `toleranceDistance`.  The parallel test works on floating-point angles
      and is a parameter here. */
  function CoLinear(a: Edge, b: Edge, toleranceAngle: real, toleranceDistance: real,
                    areParallel: (Edge, Edge, real) -> bool): (r: bool)
    ensures toleranceDistance >= 0.0 ==> (r <==> areParallel(a, b, toleranceAngle))
    ensures toleranceDistance < 0.0 ==> !r
  {
    if areParallel(a, b, toleranceAngle) then
      if ShortestDistance(a, b) <= toleranceDistance then true else false
    else false
  }
}
