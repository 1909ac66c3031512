/** A group of triangles whose normal is that of the first one
    (src/model_conversion/triangle_group.py). */
module TriangleGroups {
  import opened Collections
  import opened Triangles

  class TriangleGroup {
    var triangles: seq<Triangle>
    var normal: Option<Normal>

    /** A normal, once there is one, is that of the first triangle. */
    ghost predicate Valid()
      reads this
    {
      normal.Some? ==> triangles != [] && triangles[0].normal == normal.value
    }

    /** Built from a list; an empty list gives an empty group without normal. */
    constructor (triangles: seq<Triangle>)
      ensures this.triangles == triangles
      ensures normal == if triangles == [] then None else Some(triangles[0].GetNormal())
      ensures Valid()
    {
      this.triangles := triangles;
      if triangles != [] {
        normal := Some(triangles[0].GetNormal());
      } else {
        normal := None;
      }
    }

    /** Whether `n` equals the group normal, component by component.  Without
        a normal the source raises AttributeError, so one is required here. */
    function MatchNormal(n: Normal): (r: bool)
      reads this
      requires normal.Some?
      ensures r <==> normal.value.x == n.x && normal.value.y == n.y && normal.value.z == n.z
    {
      normal.value == n
    }

    method AddTriangle(triangle: Triangle)
      modifies this
      ensures triangles == old(triangles) + [triangle] && normal == old(normal)
      ensures old(Valid()) ==> Valid()
    {
      triangles := triangles + [triangle];
    }

    /** Some stored triangle is a neighbour of `testTriangle`. */
    function HasNeighbor(testTriangle: Triangle): (r: bool)
      reads this
      ensures r <==> exists i :: 0 <= i < |triangles| && AreNeighbors(triangles[i], testTriangle)
    {
      HasNeighborIn(triangles, testTriangle)
    }

    /** The triangles of `group1` that are not, by identity, among those of
        `group2`, each once, in no promised order. */
    static function SetDifference(group1: TriangleGroup, group2: TriangleGroup): (r: seq<Triangle>)
      reads group1, group2
      ensures NoDuplicates(r)
      ensures forall i :: 0 <= i < |r| ==> r[i] in group1.triangles && r[i] !in group2.triangles
      ensures forall i :: 0 <= i < |group1.triangles| && group1.triangles[i] !in group2.triangles ==>
        group1.triangles[i] in r
    {
      Difference(group1.triangles, group2.triangles)
    }
  }

  /** A valid group with a normal matches its first triangle's normal and
      nothing else: the normal it was built with. */
  lemma ValidGroupMatchesFirstNormal(g: TriangleGroup, n: Normal)
    requires g.Valid() && g.normal.Some?
    ensures g.triangles != [] && (g.MatchNormal(n) <==> n == g.triangles[0].normal)
  {
  }

  /** A group's own members are neighbours of it. */
  lemma StoredTriangleHasNeighbor(g: TriangleGroup, k: nat)
    requires k < |g.triangles|
    ensures g.HasNeighbor(g.triangles[k])
  {
    NeighborsReflexive(g.triangles[k]);
  }
}
