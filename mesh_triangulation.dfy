/** The first stage of the re-triangulation: partitioning a triangle soup
    into groups of equal normal (src/model_conversion/mesh_triangulation.py). */
module MeshTriangulation {
  import opened Collections
  import opened Triangles
  import opened TriangleGroups

  /** Specification of one step of the grouping loop: `t` joins the first
      group whose first triangle has its normal, or starts a new group at
      the end. */
  function InsertByNormal(gs: seq<seq<Triangle>>, t: Triangle): (r: seq<seq<Triangle>>)
    ensures |gs| <= |r| <= |gs| + 1
  {
    if gs == [] then [[t]]
    else if Matches(gs[0], t) then [gs[0] + [t]] + gs[1..]
    else [gs[0]] + InsertByNormal(gs[1..], t)
  }

  /** Group `g` takes `t`: its first triangle has `t`'s normal. */
  predicate Matches(g: seq<Triangle>, t: Triangle)
  {
    g != [] && g[0].normal == t.normal
  }

  /** A step adds a group exactly when no existing group takes `t`. */
  lemma {:induction false} InsertByNormalGrowsIffUnmatched(gs: seq<seq<Triangle>>, t: Triangle)
    ensures |InsertByNormal(gs, t)| == |gs| + 1 <==> forall k :: 0 <= k < |gs| ==> !Matches(gs[k], t)
  {
    if gs != [] && !Matches(gs[0], t) {
      InsertByNormalGrowsIffUnmatched(gs[1..], t);
      assert forall k :: 1 <= k < |gs| ==> gs[k] == gs[1..][k - 1];
    }
  }

  /** Specification of the whole grouping: the triangles offered in order.
      There are at most as many groups as triangles, and some as soon as
      there is a triangle. */
  function GroupByNormals(ts: seq<Triangle>): (r: seq<seq<Triangle>>)
    ensures |r| <= |ts|
    ensures ts != [] ==> r != []
  {
    if ts == [] then [] else InsertByNormal(GroupByNormals(ts[..|ts| - 1]), ts[|ts| - 1])
  }

  /** The normals of `ts`, in order. */
  function Normals(ts: seq<Triangle>): seq<Normal>
  {
    if ts == [] then [] else Normals(ts[..|ts| - 1]) + [ts[|ts| - 1].normal]
  }

  lemma {:induction false} NormalsAt(ts: seq<Triangle>)
    ensures |Normals(ts)| == |ts|
    ensures forall k :: 0 <= k < |ts| ==> Normals(ts)[k] == ts[k].normal
  {
    if ts != [] {
      NormalsAt(ts[..|ts| - 1]);
    }
  }

  /** The different values of `ns`, in order of first occurrence. */
  function Distinct(ns: seq<Normal>): seq<Normal>
  {
    if ns == [] then []
    else
      var d := Distinct(ns[..|ns| - 1]);
      if ns[|ns| - 1] in d then d else d + [ns[|ns| - 1]]
  }

  /** The triangles of `ts` whose normal is `n`, in input order. */
  function WithNormal(ts: seq<Triangle>, n: Normal): seq<Triangle>
  {
    if ts == [] then []
    else WithNormal(ts[..|ts| - 1], n) + (if ts[|ts| - 1].normal == n then [ts[|ts| - 1]] else [])
  }

  /** All the groups, one after another. */
  function Flatten(gs: seq<seq<Triangle>>): seq<Triangle>
  {
    if gs == [] then [] else gs[0] + Flatten(gs[1..])
  }

  /** The sum of the group sizes. */
  function TotalSize(gs: seq<seq<Triangle>>): nat
  {
    if gs == [] then 0 else |gs[0]| + TotalSize(gs[1..])
  }

  lemma {:induction false} DistinctProperties(ns: seq<Normal>)
    ensures NoDuplicates(Distinct(ns))
    ensures forall n :: n in Distinct(ns) <==> n in ns
  {
    if ns != [] {
      var init := ns[..|ns| - 1];
      DistinctProperties(init);
      assert ns == init + [ns[|ns| - 1]];
    }
  }

  lemma {:induction false} WithNormalProperties(ts: seq<Triangle>, n: Normal)
    ensures forall x :: x in WithNormal(ts, n) ==> x in ts && x.normal == n
    ensures forall k :: 0 <= k < |ts| && ts[k].normal == n ==> ts[k] in WithNormal(ts, n)
    ensures n !in Normals(ts) ==> WithNormal(ts, n) == []
  {
    if ts != [] {
      var init := ts[..|ts| - 1];
      WithNormalProperties(init, n);
      assert ts == init + [ts[|ts| - 1]];
      forall k | 0 <= k < |ts| && ts[k].normal == n
        ensures ts[k] in WithNormal(ts, n)
      {
        if k < |init| {
          assert ts[k] == init[k];
        }
      }
      if n !in Normals(ts) {
        NormalsAt(ts);
        NormalsAt(init);
        assert Normals(ts)[|ts| - 1] == ts[|ts| - 1].normal;
        forall k | 0 <= k < |init|
          ensures init[k].normal != n
        {
          assert Normals(ts)[k] == init[k].normal;
        }
        assert n !in Normals(init);
      }
    }
  }

  /** The step joins the first matching group. */
  lemma {:induction false} InsertAtMatch(gs: seq<seq<Triangle>>, t: Triangle, j: nat)
    requires j < |gs|
    requires forall k :: 0 <= k < j ==> gs[k] != [] && gs[k][0].normal != t.normal
    requires gs[j] != [] && gs[j][0].normal == t.normal
    ensures InsertByNormal(gs, t) == gs[j := gs[j] + [t]]
  {
    if j > 0 {
      InsertAtMatch(gs[1..], t, j - 1);
      assert gs[j := gs[j] + [t]] == [gs[0]] + gs[1..][j - 1 := gs[j] + [t]];
    }
  }

  /** With no matching group the step opens a new one at the end. */
  lemma {:induction false} InsertNew(gs: seq<seq<Triangle>>, t: Triangle)
    requires forall k :: 0 <= k < |gs| ==> gs[k] != [] && gs[k][0].normal != t.normal
    ensures InsertByNormal(gs, t) == gs + [[t]]
  {
    if gs != [] {
      InsertNew(gs[1..], t);
      assert gs + [[t]] == [gs[0]] + (gs[1..] + [[t]]);
    }
  }

  /** `gs` has one group per distinct normal of `ts`, in order of first
      occurrence, and each group is the subsequence of `ts` with that normal. */
  predicate IsGroupingOf(gs: seq<seq<Triangle>>, ts: seq<Triangle>)
  {
    var d := Distinct(Normals(ts));
    |gs| == |d| &&
    forall i :: 0 <= i < |gs| ==> gs[i] != [] && gs[i][0].normal == d[i] && gs[i] == WithNormal(ts, d[i])
  }

  lemma WithNormalSnoc(ps: seq<Triangle>, t: Triangle, n: Normal)
    ensures WithNormal(ps + [t], n) == WithNormal(ps, n) + (if t.normal == n then [t] else [])
  {
    assert (ps + [t])[..|ps|] == ps;
  }

  lemma DistinctSnoc(ps: seq<Triangle>, t: Triangle)
    ensures Distinct(Normals(ps + [t])) ==
      var d := Distinct(Normals(ps)); if t.normal in d then d else d + [t.normal]
  {
    assert (ps + [t])[..|ps|] == ps;
    assert Normals(ps + [t]) == Normals(ps) + [t.normal];
    var ns := Normals(ps) + [t.normal];
    assert ns[..|ns| - 1] == Normals(ps);
  }

  /** A triangle whose normal already has a group joins that group. */
  lemma GroupingStepJoin(g: seq<seq<Triangle>>, ps: seq<Triangle>, t: Triangle)
    requires IsGroupingOf(g, ps)
    requires t.normal in Distinct(Normals(ps))
    ensures IsGroupingOf(InsertByNormal(g, t), ps + [t])
  {
    var d := Distinct(Normals(ps));
    DistinctSnoc(ps, t);
    DistinctProperties(Normals(ps));
    var j :| 0 <= j < |d| && d[j] == t.normal;
    InsertAtMatch(g, t, j);
    var g2: seq<seq<Triangle>> := InsertByNormal(g, t);
    forall i | 0 <= i < |g2|
      ensures g2[i] != [] && g2[i][0].normal == d[i] && g2[i] == WithNormal(ps + [t], d[i])
    {
      WithNormalSnoc(ps, t, d[i]);
      if i != j {
        assert d[i] != d[j];
      }
    }
  }

  /** A triangle with a new normal opens a group of its own at the end. */
  lemma GroupingStepNew(g: seq<seq<Triangle>>, ps: seq<Triangle>, t: Triangle)
    requires IsGroupingOf(g, ps)
    requires t.normal !in Distinct(Normals(ps))
    ensures IsGroupingOf(InsertByNormal(g, t), ps + [t])
  {
    var d := Distinct(Normals(ps));
    forall k | 0 <= k < |g|
      ensures g[k] != [] && g[k][0].normal != t.normal
    {
      assert g[k][0].normal == d[k];
    }
    InsertNew(g, t);
    AppendNewGroup(g, ps, t);
  }

  lemma AppendNewGroup(g: seq<seq<Triangle>>, ps: seq<Triangle>, t: Triangle)
    requires IsGroupingOf(g, ps)
    requires t.normal !in Distinct(Normals(ps))
    ensures IsGroupingOf(g + [[t]], ps + [t])
  {
    var d := Distinct(Normals(ps));
    var d2: seq<Normal> := d + [t.normal];
    DistinctSnoc(ps, t);
    assert Distinct(Normals(ps + [t])) == d2;
    DistinctProperties(Normals(ps));
    WithNormalProperties(ps, t.normal);
    WithNormalSnoc(ps, t, t.normal);
    var g2: seq<seq<Triangle>> := g + [[t]];
    forall i | 0 <= i < |g2|
      ensures g2[i] != [] && g2[i][0].normal == d2[i] && g2[i] == WithNormal(ps + [t], d2[i])
    {
      if i < |g| {
        WithNormalSnoc(ps, t, d[i]);
        assert g2[i] == g[i] && d2[i] == d[i] && d[i] != t.normal;
      } else {
        assert g2[i] == [t] && d2[i] == t.normal;
      }
    }
  }

  /** The grouping is determined by the input: there is one group per
      distinct normal, in order of first occurrence, and each group is the
      subsequence of the input triangles with that normal. */
  lemma {:induction false} GroupByNormalsCharacterized(ts: seq<Triangle>)
    ensures IsGroupingOf(GroupByNormals(ts), ts)
  {
    if ts != [] {
      var ps, t := ts[..|ts| - 1], ts[|ts| - 1];
      GroupByNormalsCharacterized(ps);
      assert ts == ps + [t];
      if t.normal in Distinct(Normals(ps)) {
        GroupingStepJoin(GroupByNormals(ps), ps, t);
      } else {
        GroupingStepNew(GroupByNormals(ps), ps, t);
      }
    }
  }

  /** Every group is non-empty and its members share its first triangle's
      normal. */
  lemma GroupsAreUniform(ts: seq<Triangle>)
    ensures forall i :: 0 <= i < |GroupByNormals(ts)| ==> GroupByNormals(ts)[i] != []
    ensures forall i, k :: 0 <= i < |GroupByNormals(ts)| && 0 <= k < |GroupByNormals(ts)[i]| ==>
      GroupByNormals(ts)[i][k].normal == GroupByNormals(ts)[i][0].normal
  {
    GroupByNormalsCharacterized(ts);
    var g: seq<seq<Triangle>>, d: seq<Normal> := GroupByNormals(ts), Distinct(Normals(ts));
    forall i, k | 0 <= i < |g| && 0 <= k < |g[i]|
      ensures g[i][k].normal == g[i][0].normal
    {
      WithNormalProperties(ts, d[i]);
      assert g[i][k] in WithNormal(ts, d[i]);
    }
  }

  /** No two groups have equal normals. */
  lemma GroupNormalsDistinct(ts: seq<Triangle>)
    ensures forall i, j :: 0 <= i < j < |GroupByNormals(ts)| ==>
      GroupByNormals(ts)[i] != [] && GroupByNormals(ts)[j] != [] &&
      GroupByNormals(ts)[i][0].normal != GroupByNormals(ts)[j][0].normal
  {
    GroupByNormalsCharacterized(ts);
    DistinctProperties(Normals(ts));
  }

  /** Each input triangle lies in exactly one group. */
  lemma EveryTriangleInExactlyOneGroup(ts: seq<Triangle>, k: nat)
    requires k < |ts|
    ensures exists i :: 0 <= i < |GroupByNormals(ts)| && ts[k] in GroupByNormals(ts)[i]
    ensures forall i, j ::
      (0 <= i < |GroupByNormals(ts)| && 0 <= j < |GroupByNormals(ts)| &&
       ts[k] in GroupByNormals(ts)[i] && ts[k] in GroupByNormals(ts)[j]) ==> i == j
  {
    GroupByNormalsCharacterized(ts);
    var g: seq<seq<Triangle>>, d: seq<Normal> := GroupByNormals(ts), Distinct(Normals(ts));
    DistinctProperties(Normals(ts));
    NormalsAt(ts);
    assert Normals(ts)[k] == ts[k].normal;
    assert ts[k].normal in Normals(ts);
    assert ts[k].normal in d;
    var i :| 0 <= i < |d| && d[i] == ts[k].normal;
    WithNormalProperties(ts, d[i]);
    assert ts[k] in g[i];
    forall a, b | 0 <= a < |g| && 0 <= b < |g| && ts[k] in g[a] && ts[k] in g[b]
      ensures a == b
    {
      WithNormalProperties(ts, d[a]);
      WithNormalProperties(ts, d[b]);
    }
  }

  lemma {:induction false} FlattenInsert(gs: seq<seq<Triangle>>, t: Triangle)
    ensures multiset(Flatten(InsertByNormal(gs, t))) == multiset(Flatten(gs)) + multiset{t}
  {
    if gs == [] {
      assert Flatten([[t]]) == [t] + Flatten([]);
    } else if gs[0] != [] && gs[0][0].normal == t.normal {
      var r := [gs[0] + [t]] + gs[1..];
      assert r[0] == gs[0] + [t] && r[1..] == gs[1..];
    } else {
      var r := [gs[0]] + InsertByNormal(gs[1..], t);
      assert r[0] == gs[0] && r[1..] == InsertByNormal(gs[1..], t);
      FlattenInsert(gs[1..], t);
    }
  }

  lemma {:induction false} TotalSizeIsFlattenLength(gs: seq<seq<Triangle>>)
    ensures TotalSize(gs) == |Flatten(gs)|
  {
    if gs != [] {
      TotalSizeIsFlattenLength(gs[1..]);
    }
  }

  /** No triangle is lost or duplicated: the groups together hold exactly the
      input, and their sizes sum to the input length. */
  lemma {:induction false} GroupingConservesTriangles(ts: seq<Triangle>)
    ensures multiset(Flatten(GroupByNormals(ts))) == multiset(ts)
    ensures TotalSize(GroupByNormals(ts)) == |ts|
  {
    if ts != [] {
      var ps := ts[..|ts| - 1];
      GroupingConservesTriangles(ps);
      FlattenInsert(GroupByNormals(ps), ts[|ts| - 1]);
      assert ts == ps + [ts[|ts| - 1]];
    }
    TotalSizeIsFlattenLength(GroupByNormals(ts));
    assert |multiset(Flatten(GroupByNormals(ts)))| == |multiset(ts)|;
  }

  lemma GroupByNormalsStep(ts: seq<Triangle>, i: nat)
    requires i < |ts|
    ensures GroupByNormals(ts[..i + 1]) == InsertByNormal(GroupByNormals(ts[..i]), ts[i])
  {
    assert ts[..i + 1][..i] == ts[..i];
  }

  /** The groups hold the specification's groups, in order, each with the
      normal of its first triangle, and no group object occurs twice. */
  ghost predicate Mirrors(groups: seq<TriangleGroup>, spec: seq<seq<Triangle>>)
    reads set k | 0 <= k < |groups| :: groups[k]
  {
    |groups| == |spec| &&
    (forall k :: 0 <= k < |groups| ==>
       groups[k].triangles == spec[k] && spec[k] != [] && groups[k].normal == Some(spec[k][0].normal)) &&
    (forall a, b :: 0 <= a < b < |groups| ==> groups[a] != groups[b])
  }

  /** One pass of the outer loop: search the groups for the first whose
      normal matches, add the triangle to it, or else append a new group.
      The search is read-only; the group found is updated after it. */
  method Place(groups: seq<TriangleGroup>, triangle: Triangle, ghost spec: seq<seq<Triangle>>)
    returns (newGroups: seq<TriangleGroup>)
    requires Mirrors(groups, spec)
    modifies set k | 0 <= k < |groups| :: groups[k]
    ensures Mirrors(newGroups, InsertByNormal(spec, triangle))
    ensures |groups| <= |newGroups|
    ensures forall k :: 0 <= k < |groups| ==> newGroups[k] == groups[k]
    ensures forall k :: |groups| <= k < |newGroups| ==> fresh(newGroups[k])
  {
    var groupMatch := false;
    var j := 0;
    while j < |groups|
      invariant 0 <= j <= |groups|
      invariant !groupMatch
      invariant forall k :: 0 <= k < j ==> !Matches(spec[k], triangle)
    {
      if groups[j].MatchNormal(triangle.normal) {
        groupMatch := true;
        break;
      }
      j := j + 1;
    }
    if groupMatch {
      InsertAtMatch(spec, triangle, j);
      groups[j].AddTriangle(triangle);
      newGroups := groups;
    } else {
      InsertNew(spec, triangle);
      var group := new TriangleGroup([triangle]);
      newGroups := groups + [group];
    }
  }

  /** Groups that mirror the specification have the properties the grouping
      promises. */
  lemma MirroredGrouping(groups: seq<TriangleGroup>, ts: seq<Triangle>)
    requires Mirrors(groups, GroupByNormals(ts))
    ensures forall k :: 0 <= k < |groups| ==> groups[k].triangles == GroupByNormals(ts)[k]
    ensures forall k :: 0 <= k < |groups| ==>
      groups[k].triangles != [] && groups[k].normal == Some(groups[k].triangles[0].normal)
    ensures forall k :: 0 <= k < |groups| ==> groups[k].Valid()
    ensures forall a, b :: 0 <= a < b < |groups| ==> groups[a].normal != groups[b].normal
  {
    GroupNormalsDistinct(ts);
  }

  /** Single pass over the triangles: each joins the first group whose
      normal equals its own, or starts a new group. */
  method GroupTrianglesByNormals(triangles: seq<Triangle>) returns (groups: seq<TriangleGroup>)
    ensures |groups| == |GroupByNormals(triangles)|
    ensures forall k :: 0 <= k < |groups| ==> groups[k].triangles == GroupByNormals(triangles)[k]
    ensures forall k :: 0 <= k < |groups| ==>
      groups[k].triangles != [] && groups[k].normal == Some(groups[k].triangles[0].normal)
    ensures forall k :: 0 <= k < |groups| ==> groups[k].Valid()
    ensures forall a, b :: 0 <= a < b < |groups| ==> groups[a].normal != groups[b].normal
    ensures forall a, b :: 0 <= a < b < |groups| ==> groups[a] != groups[b]
    ensures forall k :: 0 <= k < |groups| ==> fresh(groups[k])
    ensures triangles == [] ==> groups == []
  {
    groups := [];
    ghost var spec: seq<seq<Triangle>> := [];
    var i := 0;
    while i < |triangles|
      invariant 0 <= i <= |triangles|
      invariant spec == GroupByNormals(triangles[..i])
      invariant Mirrors(groups, spec)
      invariant forall k :: 0 <= k < |groups| ==> fresh(groups[k])
    {
      GroupByNormalsStep(triangles, i);
      groups := Place(groups, triangles[i], spec);
      spec := InsertByNormal(spec, triangles[i]);
      i := i + 1;
    }
    assert triangles[..i] == triangles;
    MirroredGrouping(groups, triangles);
  }
}
