# Mesh model-conversion core in Dafny

This project models the geometric core of a converter that imports STL
triangle meshes and exports LDraw (`.dat`) models, simplifying the mesh on
the way. The simplification's first stage works on a "triangle soup".
Each triangle is three directed edges plus the unit normal that the mesh
loader supplies. The stage offers
these operations:

- edge predicates: same edge, overlapping edge and shared vertex;
- triangle queries: closed loop, has edge, neighbours, first matching
  triangle;
- a list that keeps one edge per geometric segment;
- faces and triangle groups, which collect triangles of one normal;
- the single pass that partitions a triangle list into groups of equal
  normal.

Modules, one per source file:

- `Collections` (collections.dfy): `Option` (Python's `None`) and an
  identity-based list difference. All three `set_difference` methods use it.
- `Edges` (edge.dfy): `src/model_conversion/edge.py`. An `Edge` is a class
  with immutable coordinates, so two edges with equal coordinates are still
  two objects, as in Python. Coordinates are `real`.
- `Triangles` (triangle.dfy): `src/model_conversion/triangle.py`.
- `UniqueEdgeLists` (unique_edge_list.dfy):
  `src/model_conversion/unique_edge_list.py`. `UniqueEdgeList` is a class
  whose `edgeList` field `Add` updates in place. Its invariant is `Valid()`:
  no two stored edges overlap.
- `Faces` (face.dfy) and `TriangleGroups` (triangle_group.dfy):
  `src/model_conversion/face.py` and `triangle_group.py`. Each is a class
  with mutable `triangles` and `normal` fields. The invariant is that a
  normal, once present, is the first triangle's normal. `Face.GetEdges`
  offers each triangle's three edges through `AddEdgesOf`, one call per
  pass of its loop.
- `MeshTriangulation` (mesh_triangulation.dfy):
  `group_triangles_by_normals` from
  `src/model_conversion/mesh_triangulation.py`, as a method whose outer
  loop calls `Place`, which holds the inner search loop and the update of
  the group objects.
  - The method is proved against the specification function
    `GroupByNormals`, which offers the triangles one by one to
    `InsertByNormal`.
  - `GroupByNormalsCharacterized` then pins the result down independently
    of the loop. There is one group per distinct normal, in order of first
    occurrence. Group `i` is exactly the subsequence of the input with the
    `i`-th normal.
  - From this follow: groups are uniform, no two groups share a normal,
    every triangle is in exactly one group, and no triangle is lost or
    duplicated.

Two places where the code does less than its own comments suggest; the
model follows the code:

- `UniqueEdgeList.set_difference` (unique_edge_list.py:41-57) keeps, in a
  comment, an old loop that compared edges by coordinates. The live line
  is `set(a.edge_list) - set(b.edge_list)`. `Edge` defines no
  `__eq__`/`__hash__`, so this compares Python objects. The model's
  `SetDifference` members therefore compare objects, not coordinates. The
  same holds for the triangle versions in face.py and triangle_group.py.
- `are_neighbors` is documented as "Determine if two triangles have a
  shared edge" (triangle.py:81). Its loops iterate over the two triangle
  objects themselves rather than over their edges (see Findings).

## Model

| member | source | states |
|---|---|---|
| Edges.Edge.constructor | src/model_conversion/edge.py:19-34 | the new edge starts at (x1, y1, z1) and ends at (x2, y2, z2) |
| Edges.GetVertices | src/model_conversion/edge.py:49-57 | exactly two vertices: the start, then the end |
| Edges.Dot | src/model_conversion/edge.py:88-98 | the sum of the products of the coordinate differences; a zero-length edge gives 0, and an edge with itself (its squared length) is never negative |
| Edges.DotSymmetric | src/model_conversion/edge.py:88-98 | the dot product of two edges does not depend on the argument order |
| Edges.DotOfReversal | src/model_conversion/edge.py:88-98 | reversing one edge negates the dot product |
| Edges.SameEdge | src/model_conversion/edge.py:100-113 | all six coordinates equal, start with start and end with end: true iff the start points are equal and the end points are equal |
| Edges.SameEdgeReflexive | src/model_conversion/edge.py:100-113 | every edge is the same edge as itself |
| Edges.SameEdgeSymmetric | src/model_conversion/edge.py:100-113 | same_edge does not depend on the argument order |
| Edges.SameEdgeRejectsReversal | src/model_conversion/edge.py:100-113 | same_edge is directional: a non-degenerate edge differs from its reversal |
| Edges.AreOverlappingEdges | src/model_conversion/edge.py:115-133 | case 1 same_edge, case 2 start against end and end against start: true iff the edges are the same edge or one is the reversal of the other |
| Edges.SameEdgeImpliesOverlap | src/model_conversion/edge.py:123-125 | the first case: equal edges overlap |
| Edges.OverlapSymmetric | src/model_conversion/edge.py:115-133 | overlap does not depend on the argument order |
| Edges.OverlapIgnoresDirection | src/model_conversion/edge.py:127-132 | reversing either edge leaves the answer unchanged |
| Edges.OverlapTransitive | src/model_conversion/edge.py:115-133 | overlap chains, so it is an equivalence on edges |
| Edges.HasSharedVertex | src/model_conversion/edge.py:135-161 | None iff no endpoint of one edge is an endpoint of the other; otherwise the point of the first case that holds, in the order end/start, start/start, start/end, end/end |
| Edges.SharedVertexIsCommon | src/model_conversion/edge.py:135-161 | a reported shared point is a vertex of both edges |
| Edges.SharingIsSymmetric | src/model_conversion/edge.py:135-161 | whether a vertex is shared does not depend on the argument order |
| Edges.ShortestDistance | src/model_conversion/edge.py:59-69 | the source's placeholder constant 0; the contract states what a distance must meet: never negative, and zero for overlapping edges |
| Edges.CoLinear | src/model_conversion/edge.py:71-86 | with a non-negative distance tolerance the edges are co-linear iff they are parallel; with a negative tolerance never (the distance is the source's constant 0) |
| Triangles.Triangle.constructor | src/model_conversion/triangle.py:18-26 | the edges are stored in the given order with the given normal, and the first/second/third-edge and normal getters return them |
| Triangles.Triangle.IsClosedLoop | src/model_conversion/triangle.py:28-39 | the three has_shared_vertex checks (first/second, first/third, second/third) all give a point; true iff each of the three pairs of edges has an endpoint in common |
| Triangles.TriangleOfVerticesIsClosedLoop | src/model_conversion/triangle.py:28-39 | a triangle built from three vertices p→q, q→r and r→p (or p→r) is a closed loop |
| Triangles.Triangle.HasEdge | src/model_conversion/triangle.py:47-56 | the early-return loop over the three edges: true iff one of them overlaps the given edge |
| Triangles.HasEdgeFindsOwnEdges | src/model_conversion/triangle.py:47-56 | each of the triangle's edges is found, by coordinates or reversed |
| Triangles.HasEdgeOnlyAtVertices | src/model_conversion/triangle.py:47-56 | a found edge starts and ends at vertices of the triangle |
| Triangles.AreNeighbors | src/model_conversion/triangle.py:80-95 | (as intended) some edge of t1 is the same edge as some edge of t2: true iff some edge of t1 has the start and the end of some edge of t2 |
| Triangles.NeighborsReflexive | src/model_conversion/triangle.py:80-95 | (as intended) every triangle is a neighbour of itself |
| Triangles.NeighborsSymmetric | src/model_conversion/triangle.py:80-95 | (as intended) neighbourhood does not depend on the argument order |
| Triangles.NeighborsShareAnEdge | src/model_conversion/triangle.py:80-95 | (as intended) neighbours share an edge in the sense of has_edge |
| Triangles.NeighborsNeedSameStart | src/model_conversion/triangle.py:80-95 | (as intended) the match is directional: with no common start point the triangles are not neighbours |
| Triangles.AreNeighborsAsWritten | src/model_conversion/triangle.py:87-95 | the nested loop over whatever it is given: raises TypeError when the outer value is a Triangle, or when the outer list is non-empty and the inner value is a Triangle; false for an empty outer list; over two lists, true iff some pair is the same edge |
| Triangles.AreNeighborsAsWrittenNeverAnswers | src/model_conversion/triangle.py:89-91 | as written, are_neighbors(t1, t2) on two Triangle objects raises TypeError, so are_neighbors(t, t) does not return the intended True |
| Triangles.AreNeighborsOverEdgeLists | src/model_conversion/triangle.py:87-95 | the same loop given the two edge lists returns exactly the intended AreNeighbors |
| Triangles.HasNeighborIn | src/model_conversion/face.py:55-64 | the loop over stored triangles answers true iff some stored triangle is a neighbour |
| Triangles.MemberHasNeighborIn | src/model_conversion/face.py:55-64 | every member of a list has a neighbour in it |
| Triangles.MatchTriangleIndex | src/model_conversion/triangle.py:107-118 | None iff no triangle has the edge; otherwise the least index of a triangle that has it |
| UniqueEdgeLists.AddUnique | src/model_conversion/unique_edge_list.py:24-39 | the list after add: the old list is a prefix of the new one, at most one edge longer, and the length is unchanged exactly when a stored edge already overlaps the new one |
| UniqueEdgeLists.AddUniquePreservesNoOverlaps | src/model_conversion/unique_edge_list.py:24-39 | an add keeps the list free of overlapping pairs |
| UniqueEdgeLists.AddUniqueThenRefused | src/model_conversion/unique_edge_list.py:24-39 | after an add the edge is represented; adding it, or any edge overlapping it, again changes nothing |
| UniqueEdgeLists.UniqueByOverlapNoOverlaps | src/model_conversion/unique_edge_list.py:24-39 | adding a sequence of edges to an empty list yields no overlapping pair |
| UniqueEdgeLists.UniqueByOverlapSubset | src/model_conversion/unique_edge_list.py:24-39 | the list holds only edge objects that were added |
| UniqueEdgeLists.UniqueByOverlapCovers | src/model_conversion/unique_edge_list.py:24-39 | every added edge is represented by an overlapping stored edge |
| UniqueEdgeLists.UniqueEdgeList.constructor | src/model_conversion/unique_edge_list.py:19-22 | a new list is empty |
| UniqueEdgeLists.UniqueEdgeList.Add | src/model_conversion/unique_edge_list.py:24-39 | returns true iff no stored edge overlaps the new one; appends it exactly then and otherwise leaves the list unchanged; the invariant is kept |
| UniqueEdgeLists.UniqueEdgeList.SetDifference | src/model_conversion/unique_edge_list.py:41-57 | each edge object of a that is not in b, exactly once, and nothing else |
| Faces.Face.constructor | src/model_conversion/face.py:20-30 | stores the list; the normal is that of the first triangle, or absent for an empty list |
| Faces.Face.MatchNormal | src/model_conversion/face.py:32-38 | true iff the given normal equals the face normal in every component |
| Faces.Face.Count | src/model_conversion/face.py:40-45 | the number of stored triangles |
| Faces.Face.AddTriangle | src/model_conversion/face.py:47-53 | appends the triangle, keeps the normal, and raises the count by one |
| Faces.Face.HasNeighbor | src/model_conversion/face.py:55-64 | (as intended) true iff some stored triangle is a neighbour of the given one |
| Faces.StoredTriangleHasNeighbor | src/model_conversion/face.py:55-64 | (as intended) every stored triangle is reported as having a neighbour in the face |
| Faces.ValidFaceMatchesFirstNormal | src/model_conversion/face.py:20-38 | a face that keeps its invariant and has a normal matches exactly its first triangle's normal |
| Faces.UniqueEdgesOfTriangles | src/model_conversion/face.py:73-83 | the collected edges have no overlapping pair, come from the triangles, and represent every triangle edge |
| Faces.UniqueEdgesFromTriangles | src/model_conversion/face.py:73-83 | every collected edge is one of the edges of one of the triangles |
| Faces.UniqueEdgesCoverTriangles | src/model_conversion/face.py:73-83 | every edge of every triangle overlaps some collected edge |
| Faces.Face.AddEdgesOf | src/model_conversion/face.py:79-82 | one pass of the loop: the list afterwards is the old one offered the triangle's three edges in order |
| Faces.Face.GetEdges | src/model_conversion/face.py:73-83 | a new valid list equal to adding every triangle's three edges in order, with the properties above |
| Faces.Face.SetDifference | src/model_conversion/face.py:93-101 | each triangle object of group_1 that is not in group_2, exactly once, and nothing else |
| Faces.SetDifferenceOfPairs | src/model_conversion/face.py:93-101 | {t0, t1} minus {t0, t2} is {t1} for three distinct triangles |
| TriangleGroups.TriangleGroup.constructor | src/model_conversion/triangle_group.py:18-28 | stores the list; the normal is that of the first triangle, or absent for an empty list |
| TriangleGroups.TriangleGroup.MatchNormal | src/model_conversion/triangle_group.py:30-36 | true iff the given normal equals the group normal in every component |
| TriangleGroups.TriangleGroup.AddTriangle | src/model_conversion/triangle_group.py:38-44 | appends the triangle and keeps the normal and the invariant |
| TriangleGroups.TriangleGroup.HasNeighbor | src/model_conversion/triangle_group.py:46-55 | (as intended) true iff some stored triangle is a neighbour of the given one |
| TriangleGroups.ValidGroupMatchesFirstNormal | src/model_conversion/triangle_group.py:18-36 | a group that keeps its invariant and has a normal is non-empty and matches exactly its first triangle's normal |
| TriangleGroups.StoredTriangleHasNeighbor | src/model_conversion/triangle_group.py:46-55 | (as intended) every stored triangle is reported as having a neighbour in the group |
| TriangleGroups.TriangleGroup.SetDifference | src/model_conversion/triangle_group.py:77-85 | each triangle object of group_1 that is not among group_2's, exactly once, and nothing else |
| MeshTriangulation.InsertByNormal | src/model_conversion/mesh_triangulation.py:33-40 | one pass of the outer loop on groups as values: the triangle joins the first group whose first triangle has its normal, or starts a new group at the end; no group is lost and at most one is added |
| MeshTriangulation.InsertByNormalGrowsIffUnmatched | src/model_conversion/mesh_triangulation.py:33-40 | a pass adds a group exactly when no existing group's first triangle has the triangle's normal |
| MeshTriangulation.GroupByNormals | src/model_conversion/mesh_triangulation.py:29-41 | the triangles offered to InsertByNormal in order, starting from no groups; at most as many groups as triangles, and at least one group for a non-empty input |
| MeshTriangulation.InsertAtMatch | src/model_conversion/mesh_triangulation.py:33-37 | a triangle joins the first group whose normal equals its own, and only that group changes |
| MeshTriangulation.InsertNew | src/model_conversion/mesh_triangulation.py:38-39 | with no matching group, a new one-triangle group is appended at the end |
| MeshTriangulation.GroupByNormalsCharacterized | src/model_conversion/mesh_triangulation.py:29-41 | one group per distinct normal, in order of first occurrence; each group is the subsequence of the input with that normal |
| MeshTriangulation.GroupsAreUniform | src/model_conversion/mesh_triangulation.py:29-41 | every group is non-empty and all its members have the first member's normal |
| MeshTriangulation.GroupNormalsDistinct | src/model_conversion/mesh_triangulation.py:29-41 | no two groups have the same normal |
| MeshTriangulation.EveryTriangleInExactlyOneGroup | src/model_conversion/mesh_triangulation.py:29-41 | each input triangle lies in one group and in no other |
| MeshTriangulation.GroupingConservesTriangles | src/model_conversion/mesh_triangulation.py:29-41 | the groups together hold exactly the input triangles as a multiset, and their sizes sum to the input length |
| MeshTriangulation.Place | src/model_conversion/mesh_triangulation.py:33-40 | one pass of the outer loop on the group objects: afterwards they hold InsertByNormal of what they held, each with its first triangle's normal and no object twice; the existing groups keep their places, and a group that is added is new |
| MeshTriangulation.MirroredGrouping | src/model_conversion/mesh_triangulation.py:29-41 | group objects that mirror the whole specification are each non-empty, valid and carry their first triangle's normal, and their normals are pairwise distinct |
| MeshTriangulation.GroupTrianglesByNormals | src/model_conversion/mesh_triangulation.py:29-41 | new groups whose contents are those of the specification; each is non-empty, carries its first triangle's normal and keeps its invariant; normals and group objects are pairwise distinct; no input gives no groups |

## Left out

- Floating point is modelled as exact `real` arithmetic. The model has no
  rounding in `dot`, no NaN and no distinction between -0.0 and 0.0.
  Coordinates compare by exact equality, as the source's `==` does.
- `Edge.length`, `Edge.are_parallel` and `Edge.are_parallel_or_anti_parallel`
  (edge.py:36-47, 163-195) use square roots, `np.round`, `arccos` and
  degrees. They are not modelled; `CoLinear` takes `are_parallel` as a
  function parameter.
- Edges.CoLinear: `shortest_distance` is the source's constant 0, so
  co-linearity is only the parallel test plus the sign of the tolerance.
- Edges.ShortestDistance: the source has no distance computation yet; the
  contract states only what any distance meets, not a geometric distance.
- Edges.HasSharedVertex, Edges.GetVertices: return `Point` values where
  the source builds three-element lists.
- Triangles.Triangle.IsClosedLoop: the source returns the last shared
  point (a truthy list) or `None`; the model returns the truth value.
- `Edge.display` and `Face.display_face`: console output only.
  `display_face` also calls a `display_triangle` that `Triangle` does not
  define.
- `Triangle.are_equal` (triangle.py:97-105) is a stub whose body is `pass`.
  Nothing is modelled for it.
- Triangles.Triangle.constructor: the normal is required. The source's
  default `normal=None` is not modelled, and the normal is a three-real
  value rather than a list or numpy array.
- Faces.Face.MatchNormal, TriangleGroups.TriangleGroup.MatchNormal: require
  a normal, as every caller supplies one (groups are built from
  `[triangle]`). On an empty face or group the source evaluates
  `(None == normal).all()`. For a list or tuple argument that is
  `False.all()` and raises AttributeError. For a numpy array argument,
  which is what the mesh loader supplies, the comparison is element-wise
  and the call returns False. The element-wise `==` of two normals is
  modelled as component-wise equality.
- Faces.Face.constructor, TriangleGroups.TriangleGroup.constructor: take a
  sequence, in which `None` and `[]` both become the empty sequence. The
  source keeps a reference to the caller's list, so aliasing between that
  list and the stored one is not modelled.
- `get_normal` of `Face` and `TriangleGroup` is a plain read of the `normal`
  field, and `Triangle.get_normal` is `GetNormal`.
- `set_difference` (all three): Python's set iteration order is
  unspecified. The model yields the elements in order of first occurrence
  in the first argument, and the contracts promise no order.
- `TriangleGroup.rearrange_by_neighbors` (triangle_group.py:57-68) is
  unfinished code that loops forever on a non-empty group. It is not
  modelled, and neither are `MeshTriangulation.regroup_by_neighbors` and
  `group_triangles` (mesh_triangulation.py:43-58), which build on it.
- The module-level script (mesh_triangulation.py:63-82) reads an STL file
  and prints. It is I/O and is not modelled.
- MeshTriangulation.GroupTrianglesByNormals, MeshTriangulation.Place: the
  body of the outer loop is the method `Place`. The matching group is
  added to after the search loop, with the index the loop stopped at. The
  source adds before its `break`, and it tests `not group_match` in a
  second `if` where `Place` uses `else`. The effect on every group is the
  same.
- Faces.Face.HasNeighbor, TriangleGroups.TriangleGroup.HasNeighbor:
  modelled with the corrected `are_neighbors` (see Findings). As written,
  they raise TypeError as soon as the face or group is non-empty.
- `Triangle.match_triangle_indices`, which the unit tests call, does not
  exist in the source. The model has `match_triangle_index` only.

## Findings

| source | as written | input that shows it | evidently intended | confidence | as-written member | corrected member |
|---|---|---|---|---|---|---|
| src/model_conversion/triangle.py:89-91 | `are_neighbors` iterates `for x in t1` and `for y in t2` over the Triangle objects. `Triangle` defines neither `__iter__` nor `__getitem__`, so every call raises TypeError, and so does `has_neighbor` on a non-empty face or group | `are_neighbors(t, t)` for any triangle `t`, e.g. the unit test's triangle with edges (-1,1,1)→(1,1,1), (1,1,1)→(1,1,-1), (1,1,-1)→(-1,1,1), where the test expects True | iterate over `t1.edges` and `t2.edges`, and answer whether some pair of edges is the same edge | not executed | Triangles.AreNeighborsAsWritten, Triangles.AreNeighborsAsWrittenNeverAnswers | Triangles.AreNeighbors, Triangles.AreNeighborsOverEdgeLists, Triangles.NeighborsReflexive |
