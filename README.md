# Half-edge mesh of RobustGeometry.NET, modelled in Dafny

RobustGeometry.NET keeps a polygon mesh as a half-edge structure. Each undirected `Edge` owns two
directed `Halfedge`s that are each other's `Opposite`. A halfedge knows its `Target` vertex, the
`Face` on its left (null on a boundary), and its `Next` and `Previous` around that face. A `Vertex`
keeps one `Outgoing` halfedge and a `Face` keeps one `Bounding` halfedge. The `Mesh` class holds
four lists of the records it owns. Its Euler operators are the only code that changes the topology:
`CreateTriangle` (four overloads), `SplitFace`, `JoinFaces`, `SplitVertex` and `CreateFace`.
`PointTriangleMesh` classifies a point against a halfedge and walks a face to locate a point.

This project models these parts:

- the records and their derived pointers (`Source`, `NextAtTarget`, and so on);
- the cursor walks that enumerate a face ring, the halfedges arriving at a vertex, and a
  vertex's neighbours;
- the private creation and deletion routines;
- every Euler operator, statement by statement;
- the mesh-wide `AssertValid` check;
- `CirculatorExtensions.Circulate`;
- the point classification.

The model then proves what each operator does to a mesh whose pointers are consistent.

The `Mesh` object itself is the class `HalfedgeMesh.Mesh`. Its fields are the record sequences and
the four lists, and its methods perform the source's assignments in the source's order, with a
`while` loop for each `foreach`. Each method is proved to leave the state, and return the result,
that the value-level operator of the same name gives; the lemmas about those operators then say
what the methods do.

**How the mesh is represented.**

- *Records.* Every record lives in an arena: one sequence per record kind, where a record's id is
  its index. A pointer field holds an id, and a null pointer is `None`.
- *Lists.* The mesh's four lists are sequences of ids. `List.Remove` drops the first occurrence.
- *Operators.* An operator is a function from the old arena to a `Result`. `Ok` carries the new
  arena and the returned record. `Err` names the exception the source throws, or `Diverges` for a
  loop the source never leaves.
- *Consistency.* The pointer invariant used throughout is `Halfedges.Wired`:
  - every live halfedge has a different live opposite that points back;
  - `Next` and `Previous` are live and inverse to each other;
  - the two halves share their edge;
  - no arc is a self-loop;
  - the next arc starts where this one ends.

  `Meshes.Valid` is the source's own debug check. `WiredHalfedgesValid` shows that `Wired` implies
  its halfedge part.

The comment at Mesh.cs:325 has `SplitVertex` retarget the incoming halfedges of `v2` in `[he1, he2)`.
The code reads that range (Mesh.cs:327) only after it has re-linked `he1` and `he2`. The walk then
never meets both, so the operator does not return. The model follows the code (see Findings).

## Model

| member | source | states |
|---|---|---|
| Circulation.IndexOf | RobustGeometry/HalfedgeMesh/Mesh.cs:633-638 | the position where `SkipWhile` stops: the first occurrence of the start item |
| Circulation.TakeUntil | RobustGeometry/HalfedgeMesh/Mesh.cs:622-638 | reading the endless repetition of `items` from a position, stopping before the end item: each item taken is the cyclically next one and differs from the end item, and when it stops early the next item is the end item |
| Circulation.TakeUntilStops | RobustGeometry/HalfedgeMesh/Mesh.cs:633-638 | `TakeWhile` over the repetition stops within one lap when the end item occurs in `items` |
| Circulation.Circulate | RobustGeometry/HalfedgeMesh/Mesh.cs:633-638 | `Circulate(start, end)` is empty when start equals end, and otherwise starts with the start item; it is the cyclic segment after the first start item, strictly shorter than `items`, holding no end item, and followed by the end item |
| Circulation.CirculateDistinct | RobustGeometry/HalfedgeMesh/Mesh.cs:633-638 | on items without repeats, the result is `items[i..j]`, read cyclically, between the positions of the start and end items |
| Circulation.SkipTake | RobustGeometry/HalfedgeMesh/Mesh.cs:633-638 | `Circulate` read lazily on a finite prefix of an endless walk: nothing exactly when the start item does not occur or no end item follows it; otherwise the items from the first start item up to, not including, the next end item |
| Edges.BoundaryFromEitherHalf | RobustGeometry/HalfedgeMesh/Edge.cs:14-23 | an edge is a boundary edge exactly when one of its two halfedges has no face; `Half1` and `Half2` are the halfedge and its opposite, and both point back at the edge |
| Edges.CanFlipBetweenFaces | RobustGeometry/HalfedgeMesh/TriangleMesh.cs:16-20 | `CanFlipEdge` holds exactly when both halfedges of the edge have a face |
| Edges.Half2 | RobustGeometry/HalfedgeMesh/Edge.cs:15 | `Half1.Opposite`; `BoundaryFromEitherHalf` states that it is the other half and points back at the edge |
| Edges.EdgeIsBoundary | RobustGeometry/HalfedgeMesh/Edge.cs:17-23 | either half has no face; `BoundaryFromEitherHalf` states it from either halfedge |
| Edges.CanFlipEdge | RobustGeometry/HalfedgeMesh/TriangleMesh.cs:16-20 | the edge is not a boundary edge; `CanFlipBetweenFaces` states it as both halves having a face |
| Faces.SideMeetsNext | RobustGeometry/HalfedgeMesh/Face.cs:28-40 | along a perimeter of a wired mesh, each side ends where the following side starts, the last side included |
| Faces.VerticesFollowPerimeter | RobustGeometry/HalfedgeMesh/Face.cs:42-51 | from a live `Bounding`, `Perimeter` and `Vertices` both end; the vertices are the perimeter's targets in order, one per side, and each is the source of the next side, cyclically |
| Faces.Perimeter | RobustGeometry/HalfedgeMesh/Face.cs:28-40 | the walk along `Next` from `Bounding`; `SideMeetsNext` and `VerticesFollowPerimeter` state what it yields |
| Faces.FaceVertices | RobustGeometry/HalfedgeMesh/Face.cs:42-51 | the targets of the perimeter; `VerticesFollowPerimeter` states that they follow it |
| Halfedges.AtSource | RobustGeometry/HalfedgeMesh/Halfedge.cs:44-46 | in a wired mesh `NextAtSource` and `PreviousAtSource` are live halfedges with the same source, and they undo each other |
| Halfedges.AtTarget | RobustGeometry/HalfedgeMesh/Halfedge.cs:47-48 | in a wired mesh `NextAtTarget` and `PreviousAtTarget` are live halfedges with the same target, and they undo each other |
| Halfedges.NoSelfLoop | RobustGeometry/HalfedgeMesh/Halfedge.cs:70-71 | in a wired mesh a live halfedge's source differs from its target, and its opposite runs back |
| Halfedges.Source | RobustGeometry/HalfedgeMesh/Halfedge.cs:44 | `Opposite.Target`; `NoSelfLoop` states that it differs from the target in a wired mesh |
| Halfedges.IsBoundary | RobustGeometry/HalfedgeMesh/Halfedge.cs:52 | no face on the left; `BoundaryFromEitherHalf` and the operator guards use it |
| Halfedges.Orbit | RobustGeometry/HalfedgeMesh/Halfedge.cs:77-89 | the do-while walk with a step bound of |hes|; `Circulate`, `OrbitIsCycle` and `OrbitNoneNeverReturns` state what it yields and that the bound loses nothing |
| Halfedges.TriangleRing | RobustGeometry/HalfedgeMesh/Halfedge.cs:77-89 | three distinct halfedges linked by `Next` in a cycle form a ring of exactly those three, in order |
| Halfedges.PairRing | RobustGeometry/HalfedgeMesh/Halfedge.cs:77-89 | two distinct halfedges that the walk takes to each other form a ring of exactly those two |
| Halfedges.OrbitIsCycle | RobustGeometry/HalfedgeMesh/Halfedge.cs:77-89 | when a do-while walk returns, what it yields starts at the start halfedge, steps one walk step at a time, steps back to the start after the last item, and never meets the start in between |
| Halfedges.Circulate | RobustGeometry/HalfedgeMesh/Halfedge.cs:77-89 | the do-while cursor loop of `Ring`, `Perimeter` and `Incomings` yields the walk's orbit: the start, then one step after another, back to the start and no further; `None` when the walk does not come back |
| Halfedges.WalkReturns | RobustGeometry/HalfedgeMesh/Halfedge.cs:77-89 | in a wired mesh every walk from a live halfedge comes back to it, through live halfedges only, so the source's do-while loops terminate |
| Halfedges.AdvanceInjective | RobustGeometry/HalfedgeMesh/Halfedge.cs:45-48 | in a wired mesh each walk step is one-to-one on live halfedges |
| Halfedges.PreviousAtSource | RobustGeometry/HalfedgeMesh/Halfedge.cs:45 | `Previous.Opposite` is a halfedge of the arena; `AtSource` states that it leaves the same source |
| Halfedges.NextAtSource | RobustGeometry/HalfedgeMesh/Halfedge.cs:46 | `Opposite.Next` is a halfedge of the arena; `AtSource` states that it leaves the same source and undoes `PreviousAtSource` |
| Halfedges.PreviousAtTarget | RobustGeometry/HalfedgeMesh/Halfedge.cs:47 | `Opposite.Previous` is a halfedge of the arena; `AtTarget` states that it arrives at the same target |
| Halfedges.NextAtTarget | RobustGeometry/HalfedgeMesh/Halfedge.cs:48 | `Next.Opposite` is a halfedge of the arena; `AtTarget` states that it arrives at the same target and undoes `PreviousAtTarget` |
| Halfedges.Walked | RobustGeometry/HalfedgeMesh/Halfedge.cs:77-89 | the finite window of a walk that may never return, on which its lazy readers are decided: `MeshOperations.WindowDecides` shows that one step more than the arena has halfedges decides `FirstOrDefault`, and `VertexSplits.MovedIncomingsEnds` that twice as many steps as halfedges decide `Circulate` (`Circulation.SkipTake`); each step is a halfedge of the arena |
| Halfedges.WalkRevisits | RobustGeometry/HalfedgeMesh/Halfedge.cs:77-89 | whatever a walk reaches in `k` steps it also reaches in fewer than |hes| steps, so a longer walk meets nothing new |
| Halfedges.OrbitNoneNeverReturns | RobustGeometry/HalfedgeMesh/Halfedge.cs:77-89 | a walk that has not come back to its start within |hes| steps never comes back, so the source's do-while loop never ends: `None` loses nothing |
| Halfedges.OrbitSameLinks | RobustGeometry/HalfedgeMesh/Halfedge.cs:77-89 | a walk reads only `Opposite`, `Next` and `Previous`, so changing faces or targets does not change what it yields |
| Halfedges.WiredSameLinks | RobustGeometry/HalfedgeMesh/Halfedge.cs:58-72 | the pointer invariant does not depend on faces |
| Vertices.NeighborsOf | RobustGeometry/HalfedgeMesh/Vertex.cs:26-37 | the do-while loop of `Neighbors` yields the targets of the walk around the source from `Outgoing` |
| Vertices.Incomings | RobustGeometry/HalfedgeMesh/Vertex.cs:39-51 | the walk around the vertex from `Outgoing.Opposite`; `IncomingsArrive` states what it yields |
| Vertices.Neighbors | RobustGeometry/HalfedgeMesh/Vertex.cs:26-37 | the targets of the walk around the source from `Outgoing`; `NeighborsOf` and `NeighborsAreAdjacent` state what it yields |
| Vertices.VertexIsBoundary | RobustGeometry/HalfedgeMesh/Vertex.cs:53-59 | some incoming halfedge lies on a boundary edge; `CountOnBoundary` states that it holds exactly when their count is positive |
| Vertices.AroundTargetKeepsTarget | RobustGeometry/HalfedgeMesh/Halfedge.cs:48 | in a wired mesh, repeated `NextAtTarget` steps stay live and keep the target |
| Vertices.IncomingsArrive | RobustGeometry/HalfedgeMesh/Vertex.cs:39-51 | in a wired mesh, `Incomings` of a vertex whose `Outgoing` leaves it ends; it starts at `Outgoing.Opposite` and yields only live halfedges arriving at the vertex |
| Vertices.NeighborsAreAdjacent | RobustGeometry/HalfedgeMesh/Vertex.cs:26-37 | in a wired mesh, `Neighbors` ends; the first neighbour is `Outgoing.Target`, and every neighbour is the target of a live halfedge leaving the vertex |
| Vertices.CountOnBoundary | RobustGeometry/HalfedgeMesh/Vertex.cs:53-59 | the number of incoming halfedges on boundary edges is at most their number, and is zero exactly when `IsBoundary` is false |
| Vertices.FirstFrom | RobustGeometry/HalfedgeMesh/Vertex.cs:66-69 | `FirstOrDefault(he => he.Source == v)` is null exactly when no item starts at `v`, and otherwise is the first item that does |
| Vertices.HalfedgeTo | RobustGeometry/HalfedgeMesh/Vertex.cs:62-69 | what `HalfedgeTo` returns is the first incoming halfedge of `w`, in `Incomings` order, that starts at `v`; it is null exactly when none does |
| Vertices.HalfedgeToRunsBetween | RobustGeometry/HalfedgeMesh/Vertex.cs:62-69 | in a wired mesh `HalfedgeTo` finds a live halfedge from `v` to `w`, and null exactly when no incoming halfedge of `w` starts at `v` |
| Meshes.CreateVertexAdds | RobustGeometry/HalfedgeMesh/Mesh.cs:349-358 | `CreateVertex` appends one new vertex, with its traits and no `Outgoing`, to the vertex list, and changes nothing else |
| Meshes.CreateEdgeInvalid | RobustGeometry/HalfedgeMesh/Mesh.cs:423-455 | the statement-by-statement construction yields exactly two new halfedges and one new edge, as `EdgeAdded` lists them |
| Meshes.CreateEdgeInvalidPairs | RobustGeometry/HalfedgeMesh/Mesh.cs:423-455 | the new halfedge runs from `source` to `target`; its opposite is the other new halfedge; both share the new edge, whose `Half1` is the first; neither has a face; the earlier records and lists are unchanged |
| Meshes.DeleteEdgeRemoves | RobustGeometry/HalfedgeMesh/Mesh.cs:390-397 | `DeleteEdge` removes the edge and its two halfedges from the lists, two and one fewer, and changes nothing else |
| Meshes.DeleteFaceRemoves | RobustGeometry/HalfedgeMesh/Mesh.cs:400-405 | `DeleteFace` removes exactly that face from `Faces`, and deleting a null face changes nothing |
| Meshes.IsEmptyUntilVertex | RobustGeometry/HalfedgeMesh/Mesh.cs:566-569 | a new mesh is empty, and a mesh that has created a vertex is not |
| Meshes.CreateVertex | RobustGeometry/HalfedgeMesh/Mesh.cs:349-358 | a new vertex with the traits and no `Outgoing`, added to `Vertices`; `CreateVertexAdds` states it |
| Meshes.CreateHalfedge | RobustGeometry/HalfedgeMesh/Mesh.cs:360-368 | a new halfedge added to `Halfedges`; `CreateEdgeInvalid` builds on it |
| Meshes.CreateEdge | RobustGeometry/HalfedgeMesh/Mesh.cs:370-378 | a new edge added to `Edges`; `CreateEdgeInvalid` builds on it |
| Meshes.DeleteEdge | RobustGeometry/HalfedgeMesh/Mesh.cs:390-397 | `Half1`, `Half2` and the edge leave their lists; `DeleteEdgeRemoves` states it |
| Meshes.DeleteFace | RobustGeometry/HalfedgeMesh/Mesh.cs:400-405 | the face leaves `Faces`, and a null face removes nothing; `DeleteFaceRemoves` states it |
| Meshes.IsEmpty | RobustGeometry/HalfedgeMesh/Mesh.cs:566-569 | no vertices; `IsEmptyUntilVertex` states when it holds |
| Meshes.Valid | RobustGeometry/HalfedgeMesh/Mesh.cs:579-598 | `AssertValid`: every vertex and halfedge valid and every ring at most half the halfedges; `FirstTriangleValid` states where it holds |
| Meshes.RelabelKeepsLinks | RobustGeometry/HalfedgeMesh/Mesh.cs:477-480 | the `foreach` that sets the face of each ring halfedge keeps every link, target and edge |
| Meshes.CreateFace | RobustGeometry/HalfedgeMesh/Mesh.cs:465-487 | on success the arena keeps its halfedges and vertices, and the new face's id is the next free one |
| Meshes.CreateFaceGuards | RobustGeometry/HalfedgeMesh/Mesh.cs:468-470 | null gives `ArgumentNullException`; a halfedge that has a face gives `InvalidOperationException`; otherwise it fails only when the ring never comes back |
| Meshes.CreateFaceFillsRing | RobustGeometry/HalfedgeMesh/Mesh.cs:465-487 | one new face is added, bounded by the halfedge, whose `Perimeter` is the ring; exactly the ring's halfedges get the face; links, targets, edges and the other lists are unchanged |
| Meshes.CreateFaceInWiredMesh | RobustGeometry/HalfedgeMesh/Mesh.cs:465-487 | in a wired mesh, on a live boundary halfedge, `CreateFace` succeeds; the ring is live and the mesh stays wired |
| Meshes.WiredHalfedgesValid | RobustGeometry/HalfedgeMesh/Halfedge.cs:58-72 | in a wired mesh every live halfedge passes `Halfedge.AssertValid`: its opposite's opposite is itself, and it is no self-loop |
| MeshOperations.HalfedgeBetween | RobustGeometry/HalfedgeMesh/Vertex.cs:66-69 | `v.HalfedgeTo(w)` with its failures: a null `Outgoing` of `w` throws, and a walk that never returns diverges unless a match comes first; a result found starts at `v` and ends at `w` |
| MeshOperations.HalfedgeBetweenLazy | RobustGeometry/HalfedgeMesh/Vertex.cs:66-69 | when the walk around `w` never comes back, the lazy `FirstOrDefault` over it diverges exactly when no step of the endless walk starts at `v`, and otherwise finds the first step that does |
| MeshOperations.WindowDecides | RobustGeometry/HalfedgeMesh/Vertex.cs:66-69 | searching the first |hes| + 1 steps of a walk finds nothing exactly when no step of the endless walk starts at `v`, and otherwise the first step that does |
| MeshOperations.CreateTriangleOnBoundaryGuards | RobustGeometry/HalfedgeMesh/Mesh.cs:102-107 | `CreateTriangle(v1, v2, vt3, ft)` fails before it creates anything exactly when no halfedge from `v1` to `v2` is found (the null dereference at line 103 comes before the check at 106) or the one found has a face |
| MeshOperations.SproutAdds | RobustGeometry/HalfedgeMesh/Mesh.cs:109-119 | the new vertex `v3` and four new halfedges on two new edges, with `v3.Outgoing == e32` and `v1.Outgoing == e13` |
| MeshOperations.AdjoinRewires | RobustGeometry/HalfedgeMesh/Mesh.cs:121-137 | the rewiring: the triangle ring `e12 -> e23 -> e31`, the outer boundary `Previous -> e13 -> e32 -> Next`, every other field as it was |
| MeshOperations.CreateTriangleOnBoundary | RobustGeometry/HalfedgeMesh/Mesh.cs:97-151 | the operator is `CreateFace(e12)` on the rewired arena once `HalfedgeTo` has found a boundary halfedge; `CreateTriangleOnBoundaryGuards` and `CreateTriangleOnBoundaryAdds` state its failures and its outcome |
| MeshOperations.Adjoin | RobustGeometry/HalfedgeMesh/Mesh.cs:109-137 | the new vertex, the two new edges and the twelve link assignments keep every id a halfedge of the arena; `AdjoinRewires` states the links they leave |
| MeshOperations.CreateTriangleOnBoundaryAdds | RobustGeometry/HalfedgeMesh/Mesh.cs:97-151 | on a boundary halfedge from `v1` to `v2`, the operator succeeds. It adds one vertex, two edges (four halfedges) and one face bounded by `e12`, whose perimeter is `e12, e23, e31`, running from `v1` to `v2` to `v3` and back. The boundary is re-threaded and the new `Outgoing`s are set |
| MeshOperations.CreateFaceOnAdjoined | RobustGeometry/HalfedgeMesh/Mesh.cs:139-140 | `CreateFace(e12)` on the rewired arena fills exactly the new triangle |
| MeshOperations.DivideRewires | RobustGeometry/HalfedgeMesh/Mesh.cs:176-192 | `SplitFace`'s statements build the new edge between the two targets and re-link the rings as `he1 -> e12 -> n2` and `he2 -> e21 -> n1`, with `e21` on `he2`'s face |
| MeshOperations.Divide | RobustGeometry/HalfedgeMesh/Mesh.cs:176-192 | the statements before `CreateFace` add two halfedges and keep every id a halfedge of the arena; `DivideRewires` states the links they leave |
| MeshOperations.SplitFaceRuns | RobustGeometry/HalfedgeMesh/Mesh.cs:176-192 | on success the new halfedge `e12` runs from the target of `he1` to the target of `he2` |
| MeshOperations.DividedKeeps | RobustGeometry/HalfedgeMesh/Mesh.cs:176-194 | after the split, every old halfedge keeps its target, opposite and edge; its `Next` unless it is `he1` or `he2`, its `Previous` unless it followed one of them, and its face unless it is on the new ring |
| MeshOperations.CreateFaceKeeps | RobustGeometry/HalfedgeMesh/Mesh.cs:477-480 | `CreateFace` on an arena whose old halfedges are the re-linked ones succeeds, and every old halfedge keeps its target, opposite and edge, its links but those the re-linking changed, and its face unless it is on the new ring |
| MeshOperations.SplitFace | RobustGeometry/HalfedgeMesh/Mesh.cs:171-197 | on success a new face is added and the arena grows by two halfedges |
| MeshOperations.SplitFaceGuards | RobustGeometry/HalfedgeMesh/Mesh.cs:173-174 | halfedges of different faces, and targets that are neighbours already, are refused before anything changes; a failure of `HalfedgeTo` comes through |
| MeshOperations.SplitFaceCreates | RobustGeometry/HalfedgeMesh/Mesh.cs:193-194 | past the guards, `SplitFace` is `CreateFace(e12)` on the divided arena |
| MeshOperations.DividedWired | RobustGeometry/HalfedgeMesh/Mesh.cs:176-192 | the split between two live halfedges with different targets keeps the mesh wired, new halfedges included |
| MeshOperations.SplitFaceSplits | RobustGeometry/HalfedgeMesh/Mesh.cs:171-197 | between two live halfedges of one face whose targets differ and are not neighbours, the operator succeeds and keeps the mesh wired. It adds one edge after `he1` and `he2` and one face on exactly the ring of `e12`; every old face keeps its `Bounding` |
| MeshOperations.NoHalfedgeToSelf | RobustGeometry/HalfedgeMesh/Mesh.cs:174 | no halfedge runs from a vertex to itself, so `HalfedgeTo` from a vertex to itself finds none |
| MeshOperations.SplitFaceSelfLoop | RobustGeometry/HalfedgeMesh/Mesh.cs:171-197 | `SplitFace(he, he)` passes both guards and succeeds, but adds a halfedge that is a self-loop and its own `Next` |
| MeshOperations.SplitFaceChecked | RobustGeometry/HalfedgeMesh/Mesh.cs:171-197 | the corrected operator, which also refuses two halfedges with the same target |
| MeshOperations.SplitFaceCheckedSplits | RobustGeometry/HalfedgeMesh/Mesh.cs:171-197 | the corrected operator fails exactly when the targets are equal, `HalfedgeTo` fails, or the targets are neighbours; otherwise it splits the face as `SplitFaceSplits` states and the mesh stays wired |
| Triangles.HalfedgeBetweenRuns | RobustGeometry/HalfedgeMesh/Vertex.cs:62-69 | in a wired mesh, searching an anchored vertex ends, and what it finds runs between the two vertices |
| Triangles.CreateTriangleBetweenGuards | RobustGeometry/HalfedgeMesh/Mesh.cs:520-529 | the three searches fail first, in order. Then the guards fire in the source's order: missing `e23` or `e31` gives `NotNeighbors`, an existing `e12` gives `AlreadyNeighbors`, and a face on `e23` or `e31` gives `NotBoundary` |
| Triangles.BetweenGuards | RobustGeometry/HalfedgeMesh/Mesh.cs:518-529 | past the three searches and the guards, the split is given `e31`, a halfedge without a face, and `e23.Previous` |
| Triangles.CreateTriangleBetween | RobustGeometry/HalfedgeMesh/Mesh.cs:516-533 | as written: the guards, then the unchecked `SplitFace(e31, e23.Previous)`; the lemmas below state what it does |
| Triangles.CreateTriangleBetweenChecked | RobustGeometry/HalfedgeMesh/Mesh.cs:516-533 | the same on the corrected `SplitFaceChecked`, which refuses `v1 == v2` |
| Triangles.BetweenGuardsRun | RobustGeometry/HalfedgeMesh/Mesh.cs:518-531 | in a wired mesh with `v1` and `v3` anchored, the two halfedges the guards hand on are live and arrive at `v1` and `v2`: the first is `e31` as the search from `v3` to `v1` found it, the second `e23.Previous`, and no halfedge runs from `v1` to `v2` |
| Triangles.SplitNeverNotBoundary | RobustGeometry/HalfedgeMesh/Mesh.cs:531 | the unchecked `SplitFace` that `CreateTriangle(v1, v2, v3)` ends with never fails with `NotBoundary`: `SplitFace` has no such guard |
| Triangles.CreateTriangleBetweenSplits | RobustGeometry/HalfedgeMesh/Mesh.cs:516-533 | with `e23` and `e31` on the boundary, and `v1 != v2` not neighbours, the operator as written succeeds and agrees with the checked one. It splits the boundary with a new halfedge from `v1` to `v2` after `e31`, returns its new face of id `|fs|`, and keeps the mesh wired; every halfedge off the new ring keeps its face and its links but the two re-linked ones |
| Triangles.CreateTriangleBetweenSelfLoop | RobustGeometry/HalfedgeMesh/Mesh.cs:516-533 | with `v1 == v2`, a success of the operator as written adds a halfedge from `v1` to `v1`, while the checked operator refuses with `SameTarget` |
| Triangles.DanglingTriangleSelfLoop | RobustGeometry/HalfedgeMesh/Mesh.cs:516-533 | on the isolated edge between vertices 0 and 1, `CreateTriangle(v0, v0, v1)` as written succeeds and adds halfedge 2 from vertex 0 to vertex 0 that is its own `Next`; the checked operator refuses it |
| Triangles.CreateTriangleBetweenCheckedSplits | RobustGeometry/HalfedgeMesh/Mesh.cs:516-533 | the corrected operator, past the guards, succeeds exactly when `v1 != v2` and fails with `SameTarget` otherwise; on success it splits the boundary by a halfedge from `v1` to a different `v2` |
| Triangles.CreateTriangleOnHalfedgeAdds | RobustGeometry/HalfedgeMesh/Mesh.cs:543-552 | a halfedge with a face is refused; on a boundary halfedge the triangle is added outside it, as `CreateTriangleOnBoundaryAdds` states |
| Triangles.IsolatedEdgeAdds | RobustGeometry/HalfedgeMesh/Mesh.cs:66-78 | two new vertices joined by one new edge whose halfedges are each other's `Next` and `Previous` |
| Triangles.IsolatedEdgeFound | RobustGeometry/HalfedgeMesh/Mesh.cs:81 | on the isolated edge, `HalfedgeTo` finds `e12` |
| Triangles.CreateIsolatedTriangleAdds | RobustGeometry/HalfedgeMesh/Mesh.cs:61-86 | on any fit mesh `CreateTriangle(vt1, vt2, vt3, ft)` succeeds. It adds three vertices with those traits, three edges, six halfedges and one face. The face's `Bounding` runs from the first vertex to the second, its ring runs on through the third, and the outer halfedges form the opposite ring |
| Triangles.CreateIsolatedTriangle | RobustGeometry/HalfedgeMesh/Mesh.cs:61-86 | `CreateTriangle(vt1, vt2, vt3, ft)`: the isolated edge, then the boundary overload on it; `CreateIsolatedTriangleAdds` and `FirstTriangleValid` state its outcome |
| Triangles.CreateTriangleOnHalfedge | RobustGeometry/HalfedgeMesh/Mesh.cs:543-552 | `CreateTriangle(he, vt, ft)`: refuses a halfedge with a face, and otherwise is the boundary overload on its source and target |
| Triangles.FirstTriangleMade | RobustGeometry/HalfedgeMesh/Mesh.cs:61-86 | on a new mesh the operator leaves the six halfedges, three vertices, three edges and one face of `FirstTriangle`, and returns face 0 |
| Triangles.FirstTriangleValid | RobustGeometry/HalfedgeMesh/Mesh.cs:84 | the `AssertValid()` call after the first triangle of a new mesh passes: every vertex and every halfedge is valid, each ring holds at most half the halfedges, and every edge passes `CheckValid` |
| Triangles.FirstVertexValid | RobustGeometry/HalfedgeMesh/Vertex.cs:72-84 | each vertex of the first triangle passes `Vertex.AssertValid`: its `Outgoing` leaves it, the walk of its incoming halfedges ends, and, as it lies on the boundary, its `Outgoing` has no face and at most two incoming halfedges lie on boundary edges |
| Triangles.FirstHalfedgeValid | RobustGeometry/HalfedgeMesh/Mesh.cs:586-596 | each halfedge of the first triangle is its opposite's opposite, no self-loop, and on a ring of three of the six halfedges |
| Triangles.FirstTriangleFits | RobustGeometry/HalfedgeMesh/Edge.cs:25-29 | the first triangle's records name records of the mesh, and each edge's `Half1` points back at it |
| Joins.UnlinkSplices | RobustGeometry/HalfedgeMesh/Mesh.cs:244-248 | away from degenerate links, the four assignments cut the pair out: `he.Previous` is followed by `he.Opposite.Next`, and `he.Opposite.Previous` by `he.Next` |
| Joins.SplicedWired | RobustGeometry/HalfedgeMesh/Mesh.cs:244-248 | cutting the pair out of a wired mesh leaves the other halfedges wired when neither end is a dead end |
| Joins.ReanchorOutgoing | RobustGeometry/HalfedgeMesh/Mesh.cs:240-241 | the `Outgoing` pointers the two `if`s leave |
| Joins.MergeDeletes | RobustGeometry/HalfedgeMesh/Mesh.cs:251 | the pair and its edge leave their lists, and the arena stays fit |
| Joins.JoinJoins | RobustGeometry/HalfedgeMesh/Mesh.cs:224-251 | past the guards, in a wired mesh without dead ends, the join succeeds. The near face takes over the far ring; the pair and its edge are deleted; the far face is deleted (one face and one edge fewer, vertices unchanged); the mesh stays wired; `Bounding` moves off `he`; every vertex but the target stays anchored |
| Joins.JoinFacesGuards | RobustGeometry/HalfedgeMesh/Mesh.cs:221-223 | null gives `ArgumentNullException`; the same face on both sides gives `ArgumentException`, and so does a halfedge with no face; otherwise it fails only when the far ring never closes |
| Joins.JoinFacesMisanchors | RobustGeometry/HalfedgeMesh/Mesh.cs:240-241 | as written, a target anchored by `he.Opposite` is given `he.NextAtTarget` as its `Outgoing`; that halfedge does not leave it |
| Joins.JoinFacesFillsBoundary | RobustGeometry/HalfedgeMesh/Mesh.cs:222-236 | as written, a halfedge whose opposite has no face is accepted: no face is deleted and the boundary ring is given the face; the corrected guard refuses it |
| Joins.JoinFacesCheckedGuards | RobustGeometry/HalfedgeMesh/Mesh.cs:221-223 | the corrected guards also refuse a halfedge whose opposite has no face |
| Joins.NoDeadEnd | RobustGeometry/HalfedgeMesh/Mesh.cs:244-248 | past the corrected guards, `he.Next` and `he.Opposite.Next` are not the pair itself |
| Joins.JoinFacesCheckedJoins | RobustGeometry/HalfedgeMesh/Mesh.cs:219-255 | the corrected operator joins the two faces as `JoinJoins` states (one face and one edge fewer, as the join test counts), and the target of `he` stays anchored |
| Joins.Join | RobustGeometry/HalfedgeMesh/Mesh.cs:224-251 | the join past the guards: the far ring takes the near face, the endpoints are re-anchored, the pair is cut out and its edge deleted; `JoinJoins` states the outcome |
| Joins.JoinFaces | RobustGeometry/HalfedgeMesh/Mesh.cs:219-255 | `JoinFaces(he)` as written: the guards of lines 221-223, then `Join`; `JoinFacesGuards`, `JoinFacesMisanchors` and `JoinFacesFillsBoundary` state what it does |
| Joins.JoinFacesChecked | RobustGeometry/HalfedgeMesh/Mesh.cs:219-255 | the corrected `JoinFaces`; `JoinFacesCheckedGuards` and `JoinFacesCheckedJoins` state what it does |
| PointClassification.OrientSymmetries | RobustGeometry/HalfedgeMesh/PointTriangleMesh.cs:113 | rotating the three points keeps the orientation; swapping two negates it |
| PointClassification.Orient2D | RobustGeometry/HalfedgeMesh/PointTriangleMesh.cs:113 | the exact orientation determinant; `OrientSymmetries` states its symmetries |
| PointClassification.LocateOnHalfedge | RobustGeometry/HalfedgeMesh/PointTriangleMesh.cs:101-145 | `LocatePoint(halfedge, point)`: the side test, then the position along the halfedge; `LocateIsPosition` and `LocateBySide` state its answers |
| PointClassification.LocateIsPosition | RobustGeometry/HalfedgeMesh/PointTriangleMesh.cs:101-145 | for a halfedge with distinct ends, the coordinate tests classify exactly by side and by parameter along the halfedge, in all four directions |
| PointClassification.LocateBySide | RobustGeometry/HalfedgeMesh/PointTriangleMesh.cs:113-120 | `Left` exactly for positive orientation, `Right` exactly for negative, `Source` and `Target` exactly at the endpoints |
| PointClassification.CollinearByX | RobustGeometry/HalfedgeMesh/PointTriangleMesh.cs:121-126 | on a halfedge running in +x, the x tests agree with the parameter along it |
| PointClassification.CollinearByY | RobustGeometry/HalfedgeMesh/PointTriangleMesh.cs:134-139 | on a halfedge running in +y, the y tests agree with the parameter along it |
| PointClassification.UnitHalfedgeInside | RobustGeometry.Test/HalfedgeMesh.Test/TriangleMeshTests.cs:32 | the unit test's inside case |
| PointClassification.UnitHalfedgeInfront | RobustGeometry.Test/HalfedgeMesh.Test/TriangleMeshTests.cs:34 | the unit test's in-front case |
| PointClassification.UnitHalfedgeBehind | RobustGeometry.Test/HalfedgeMesh.Test/TriangleMeshTests.cs:36 | the unit test's behind case |
| PointClassification.UnitHalfedgeSides | RobustGeometry.Test/HalfedgeMesh.Test/TriangleMeshTests.cs:37-38 | the unit test's left and right cases |
| PointClassification.LongHalfedgeInfront | RobustGeometry.Test/HalfedgeMesh.Test/TriangleMeshTests.cs:43-52 | the robustness test: just past the target of a very long halfedge is `Infront` |
| VertexSplits.Retargeted | RobustGeometry/HalfedgeMesh/Mesh.cs:328-331 | the `foreach` moves exactly the listed halfedges to the new target; every other target, every link, face and edge is unchanged |
| VertexSplits.Sprung | RobustGeometry/HalfedgeMesh/Mesh.cs:306-323 | the statements before the range is read add two halfedges, `e12` and `e21`, and keep every id a halfedge of the arena; `SplitVertexFaceless` and `SplitWired` build on it |
| VertexSplits.MovedIncomings | RobustGeometry/HalfedgeMesh/Mesh.cs:325-327 | what the lazy `Circulate(he1, he2)` over `v2.Incomings` yields: on a walk that comes back, `Circulate` of its orbit when both occur in it, and nothing otherwise; on a walk that does not, the lazy reading of its first 2|hes| steps |
| VertexSplits.MovedIncomingsWalk | RobustGeometry/HalfedgeMesh/Mesh.cs:325-327 | what `MovedIncomings` yields is the walk around the target from `he1`, stopped just before its first return to `he2`, and the walk from the start does reach `he1` |
| VertexSplits.MovedIncomingsEnds | RobustGeometry/HalfedgeMesh/Mesh.cs:325-327 | `MovedIncomings` yields nothing exactly when the endless walk never meets `he1`, or the walk from `he1` never meets `he2`: the loop the source never leaves |
| VertexSplits.MovedIncomingsStuck | RobustGeometry/HalfedgeMesh/Mesh.cs:325-327 | when the walk from `he1` stays inside a set of halfedges that holds `he1` but not `he2`, `MovedIncomings` yields nothing |
| VertexSplits.SplitVertex | RobustGeometry/HalfedgeMesh/Mesh.cs:301-335 | as written: different targets give `ArgumentException`, and so does one halfedge on the boundary, exactly; on success `e12` is the next free halfedge and the arena grows by two halfedges |
| VertexSplits.SplitVertexDiverges | RobustGeometry/HalfedgeMesh/Mesh.cs:325-331 | as written, splitting between two different halfedges of one fan never returns (or dereferences a null `Outgoing`): the walk read after re-linking reaches only one of them |
| VertexSplits.SplitVertexFaceless | RobustGeometry/HalfedgeMesh/Mesh.cs:313-323 | as written, `SplitVertex(he, he)` inside a face returns `e12`, but both new halfedges have no face, so the face ring of `he` is no longer one face |
| VertexSplits.SplitVertexChecked | RobustGeometry/HalfedgeMesh/Mesh.cs:301-335 | the corrected split fails with the source's two `ArgumentException`s exactly in their cases, and succeeds exactly when the walk around the target from `he2` returns and meets `he1` |
| VertexSplits.FanOfOrbit | RobustGeometry/HalfedgeMesh/Mesh.cs:325-327 | in a wired mesh the halfedges after `he2` up to `he1` on the walk around the target form an arc of incoming halfedges between the two |
| VertexSplits.CheckedArc | RobustGeometry/HalfedgeMesh/Mesh.cs:325-327 | the moved range is empty when `he1 == he2`, as the source's comment says, and otherwise such an arc |
| VertexSplits.SplitVertexCheckedSplits | RobustGeometry/HalfedgeMesh/Mesh.cs:301-335 | where the corrected split applies, it is `Split` of that arc, and returns the next free halfedge |
| VertexSplits.Split | RobustGeometry/HalfedgeMesh/Mesh.cs:301-335 | the corrected split once the moved range is known adds two halfedges; `SplitWired` states what it keeps |
| VertexSplits.SplitWired | RobustGeometry/HalfedgeMesh/Mesh.cs:301-335 | the corrected split keeps the mesh wired: the arc arrives at the new vertex, other halfedges keep their targets, the new vertex and every vertex anchored before are anchored, and consistent face rings stay consistent |
| Locations.Verdict | RobustGeometry/HalfedgeMesh/PointTriangleMesh.cs:38-58 | the cases of the switch that stop the walk: `Inside` answers the halfedge, `Source` and `Target` a vertex at the point; `Right` or `Infront` answers outside exactly when the far side is boundary, and otherwise crosses |
| Locations.FaceWalk | RobustGeometry/HalfedgeMesh/PointTriangleMesh.cs:35-60 | whatever the walk around one face answers is a halfedge the point is inside, a vertex at the point, or that face; a crossing is at a halfedge the point is right of or in front of, with a face across |
| Locations.PointLocation | RobustGeometry/HalfedgeMesh/PointTriangleMesh.cs:28-62 | `LocatePoint(point)`: an empty mesh answers null (outside); `Faces[0]` fails exactly on a mesh with vertices and no faces; a vertex answered is at the point, a halfedge answered has the point inside, a face answered is `Faces[0]` |
| Locations.LocatePoint | RobustGeometry/HalfedgeMesh/PointTriangleMesh.cs:28-68 | the do-while loop of `LocatePoint` returns what `PointLocation` states; the `TVertexTraits` overload is the same call |
| Locations.FirstStop | RobustGeometry/HalfedgeMesh/PointTriangleMesh.cs:46-50 | the position in the ring of the first halfedge the point does not pass (is not left of or behind); the point passes every one before it |
| Locations.FaceWalkStops | RobustGeometry/HalfedgeMesh/PointTriangleMesh.cs:35-60 | on a ring that comes back, the walk answers the face when the point passes every halfedge, and otherwise the verdict of the first one it does not pass |
| Locations.FaceWalkEncloses | RobustGeometry/HalfedgeMesh/PointTriangleMesh.cs:46-50 | a walk that answers the face has come around its ring, and the point passes every halfedge of it |
| Locations.FaceWalkLost | RobustGeometry/HalfedgeMesh/PointTriangleMesh.cs:35-60 | a walk that runs out of steps walks a ring that does not come back |
| Locations.PointLocationByRing | RobustGeometry/HalfedgeMesh/PointTriangleMesh.cs:28-62 | `LocatePoint` answers `Faces[0]` exactly when the point passes every halfedge of its ring, and otherwise gives the verdict of the first one it does not pass |
| Locations.PointLocationEnds | RobustGeometry/HalfedgeMesh/PointTriangleMesh.cs:28-62 | in a wired mesh the loop fails to end exactly when the first halfedge the point does not pass has a face across |
| Locations.CrossWalk | RobustGeometry/HalfedgeMesh/PointTriangleMesh.cs:51-58 | the walk that crosses into the face across: a vertex it answers is at the point, a halfedge it answers has the point inside, it answers the face it started in when it may not cross, and it fails only by running out of crossings |
| Locations.PointLocationCorrected | RobustGeometry/HalfedgeMesh/PointTriangleMesh.cs:28-62 | `LocatePoint(point)` with the crossing: empty meshes answer outside, `Faces[0]` fails exactly as written, and a vertex answered is at the point |
| Locations.CorrectedAgrees | RobustGeometry/HalfedgeMesh/PointTriangleMesh.cs:28-62 | wherever the loop as written answers, the walk that crosses into the next face gives the same answer |
| Locations.CrossingPassesOpposite | RobustGeometry/HalfedgeMesh/PointTriangleMesh.cs:51-58 | a point right of (in front of) a halfedge is left of (behind) its opposite, so the crossed walk moves on at once |
| Locations.CrossWalkSteps | RobustGeometry/HalfedgeMesh/PointTriangleMesh.cs:51-58 | each crossing of the corrected walk goes over into the face across and walks its ring from the opposite halfedge |
| Locations.CrossWalkSound | RobustGeometry/HalfedgeMesh/PointTriangleMesh.cs:24-25 | a face the corrected walk answers encloses the point: the point passes every halfedge of one of its rings |
| Locations.PointLocationCorrectedSound | RobustGeometry/HalfedgeMesh/PointTriangleMesh.cs:24-25 | the same from `Faces[0]`, for `LocatePoint` with the crossing |
| LocationExample.SquareWalkDiverges | RobustGeometry/HalfedgeMesh/PointTriangleMesh.cs:51-58 | as written, locating (0.9, 0.9) in the square starts in face 0, stops at the shared diagonal, and never ends |
| LocationExample.SquareWalkCorrected | RobustGeometry/HalfedgeMesh/PointTriangleMesh.cs:51-58 | with the crossing, the same point is located in face 1 |
| HalfedgeMesh.RelabelKeepsNextAtTarget | RobustGeometry/HalfedgeMesh/Mesh.cs:233-241 | giving the far ring the near face does not change `he.NextAtTarget`, which line 241 reads after the loop |
| HalfedgeMesh.ThreadSteps | RobustGeometry/HalfedgeMesh/Mesh.cs:122-125 | the four assignments, each reading what the ones before left, thread `e13` and `e32` into the boundary as `Threaded` states |
| HalfedgeMesh.Mesh.constructor | RobustGeometry/HalfedgeMesh/Mesh.cs:22-25 | a new `Mesh` holds no records and empty lists |
| HalfedgeMesh.Mesh.CreateVertex | RobustGeometry/HalfedgeMesh/Mesh.cs:349-358 | the method's new state and result are `Meshes.CreateVertex` of the old state |
| HalfedgeMesh.Mesh.CreateHalfedge | RobustGeometry/HalfedgeMesh/Mesh.cs:360-368 | the method's new state and result are `Meshes.CreateHalfedge` of the old state |
| HalfedgeMesh.Mesh.CreateEdge | RobustGeometry/HalfedgeMesh/Mesh.cs:370-378 | the method's new state and result are `Meshes.CreateEdge` of the old state |
| HalfedgeMesh.Mesh.CreateEdgeInvalid | RobustGeometry/HalfedgeMesh/Mesh.cs:423-455 | the assignments in the source's order build the new edge pair as `EdgeAdded` lists it |
| HalfedgeMesh.Mesh.DeleteEdge | RobustGeometry/HalfedgeMesh/Mesh.cs:390-397 | the three removals leave `Meshes.DeleteEdge` of the old state |
| HalfedgeMesh.Mesh.DeleteFace | RobustGeometry/HalfedgeMesh/Mesh.cs:400-405 | the method leaves `Meshes.DeleteFace` of the old state |
| HalfedgeMesh.Mesh.SetRingFaces | RobustGeometry/HalfedgeMesh/Mesh.cs:477-480 | the `foreach` over the ring leaves exactly the ring's halfedges with the face |
| HalfedgeMesh.Mesh.CreateFace | RobustGeometry/HalfedgeMesh/Mesh.cs:465-487 | the method returns and leaves what `Meshes.CreateFace` gives, and a failure changes nothing |
| HalfedgeMesh.Mesh.LinkAfterFirst | RobustGeometry/HalfedgeMesh/Mesh.cs:183-186 | the first four re-linking assignments of `SplitFace`, in order |
| HalfedgeMesh.Mesh.LinkAfterSecond | RobustGeometry/HalfedgeMesh/Mesh.cs:188-191 | the second four re-linking assignments of `SplitFace`, in order |
| HalfedgeMesh.Mesh.Divide | RobustGeometry/HalfedgeMesh/Mesh.cs:176-193 | the statements before `CreateFace` leave `MeshOperations.Divide` of the old state and return `e12`, the next free halfedge |
| HalfedgeMesh.Mesh.SplitFace | RobustGeometry/HalfedgeMesh/Mesh.cs:171-197 | the method returns and leaves what `MeshOperations.SplitFace` gives |
| HalfedgeMesh.Mesh.SplitFaceChecked | RobustGeometry/HalfedgeMesh/Mesh.cs:171-197 | the corrected split, agreeing with `MeshOperations.SplitFaceChecked` |
| HalfedgeMesh.Mesh.RetireFaces | RobustGeometry/HalfedgeMesh/Mesh.cs:228-232 | `Bounding` moved off `he` and the far face deleted, as `Joins.Retire` states |
| HalfedgeMesh.Mesh.Reanchor | RobustGeometry/HalfedgeMesh/Mesh.cs:240-241 | the two `Outgoing` fixes, with the halfedge line 241 reads |
| HalfedgeMesh.Mesh.Unlink | RobustGeometry/HalfedgeMesh/Mesh.cs:244-248 | the four assignments that cut the pair out, as `Joins.Unlink` states |
| HalfedgeMesh.Mesh.MergeRing | RobustGeometry/HalfedgeMesh/Mesh.cs:233-251 | the ring loop, the vertex fixes, the unlinking and `DeleteEdge`, as `Joins.Merge` states |
| HalfedgeMesh.Mesh.JoinFaces | RobustGeometry/HalfedgeMesh/Mesh.cs:219-255 | the method returns and leaves what `Joins.JoinFaces` gives |
| HalfedgeMesh.Mesh.LinkAfter | RobustGeometry/HalfedgeMesh/Mesh.cs:315-318 | one batch of re-linking assignments, as `VertexSplits.LinkedAfter` states |
| HalfedgeMesh.Mesh.Retarget | RobustGeometry/HalfedgeMesh/Mesh.cs:328-331 | the `foreach` leaves `VertexSplits.Retargeted` of the old halfedges |
| HalfedgeMesh.Mesh.Sprout | RobustGeometry/HalfedgeMesh/Mesh.cs:306-323 | the statements before the range is read leave `VertexSplits.Sprung` of the old state, and return the new vertex and `e12` |
| HalfedgeMesh.Mesh.SplitVertex | RobustGeometry/HalfedgeMesh/Mesh.cs:301-335 | the method returns and leaves what `VertexSplits.SplitVertex` gives |
| HalfedgeMesh.Mesh.SplitAround | RobustGeometry/HalfedgeMesh/Mesh.cs:306-334 | past the two guards, the same |
| HalfedgeMesh.Mesh.ThreadAround | RobustGeometry/HalfedgeMesh/Mesh.cs:122-125 | the four threading assignments leave `MeshOperations.Threaded` of the old halfedges |
| HalfedgeMesh.Mesh.TurnInto | RobustGeometry/HalfedgeMesh/Mesh.cs:127-131 | the next four assignments, as `MeshOperations.Turned` states |
| HalfedgeMesh.Mesh.CloseTriangle | RobustGeometry/HalfedgeMesh/Mesh.cs:133-137 | the last four assignments, as `MeshOperations.Closing` states |
| HalfedgeMesh.Mesh.SproutTriangle | RobustGeometry/HalfedgeMesh/Mesh.cs:109-119 | the new vertex, the two new edges and the two `Outgoing`s, as `MeshOperations.Sprout` states |
| HalfedgeMesh.Mesh.Adjoin | RobustGeometry/HalfedgeMesh/Mesh.cs:109-137 | everything before `CreateFace`, as `MeshOperations.Adjoin` states |
| HalfedgeMesh.Mesh.CreateTriangleOnBoundary | RobustGeometry/HalfedgeMesh/Mesh.cs:97-151 | the method returns and leaves what `MeshOperations.CreateTriangleOnBoundary` gives |
| HalfedgeMesh.Mesh.CreateIsolatedTriangle | RobustGeometry/HalfedgeMesh/Mesh.cs:61-86 | the method returns and leaves what `Triangles.CreateIsolatedTriangle` gives |
| HalfedgeMesh.Mesh.CreateTriangleOnHalfedge | RobustGeometry/HalfedgeMesh/Mesh.cs:543-552 | the method returns and leaves what `Triangles.CreateTriangleOnHalfedge` gives |
| HalfedgeMesh.Mesh.CreateTriangleBetween | RobustGeometry/HalfedgeMesh/Mesh.cs:516-533 | the method returns and leaves what `Triangles.CreateTriangleBetween` gives |

## Left out

- Floating point: coordinates are exact reals, and `Orient2D` is the exact determinant. The source's
  robust predicate computes the sign of that determinant, which is all the classification uses.
- Traits are opaque type parameters. Traits of halfedges and edges are not modelled, since no
  operator reads them.
- `Length`, `LongestEdge`, `InsertVertex`, `RemoveCaps`, `RemoveNeedles` and `FlipEdge` are not
  part of this model: they are stubs or lie outside the mesh core.
- `AssertValid` and the other `[Conditional("DEBUG")]` checks are predicates. The operators do not
  call them, as in a release build. `Triangles.FirstTriangleValid` proves `Meshes.Valid` where
  Mesh.cs:84 first checks it, after the first triangle of a new mesh.
- Meshes.Valid: no operator is proved to preserve it. The operator lemmas carry the pointer invariant
  `Wired` instead, which gives the halfedge clause (`WiredHalfedgesValid`). The ring bound
  (Mesh.cs:590-596), the boundary `Outgoing` (Vertex.cs:77-80) and the count of boundary incomings
  (Vertex.cs:82) are proved for the first triangle only. A vertex whose incoming walk never comes
  back makes `AssertValid` run for ever; `Valid` counts such a vertex invalid.
- Walks that must come back (`Ring`, `Perimeter`, `Incomings`, `Neighbors`) are read with a bound of
  |hes| steps and report `Diverges` past it. `OrbitNoneNeverReturns` proves that such a walk never
  comes back, so the bound loses nothing.
- The lazy readers of an endless walk are modelled on a finite prefix of it, proved to decide them.
  `HalfedgeTo`'s `FirstOrDefault` reads |hes| + 1 steps (`HalfedgeBetweenLazy`). `SplitVertex`'s
  `Circulate` reads 2|hes| steps (`MovedIncomingsEnds`). `Vertex.IsBoundary`'s lazy `Any` is read
  only inside `Valid`, once `Incomings` has been required to end.
- `Halfedges.RingsFaced` (every halfedge of a ring has the ring's face) is a hypothesis of the
  `JoinFaces` lemmas. The source keeps it by construction but never checks it.
- Identity of records is the arena index. Equality of ids stands for reference equality.
- The `Halfedge`, `Vertex`, `Face` and `Edge` classes are records inside the arena that `Mesh` holds, not
  classes of their own: their fields change only through the `Mesh` methods, which update them in place.
- `Diverges` stands for a loop that never ends. Where `CreateFace`, `JoinFaces` or `SplitVertex` run
  such a loop after changing the mesh, the state the changes left is not modelled.
- `LocatePoint` walks with a step bound of |hes| + 1 per face, and the corrected walk with a bound on
  the number of crossings. Neither bound exists in the source.
- `LocatePoint` on a mesh with vertices but no faces fails at `Faces[0]`; the model reports
  `OutOfRange` there.
- The position tests of `LocatePoint(halfedge, point)` assume a halfedge whose ends differ, as the
  source's `Debug.Assert` does; the lemmas take it as a hypothesis.
- VertexSplits.SplitWired: the corrected split's wiring is stated for `Split` of the arc; the chain to
  `SplitVertexChecked` goes through `SplitVertexCheckedSplits` and `CheckedArc`, not one lemma.
- The `Mesh` class takes vertex and face traits as type parameters; traits of a new halfedge or edge are
  not held.

## Findings

| source | as written | input that shows it | evidently intended | confidence | as-written member | corrected member |
|---|---|---|---|---|---|---|
| RobustGeometry/HalfedgeMesh/Mesh.cs:171-197 | `SplitFace` refuses only different faces and existing neighbours | `SplitFace(he, he)` on any live halfedge | the new edge must join two different vertices | not executed | MeshOperations.SplitFaceSelfLoop | MeshOperations.SplitFaceCheckedSplits |
| RobustGeometry/HalfedgeMesh/Mesh.cs:241 | the target's `Outgoing` becomes `he.NextAtTarget`, an incoming halfedge | `JoinFaces(he)` where `he.Target.Outgoing == he.Opposite` | `Outgoing` becomes `he.Next`, which leaves the target | not executed | Joins.JoinFacesMisanchors | Joins.JoinFacesCheckedJoins |
| RobustGeometry/HalfedgeMesh/Mesh.cs:222-223 | only `he.IsBoundary` is tested | `JoinFaces(he)` where `he` has a face and `he.Opposite` has none | both sides must have a face, as the guard's message says | not executed | Joins.JoinFacesFillsBoundary | Joins.JoinFacesCheckedGuards |
| RobustGeometry/HalfedgeMesh/Mesh.cs:327 | the range `[he1, he2)` around `v2` is read after `he1` and `he2` have been re-linked | `SplitVertex(he1, he2)` for two different halfedges of one fan in a wired mesh | the counter-clockwise range, that is the walk around `v2` after `he2` up to and including `he1`, fixed before the re-linking; and `v2.Outgoing` moved to `e21` when the halfedge it named left `v2` (`Rerooted`) | not executed | VertexSplits.SplitVertexDiverges | VertexSplits.SplitVertexCheckedSplits |
| RobustGeometry/HalfedgeMesh/Mesh.cs:315-323 | the new halves take no face | `SplitVertex(he, he)` for a halfedge inside a face | `e12` and `e21` take the faces of `he1` and `he2` | not executed | VertexSplits.SplitVertexFaceless | VertexSplits.SplitWired |
| RobustGeometry/HalfedgeMesh/PointTriangleMesh.cs:51-58 | a halfedge with the point to its right and a face across only `break`s, and the loop tries it again | the two-triangle unit square and the point (0.9, 0.9) | move over to the face across | not executed | LocationExample.SquareWalkDiverges | Locations.CrossWalkSound |
| RobustGeometry/HalfedgeMesh/Mesh.cs:531 | `CreateTriangle(v1, v2, v3)` ends with the unchecked `SplitFace`, which accepts two halfedges with the same target | `CreateTriangle(v0, v0, v1)` on the isolated edge between `v0` and `v1` | refuse `v1 == v2`, as the checked split does | not executed | Triangles.DanglingTriangleSelfLoop | Triangles.CreateTriangleBetweenCheckedSplits |
