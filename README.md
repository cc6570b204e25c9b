# Boolean engine bookkeeping of jsketcher's BREP kernel, in Dafny

jsketcher computes union, intersection and difference of two solids given as
boundary representations (BREP). A shell has faces. A face has an outer loop
and inner loops. A loop lists half-edges, and each half-edge runs from
`vertexA` to `vertexB` and has a twin on the same edge. Once the geometric
tests are abstracted, the Boolean engine in
`web/app/brep/operations/boolean.js` is combinatorial bookkeeping over these
entities:

- a tolerance-deduplicating vertex pool;
- merging shell-2 vertices onto shell-1 vertices;
- splitting edges and splicing the pieces into their loops;
- filtering and sorting crossing nodes and cutting material spans out of an
  intersection curve;
- a per-face graph of half-edges that records edge collisions;
- the loop walk that closes new loops;
- grouping of overlapping faces and the chain invalidation and loop rebuild
  of `mergeFaces`;
- the new-edge face filter, a flood fill over twin adjacency;
- shell inversion;
- the edge-parameter bookkeeping of `intersectEdges`.

The face enumeration order of `web/app/brep/topo/face.js` is modelled too,
with its `env2D` memo.

The model keeps the topology in an arena. The class `Topology.Topology` holds
sequences of half-edges, edges, loops, faces and edge-solve-data records, and
entities refer to each other by index. Every source operation that mutates
the topology is a method with `modifies t`. Each such method states its whole
new state and keeps the arena invariant `Valid()`. Geometry is passed in as
function-typed parameters: vertex and parameter tolerance (`veq`, `ueq`),
`isSameEdge`, `findMaxTurningLeft`, curve intersection, point-at-parameter,
curve split, surface and edge inversion, the overlap test and the BREP
validator. The model proves what the code does for any such oracle.

Modules, one per area of the source:

| file | module | source area |
|---|---|---|
| wrappers.dfy | Wrappers | `Option`, `Outcome` |
| geometry.dfy | Geometry | opaque points, curves, surfaces, vertices |
| errors.dfy | Errors | `CadError` and the two ways boolean.js builds one |
| topology.dfy | Topology | arena, `new Edge`, `new Loop`, `loop.link()` |
| face.dfy | Faces | face constructor, `loops`, `edges`, `getAnyHalfEdge`, `env2D` |
| vertex_factory.dfy | VertexPool | `VertexFactory`, `initVertexFactory` |
| list_maps.dfy | ListMaps | `addToListInMap`, `removeFromListInMap`, sequence lemmas |
| solve_data.dfy | SolveData | `EdgeSolveData`, `isNew`, `isNewNM`, `edgesHaveSameEnds` |
| merge_vertices.dfy | MergeVertices | `mergeVertices` |
| split_edge.dfy | SplitEdge | `splitEdgeByVertex` |
| nodes.dfy | Nodes | `nullifyDegradedNodes`, `filterAndSortNodes` |
| spans.dfy | Spans | `split` |
| face_graph.dfy | FaceGraph | `FaceSolveData`, `addNewEdge`, `checkFaceDataForError` |
| loop_detect.dfy | LoopDetect | `detectLoops` |
| overlap.dfy | Overlap | grouping in `findOverlappingFaces` |
| merge_faces.dfy | MergeFaces | `mergeFaces` after `invalidate` |
| result_filter.dfy | ResultFilter | `filterFacesByNewEdges`, `traverseFaces` |
| invert.dfy | Invert | `invert`, `checkShellForErrors` |
| edge_params.dfy | EdgeParams | grouping, sorting and marking in `intersectEdges` |
| intersect_edges.dfy | IntersectEdges | vertex holders and the split loop of `intersectEdges` |

## Model

| member | source | states |
|---|---|---|
| Errors.NewCadError | web/app/utils/errors.js:4-10 | an error built from an options record without a kind gets kind `INTERNAL_ERROR` |
| Errors.PositionalCadError | web/app/brep/operations/boolean.js:73 | `new CadError(code, payload)` with positional arguments has kind `INTERNAL_ERROR` |
| Errors.PositionalCallLosesCodeAndPayload | web/app/brep/operations/boolean.js:1289 | the positional call stores no code, no related objects and no message, and its result does not depend on the code or the payload |
| Errors.CodedCadError | web/app/utils/errors.js:4-10 | an error built from `{code, relatedTopoObjects}` has kind `INTERNAL_ERROR` |
| Errors.CodedCallKeepsCodeAndPayload | web/app/utils/errors.js:4-10 | the options-record call keeps the code and the payload |
| Topology.Topology.Twin | web/app/brep/operations/boolean.js:60 | a half-edge's twin is a different half-edge of the same edge |
| Topology.Topology.TwinTwin | web/app/brep/operations/boolean.js:60 | the twin of the twin is the half-edge itself |
| Topology.Topology.NewEdge | web/app/brep/operations/boolean.js:1014-1015 | `new Edge(curve, a, b)` appends one edge and two half-edges, a→b and b→a, with no loop, no `next` and no solve data; nothing else changes |
| Topology.Topology.NewLoop | web/app/brep/operations/boolean.js:155 | `new Loop(face)` appends one empty loop owned by `face`; nothing else changes |
| Topology.Topology.Link | web/app/brep/operations/boolean.js:63 | `loop.link()` changes only the `next` fields of the loop's half-edges, and the last occurrence of each listed half-edge points to its cyclic successor |
| Topology.LinkHalfEdges | web/app/brep/operations/boolean.js:342 | the value-level link: half-edges not in the list are unchanged, and each listed one points to its cyclic successor in the list |
| Faces.NewFace | web/app/brep/topo/face.js:13-18 | a new face has no shell, no inner loops and a fresh empty outer loop owned by the face |
| Faces.LoopsOf | web/app/brep/topo/face.js:140-147 | `loops` yields the outer loop and then the inner loops, `1 + innerLoops.length` in all |
| Faces.HalfEdgesOfLoops | web/app/brep/topo/face.js:149-155 | the half-edges of a list of loops, loop by loop, all in the arena |
| Faces.HalfEdgesOf | web/app/brep/topo/face.js:149-155 | `edges` of a face is the half-edges of its `loops`, all in the arena |
| Faces.HalfEdgesOfLoopsCount | web/app/brep/topo/face.js:149-155 | the number of yielded half-edges is the sum of the loop lengths |
| Faces.HalfEdgesOfLoopsAt | web/app/brep/topo/face.js:149-155 | half-edge `j` of loop `i` is at position (lengths of loops before `i`) + `j` |
| Faces.HalfEdgesOfLoopsMember | web/app/brep/topo/face.js:149-155 | a half-edge is yielded exactly when some listed loop contains it |
| Faces.HalfEdgesOfFace | web/app/brep/topo/face.js:149-155 | a face's `edges` starts with its outer loop's half-edges in loop order |
| Faces.GetAnyHalfEdge | web/app/brep/topo/face.js:43-49 | any half-edge returned is in the arena |
| Faces.GetAnyHalfEdgeIsFirst | web/app/brep/topo/face.js:43-49 | a half-edge `getAnyHalfEdge` returns is the first of the face's `edges`; a face without half-edges gives none; it gives none exactly when the outer loop is empty and there is no inner loop or `innerLoops[0]` is empty; and when it gives none although the face has half-edges, they all lie in inner loops after the first |
| Faces.GetAnyVertex | web/app/brep/topo/face.js:51-53 | a vertex is returned exactly when `getAnyHalfEdge` returns a half-edge |
| Faces.GetAnyVertexIsFirstStart | web/app/brep/topo/face.js:51-53 | `getAnyVertex` is `vertexA` of the first of the face's `edges` |
| Faces.CreateWorkingPolygon | web/app/brep/topo/face.js:27-29 | one polygon per loop, the outer loop's first and then the inner loops' in order |
| Faces.Env2D | web/app/brep/topo/face.js:31-41 | the first call computes `{pip, workingPolygon}` from the working polygon and caches it; a later call returns the cached record and changes nothing |
| Faces.Env2DTwice | web/app/brep/topo/face.js:31-41 | two calls in a row return the identical record |
| VertexPool.LookupHit | web/app/brep/operations/boolean.js:1141-1148 | a found vertex is the first pooled vertex `veq` to the point |
| VertexPool.LookupMiss | web/app/brep/operations/boolean.js:1141-1148 | nothing is found exactly when no pooled vertex is `veq` to the point |
| VertexPool.LookupAppendHit | web/app/brep/operations/boolean.js:1150-1159 | appending to the pool does not change a lookup that already succeeds |
| VertexPool.LookupAppendMiss | web/app/brep/operations/boolean.js:1150-1159 | after a miss, appending a vertex at the point makes the lookup return that vertex |
| VertexPool.VertexFactory.constructor | web/app/brep/operations/boolean.js:1131-1133 | a new factory has an empty pool |
| VertexPool.VertexFactory.AddVertices | web/app/brep/operations/boolean.js:1135-1139 | the given vertices are appended to the pool in order |
| VertexPool.VertexFactory.Find | web/app/brep/operations/boolean.js:1141-1148 | returns the first pooled vertex `veq` to the point, or nothing exactly when none is |
| VertexPool.VertexFactory.Create | web/app/brep/operations/boolean.js:1150-1159 | on a hit returns the found vertex and leaves the pool unchanged; on a miss appends exactly one vertex at the point, with an identity no pooled vertex has, and returns it |
| VertexPool.VertexFactory.CreateTwice | web/app/brep/operations/boolean.js:1150-1159 | two `create` calls for the same point return the same vertex, and the pool only grows |
| VertexPool.InitVertexFactory | web/app/brep/operations/boolean.js:1123-1127 | the pool is shell 1's vertices followed by shell 2's |
| ListMaps.IndexOf | web/app/brep/operations/boolean.js:1249 | `indexOf` is -1 exactly when the value is absent, and otherwise the first position holding it |
| ListMaps.AddToListInMap | web/app/brep/operations/boolean.js:1293-1300 | the key's list, empty if missing, gains the value at its end; other keys are unchanged |
| ListMaps.RemoveFromListInMap | web/app/brep/operations/boolean.js:1246-1254 | the keys are unchanged; when the list holds the value, its first occurrence is cut out and the other entries keep their order; otherwise the list is untouched |
| SolveData.Get | web/app/brep/operations/boolean.js:1058-1063 | a half-edge with no solve data reads as the shared `EMPTY` record |
| SolveData.SharedDataAgrees | web/app/brep/operations/boolean.js:1076-1078 | half-edges sharing one solve-data record agree on `isNew` and on the transferred faces |
| SolveData.IsNewNM | web/app/brep/operations/boolean.js:1100-1110 | `isNewNM` is true exactly when the half-edge or one of its manifold partners is new |
| SolveData.EdgesHaveSameEndsSymmetric | web/app/brep/operations/boolean.js:1256-1262 | `edgesHaveSameEnds` is symmetric |
| SolveData.CreateIfEmpty | web/app/brep/operations/boolean.js:1065-1070 | keeps existing solve data; otherwise appends a fresh empty record and attaches it to the half-edge only |
| SolveData.Clear | web/app/brep/operations/boolean.js:1072-1074 | detaches the half-edge's solve data, so that it reads as `EMPTY`; nothing else changes |
| SolveData.Transfer | web/app/brep/operations/boolean.js:1076-1078 | `to` now holds the same solve-data record as `from`, shared rather than copied; nothing else changes |
| SolveData.MarkTransferred | web/app/brep/operations/boolean.js:1080-1086 | the transferred faces become the old set, or the empty set, plus the given faces; `isNew` and all records not shared with this half-edge are unchanged |
| SolveData.MarkNew | web/app/brep/operations/boolean.js:903 | every half-edge sharing the record becomes new; only the marked half-edge's `solve` field can change; transferred faces and other records are unchanged |
| MergeVertices.LastMatchIsLast | web/app/brep/operations/boolean.js:387-394 | the swap target of a shell-2 vertex is the last shell-1 vertex `veq` to it, and there is none exactly when no shell-1 vertex matches |
| MergeVertices.RedirectTarget | web/app/brep/operations/boolean.js:398-405 | an endpoint stays as it is or becomes a shell-1 vertex `veq` to it |
| MergeVertices.RedirectIdempotent | web/app/brep/operations/boolean.js:398-405 | redirecting twice is the same as redirecting once |
| MergeVertices.ShellHalfEdges | web/app/brep/operations/boolean.js:396-397 | the half-edges of shell 2's faces, all in the arena |
| MergeVertices.BuildSwapMap | web/app/brep/operations/boolean.js:387-394 | the map has only shell-2 keys and maps each shell-2 vertex to its last matching shell-1 vertex |
| MergeVertices.MergeVertices | web/app/brep/operations/boolean.js:386-408 | exactly the half-edges of shell 2's faces get their endpoints redirected; every other half-edge and every other table is unchanged |
| MergeVertices.RewriteOne | web/app/brep/operations/boolean.js:398-405 | rewrites one half-edge's two endpoints through the swap map and nothing else |
| SplitEdge.Splice | web/app/brep/operations/boolean.js:1019 | `splice(i, 1, h1, h2)` grows the list by one, or yields `[h1, h2]` from an empty list, and adds nothing but `h1` and `h2` |
| SplitEdge.ReplaceListed | web/app/brep/operations/boolean.js:1019 | for a listed half-edge, the entries before it are kept, `h1, h2` take its place, the entries after it are kept, and the multiset loses it and gains `h1` and `h2` |
| SplitEdge.SplicePlaces | web/app/brep/operations/boolean.js:1019 | the positional half of `ReplaceListed` |
| SplitEdge.SpliceCounts | web/app/brep/operations/boolean.js:1019 | the multiset half of `ReplaceListed` |
| SplitEdge.ReplaceUnlisted | web/app/brep/operations/boolean.js:1019 | when the half-edge is not listed, `indexOf` is -1 and the splice replaces the last entry |
| SplitEdge.ReplaceUnlistedDropsLast | web/app/brep/operations/boolean.js:1019 | a concrete case of the unlisted splice |
| SplitEdge.UpdateInLoop | web/app/brep/operations/boolean.js:1017-1022 | the owning loop's list is spliced, and `h1` and `h2` are put in that loop; nothing else changes |
| SplitEdge.LinkIntoLoops | web/app/brep/operations/boolean.js:1023-1024 | `halfEdge1` is replaced by `edge1.halfEdge1, edge2.halfEdge1` in its loop and `halfEdge2` by `edge2.halfEdge2, edge1.halfEdge2` in its loop; only the four new half-edges get a loop |
| SplitEdge.ShareSolveData | web/app/brep/operations/boolean.js:1026-1030 | both children of each half-edge hold that half-edge's very solve-data record; nothing else changes |
| SplitEdge.SplitEdgeByVertex | web/app/brep/operations/boolean.js:1007-1033 | returns nothing and changes nothing exactly when the vertex is an end of `halfEdge1`; otherwise appends edges A→v and v→B on the split curves, with four half-edges in the right loops sharing the parents' solve data, splices both loops, and leaves the old tables as a prefix; the new tables are `AfterSplit` of the old ones |
| SplitEdge.CutEdge | web/app/brep/operations/boolean.js:1013-1030 | past the early return: edges A→v and v→B are appended on the split curves, with four half-edges in the right loops sharing the parents' solve data, and both loops are spliced |
| SplitEdge.AfterSplitIs | web/app/brep/operations/boolean.js:1007-1033 | tables holding exactly the appended edges, half-edges and spliced loops of a split are those `AfterSplit` gives |
| SplitEdge.AfterSplitGrows | web/app/brep/operations/boolean.js:1007-1024 | a split only appends and keeps the number of loops; it is the identity exactly when the vertex is an end of `halfEdge1`, and otherwise adds two edges running from the old start to the vertex and from the vertex to the old end |
| SplitEdge.ReplaceDropsSingle | web/app/brep/operations/boolean.js:1019 | splicing out a half-edge listed once removes it from the loop, which stays non-empty |
| SplitEdge.FirstCutUnlists | web/app/brep/operations/boolean.js:1007-1024 | after a first split of an edge whose half-edge is listed once, the edge is still splittable with the same half-edges, and its first half-edge is no longer in its loop |
| SplitEdge.SecondCutReplacesLast | web/app/brep/operations/boolean.js:1007-1024 | splitting the same edge a second time finds its half-edge unlisted, so `indexOf` gives -1 and the splice replaces the last entry of the loop |
| Nodes.NoClashCons | web/app/brep/operations/boolean.js:909-923 | a list with no clashing pair stays so after consing exactly when the new node clashes with no member |
| Nodes.Alive | web/app/brep/operations/boolean.js:924 | `filter(n => n !== null)` keeps only nodes present in the array |
| Nodes.AliveKeeps | web/app/brep/operations/boolean.js:924 | every non-null entry survives the filter |
| Nodes.AliveShrinks | web/app/brep/operations/boolean.js:924 | nulling entries can only shrink the surviving multiset |
| Nodes.AliveNoClash | web/app/brep/operations/boolean.js:909-924 | an array with no clashing pair filters to a list with no clashing pair |
| Nodes.Insert | web/app/brep/operations/boolean.js:925-931 | inserting adds exactly one node to the multiset |
| Nodes.SortNodes | web/app/brep/operations/boolean.js:925-931 | sorting is a permutation |
| Nodes.InsertOrdered | web/app/brep/operations/boolean.js:925-931 | inserting into an ordered list gives an ordered list |
| Nodes.SortNodesOrdered | web/app/brep/operations/boolean.js:925-931 | the result is ordered by parameter, with ties between `ueq` parameters ordered by sign |
| Nodes.InsertNoClash | web/app/brep/operations/boolean.js:925-931 | insertion keeps the no-clash property |
| Nodes.SortNodesNoClash | web/app/brep/operations/boolean.js:925-931 | sorting keeps the no-clash property |
| Nodes.NullifyDegradedNodes | web/app/brep/operations/boolean.js:935-944 | exactly the sign-0 nodes become null |
| Nodes.DropClashesWith | web/app/brep/operations/boolean.js:912-922 | every other node with a `ueq` parameter and a sign sum other than 0 becomes null; nothing else changes |
| Nodes.DropClashingNodes | web/app/brep/operations/boolean.js:909-923 | only nulls are written, no clashing pair survives, a node that clashes with no other node survives, every nulled node clashes with another original node, and with a symmetric `ueq` with a surviving node before it |
| Nodes.DedupStep | web/app/brep/operations/boolean.js:909-923 | one turn of the outer loop keeps the dedup description: only nulls, lone nodes alive, no clash among nodes whose turn came, every nulled node clashing with an original node and, for a symmetric `ueq`, with an earlier survivor |
| Nodes.DedupStepEarlier | web/app/brep/operations/boolean.js:909-923 | with a symmetric `ueq`, one turn keeps every nulled node behind a surviving earlier node it clashes with |
| Nodes.SurvivorsSorted | web/app/brep/operations/boolean.js:907-933 | the survivors have no sign 0 and no clash, are ordered when `ueq` is symmetric, form a sub-multiset of the input, and include every lone node |
| Nodes.SurvivorsRepresent | web/app/brep/operations/boolean.js:909-933 | no node of non-zero sign leaves the sorted survivors without clashing with another such node, and with a symmetric `ueq` each one left out clashes with a survivor |
| Nodes.SortedKeeps | web/app/brep/operations/boolean.js:925-933 | a node still in the array after the nulling passes is in the sorted list |
| Nodes.BothPasses | web/app/brep/operations/boolean.js:907-923 | the degenerate pass followed by the dedup pass leaves only original nodes of non-zero sign, keeps every lone node, and nulls a node of non-zero sign only for a clash |
| Nodes.FilterAndSortNodes | web/app/brep/operations/boolean.js:907-933 | the array method: the result is the sorted survivors, with no sign 0 and no clash, ordered for a symmetric `ueq`, a sub-multiset of the input holding every lone node; no node of non-zero sign is dropped without a clash, and for a symmetric `ueq` every dropped one clashes with a member of the result |
| Spans.StartsFromSound | web/app/brep/operations/boolean.js:982-1001 | the pairs the loop emits from an index onward are increasing, each at or after that index, and each is an emitting pair |
| Spans.ZeroLengthSkipsNext | web/app/brep/operations/boolean.js:988-990 | after a zero-length pair the following pair is not visited |
| Spans.StartsFromExact | web/app/brep/operations/boolean.js:982-1001 | a pair is emitted exactly when the loop visits it and it emits |
| Spans.SpanStartsExact | web/app/brep/operations/boolean.js:982-1001 | the same, for the whole loop |
| Spans.ZeroLengthPairSkipsNext | web/app/brep/operations/boolean.js:988-990 | the pair after a visited zero-length pair never emits an edge |
| Spans.SpansEnterThenLeave | web/app/brep/operations/boolean.js:985-987 | every emitted span runs from a sign-1 node to the next node of sign -1, and no two spans share a node |
| Spans.HasSpanEdgesPrefix | web/app/brep/operations/boolean.js:999-1000 | emitted span edges stay described when the tables only grow |
| Spans.HasSpanEdgesExtend | web/app/brep/operations/boolean.js:992-1000 | one more emitted pair adds one edge from `in.vertex` to `out.vertex` on the curve cut at the inner ends |
| Spans.NewSpanEdge | web/app/brep/operations/boolean.js:992-1000 | creates that edge, two half-edges and one edge appended, and changes nothing else |
| Spans.SortedSplittable | web/app/brep/operations/boolean.js:1002-1004 | every surviving node's edge can be split |
| Spans.EmitSpans | web/app/brep/operations/boolean.js:982-1001 | the result lists one new edge per emitted pair, in order, each built as `HasSpanEdgesExtend` says; loops, faces and solve data are unchanged |
| Spans.EmitStep | web/app/brep/operations/boolean.js:983-1000 | one iteration of the emit loop |
| Spans.SplitBoundaryEdges | web/app/brep/operations/boolean.js:1002-1004 | the ghost trace starts at the old tables and ends at the new ones, and each step splits the edge of the next sorted node at the node's vertex as `SplitEdge.AfterSplit` says |
| Spans.SplitStep | web/app/brep/operations/boolean.js:1003 | one node's split is `AfterSplit` of its boundary edge at the node's vertex, and faces and solve data stay |
| Spans.TracedSnoc | web/app/brep/operations/boolean.js:1002-1004 | a trace extended by the next node's split is a trace of one more node |
| Spans.CuttablePrefix | web/app/brep/operations/boolean.js:1002-1004 | an edge that can be split stays splittable, with the same half-edges, when the tables only grow |
| Spans.SplittableRooted | web/app/brep/operations/boolean.js:1002-1004 | the nodes `split` walks all lie on splittable edges |
| Spans.PiecesStep | web/app/brep/operations/boolean.js:1003 | one node's split adds the two pieces from the edge's start to the vertex and from the vertex to its end, or none when the vertex is an end |
| Spans.TracePieces | web/app/brep/operations/boolean.js:1002-1004 | after the splits the new edges beyond the old tables are exactly the pieces the nodes cut, in node order, and the old tables are a prefix |
| Spans.Split | web/app/brep/operations/boolean.js:980-1005 | the nodes are filtered and sorted, the emitted edges are as `EmitSpans` says, and the tables after emission are split node by node as the trace records; faces and solve data stay |
| Spans.EmitAndSplit | web/app/brep/operations/boolean.js:982-1004 | the emitted edges are as `EmitSpans` says and are followed by the node-by-node boundary splits the trace records |
| FaceGraph.FirstOppositeIsFirst | web/app/brep/operations/boolean.js:1215-1225 | `findOppositeEdge` returns the first listed half-edge that runs the other way along the same edge, or nothing exactly when none does |
| FaceGraph.ParallelsSound | web/app/brep/operations/boolean.js:1203-1209 | every recorded collision pairs the new half-edge with a listed half-edge that runs the same way along the same edge, and every such listed half-edge gets its record |
| FaceGraph.AddStepLists | web/app/brep/operations/boolean.js:1186-1213 | `addToGraph` appends the half-edge to its start vertex's list and to `graphEdges`, and keeps the earlier errors |
| FaceGraph.AddAllPrefix | web/app/brep/operations/boolean.js:1179-1184 | adding a prefix of a list is adding the prefix one shorter and then one more step |
| FaceGraph.StartingAtMembers | web/app/brep/operations/boolean.js:1198-1211 | a vertex's list holds exactly the added half-edges that start there |
| FaceGraph.AddStepWf | web/app/brep/operations/boolean.js:1186-1213 | `addToGraph` keeps the graph well formed |
| FaceGraph.AddStepCollisions | web/app/brep/operations/boolean.js:1193-1209 | the errors grow exactly when an opposite half-edge exists at `vertexB` or a parallel one at `vertexA`, each new error names such a half-edge and the new one, and every parallel half-edge listed at `vertexA` gets its record |
| FaceGraph.AddAllGraphEdges | web/app/brep/operations/boolean.js:1179-1184 | `graphEdges` becomes the old list followed by the added half-edges |
| FaceGraph.AddAllLists | web/app/brep/operations/boolean.js:1179-1184 | each vertex's list gains exactly the added half-edges starting there, in order |
| FaceGraph.AddAllKeepsErrors | web/app/brep/operations/boolean.js:1179-1184 | errors are only ever appended |
| FaceGraph.FaceSolveData.constructor | web/app/brep/operations/boolean.js:1170-1177 | a new record for a face has an empty graph and no errors, and its `loopOfNew` is a fresh empty loop added to the face's inner loops |
| FaceGraph.FaceSolveData.FindOppositeEdge | web/app/brep/operations/boolean.js:1215-1225 | returns the first opposite half-edge in the list at the half-edge's `vertexB` |
| FaceGraph.FaceSolveData.AddToGraph | web/app/brep/operations/boolean.js:1186-1213 | the new graph state is one `addToGraph` step from the old one |
| FaceGraph.FaceSolveData.InitGraph | web/app/brep/operations/boolean.js:1179-1184 | clears the vertex map and adds the face's `edges` in order |
| FaceGraph.FaceSolveData.AddEach | web/app/brep/operations/boolean.js:1181-1183 | adds a list of half-edges one `addToGraph` step at a time |
| FaceGraph.FaceSolveData.ParallelCollisions | web/app/brep/operations/boolean.js:1201-1209 | collects the parallel-edge collisions of one list |
| FaceGraph.AddNewEdge | web/app/brep/operations/boolean.js:899-905 | the half-edge is appended to the face's `loopOfNew` and points to it; no other loop changes; half-edges change only in `loop` (the added one) and `solve`; every half-edge sharing its solve data is new, and the others keep their `solve` field and their solve data |
| FaceGraph.Concat | web/app/brep/operations/boolean.js:1283-1288 | the payload is empty exactly when every face's error list is empty |
| FaceGraph.ThrowsAsWrittenIffFaces | web/app/brep/operations/boolean.js:1282 | the error test as written throws exactly when there is at least one face record |
| FaceGraph.CleanFaceStillThrows | web/app/brep/operations/boolean.js:1282 | one face with no errors makes the code throw, and the intended check does not |
| FaceGraph.ThrowsIntendedIffRecords | web/app/brep/operations/boolean.js:1281-1291 | the intended check throws exactly when some face recorded a collision |
| FaceGraph.CollectPayload | web/app/brep/operations/boolean.js:1283-1288 | the payload is every face's errors concatenated in face order |
| FaceGraph.CheckFaceDataForError | web/app/brep/operations/boolean.js:1281-1291 | fails exactly when the as-written test holds, with the positional `CadError`, which carries no code and no payload |
| FaceGraph.CheckFaceDataForErrorIntended | web/app/brep/operations/boolean.js:1281-1291 | fails exactly when some collision was recorded, with code `BOOLEAN_INVALID_RESULT` and the non-empty concatenated payload |
| LoopDetect.FindMaxTurningLeftPicks | web/app/brep/operations/boolean.js:175 | the turning oracle returns nothing exactly on no candidates, and otherwise one of them |
| LoopDetect.CandidatesMembers | web/app/brep/operations/boolean.js:174 | a candidate is a listed half-edge that does not run back along the same edge |
| LoopDetect.NextEdgeContinues | web/app/brep/operations/boolean.js:170-175 | the next half-edge is in the list at the current `vertexB`, starts there, and does not reverse the current one |
| LoopDetect.WalkingStep | web/app/brep/operations/boolean.js:158-179 | one more step of the walk keeps it connected and unseen-before and shrinks the unseen set |
| LoopDetect.Walk | web/app/brep/operations/boolean.js:158-179 | the walk starts at the popped half-edge, follows `NextEdge`, repeats nothing and skips seen half-edges; it is closed exactly when it returns to its start vertex, an open walk stopped for want of a candidate or on a seen half-edge, and the walk and its closure are those of the reference `WalkOn` |
| LoopDetect.CandidatesSame | web/app/brep/operations/boolean.js:174 | the candidate filter reads no `next` field |
| LoopDetect.NextEdgeSame | web/app/brep/operations/boolean.js:170-175 | the choice of the next half-edge reads no `next` field |
| LoopDetect.WalkOnSame | web/app/brep/operations/boolean.js:158-179 | a walk is the same on the graph before and after other loops were linked |
| LoopDetect.FollowsConnects | web/app/brep/operations/boolean.js:163-175 | consecutive half-edges of a walk meet at a vertex |
| LoopDetect.DisjointExtend | web/app/brep/operations/boolean.js:146-162 | a walk over unseen half-edges is disjoint from every earlier loop |
| LoopDetect.NewLoopOf | web/app/brep/operations/boolean.js:155 | appends one ownerless loop with the walk's half-edges; nothing else changes |
| LoopDetect.LinkedByLink | web/app/brep/operations/boolean.js:165 | after `link()` each walk half-edge points to its cyclic successor |
| LoopDetect.FoundExtend | web/app/brep/operations/boolean.js:164-166 | adding a closed, linked, fresh loop keeps the found loops closed, linked and pairwise disjoint |
| LoopDetect.CloseLoop | web/app/brep/operations/boolean.js:164-166 | creates, links and records the loop, changing only `next` fields and appending one loop |
| LoopDetect.FoundMeans | web/app/brep/operations/boolean.js:145-181 | the recorded loops are new, ownerless, closed and linked, and no half-edge appears twice among them |
| LoopDetect.CoveredExtend | web/app/brep/operations/boolean.js:152-162 | every earlier loop stays within the seen set |
| LoopDetect.DetectLoops | web/app/brep/operations/boolean.js:137-182 | empties `graphEdges`, changes only `next` fields and appends loops; the new loops are ownerless, closed and linked with no half-edge twice, and their half-edge lists are, in order, exactly the closed walks of the reference `Detected` over the old graph |
| LoopDetect.PopStep | web/app/brep/operations/boolean.js:137-181 | one pop of `graphEdges` keeps the detection description: the loops found so far are the closed walks of `Detected` on the popped edges |
| LoopDetect.LinkWalk | web/app/brep/operations/boolean.js:163-167 | a closed walk becomes a new linked loop appended after the ones found so far |
| LoopDetect.DetectedStep | web/app/brep/operations/boolean.js:137-181 | one pop of `Detected` adds the walk from the popped half-edge when it is closed, and then goes on with the walk's half-edges marked seen |
| LoopDetect.SameButNextTrans | web/app/brep/operations/boolean.js:63 | "differs only in `next`" is transitive |
| Overlap.SetAdd | web/app/brep/operations/boolean.js:223-224 | `Set.add` keeps the order, adds the element once, and keeps the set free of repeats |
| Overlap.FindGroup | web/app/brep/operations/boolean.js:218 | `find` returns the first group holding `face1` on side 1 or `face2` on side 2, or the end when there is none |
| Overlap.FindOverlappingFaces | web/app/brep/operations/boolean.js:185-229 | every overlapping pair lands together in some group, and every group holds only faces of its own shell, without repeats, each overlapping some face on the group's other side |
| Overlap.GroupedCovers | web/app/brep/operations/boolean.js:208-227 | every overlapping pair is held by some group |
| Overlap.RowCovers | web/app/brep/operations/boolean.js:211-226 | one row of the nested loop covers its overlapping pairs and only grows the groups |
| Overlap.PlaceHolds | web/app/brep/operations/boolean.js:217-225 | placing a pair makes some group hold it and only grows groups |
| Overlap.GroupedWf | web/app/brep/operations/boolean.js:208-227 | every group is well formed |
| Overlap.FaceInTwoGroups | web/app/brep/operations/boolean.js:217-225 | with shells [0, 1] and [3, 2] and overlaps (0, 2), (1, 3) and (1, 2), face 1 lands in two groups |
| Overlap.Untouched | web/app/brep/operations/boolean.js:217-225 | the groups the pair does not touch, all kept |
| Overlap.Union1 | web/app/brep/operations/boolean.js:217-225 | the side-1 faces of all groups the pair touches |
| Overlap.Union2 | web/app/brep/operations/boolean.js:217-225 | the side-2 faces of all groups the pair touches |
| Overlap.MergeCoarsens | web/app/brep/operations/boolean.js:217-225 | the intended step merges every touched group into one group that holds the pair, and only coarsens the grouping |
| Overlap.MergeDisjoint | web/app/brep/operations/boolean.js:217-225 | the intended step keeps the groups disjoint |
| Overlap.RowIntendedProps | web/app/brep/operations/boolean.js:211-226 | one row of the intended grouping keeps groups disjoint, coarsens, and covers the row's pairs |
| Overlap.GroupedIntendedProps | web/app/brep/operations/boolean.js:208-227 | the intended grouping is disjoint and covers every overlapping pair |
| ResultFilter.FaceOf | web/app/brep/operations/boolean.js:634 | the face `twin.loop.face` names, a valid face id, present exactly when the half-edge has a loop with an owner; `None` where the source would throw on a loop-less twin |
| ResultFilter.TwinFaces | web/app/brep/operations/boolean.js:633-637 | only valid faces are pushed |
| ResultFilter.Pushed | web/app/brep/operations/boolean.js:631-639 | only valid faces are pushed |
| ResultFilter.Neighbours | web/app/brep/operations/boolean.js:631-639 | only valid faces are pushed |
| ResultFilter.TwinFacesMember | web/app/brep/operations/boolean.js:633-637 | a face is pushed for a half-edge exactly when it is valid and owns one of the half-edge's twins |
| ResultFilter.TwinFacesMemberAt | web/app/brep/operations/boolean.js:633-637 | a face is pushed for a twin list exactly when it is valid and owns one of the twins |
| ResultFilter.PushedMember | web/app/brep/operations/boolean.js:631-639 | a face is pushed for a list exactly when it is valid and glued to one of the list's half-edges |
| ResultFilter.NeighboursMember | web/app/brep/operations/boolean.js:631-639 | a face is pushed from `f` exactly when it is valid and glued to one of `f`'s `edges` |
| ResultFilter.ReachTrans | web/app/brep/operations/boolean.js:620-641 | reachability over pushes is transitive |
| ResultFilter.ClosedHoldsReach | web/app/brep/operations/boolean.js:620-641 | a seen set closed under pushes holds every face reachable from its start |
| ResultFilter.FaceContainsNewEdge | web/app/brep/operations/boolean.js:596-603 | true exactly when one of the face's `edges` is `isNewNM` |
| ResultFilter.TraverseFaces | web/app/brep/operations/boolean.js:620-641 | with the filter's callback, the traversal stops early exactly when some face reachable from the start is already in the result or has a new edge |
| ResultFilter.HitMeansNew | web/app/brep/operations/boolean.js:607-616 | a face reaches a result face or a face with a new edge exactly when it reaches a face with a new edge |
| ResultFilter.KeepStep | web/app/brep/operations/boolean.js:607-616 | one outer iteration keeps the result equal to the faces so far that reach a new edge |
| ResultFilter.FilterFacesByNewEdges | web/app/brep/operations/boolean.js:594-618 | the result holds, without repeats, exactly the input faces from which a face with a new edge is reachable over twins of valid faces; in particular every face with a new edge is kept |
| Invert.Reversed | web/app/brep/operations/boolean.js:62 | `reverse()` puts entry `i` at position `n - 1 - i` |
| Invert.ReversedTwice | web/app/brep/operations/boolean.js:62 | reversing twice restores the list |
| Invert.TwinTable | web/app/brep/operations/boolean.js:60 | the table maps each half-edge to its twin |
| Invert.TwinsOf | web/app/brep/operations/boolean.js:59-61 | the loop's entries replaced one by one by their twins |
| Invert.TwinTableMeans | web/app/brep/operations/boolean.js:60 | each half-edge's twin is a different half-edge of the same edge whose twin is the half-edge again |
| Invert.InvertedTwice | web/app/brep/operations/boolean.js:59-62 | inverting a loop list twice restores it |
| Invert.InvertedMembers | web/app/brep/operations/boolean.js:59-62 | a half-edge is in the inverted list exactly when its twin was in the original |
| Invert.InvertEdgesIn | web/app/brep/operations/boolean.js:55-57 | inverting edges keeps the edge count |
| Invert.EdgeRounds | web/app/brep/operations/boolean.js:53-57 | one edge pass per face keeps the edge count |
| Invert.InvertSurfacesIn | web/app/brep/operations/boolean.js:53-54 | inverting surfaces keeps the face count |
| Invert.InvertLoopsIn | web/app/brep/operations/boolean.js:58-64 | inverting loops keeps the loop count |
| Invert.InvertLoopsInDistinct | web/app/brep/operations/boolean.js:58-64 | for distinct loop ids each listed loop is inverted once and the others are kept |
| Invert.InvertLoopsTwice | web/app/brep/operations/boolean.js:58-64 | inverting the same distinct loops twice restores them |
| Invert.InvertEdgesInDistinct | web/app/brep/operations/boolean.js:55-57 | for distinct edge ids each listed edge is inverted once and the others are kept |
| Invert.EdgeRoundsDistinct | web/app/brep/operations/boolean.js:53-57 | after `n` face passes each shell edge has been inverted `n` times |
| Invert.IterateInvolutionEven | web/app/brep/operations/boolean.js:53-57 | an involution applied an even number of times is the identity |
| Invert.EvenFacesLeaveEdges | web/app/brep/operations/boolean.js:53-57 | with an involutive edge inversion and an even face count, the edges end as they started |
| Invert.InvertSurfacesInDistinct | web/app/brep/operations/boolean.js:53-54 | for distinct faces each listed face's surface is inverted once and the others are kept |
| Invert.CheckShellForErrors | web/app/brep/operations/boolean.js:70-75 | fails exactly when the validator reports errors, with the positional `CadError` |
| Invert.ReverseInPlace | web/app/brep/operations/boolean.js:62 | the array afterwards is the reverse of the array before |
| Invert.TwinArray | web/app/brep/operations/boolean.js:59-61 | a fresh array holding each loop entry's twin |
| Invert.InvertLoop | web/app/brep/operations/boolean.js:59-63 | the loop's list becomes the reversed twins, and only the `next` fields of its half-edges change, each last occurrence pointing to its cyclic successor |
| Invert.InvertLoops | web/app/brep/operations/boolean.js:58-64 | the loops become `InvertLoopsIn` of the old loops, and half-edges change only in `next` |
| Invert.InvertEdges | web/app/brep/operations/boolean.js:55-57 | the edges become `InvertEdgesIn` of the old edges, keeping each edge's half-edge pair |
| Invert.InvertFace | web/app/brep/operations/boolean.js:53-64 | the face's surface is inverted, every shell edge is inverted once and the face's loops are inverted |
| Invert.InvertingStep | web/app/brep/operations/boolean.js:53-65 | one more face keeps the running description of the tables |
| Invert.Invert | web/app/brep/operations/boolean.js:52-68 | surfaces of the shell's faces are inverted, every shell edge is inverted once per face, each face's loops are inverted, the `inverted` flag flips, and the outcome is the validator check of the new shell |
| MergeFaces.Dedup | web/app/brep/operations/boolean.js:339 | `new Set([...faces1, ...faces2])` keeps first occurrences in order, with no repeats and the same members |
| MergeFaces.LoopsOfFaces | web/app/brep/operations/boolean.js:340-343 | every loop of the listed faces, all in the arena |
| MergeFaces.LoopsOfFacesMember | web/app/brep/operations/boolean.js:340-343 | each listed face's loops are among them |
| MergeFaces.EdgesOfFaces | web/app/brep/operations/boolean.js:355-356 | every half-edge of the listed faces, all in the arena |
| MergeFaces.EdgesOfFacesIsLoops | web/app/brep/operations/boolean.js:355-356 | the faces' `edges` are the half-edges of the faces' loops |
| MergeFaces.EdgesOfFacesMember | web/app/brep/operations/boolean.js:355-356 | a half-edge is among the faces' `edges` exactly when one of their loops holds it |
| MergeFaces.LinkLoops | web/app/brep/operations/boolean.js:339-344 | linking all loops of all faces changes only `next` fields, leaves half-edges outside the loops untouched, and points each last occurrence to its cyclic successor in its loop |
| MergeFaces.ChainedAdd | web/app/brep/operations/boolean.js:348-350 | adding the `next` of an invalid half-edge keeps the chain description |
| MergeFaces.FollowChain | web/app/brep/operations/boolean.js:347-351 | following `next` from one invalid half-edge adds half-edges until one is valid or already invalid |
| MergeFaces.ChainInvalid | web/app/brep/operations/boolean.js:346-352 | the invalid set grows along `next` until every member's successor is valid or invalid |
| MergeFaces.FilterIn | web/app/brep/operations/boolean.js:355-362 | keeps, in order, the half-edges that are invalid |
| MergeFaces.FilterInSnoc | web/app/brep/operations/boolean.js:356-361 | the filter of a longer prefix adds one half-edge exactly when it is invalid |
| MergeFaces.CollectResult | web/app/brep/operations/boolean.js:354-362 | the result is the invalid half-edges in face order, each moved to the destination's outer loop |
| MergeFaces.CollectOne | web/app/brep/operations/boolean.js:357-359 | one half-edge is appended to the result and moved to the outer loop |
| MergeFaces.ClearFaces | web/app/brep/operations/boolean.js:365-375 | every other face is flagged invalid with an empty outer loop, and every face loses its inner loops |
| MergeFaces.ClearOne | web/app/brep/operations/boolean.js:366-371 | one face of the clearing loop |
| MergeFaces.MarkAllTransferred | web/app/brep/operations/boolean.js:377-380 | every result half-edge's transferred faces include all merged faces; only solve data changes, and only for those half-edges |
| MergeFaces.ChainMeans | web/app/brep/operations/boolean.js:346-352 | each result half-edge's `next` is valid or in the result, one added by chaining is reached from the result, and every one is an invalid half-edge or reached from one along `next` links |
| MergeFaces.FollowNextSame | web/app/brep/operations/boolean.js:346-352 | following `next` links reads only the `next` fields |
| MergeFaces.ChainedFromInvalid | web/app/brep/operations/boolean.js:346-352 | every half-edge the chaining loop appends is reached from an originally invalid half-edge along `next` links |
| MergeFaces.FromInvalidSame | web/app/brep/operations/boolean.js:354-363 | being reached from an invalid half-edge survives changes to fields other than `next` |
| MergeFaces.Rebuild | web/app/brep/operations/boolean.js:354-380 | collects, clears and marks: the destination's outer loop becomes the result, other faces are cleared, and each result half-edge is marked transferred to all merged faces |
| MergeFaces.ResultMeans | web/app/brep/operations/boolean.js:346-363 | the result holds all originally invalid half-edges, is closed under `next` up to valid ones, and holds nothing not reached from an invalid half-edge |
| MergeFaces.LinkAndChain | web/app/brep/operations/boolean.js:339-352 | after linking every half-edge of the faces points into the faces, and the invalid chain is closed |
| MergeFaces.MergeFaces | web/app/brep/operations/boolean.js:335-380 | the new outer loop of `faces1[0]` is the invalidated half-edges in face order, closed under `next` up to valid ones, holding every originally invalid one and nothing not reached from one; other faces are cleared, and each result half-edge is marked transferred to every merged face |
| MergeFaces.FinishMerge | web/app/brep/operations/boolean.js:354-380 | the rebuild half of `MergeFaces`, with the same description of the result |
| EdgeParams.RowCrossings | web/app/brep/operations/boolean.js:759-766 | one row of the nested loop pairs `e1` with each shell-2 edge in order, with a fresh holder per pair |
| EdgeParams.CrossingIn | web/app/brep/operations/boolean.js:758-767 | every pair of the two edge lists is visited |
| EdgeParams.OnFirst | web/app/brep/operations/boolean.js:763 | `e1` gets one parameter `u0` per hit, sharing the pair's holder |
| EdgeParams.OnSecond | web/app/brep/operations/boolean.js:764 | `e2` gets one parameter `u1` per hit, sharing the pair's holder |
| EdgeParams.Contribution | web/app/brep/operations/boolean.js:761-765 | an edge gets one parameter per hit for each side of the pair it is on |
| EdgeParams.KeysMatch | web/app/brep/operations/boolean.js:750-757 | an edge becomes a key exactly when it received some parameter |
| EdgeParams.GroupingMeans | web/app/brep/operations/boolean.js:750-767 | the keys are the edges in first-seen order, and each key's list is all its parameters in visit order |
| EdgeParams.AddRow | web/app/brep/operations/boolean.js:759-766 | one row of `addIsesc` calls keeps the grouping description |
| EdgeParams.AddPair | web/app/brep/operations/boolean.js:761-765 | the two `addIsesc` calls of one pair keep the grouping description |
| EdgeParams.Group | web/app/brep/operations/boolean.js:749-767 | `isecs` ends with the edges in first-seen order, and each edge's list holds all its parameters in visit order |
| EdgeParams.ParamsUnmarked | web/app/brep/operations/boolean.js:763-764 | no parameter is skipped when it is created |
| EdgeParams.CrossingsFrom | web/app/brep/operations/boolean.js:758-759 | every visited pair takes `e1` from shell 1 and `e2` from shell 2 |
| EdgeParams.KeysFrom | web/app/brep/operations/boolean.js:750-757 | every key is an edge of one of the pairs |
| EdgeParams.InsertByU | web/app/brep/operations/boolean.js:769 | insertion keeps the list sorted by `u` and adds exactly one parameter |
| EdgeParams.SortByU | web/app/brep/operations/boolean.js:769 | the sort is ordered by `u` and is a permutation |
| EdgeParams.MarkEnds | web/app/brep/operations/boolean.js:770-783 | only the first entry, when its `u` is `ueq` 0, and the last, when its `u` is `ueq` 1, become skipped; everything else is kept |
| EdgeParams.Unmarked | web/app/brep/operations/boolean.js:770-783 | the list with the skip marks removed |
| EdgeParams.PreparedSorted | web/app/brep/operations/boolean.js:768-784 | a prepared list is sorted and, marks aside, a permutation of the input |
| EdgeParams.Unskipped | web/app/brep/operations/boolean.js:794-796 | exactly the parameters that are not skipped |
| EdgeParams.PreparedSplitsInner | web/app/brep/operations/boolean.js:768-784 | a prepared entry is not skipped exactly when it is neither a first entry at 0 nor a last entry at 1 |
| EdgeParams.SortAndMark | web/app/brep/operations/boolean.js:768-784 | every list of the map is sorted and end-marked, and the keys are unchanged |
| IntersectEdges.Tagged | web/app/brep/operations/boolean.js:785-786 | each record of an edge's list, paired with the edge |
| IntersectEdges.FilledSkip | web/app/brep/operations/boolean.js:787 | a record whose holder is already filled leaves the holders as they are |
| IntersectEdges.FilledPlace | web/app/brep/operations/boolean.js:787-789 | a record with an empty holder fills it with a vertex for its point |
| IntersectEdges.CreateNear | web/app/brep/operations/boolean.js:788 | `create` returns a pooled vertex near the point, and the pool only grows |
| IntersectEdges.VisitRecord | web/app/brep/operations/boolean.js:787-789 | one record keeps the holder description |
| IntersectEdges.FillRow | web/app/brep/operations/boolean.js:786-790 | one edge's records keep the holder description |
| IntersectEdges.FillHolders | web/app/brep/operations/boolean.js:785-791 | every holder is filled exactly when some record holds it, with a pooled vertex near the point of the first record that holds it |
| IntersectEdges.CutOnce | web/app/brep/operations/boolean.js:797-800 | the current piece is cut at a pooled vertex near the curve point exactly when that vertex is not an end of it; a cut leaves the piece from the old start to the vertex and the next piece from the vertex to the old end, and otherwise the piece stays |
| IntersectEdges.CutAtGrows | web/app/brep/operations/boolean.js:797-800 | a recorded cut stays true as the arena grows |
| IntersectEdges.CutStep | web/app/brep/operations/boolean.js:797-800 | one cut keeps the current-piece description, with at most one more cut vertex, and records the cut |
| IntersectEdges.AlongStep | web/app/brep/operations/boolean.js:793-800 | one record is skipped or cut at, extending the trail of cuts |
| IntersectEdges.TrailGrows | web/app/brep/operations/boolean.js:792-802 | a trail of cuts stays true as the arena grows |
| IntersectEdges.TrailSnoc | web/app/brep/operations/boolean.js:797-800 | a cut of the current piece extends the trail by one record |
| IntersectEdges.SplitAlong | web/app/brep/operations/boolean.js:793-801 | after one edge's records the current piece ends at the edge's old end and starts at the last cut vertex, and the trail holds one cut per unskipped record, each at a pooled vertex near that record's point, chaining the edge to the last piece |
| IntersectEdges.SplitKey | web/app/brep/operations/boolean.js:792-802 | one more key keeps the piece and trail description of all keys so far |
| IntersectEdges.SplitAll | web/app/brep/operations/boolean.js:792-802 | the split loop keeps, for every key, the piece and the trail of cuts of `SplitAlong` |
| IntersectEdges.PrepareLists | web/app/brep/operations/boolean.js:749-784 | the grouped lists are sorted and end-marked permutations of each edge's parameters |
| IntersectEdges.IntersectEdges | web/app/brep/operations/boolean.js:748-803 | the keys and lists are as `PrepareLists` says, the holders as `FillHolders` says, and every key's pieces and cuts as `SplitAll` says |

## Left out

- Geometry is not computed. Tolerance tests, `isSameEdge`, `findMaxTurningLeft`, curve intersection, `curve.point`, curve split, surface and edge inversion, the overlap test of `findOverlappingFaces`, the working polygon of a loop and `BREPValidator.validate` are function parameters. The model proves its properties for every such function.
- The corner test inside `invalidate` in `mergeFaces` (boolean.js:270-333) is geometric. The sets `valid` and `invalid` it builds are inputs of `MergeFaces.MergeFaces`, and `invalid` is a list without repeats in insertion order.
- `createBoundingNurbs` (boolean.js:365-375 and 382) is an external collaborator: the `allPoints` collection and the new surface of the destination face are not modelled.
- `BooleanAlgorithm`, `mergeOverlappingFaces`, `intersectFaces`, `edgeIsTransferred`, `initSolveData`, `cleanUpSolveData`, `loopsToFaces` and the collection of crossing nodes (boolean.js:77-135, 232-238, 688-716, 832-897, 946-978) are the orchestration around this core and are not modelled. The crossing nodes arrive as an array of `Node` records.
- `fixCurveDirection`, `newEdgeDirectionValidityTest` and `nodeNormal` (boolean.js:806-830, 1035-1051) compute tangents and normals. A node's sign is part of its input record.
- The ray-cast filter strategy (boolean.js:464-581) is switched off by `FILTER_STRATEGY` and is numeric. `Face.rayCast` (face.js:55-137) is geometric classification.
- `filterFacesByInvalidEnclose`, `invalidateLoops`, `removeOppositeEdges` and `isNewOppositeEdge` (boolean.js:410-462, 643-686, 1226-1243) are unused or dead code.
- Debug drawing and `console.log` are left out.
- `halfEdge.twins()` (boolean.js:633) lives in the topology classes, which are not part of this model, and it is a parameter of the result filter. `halfEdge.twin()` is the other half-edge of the same edge. `loop.link()` is modelled as linking each listed half-edge to its cyclic successor, because loop.js is not part of this model.
- The model keeps a face's `outerLoop` always present, as the constructor creates it. A face with no outer loop, which `loopsGenerator` tolerates, is not modelled.
- The `shell` back-pointer of a face, `edge.manifold` beyond its list of partner half-edges, and object identity of vertices beyond an integer id are not modelled.
- GetAnyHalfEdgeIsFirst: `getAnyHalfEdge` (face.js:43-49) looks only at `innerLoops[0]`. A face whose outer and first inner loop are empty but whose later inner loops are not gets no half-edge; the lemma states when this happens and that those half-edges then lie in the later inner loops.
- FaceOf: boolean.js:634 reads `twin.loop.face` and throws when a twin has no loop. The model returns `None` there and does not model the exception.
- Faces.GetAnyVertex: on a face with no half-edges the source dereferences `undefined` and throws. The model returns `None`.
- Nodes.SortNodesOrdered: the sorted order is proved for a symmetric `ueq`. The comparator in boolean.js:925-931 is not a total order otherwise.
- Nodes.SortNodes: an insertion sort stands in for `Array.prototype.sort`. The two agree only when `ueq` is transitive, and otherwise the engine's order may differ. `Spans.SpanStarts` depends on that order, so the emitted spans are those of this sort.
- Nodes.DropClashingNodes: that every dropped node clashes with a node that survives is proved only for a symmetric `ueq`. For any `ueq` it is proved that a dropped node clashes with some other original node. `Nodes.FilterAndSortNodes` carries the same limit.
- EdgeParams.SortByU: sorting by `u` and being a permutation are proved, but the relative order of equal `u` values is not stated. `Array.prototype.sort` is stable, so equal values keep their visit order in the source.
- Spans.SplitBoundaryEdges: when two surviving nodes lie on one boundary edge, the second split looks up a half-edge the first split already removed from its loop, so `indexOf` gives -1 and `splice(-1, 1, …)` replaces the loop's last entry (`SplitEdge.SecondCutReplacesLast`). The model does this as the source does and offers no corrected version, because finding the piece that holds the second vertex is geometric.
- IntersectEdges.FillHolders: states which holders are filled and that each vertex is near the first record's point. It does not name which pooled vertex `create` picks, which `VertexPool.VertexFactory.Create` describes.
- IntersectEdges.SplitAlong: the trail gives, per unskipped record, the piece cut and the piece after it, as edge ids of the arena. It does not state which loop entries the cuts rewrite; `SplitEdge.SplitEdgeByVertex` describes each cut.
- Invert.Invert: each loop's `next` fields are stated by `Invert.InvertLoop`. The whole method states only that half-edges change in `next` and nothing else.
- Integers are unbounded. Array lengths and ids in the source never approach a bound.

## Findings

| source | as written | input that shows it | evidently intended | confidence | as-written member | corrected member |
|---|---|---|---|---|---|---|
| web/app/brep/operations/boolean.js:1282 | `facesData.find(f => f.errors)` tests the error array itself, and an array is always truthy | one face record whose `errors` is `[]` | throw only when some face recorded a collision | not executed | FaceGraph.CleanFaceStillThrows | FaceGraph.ThrowsIntendedIffRecords |
| web/app/brep/operations/boolean.js:1289 | `new CadError(code, payload)` passes positional arguments to a constructor that destructures one options object, so code and payload are lost | any call, for example code `BOOLEAN_INVALID_RESULT` with a non-empty payload | `new CadError({code, relatedTopoObjects: payload})` | not executed | Errors.PositionalCallLosesCodeAndPayload | Errors.CodedCallKeepsCodeAndPayload |
| web/app/brep/operations/boolean.js:217-225 | a pair is added to the first group that touches either face, so one face can land in two groups | shells [0, 1] and [3, 2], overlaps (0, 2), (1, 3) and (1, 2) | every connected set of overlapping faces forms one group, and the groups are disjoint | not executed | Overlap.FaceInTwoGroups | Overlap.GroupedIntendedProps |

The first two findings meet in `checkFaceDataForError`. `FaceGraph.CheckFaceDataForErrorIntended` uses both corrections: it fails only on recorded collisions and carries the code and the payload. `Invert.CheckShellForErrors` builds its error the way boolean.js:73 does, and the same correction applies there.
