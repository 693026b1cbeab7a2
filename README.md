# Quadric edge collapse: a Dafny model of its bookkeeping

This project models the integer bookkeeping of a Python implementation of
Garland–Heckbert quadric-error mesh decimation, and proves properties of
that model. It covers three parts:

- **The contraction loop** (`quadric_edge_collapse_decimation`). It works
  on these pieces of state:
  - a vertex live mask and a face live mask;
  - per-vertex adjacency lists and per-vertex incident-face lists;
  - the face index array;
  - a lazily invalidated min-heap of `(cost, position, [v1, v2])` entries.

  Each iteration pops the least entry. It drops the entry when an endpoint
  is dead, when the endpoints do not share exactly two neighbours, or when
  they do not share exactly two faces. Otherwise it contracts the pair:
  - moves v1 to the entry's position and kills v2;
  - kills the shared faces;
  - rewires the lists;
  - pushes one new entry per neighbour of v1.

  After the loop, `rebuild_mesh` compacts the mesh: it filters by the masks
  and renumbers vertices with a prefix sum.
- **Connectivity derivation** (`Mesh`). This covers:
  - directed face edges;
  - the sorted, de-duplicated directed edge list;
  - the adjacency lists, which are built from directed edges only and are
    deliberately not symmetrised;
  - the vertex-to-face lists.
- **The OFF reader and writer** (`load_off`, `save_off`), over lists of
  lines in memory. The reader accepts three header layouts, triangle and
  quad face lines, and extra columns.

Costs and merge positions come from numpy linear algebra. In the model they
are an opaque `Estimator`: a function from (number of contractions so far,
v1, v2) to a `Proposal(cost: real, target: Point)`. Nothing in the model
depends on how they are computed.

Modules, one per file:

- `Lists`: the list comprehensions, `remove`, `extend` and rewrites the
  loop uses.
- `MeshTopology`: `mesh.py`.
- `Scheduler`: heap entries, their lexicographic order and least-entry pop.
- `Compaction`: `rebuild_mesh`.
- `Collapse`: the loop as a pure transition system. It defines `Iterate`
  for one iteration, `Simplify` for the whole loop, and the invariant `Inv`
  they keep.
- `Rewiring`: the list-updating loops as methods over values.
- `Contraction`: class `Decimator`, which holds the loop's state over arrays
  and list fields. Its methods are proved against `Collapse`.
- `Text`: `str.strip`, `str.split`, `str.join`, `int()` and `str()` on
  integers.
- `OffFormat`: `load_off` and `save_off`.

The model follows the code as written, not the idealised algorithm:

- A shared neighbour of v1 and v2 keeps v2 in its adjacency list. Only v2's
  exclusive neighbours are rewritten.
- Dead faces stay in other vertices' face lists.
- What a contraction promises is "exactly the shared faces are killed", not
  "the live face count drops by two".

## Model

| member | source | states |
|---|---|---|
| Lists.Common | quadric_edge_collapse/quadric_edge_collapse_tri.py:78-79 | the `[x for x in xs if x in ys]` comprehension keeps each x of xs exactly as often as it occurs in xs when x is in ys, and never otherwise; membership is the intersection |
| Lists.Without | quadric_edge_collapse/quadric_edge_collapse_tri.py:118-119 | the `not in` comprehension keeps each x of xs absent from ys with its multiplicity and nothing else; membership is the difference |
| Lists.RemoveFirst | quadric_edge_collapse/quadric_edge_collapse_tri.py:100 | `list.remove(x)` on a list holding x removes exactly one occurrence of x (multiset difference) |
| Lists.RemoveFirstMembers | quadric_edge_collapse/quadric_edge_collapse_tri.py:100 | after `remove(x)` every other element is still there and nothing new appears |
| Lists.RemoveEach | quadric_edge_collapse/quadric_edge_collapse_tri.py:121-122 | removing each element of ys in turn takes away multiset(ys) from multiset(xs) |
| Lists.SubstituteKeeps | quadric_edge_collapse/quadric_edge_collapse_tri.py:113-114 | the `[b if x == a else x ...]` rewrite keeps every element other than a |
| Lists.SubstituteFrom | quadric_edge_collapse/quadric_edge_collapse_tri.py:113-114 | every element after the rewrite is b or was an element other than a |
| Lists.SubstituteTwice | quadric_edge_collapse/quadric_edge_collapse_tri.py:113-114 | the rewrite is idempotent |
| Lists.Substitute | quadric_edge_collapse/quadric_edge_collapse_tri.py:113-114 | definition of the `[b if x == a else x ...]` rewrite, used again for faces at lines 127-128; no contract of its own, its properties are `SubstituteKeeps`, `SubstituteFrom` and `SubstituteTwice` |
| Lists.CountTrue | quadric_edge_collapse/quadric_edge_collapse_tri.py:64 | `np.sum(mask)` is at most the mask length |
| Lists.CountTrueClear | quadric_edge_collapse/quadric_edge_collapse_tri.py:94 | clearing a set flag lowers `np.sum(mask)` by exactly one |
| Lists.CountTrueAll | quadric_edge_collapse/quadric_edge_collapse_tri.py:19-20 | an all-true mask sums to its length |
| Lists.EmptyLists | quadric_edge_collapse/mesh.py:27 | `[[] for _ in range(n)]` is n empty lists of total length 0 |
| MeshTopology.Face.Substitute | quadric_edge_collapse/quadric_edge_collapse_tri.py:127-128 | rewriting index `from` to `to` in a face leaves no `from` when they differ, and every corner is `to` or a former corner other than `from` |
| MeshTopology.FacesEdges | quadric_edge_collapse/mesh.py:92-96 | `faces_edges` has 3·m rows, and for face i = [a, b, c] rows 3i, 3i+1, 3i+2 are (a, b), (b, c), (c, a) |
| MeshTopology.FacesEdgesFrom | quadric_edge_collapse/mesh.py:92-96 | every edge row joins two corners of one face |
| MeshTopology.Insert | quadric_edge_collapse/mesh.py:102 | inserting into a strictly sorted edge list keeps it strictly sorted and adds exactly the new edge |
| MeshTopology.Unique | quadric_edge_collapse/mesh.py:102 | `np.unique(..., axis=0)` is strictly sorted and has the same rows |
| MeshTopology.SortedRowsDetermined | quadric_edge_collapse/mesh.py:102 | two strictly sorted row lists with the same rows are equal, so the de-duplicated edge list is determined |
| MeshTopology.Edges | quadric_edge_collapse/mesh.py:98-102 | `edges` is strictly lexicographically sorted and holds exactly the rows of `faces_edges`; (a, b) and (b, a) are distinct rows |
| MeshTopology.EdgeEndpointsBelow | quadric_edge_collapse/mesh.py:98-102 | in a well-formed mesh both endpoints of every edge are vertex indices |
| MeshTopology.TargetsCount | quadric_edge_collapse/mesh.py:29-33 | w occurs in v's neighbour list once per row (v, w) of `edges`; the reverse row is never added |
| MeshTopology.TargetsAscending | quadric_edge_collapse/mesh.py:29-33 | each neighbour list is strictly ascending, in edge order |
| MeshTopology.NeighborLists | quadric_edge_collapse/mesh.py:23-35 | `vertices_adjacency` has one list per vertex, holding the targets of that vertex's edges |
| MeshTopology.VerticesAdjacency | quadric_edge_collapse/mesh.py:23-35 | the append loop builds exactly `vertices_number` lists equal to `NeighborLists`, of total length `len(edges)` |
| MeshTopology.AppendTargets | quadric_edge_collapse/mesh.py:27-33 | appending each edge's target to its source's list gives each list its targets in edge order, total length the number of edges |
| MeshTopology.CornerEntries | quadric_edge_collapse/mesh.py:44-46 | one face contributes its index once per corner equal to v |
| MeshTopology.IncidentCount | quadric_edge_collapse/mesh.py:37-48 | face i occurs in v's face list once per corner of face i equal to v |
| MeshTopology.IncidentAscending | quadric_edge_collapse/mesh.py:43-46 | each face list is ascending by face index and holds only face indices |
| MeshTopology.AppendCorners | quadric_edge_collapse/mesh.py:44-46 | the three appends for one face add it to its corners' lists and change no other list |
| MeshTopology.FaceLists | quadric_edge_collapse/mesh.py:37-48 | `vertices_faces` has one list per vertex, holding the faces incident to it |
| MeshTopology.VerticesFaces | quadric_edge_collapse/mesh.py:37-48 | the append loop builds exactly `vertices_number` lists equal to `FaceLists`, of total length 3·`faces_number` |
| Scheduler.BeforeStrictTotal | quadric_edge_collapse/quadric_edge_collapse_tri.py:56-60 | the tuple order on (cost, position, pair) is irreflexive, transitive and total |
| Scheduler.LeastIndex | quadric_edge_collapse/quadric_edge_collapse_tri.py:71 | a non-empty heap has an entry not after any other |
| Scheduler.LeastIsUnique | quadric_edge_collapse/quadric_edge_collapse_tri.py:71 | the least entry is unique, so which one `heappop` returns does not depend on the heap's layout |
| Scheduler.PopLeast | quadric_edge_collapse/quadric_edge_collapse_tri.py:71 | `heappop` returns the least entry and leaves the rest: one fewer entry, multiset minus that entry |
| Scheduler.Proposals | quadric_edge_collapse/quadric_edge_collapse_tri.py:140-162 | one new entry [v1, w] per w of v1's list, in list order |
| Compaction.Select | quadric_edge_collapse/quadric_edge_collapse_tri.py:197 | `vertices[mask]` has as many elements as the mask has true flags |
| Compaction.NewIndex | quadric_edge_collapse/quadric_edge_collapse_tri.py:198 | `cumsum(mask) - 1` lies in [-1, live count) and is non-negative at a live index |
| Compaction.SelectAt | quadric_edge_collapse/quadric_edge_collapse_tri.py:197-198 | a live element lands at its new index in the filtered array |
| Compaction.NewIndexIncreasing | quadric_edge_collapse/quadric_edge_collapse_tri.py:198 | the new index strictly increases up to each live index, so live vertices keep their order |
| Compaction.Distinct | quadric_edge_collapse/quadric_edge_collapse_tri.py:198 | two live vertices get different new indices |
| Compaction.NewIndexOnto | quadric_edge_collapse/quadric_edge_collapse_tri.py:198 | every new index below the live count is the new index of some live vertex |
| Compaction.SelectFrom | quadric_edge_collapse/quadric_edge_collapse_tri.py:197-198 | every element of the filtered array is the live element whose new index it is |
| Compaction.SelectAll | quadric_edge_collapse/quadric_edge_collapse_tri.py:197 | an all-true mask keeps everything |
| Compaction.NewIndexAll | quadric_edge_collapse/quadric_edge_collapse_tri.py:198 | under an all-true mask each index maps to itself |
| Compaction.Remap | quadric_edge_collapse/quadric_edge_collapse_tri.py:201 | definition of `new_indices[faces]` on one face; no contract of its own, `RebuildMesh` states the remapped corners |
| Compaction.RebuildMesh | quadric_edge_collapse/quadric_edge_collapse_tri.py:194-203 | the rebuilt mesh has the live counts, live vertex i at `cumsum - 1`, and live faces in order with every corner remapped |
| Compaction.RebuildUnchanged | quadric_edge_collapse/quadric_edge_collapse_tri.py:194-203 | with both masks all true the input mesh comes back unchanged |
| Compaction.RebuildWellFormed | quadric_edge_collapse/quadric_edge_collapse_tri.py:194-203 | if live faces touch only live vertices, the rebuilt faces index the new vertex array, and faces with three distinct corners stay so |
| Collapse.ExclusiveNeighbors | quadric_edge_collapse/quadric_edge_collapse_tri.py:102-103 | v2's exclusive neighbours are exactly the neighbours of v2 that are neither v1 nor shared (when v1 and v2 differ) |
| Collapse.SharedNeighbors | quadric_edge_collapse/quadric_edge_collapse_tri.py:78-79 | definition of `shared_vertices` as `Common` of the two adjacency lists; no contract of its own, `Lists.Common` states its membership and multiplicities |
| Collapse.SharedFaces | quadric_edge_collapse/quadric_edge_collapse_tri.py:84-85 | definition of `shared_faces` as `Common` of the two face lists; no contract of its own, `Lists.Common` states its membership and multiplicities |
| Collapse.ExclusiveFaces | quadric_edge_collapse/quadric_edge_collapse_tri.py:118-119 | `v_2_exclusive_faces` holds exactly the faces of v2 that are not faces of v1 |
| Collapse.Judge | quadric_edge_collapse/quadric_edge_collapse_tri.py:73-87 | definition of the three guards in order (dead endpoint, shared neighbours not two, shared faces not two); no contract of its own, `Iterate`, `IterateAccepted` and `IterateDropped` state what each verdict does |
| Collapse.MergedAdjacency | quadric_edge_collapse/quadric_edge_collapse_tri.py:99-114 | v1's list loses its first v2 and gains v2's exclusive neighbours; in each exclusive neighbour's list v2 becomes v1; every other list, shared neighbours' included, is unchanged |
| Collapse.MergedNeighbors | quadric_edge_collapse/quadric_edge_collapse_tri.py:99-104 | v1's new neighbours came from v1 or v2; every old neighbour of v1 other than v2 stays, and every neighbour of v2 other than v1 and v2 is gained |
| Collapse.MergedFaces | quadric_edge_collapse/quadric_edge_collapse_tri.py:117-122 | v1's new face list is, as a multiset, its old one plus v2's non-shared faces minus the shared faces |
| Collapse.MergedFacesMembership | quadric_edge_collapse/quadric_edge_collapse_tri.py:117-122 | a face is in v1's new list exactly when it was in one of the two lists and not both |
| Collapse.MergedBelow | quadric_edge_collapse/quadric_edge_collapse_tri.py:99-122 | the indices the update writes are all in range |
| Collapse.Killed | quadric_edge_collapse/quadric_edge_collapse_tri.py:97 | `faces_mask[shared_faces] = False` clears exactly the shared faces |
| Collapse.Rewritten | quadric_edge_collapse/quadric_edge_collapse_tri.py:126-128 | exactly the faces in v1's list have v2 rewritten to v1; every other face is untouched |
| Collapse.Contracted | quadric_edge_collapse/quadric_edge_collapse_tri.py:89-162 | definition of the state a contraction stores, from its parts; no contract of its own, `Rewiring.ContractIs` and `ContractRewired` state it |
| Collapse.Contract | quadric_edge_collapse/quadric_edge_collapse_tri.py:89-162 | definition of an accepted contraction; no contract of its own, `ContractRewired` states its whole effect |
| Collapse.Pushed | quadric_edge_collapse/quadric_edge_collapse_tri.py:139-162 | definition of the heap after the re-seeding pushes; no contract of its own, `ContractRewired` states it through `HeapRewired` |
| Collapse.ContractRewired | quadric_edge_collapse/quadric_edge_collapse_tri.py:89-162 | a contraction sets `vertices[v1]` to the entry's position and changes no other vertex; it clears only v2's flag; a face dies exactly when it was live and in both face lists; v1's face list becomes the faces of exactly one of v1 and v2, and exactly those faces have v2 rewritten to v1; the adjacency lists are rewired as `ContractRewiresNeighbors` states; the heap keeps the old entries in front, followed by one entry [v1, w] per neighbour w in v1's new list, in list order |
| Collapse.ContractRewiresNeighbors | quadric_edge_collapse/quadric_edge_collapse_tri.py:99-114 | after a contraction v1 lists only old neighbours of v1 or v2, keeps every old neighbour but v2, and gains every neighbour of v2 other than v1 and v2; each exclusive neighbour of v2 has v2 replaced by v1; every other list is unchanged; only v2 dies |
| Collapse.ContractRewiresFaces | quadric_edge_collapse/quadric_edge_collapse_tri.py:117-128 | a contraction's face-list and face-array effect, face by face |
| Collapse.FaceAfter | quadric_edge_collapse/quadric_edge_collapse_tri.py:89-128 | after a contraction every live face is still listed under each of its corners, and a face with distinct corners keeps them distinct |
| Collapse.InRangeAfter | quadric_edge_collapse/quadric_edge_collapse_tri.py:89-162 | every index stored in the lists and the heap stays in range after a contraction |
| Collapse.HeapSoundAfter | quadric_edge_collapse/quadric_edge_collapse_tri.py:139-162 | every heap entry still names two vertex indices after a contraction |
| Collapse.InvAfter | quadric_edge_collapse/quadric_edge_collapse_tri.py:89-162 | a contraction keeps the loop invariant |
| Collapse.ContractPreservesInv | quadric_edge_collapse/quadric_edge_collapse_tri.py:89-162 | an accepted contraction keeps the loop invariant |
| Collapse.ContractLiveCount | quadric_edge_collapse/quadric_edge_collapse_tri.py:94 | a contraction of a live v2 lowers the live vertex count by exactly one |
| Collapse.ContractKeepsFacesProper | quadric_edge_collapse/quadric_edge_collapse_tri.py:89-128 | a contraction leaves no live face with a repeated corner: a face holding both v1 and v2 is in both face lists, so it is one of the faces killed, and every other rewritten face held v2 but not v1; this holds whatever the guards decided |
| Collapse.PopKeepsInv | quadric_edge_collapse/quadric_edge_collapse_tri.py:71 | popping keeps the invariant and the popped entry names two vertex indices |
| Collapse.Popped | quadric_edge_collapse/quadric_edge_collapse_tri.py:71 | `heappop` yields an entry of the heap not after any other entry, and a state that differs only in the heap, which loses exactly that entry |
| Collapse.Iterate | quadric_edge_collapse/quadric_edge_collapse_tri.py:64-162 | one iteration pops the least entry; it is stale iff an endpoint is dead; a dropped entry changes nothing but the heap, which loses exactly that entry; an accepted one kills v2, moves v1 to the entry's position, lowers the live count by one and keeps the invariant |
| Collapse.IterateAccepted | quadric_edge_collapse/quadric_edge_collapse_tri.py:73-162 | an entry that passes the three guards is contracted |
| Collapse.IterateDropped | quadric_edge_collapse/quadric_edge_collapse_tri.py:73-87 | an entry failing a guard is dropped and the state is the popped state |
| Collapse.IterateKeepsFacesProper | quadric_edge_collapse/quadric_edge_collapse_tri.py:64-162 | no iteration gives a live face a repeated corner |
| Collapse.Simplify | quadric_edge_collapse/quadric_edge_collapse_tri.py:64-69 | the loop keeps the invariant, never raises the live count, changes nothing when the count is already at most the target, and otherwise ends at exactly the target or above it with an empty heap |
| Collapse.SimplifyKeepsFacesProper | quadric_edge_collapse/quadric_edge_collapse_tri.py:64-162 | the whole loop leaves no live face with a repeated corner |
| Collapse.Initial | quadric_edge_collapse/quadric_edge_collapse_tri.py:12-60 | definition of the state before the loop; no contract of its own, `InitialInv` and `InitialLists` state its properties |
| Collapse.AllLive | quadric_edge_collapse/quadric_edge_collapse_tri.py:19-20 | `np.ones(n, dtype=bool)` is n true flags |
| Collapse.Seed | quadric_edge_collapse/quadric_edge_collapse_tri.py:26-60 | the heap is seeded with exactly one entry per row of `edges`, keeping that row's (v1, v2) order |
| Collapse.TargetIsEdge | quadric_edge_collapse/mesh.py:29-30 | every adjacency entry w of v comes from an edge (v, w) between two vertices |
| Collapse.EdgeIsTarget | quadric_edge_collapse/mesh.py:29-30 | every edge (u, v) puts v in u's adjacency list |
| Collapse.CornerListsFace | quadric_edge_collapse/mesh.py:43-46 | a face is in the face list of each of its corners |
| Collapse.InitialInv | quadric_edge_collapse/quadric_edge_collapse_tri.py:12-60 | the state built from a well-formed mesh satisfies the loop invariant with every vertex live |
| Collapse.InitialLists | quadric_edge_collapse/quadric_edge_collapse_tri.py:12-60 | the initial lists and heap are shaped and in range |
| Collapse.Final | quadric_edge_collapse/quadric_edge_collapse_tri.py:64-162 | the state after the loop keeps the invariant, is the initial state when the mesh has at most `target` vertices, and otherwise has at least `target` live vertices, exactly `target` unless the heap ran out |
| Collapse.Decimation | quadric_edge_collapse/quadric_edge_collapse_tri.py:8-165 | definition of the whole function, the loop then `rebuild_mesh`; no contract of its own, `DecimationResult`, `DecimationUnchanged` and `DecimationKeepsFacesProper` state its properties |
| Collapse.DecimationResult | quadric_edge_collapse/quadric_edge_collapse_tri.py:8-165 | the decimated mesh is well formed and no larger than the input; when the input had more than `target` vertices it has at least `target`, exactly `target` unless the heap ran out |
| Collapse.DecimationUnchanged | quadric_edge_collapse/quadric_edge_collapse_tri.py:8-165 | a mesh with at most `target` vertices comes back unchanged |
| Collapse.DecimationKeepsFacesProper | quadric_edge_collapse/quadric_edge_collapse_tri.py:8-165 | if every input face has distinct corners, so does every output face |
| Collapse.RebuildFinal | quadric_edge_collapse/quadric_edge_collapse_tri.py:165 | rebuilding any state that keeps the invariant yields a well-formed mesh |
| Rewiring.PushNeighbors | quadric_edge_collapse/quadric_edge_collapse_tri.py:140-162 | the push loop appends one entry per neighbour of v1, in list order, and removes nothing |
| Rewiring.SeedHeap | quadric_edge_collapse/quadric_edge_collapse_tri.py:30-60 | the seeding loop builds `Seed` |
| Rewiring.MergeNeighbors | quadric_edge_collapse/quadric_edge_collapse_tri.py:99-114 | the adjacency statements compute `MergedAdjacency` |
| Rewiring.SubstituteNeighbors | quadric_edge_collapse/quadric_edge_collapse_tri.py:112-114 | the rewrite loop changes exactly the exclusive neighbours' lists, replacing v2 by v1 |
| Rewiring.MergeFaceLists | quadric_edge_collapse/quadric_edge_collapse_tri.py:117-122 | the face-list statements compute `MergedFaces` |
| Rewiring.RemoveAll | quadric_edge_collapse/quadric_edge_collapse_tri.py:121-122 | the `remove` loop computes `RemoveEach` |
| Rewiring.RemoveEachStep | quadric_edge_collapse/quadric_edge_collapse_tri.py:121-122 | removing the first element, then the rest, is removing all of them |
| Rewiring.ContractLists | quadric_edge_collapse/quadric_edge_collapse_tri.py:99-162 | the list and heap updates of one contraction compute the lists `Contract` specifies |
| Rewiring.ContractIs | quadric_edge_collapse/quadric_edge_collapse_tri.py:89-162 | a state built from the shared faces, the merged lists and the pushed heap of a contraction is that contraction |
| Rewiring.PushedIs | quadric_edge_collapse/quadric_edge_collapse_tri.py:139-162 | the pushes onto the current heap, with the next generation, are the heap a contraction leaves |
| Contraction.Decimator.constructor | quadric_edge_collapse/quadric_edge_collapse_tri.py:12-60 | the set-up gives all-true masks, the derived lists and the seeded heap, i.e. `Initial` |
| Contraction.Decimator.Step | quadric_edge_collapse/quadric_edge_collapse_tri.py:64-162 | one loop body moves the object's state to `Iterate` of the old state and reports its verdict |
| Contraction.Decimator.ContractPair | quadric_edge_collapse/quadric_edge_collapse_tri.py:89-162 | the contraction statements move the state to `Contract` |
| Contraction.Decimator.Apply | quadric_edge_collapse/quadric_edge_collapse_tri.py:89-162 | storing the new lists, heap and arrays gives `Contracted` |
| Contraction.Decimator.UpdateArrays | quadric_edge_collapse/quadric_edge_collapse_tri.py:91-97 | the in-place writes set `vertices[v1]`, clear v2's flag and the shared faces' flags, and rewrite v1's faces |
| Contraction.Decimator.RewriteFaces | quadric_edge_collapse/quadric_edge_collapse_tri.py:126-128 | the face rewrite loop changes exactly the faces in v1's list, replacing v2 by v1 |
| Contraction.Decimator.Run | quadric_edge_collapse/quadric_edge_collapse_tri.py:64-162 | the while loop moves the state to `Simplify` of the old state |
| Contraction.LiveMask | quadric_edge_collapse/quadric_edge_collapse_tri.py:19-20 | a fresh all-true mask |
| Contraction.Connectivity | quadric_edge_collapse/quadric_edge_collapse_tri.py:14-60 | the derived lists and the seeded heap equal `NeighborLists`, `FaceLists` and `Seed` |
| Contraction.QuadricEdgeCollapseDecimation | quadric_edge_collapse/quadric_edge_collapse_tri.py:8-165 | returns `Decimation` of the input mesh and leaves the arrays as the loop's final state |
| Text.Strip | utils/off_format.py:11 | `str.strip()` leaves no whitespace at either end |
| Text.StripCutsSpace | utils/off_format.py:11 | `strip()` removes only whitespace, and only at the ends |
| Text.StripTrimmed | utils/off_format.py:11 | a string without outer whitespace is its own strip |
| Text.StripTrailingSpace | utils/off_format.py:57 | the header line's trailing blank is stripped away |
| Text.Split | utils/off_format.py:24 | `str.split()` yields non-empty tokens without whitespace |
| Text.SplitJoin | utils/off_format.py:61 | splitting `" ".join(ts)` gives back ts when every token is non-empty and blank-free |
| Text.JoinTrimmed | utils/off_format.py:61 | such a joined line has no outer whitespace and starts with the first token |
| Text.SplitAfterSpace | utils/off_format.py:18 | a leading blank does not change the split |
| Text.ShowNat | utils/off_format.py:57 | `str(n)` of a natural number is a non-empty run of digits |
| Text.ShowNatValue | utils/off_format.py:57 | those digits read back as n |
| Text.ParseShowInt | utils/off_format.py:65 | `int(str(n)) == n` for every integer n |
| Text.ParseNegative | utils/off_format.py:40 | `int("-" + digits)` is minus their value |
| Text.ShowIntClean | utils/off_format.py:65 | `str(n)` is non-empty and blank-free |
| Text.ParseInts | utils/off_format.py:24 | `list(map(int, ts))` succeeds iff every token parses, and then holds their values in order |
| Text.ShowInts | utils/off_format.py:65 | `map(str, ns)` holds `str` of each number in order |
| Text.ParseShowInts | utils/off_format.py:65 | `map(int, map(str, ns))` gives back ns, through blank-free tokens |
| Text.ParseInt | utils/off_format.py:24 | definition of `int()` on one token, as `map(int, ...)` applies it here and at line 40; no contract of its own, `ParseShowInt`, `ParseNegative` and `ParseInts` state its properties |
| Text.Join | utils/off_format.py:61 | definition of `" ".join`; no contract of its own, `SplitJoin` and `JoinTrimmed` state its properties |
| Text.ShowInt | utils/off_format.py:65 | definition of `str()` on an integer, as `map(str, face)` applies it here and the header at line 57 does; no contract of its own, `ShowIntClean` and `ParseShowInt` state its properties |
| OffFormat.Slice | utils/off_format.py:33 | Python's clamping slice `xs[i:j]` for 0 <= i <= j: the in-range part of `xs[i..j]`, of length 0 when i is past the end, `len(xs) - i` when j is, and j - i otherwise |
| OffFormat.CountsLine | utils/off_format.py:10-21 | definition of the header layouts; no contract of its own, `OwnHeaderLine`, `JoinedHeaderLine`, `BareHeaderLine` and `LayoutCounts` state it |
| OffFormat.Counts | utils/off_format.py:24-26 | the counts are the first two integers of the counts line; it raises `ValueError` exactly when a token is not an integer and `IndexError` exactly when all parse but fewer than two are present |
| OffFormat.VertexRows | utils/off_format.py:30-33 | a vertex line gives a row exactly when every token is a float, the row being its first three tokens (or all of them when fewer); otherwise it raises `ValueError` |
| OffFormat.FaceRowsOf | utils/off_format.py:40-46 | definition of the face-line branches; no contract of its own, `FaceRowsCount`, `TriangleRow` and `QuadSplit` state them |
| OffFormat.ParseOff | utils/off_format.py:3-48 | definition of the whole reader; no contract of its own, `LoadOff`, `HeaderLayouts`, `SameCountsSameLoad` and `LoadSaved` state its properties |
| OffFormat.HeaderLine | utils/off_format.py:57 | definition of the written counts line; no contract of its own, `HeaderRoundTrip` states it reads back |
| OffFormat.FaceLine | utils/off_format.py:65 | definition of a written face line; no contract of its own, `FaceRoundTrip` states it reads back |
| OffFormat.LoadOff | utils/off_format.py:3-48 | the reader's statements compute `ParseOff`, raising where it raises |
| OffFormat.ReadHeader | utils/off_format.py:10-21 | the header statements pick the counts line and the first body line as `CountsLine` says |
| OffFormat.ReadBody | utils/off_format.py:28-46 | the two loops compute `ParseBody` |
| OffFormat.ReadRows | utils/off_format.py:30-46 | a counted loop reads consecutive lines and stops at the first line that raises, as `Gather` says |
| OffFormat.GatherStopsAt | utils/off_format.py:30-46 | once a line raises, reading more lines cannot change the outcome |
| OffFormat.GatherEach | utils/off_format.py:30-33 | lines that each give one row are read into those rows in order |
| OffFormat.GatherFrom | utils/off_format.py:28-46 | the loops read only the lines from the cursor on |
| OffFormat.BodyFrom | utils/off_format.py:28-46 | the body is read from the lines after the header alone |
| OffFormat.ParseOffBody | utils/off_format.py:24-46 | once the counts parse, the result is the two loops with n_v and n_f iterations |
| OffFormat.OwnHeaderLine | utils/off_format.py:12-15 | a first line that is exactly "OFF" takes the counts from the stripped second line |
| OffFormat.JoinedHeaderLine | utils/off_format.py:16-18 | a first line "OFF …" takes the counts from its remainder |
| OffFormat.BareHeaderLine | utils/off_format.py:19-21 | a first line not starting with "OFF" is itself the counts line |
| OffFormat.LayoutCounts | utils/off_format.py:10-24 | the three header layouts read the same counts and start the body after the counts |
| OffFormat.HeaderLayouts | utils/off_format.py:10-21 | the three header layouts load the same mesh from the same body |
| OffFormat.SameCountsSameLoad | utils/off_format.py:24-46 | files whose headers give the same counts and whose bodies agree load alike |
| OffFormat.TriangleRow | utils/off_format.py:42-43 | a face line starting with 3 gives the triangle of the next three values, extra columns ignored |
| OffFormat.QuadSplit | utils/off_format.py:44-46 | a face line starting with 4 gives (v0, v1, v2) then (v1, v2, v3), extra columns ignored |
| OffFormat.FaceRowsCount | utils/off_format.py:40-46 | a face line raises iff it has no values; otherwise it gives 1, 2 or 0 rows by its first value, each a slice of the values |
| OffFormat.FaceLineTriangles | utils/off_format.py:38-46 | a face line yields as many rows as it has triangles |
| OffFormat.FaceRowsTotal | utils/off_format.py:38-46 | the face loop yields #triangle lines + 2·#quad lines rows |
| OffFormat.GatherLength | utils/off_format.py:30-46 | a loop whose lines each yield a known number of rows yields their sum |
| OffFormat.HeaderRoundTrip | utils/off_format.py:57 | the written counts line reads back as (n_v, n_f) |
| OffFormat.VertexRoundTrip | utils/off_format.py:61 | a written vertex line reads back as its first three tokens |
| OffFormat.FaceRoundTrip | utils/off_format.py:65 | a written face line reads back as the face's three corners |
| OffFormat.SerializeOff | utils/off_format.py:56-65 | the written file has 2 + n_v + n_f lines |
| OffFormat.SaveOff | utils/off_format.py:51-65 | the writer emits "OFF", the counts line, a line per vertex and a "3 i j k" line per face, in array order |
| OffFormat.WriteLines | utils/off_format.py:60-65 | one writing loop appends one line per item, in order, after the lines already written |
| OffFormat.SerializedLines | utils/off_format.py:56-65 | the header, vertex loop and face loop together give `SerializeOff` |
| OffFormat.SavedVerticesRead | utils/off_format.py:30-33 | the vertex loop reads the written vertex lines back as each vertex's first three tokens |
| OffFormat.SavedFacesRead | utils/off_format.py:38-46 | the face loop reads the written face lines back as the face array |
| OffFormat.LoadSaved | utils/off_format.py:10-65 | loading what `save_off` writes gives back the same face array and one row per vertex, the first three tokens of each |

## Left out

- Quadric and cost arithmetic are not modelled: `compute_initial_quadrics`, the `Q_bar` and `Q_prime` inverse, `v_bar`, the cost, and the `LinAlgError` midpoint fallback. They are floating-point linear algebra, so an opaque `Estimator` (number of contractions so far, v1, v2) stands for them. The quadric of v1 changes only at a contraction, which is why the contraction count is enough to index it.
- Face normals, areas, centres and coordinates (`faces_normals`, `compute_face_normal` and the normal update of the loop) are floating-point geometry and are not modelled.
- The heap's internal array layout is not modelled. The heap is a bag whose pop returns its least entry. The order on entries is total (`Scheduler.LeastIsUnique`), so this is the entry `heappop` returns.
- Costs are `real`, and a position `Point` is three `real` coordinates; `PointBefore` orders positions lexicographically, as Python compares the `[*v_bar[:3]]` lists of an entry when two costs tie. Float rounding and NaN costs are not modelled.
- `print` diagnostics are not modelled; they have no effect on the state.
- Contraction.QuadricEdgeCollapseDecimation: computes the adjacency lists, face lists and edges afresh from the arrays at each call. The `cached_property` caching of `vertices_adjacency`, `vertices_faces` and `edges` on the mesh object is not modelled. So the model does not capture that the loop edits the mesh's cached adjacency and face lists in place and leaves them holding the loop's final lists. Nor does it capture that a later call on the same mesh object would start from those edited lists and the originally cached `edges`, over arrays already rewritten. It models a call on a mesh whose derived lists have not been read yet.
- The example driver and the data-file-dependent test are not modelled. The test's claim that the output has exactly `target` vertices is `Collapse.Simplify`'s "exactly the target unless the heap empties".
- File opening, `readline` and `write` are not modelled: the reader takes the file's lines and the writer returns them. A file with fewer lines than the header promises reads `""` past its end, which is what `readline` gives.
- `float()` is not modelled: it is a parameter `isFloat` that says which tokens parse. Vertex rows keep their tokens.
- `str()` of a vertex coordinate is not modelled: it is a parameter `show` from a vertex to its tokens.
- `np.array` of the result rows is not modelled: ragged rows (a face line with fewer than three indices) stay lists in the model instead of raising or becoming an object array.
- `int()` accepts only ASCII digits, an optional sign and single underscores in the model. Unicode digits are not modelled. Surrounding whitespace needs no modelling, since `split()` tokens have none.
- MeshTopology.VerticesNumber: has no contract of its own; it is the length of the vertex array by definition, and `VerticesAdjacency` and `VerticesFaces` state their list counts through it.
- MeshTopology.FacesNumber: has no contract of its own; it is the length of the face array by definition, and `VerticesFaces` states its total through it.
- Lists.CountTrue: states only the bound; its exact value is pinned down through `CountTrueClear` and `CountTrueAll`.
- OffFormat.LoadSaved: gives back the first three tokens of each vertex, not the vertex itself, because float parsing and formatting are not modelled.
- Negative indices in face arrays (numpy wraps them around) are not modelled. The decimation requires a well-formed mesh whose face corners are vertex indices.
