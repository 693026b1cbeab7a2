/** The contraction loop of `quadric_edge_collapse_decimation` as a
    transition on values: the state it updates, one iteration (pop, guard,
    contract, re-seed), the whole loop, the invariants it keeps, and the
    final compaction. The quadric arithmetic is an `Estimator`. */
module Collapse {
  import opened Lists
  import opened MeshTopology
  import opened Scheduler
  import opened Compaction

  /** Everything the loop reads and writes: vertex positions, the face
      array, the two live masks, the per-vertex adjacency and face lists,
      the heap list, and how many contractions have been done. */
  datatype State = State(
    vertices: seq<Point>,
    faces: seq<Face>,
    liveVertices: seq<bool>,
    liveFaces: seq<bool>,
    adjacency: seq<seq<int>>,
    vertexFaces: seq<seq<int>>,
    heap: seq<Entry>,
    generation: nat)

  /** `np.sum(vertices_mask)`. */
  function LiveCount(s: State): nat
  {
    CountTrue(s.liveVertices)
  }

  predicate Shaped(s: State)
  {
    |s.liveVertices| == |s.vertices| && |s.adjacency| == |s.vertices| &&
    |s.vertexFaces| == |s.vertices| && |s.liveFaces| == |s.faces|
  }

  /** Every stored index refers to an existing vertex or face. */
  predicate InRange(s: State)
    requires Shaped(s)
  {
    (forall v, x :: 0 <= v < |s.adjacency| && x in s.adjacency[v] ==> 0 <= x < |s.vertices|) &&
    (forall v, f :: 0 <= v < |s.vertexFaces| && f in s.vertexFaces[v] ==> 0 <= f < |s.faces|) &&
    (forall f :: 0 <= f < |s.faces| ==> s.faces[f].IndexesBelow(|s.vertices|)) &&
    (forall e :: e in s.heap ==> 0 <= e.v1 < |s.vertices| && 0 <= e.v2 < |s.vertices|)
  }

  /** An entry whose endpoints are both live still names an adjacency
      entry, so `vertices_adjacency[id_v_1].remove(id_v_2)` cannot fail. */
  predicate HeapSound(s: State)
    requires Shaped(s) && InRange(s)
  {
    forall e :: e in s.heap && s.liveVertices[e.v1] && s.liveVertices[e.v2] ==> e.v2 in s.adjacency[e.v1]
  }

  /** A corner of a live face is a live vertex that lists the face. */
  predicate CornerIndexed(s: State, f: int, c: int)
    requires Shaped(s) && 0 <= c < |s.vertices|
  {
    s.liveVertices[c] && f in s.vertexFaces[c]
  }

  predicate FacesIndexed(s: State)
    requires Shaped(s) && InRange(s)
  {
    forall f :: 0 <= f < |s.faces| && s.liveFaces[f] ==>
      CornerIndexed(s, f, s.faces[f].a) && CornerIndexed(s, f, s.faces[f].b) && CornerIndexed(s, f, s.faces[f].c)
  }

  /** The invariant of the contraction loop. */
  predicate Inv(s: State)
  {
    Shaped(s) && InRange(s) && HeapSound(s) && FacesIndexed(s)
  }

  /** Every live face has three distinct corners. */
  predicate LiveFacesProper(s: State)
    requires Shaped(s)
  {
    forall f :: 0 <= f < |s.faces| && s.liveFaces[f] ==> s.faces[f].Proper()
  }

  predicate Endpoints(s: State, e: Entry)
  {
    0 <= e.v1 < |s.vertices| && 0 <= e.v2 < |s.vertices|
  }

  /** Why a popped entry is dropped, or that it is contracted. */
  datatype Verdict = Stale | NonManifold | Boundary | Accepted

  /** `shared_vertices`: the entries of `v1`'s list also in `v2`'s list. */
  function SharedNeighbors(s: State, v1: int, v2: int): (r: seq<int>)
    requires Shaped(s) && 0 <= v1 < |s.vertices| && 0 <= v2 < |s.vertices|
  {
    Common(s.adjacency[v1], s.adjacency[v2])
  }

  /** `shared_faces`: the entries of `v1`'s face list also in `v2`'s. */
  function SharedFaces(s: State, v1: int, v2: int): (r: seq<int>)
    requires Shaped(s) && 0 <= v1 < |s.vertices| && 0 <= v2 < |s.vertices|
  {
    Common(s.vertexFaces[v1], s.vertexFaces[v2])
  }

  /** The three guards, in the order the loop applies them. */
  function Judge(s: State, e: Entry): Verdict
    requires Shaped(s) && Endpoints(s, e)
  {
    if !s.liveVertices[e.v1] || !s.liveVertices[e.v2] then Stale
    else if |SharedNeighbors(s, e.v1, e.v2)| != 2 then NonManifold
    else if |SharedFaces(s, e.v1, e.v2)| != 2 then Boundary
    else Accepted
  }

  /** What the list updates of a contraction need to be defined: the
      endpoints exist and `v1` still lists `v2`, so `remove` succeeds. */
  predicate Mergeable(s: State, e: Entry)
  {
    Shaped(s) && Endpoints(s, e) && e.v2 in s.adjacency[e.v1]
  }

  /** What a contraction of `e` has in the loop: the invariant holds and the
      guards passed. */
  predicate Contractible(s: State, e: Entry)
  {
    Inv(s) && Mergeable(s, e) && Judge(s, e) == Accepted
  }

  /** `v_2_exclusive_neighbors`, read after `v2` left `v1`'s list. */
  function ExclusiveNeighbors(s: State, v1: int, v2: int): (r: seq<int>)
    requires Shaped(s) && 0 <= v1 < |s.vertices| && 0 <= v2 < |s.vertices| && v2 in s.adjacency[v1]
    ensures forall x :: x in r ==> x != v1 && x !in SharedNeighbors(s, v1, v2)
    ensures forall x :: x in r ==> x in s.adjacency[v2] || (v1 == v2 && x in s.adjacency[v1])
    ensures v1 != v2 ==> forall x :: x in s.adjacency[v2] && x != v1 && x !in SharedNeighbors(s, v1, v2) ==> x in r
  {
    var removed := s.adjacency[v1 := RemoveFirst(s.adjacency[v1], v2)];
    var shared := SharedNeighbors(s, v1, v2);
    var r := Without(removed[v2], [v1] + shared);
    forall x | x in removed[v2] && v1 != v2 ensures x in s.adjacency[v2] { }
    forall x | x in removed[v2] && v1 == v2 ensures x in s.adjacency[v1] {
      assert multiset(removed[v2])[x] > 0;
    }
    r
  }

  /** The adjacency lists after the update: `v1` loses one `v2` and gains
      the exclusive neighbours; in each exclusive neighbour's list `v2`
      becomes `v1`; every other list is left as it was. */
  function MergedAdjacency(s: State, v1: int, v2: int): (r: seq<seq<int>>)
    requires Shaped(s) && 0 <= v1 < |s.vertices| && 0 <= v2 < |s.vertices| && v2 in s.adjacency[v1]
    ensures |r| == |s.adjacency|
    ensures r[v1] == RemoveFirst(s.adjacency[v1], v2) + ExclusiveNeighbors(s, v1, v2)
    ensures forall v :: 0 <= v < |r| && v != v1 ==>
      r[v] == if v in ExclusiveNeighbors(s, v1, v2) then Substitute(s.adjacency[v], v2, v1) else s.adjacency[v]
  {
    var exclusive := ExclusiveNeighbors(s, v1, v2);
    var merged := s.adjacency[v1 := RemoveFirst(s.adjacency[v1], v2) + exclusive];
    seq(|merged|, v requires 0 <= v < |merged| =>
      if v in exclusive then Substitute(merged[v], v2, v1) else merged[v])
  }

  /** `v1`'s new neighbour list holds every old neighbour of `v1` but `v2`
      and every neighbour of `v2` but `v1` and `v2`, and only old neighbours
      of `v1` or `v2`. */
  lemma MergedNeighbors(s: State, v1: int, v2: int, x: int)
    requires Shaped(s) && 0 <= v1 < |s.vertices| && 0 <= v2 < |s.vertices| && v2 in s.adjacency[v1]
    ensures x in MergedAdjacency(s, v1, v2)[v1] ==> x in s.adjacency[v1] || x in s.adjacency[v2]
    ensures x in s.adjacency[v1] && x != v2 ==> x in MergedAdjacency(s, v1, v2)[v1]
    ensures v1 != v2 && x in s.adjacency[v2] && x != v1 && x != v2 ==> x in MergedAdjacency(s, v1, v2)[v1]
  {
    RemoveFirstMembers(s.adjacency[v1], v2, x);
    if v1 != v2 && x in s.adjacency[v2] && x != v1 && x != v2 && x in SharedNeighbors(s, v1, v2) {
      assert x in s.adjacency[v1];
    }
  }

  /** `v_2_exclusive_faces`. */
  function ExclusiveFaces(s: State, v1: int, v2: int): (r: seq<int>)
    requires Shaped(s) && 0 <= v1 < |s.vertices| && 0 <= v2 < |s.vertices|
    ensures forall f :: f in r <==> f in s.vertexFaces[v2] && f !in s.vertexFaces[v1]
  {
    var shared := SharedFaces(s, v1, v2);
    Without(s.vertexFaces[v2], shared)
  }

  /** `v1`'s face list after `extend(v_2_exclusive_faces)` and one `remove`
      per shared face. */
  function MergedFaces(s: State, v1: int, v2: int): (r: seq<int>)
    requires Shaped(s) && 0 <= v1 < |s.vertices| && 0 <= v2 < |s.vertices|
    ensures multiset(r) == multiset(s.vertexFaces[v1]) + multiset(ExclusiveFaces(s, v1, v2)) - multiset(SharedFaces(s, v1, v2))
  {
    var shared := SharedFaces(s, v1, v2);
    var grown := s.vertexFaces[v1] + ExclusiveFaces(s, v1, v2);
    assert multiset(shared) <= multiset(grown) by {
      forall x ensures multiset(shared)[x] <= multiset(grown)[x] { }
    }
    RemoveEach(grown, shared)
  }

  /** `faces_mask[shared_faces] = False`. */
  function Killed(live: seq<bool>, dead: seq<int>): (r: seq<bool>)
    ensures |r| == |live|
    ensures forall f :: 0 <= f < |live| ==> r[f] == (live[f] && f !in dead)
  {
    seq(|live|, f requires 0 <= f < |live| => live[f] && f !in dead)
  }

  /** `from` replaced by `to` in every face listed in `own`. */
  function Rewritten(faces: seq<Face>, own: seq<int>, from: int, to: int): (r: seq<Face>)
    ensures |r| == |faces|
    ensures forall f :: 0 <= f < |faces| ==> r[f] == if f in own then faces[f].Substitute(from, to) else faces[f]
  {
    seq(|faces|, f requires 0 <= f < |faces| => if f in own then faces[f].Substitute(from, to) else faces[f])
  }

  /** The state after a contraction of `e` whose killed faces, new
      adjacency lists, new face list of `v1` and new heap are given: `v1`
      moves to `v_bar`, `v2` and the killed faces die, and `v2` becomes
      `v1` in the faces of `v1`'s new list. */
  function Contracted(s: State, e: Entry, sharedFaces: seq<int>, adjacency: seq<seq<int>>, own: seq<int>,
    heap: seq<Entry>): State
    requires Shaped(s) && Endpoints(s, e)
  {
    State(
      s.vertices[e.v1 := e.target],
      Rewritten(s.faces, own, e.v2, e.v1),
      s.liveVertices[e.v2 := false],
      Killed(s.liveFaces, sharedFaces),
      adjacency,
      s.vertexFaces[e.v1 := own],
      heap,
      s.generation + 1)
  }

  /** An accepted contraction of `e = (cost, v_bar, [v1, v2])` on the state
      after the pop: move `v1` to `v_bar`, kill `v2` and the shared faces,
      rewire the adjacency and face lists, rewrite `v2` to `v1` in the faces
      of `v1`'s new list, and push `[v1, w]` for every `w` `v1` now lists. */
  function Contract(s: State, e: Entry, estimate: Estimator): (r: State)
    requires Mergeable(s, e)
  {
    Contracted(s, e, SharedFaces(s, e.v1, e.v2), MergedAdjacency(s, e.v1, e.v2), MergedFaces(s, e.v1, e.v2),
      Pushed(s, e, estimate, MergedAdjacency(s, e.v1, e.v2)))
  }

  /** The heap after the re-seeding pushes: `[v1, w]` for every `w` in
      `v1`'s list of `adjacency`, with the next generation's quadrics. */
  function Pushed(s: State, e: Entry, estimate: Estimator, adjacency: seq<seq<int>>): seq<Entry>
    requires 0 <= e.v1 < |adjacency|
  {
    s.heap + Proposals(estimate, s.generation + 1, e.v1, adjacency[e.v1])
  }

  /** After the update a face is in `v1`'s list exactly when it was in
      one of the lists of `v1` and `v2` but not both. */
  lemma MergedFacesMembership(s: State, v1: int, v2: int, f: int)
    requires Shaped(s) && 0 <= v1 < |s.vertices| && 0 <= v2 < |s.vertices|
    ensures f in MergedFaces(s, v1, v2) <==> (f in s.vertexFaces[v1]) != (f in s.vertexFaces[v2])
  {
    var own := MergedFaces(s, v1, v2);
    assert f in own <==> multiset(own)[f] > 0;
    assert f in s.vertexFaces[v1] <==> multiset(s.vertexFaces[v1])[f] > 0;
    assert f in s.vertexFaces[v2] <==> multiset(s.vertexFaces[v2])[f] > 0;
  }

  /** The exclusive neighbours are vertices and `v1`'s new face list
      names existing faces only. */
  lemma MergedBelow(s: State, v1: int, v2: int)
    requires Shaped(s) && InRange(s) && 0 <= v1 < |s.vertices| && 0 <= v2 < |s.vertices| && v2 in s.adjacency[v1]
    ensures forall x :: x in ExclusiveNeighbors(s, v1, v2) ==> 0 <= x < |s.vertices|
    ensures forall f :: f in MergedFaces(s, v1, v2) ==> 0 <= f < |s.faces|
  {
    forall f | f in MergedFaces(s, v1, v2) ensures 0 <= f < |s.faces| {
      MergedFacesMembership(s, v1, v2, f);
    }
  }

  /** A contraction of `e` as a relation between the state `s` before it
      and the state `r` after it, with `own` for `v1`'s new face list and
      `exclusive` for the neighbours only `v2` had. */
  ghost predicate Rewired(s: State, e: Entry, r: State, own: seq<int>, exclusive: seq<int>)
    requires Shaped(s) && Endpoints(s, e)
  {
    Shaped(r) && r.vertices == s.vertices[e.v1 := e.target] && |r.faces| == |s.faces| &&
    NeighborsRewired(s, e, r, exclusive) && FacesRewired(s, e, r, own) && HeapRewired(s, e, r)
  }

  /** `v1` keeps its neighbours but `v2` and gains `v2`'s but itself and
      `v2`; the exclusive neighbours of `v2` now list `v1` for `v2`; nobody
      else changes; only `v2` dies. */
  ghost predicate NeighborsRewired(s: State, e: Entry, r: State, exclusive: seq<int>)
    requires Shaped(s) && Endpoints(s, e) && Shaped(r) && |r.vertices| == |s.vertices|
  {
    var v1, v2 := e.v1, e.v2;
    (forall x :: x in r.adjacency[v1] ==> x in s.adjacency[v1] || x in s.adjacency[v2]) &&
    (forall x :: x in s.adjacency[v1] && x != v2 ==> x in r.adjacency[v1]) &&
    (v1 != v2 ==> forall x :: x in s.adjacency[v2] && x != v1 && x != v2 ==> x in r.adjacency[v1]) &&
    (forall v :: 0 <= v < |s.vertices| && v != v1 ==>
      r.adjacency[v] == if v in exclusive then Substitute(s.adjacency[v], v2, v1) else s.adjacency[v]) &&
    r.liveVertices == s.liveVertices[v2 := false]
  }

  /** `v1`'s face list holds the faces of exactly one of `v1` and `v2`;
      those faces have `v2` rewritten to `v1`; exactly the faces of both
      die. */
  ghost predicate FacesRewired(s: State, e: Entry, r: State, own: seq<int>)
    requires Shaped(s) && Endpoints(s, e) && Shaped(r) && |r.vertices| == |s.vertices| && |r.faces| == |s.faces|
  {
    var v1, v2 := e.v1, e.v2;
    (forall f :: f in own <==> (f in s.vertexFaces[v1]) != (f in s.vertexFaces[v2])) &&
    r.vertexFaces == s.vertexFaces[v1 := own] &&
    (forall f :: 0 <= f < |s.faces| ==>
      r.faces[f] == if f in own then s.faces[f].Substitute(v2, v1) else s.faces[f]) &&
    (forall f :: 0 <= f < |s.faces| ==>
      r.liveFaces[f] == (s.liveFaces[f] && !(f in s.vertexFaces[v1] && f in s.vertexFaces[v2])))
  }

  /** The old heap stays in front, and after it comes one entry `[v1, w]`
      per neighbour `w` in `v1`'s new list, in list order; so every new
      entry pairs `v1` with one of its neighbours. */
  ghost predicate HeapRewired(s: State, e: Entry, r: State)
    requires Shaped(s) && Endpoints(s, e) && Shaped(r) && |r.vertices| == |s.vertices|
  {
    |r.heap| == |s.heap| + |r.adjacency[e.v1]| && r.heap[..|s.heap|] == s.heap &&
    (forall i :: 0 <= i < |r.adjacency[e.v1]| ==>
      r.heap[|s.heap| + i].v1 == e.v1 && r.heap[|s.heap| + i].v2 == r.adjacency[e.v1][i]) &&
    multiset(s.heap) <= multiset(r.heap) &&
    forall x :: x in r.heap ==> x in s.heap || (x.v1 == e.v1 && x.v2 in r.adjacency[e.v1])
  }

  /** `Contract` is such a contraction. */
  lemma ContractRewired(s: State, e: Entry, estimate: Estimator)
    requires Mergeable(s, e)
    ensures Rewired(s, e, Contract(s, e, estimate), MergedFaces(s, e.v1, e.v2), ExclusiveNeighbors(s, e.v1, e.v2))
  {
    ContractRewiresNeighbors(s, e, estimate);
    ContractRewiresFaces(s, e, estimate);
  }

  lemma ContractRewiresNeighbors(s: State, e: Entry, estimate: Estimator)
    requires Mergeable(s, e)
    ensures Shaped(Contract(s, e, estimate))
    ensures NeighborsRewired(s, e, Contract(s, e, estimate), ExclusiveNeighbors(s, e.v1, e.v2))
  {
    var v1, v2 := e.v1, e.v2;
    var r := Contract(s, e, estimate);
    forall x ensures x in r.adjacency[v1] ==> x in s.adjacency[v1] || x in s.adjacency[v2]
      ensures x in s.adjacency[v1] && x != v2 ==> x in r.adjacency[v1]
      ensures v1 != v2 && x in s.adjacency[v2] && x != v1 && x != v2 ==> x in r.adjacency[v1]
    {
      MergedNeighbors(s, v1, v2, x);
    }
  }

  lemma ContractRewiresFaces(s: State, e: Entry, estimate: Estimator)
    requires Mergeable(s, e)
    ensures Shaped(Contract(s, e, estimate))
    ensures FacesRewired(s, e, Contract(s, e, estimate), MergedFaces(s, e.v1, e.v2))
  {
    var v1, v2 := e.v1, e.v2;
    forall f ensures f in MergedFaces(s, v1, v2) <==> (f in s.vertexFaces[v1]) != (f in s.vertexFaces[v2]) {
      MergedFacesMembership(s, v1, v2, f);
    }
  }

  /** The corners of one face after a contraction. */
  lemma {:induction false} FaceAfter(s: State, e: Entry, r: State, own: seq<int>, exclusive: seq<int>, f: int)
    requires Shaped(s) && Endpoints(s, e) && InRange(s) && FacesIndexed(s) && s.liveVertices[e.v1]
    requires Rewired(s, e, r, own, exclusive) && 0 <= f < |r.faces| && r.liveFaces[f]
    ensures CornerIndexed(r, f, r.faces[f].a) && CornerIndexed(r, f, r.faces[f].b) && CornerIndexed(r, f, r.faces[f].c)
    ensures s.faces[f].Proper() ==> r.faces[f].Proper()
  {
    var v1, v2 := e.v1, e.v2;
    var face := s.faces[f];
    assert f in own <==> (f in s.vertexFaces[v1]) != (f in s.vertexFaces[v2]);
    assert s.liveFaces[f] && !(f in s.vertexFaces[v1] && f in s.vertexFaces[v2]);
    assert r.faces[f] == if f in own then face.Substitute(v2, v1) else face;
    assert CornerIndexed(s, f, face.a) && CornerIndexed(s, f, face.b) && CornerIndexed(s, f, face.c);
    forall c | r.faces[f].Has(c) ensures 0 <= c < |s.vertices| && CornerIndexed(r, f, c) {
      if f in own && c == v1 {
        assert v1 != v2;
      } else {
        assert face.Has(c) && c != v2;
        assert c != v1;
      }
    }
    if f in own && face.Has(v2) {
      assert !face.Has(v1);
    }
  }

  /** Index bounds survive a contraction. */
  lemma {:induction false} InRangeAfter(s: State, e: Entry, r: State, own: seq<int>, exclusive: seq<int>)
    requires Shaped(s) && Endpoints(s, e) && InRange(s) && Rewired(s, e, r, own, exclusive)
    ensures InRange(r)
  {
    var v1, v2 := e.v1, e.v2;
    var n := |s.vertices|;
    forall f | 0 <= f < |r.faces| ensures r.faces[f].IndexesBelow(n) {
      if f in own {
        assert s.faces[f].IndexesBelow(n);
      }
    }
    forall v, x | 0 <= v < n && x in r.adjacency[v] ensures 0 <= x < n {
      if v != v1 && v in exclusive {
        SubstituteFrom(s.adjacency[v], v2, v1, x);
      }
    }
  }

  /** Heap soundness survives a contraction. */
  lemma {:induction false} HeapSoundAfter(s: State, e: Entry, r: State, own: seq<int>, exclusive: seq<int>)
    requires Shaped(s) && Endpoints(s, e) && InRange(s) && HeapSound(s)
    requires Rewired(s, e, r, own, exclusive) && InRange(r)
    ensures HeapSound(r)
  {
    var v1, v2 := e.v1, e.v2;
    forall x | x in r.heap && r.liveVertices[x.v1] && r.liveVertices[x.v2]
      ensures x.v2 in r.adjacency[x.v1]
    {
      if x in s.heap {
        assert x.v2 in s.adjacency[x.v1] && x.v2 != v2;
        if x.v1 != v1 && x.v1 in exclusive {
          SubstituteKeeps(s.adjacency[x.v1], v2, v1, x.v2);
        }
      }
    }
  }

  /** The loop invariant survives a contraction. */
  lemma InvAfter(s: State, e: Entry, r: State, own: seq<int>, exclusive: seq<int>)
    requires Inv(s) && Endpoints(s, e) && s.liveVertices[e.v1] && Rewired(s, e, r, own, exclusive)
    ensures Inv(r)
  {
    InRangeAfter(s, e, r, own, exclusive);
    HeapSoundAfter(s, e, r, own, exclusive);
    forall f | 0 <= f < |r.faces| && r.liveFaces[f]
      ensures CornerIndexed(r, f, r.faces[f].a) && CornerIndexed(r, f, r.faces[f].b) && CornerIndexed(r, f, r.faces[f].c)
    {
      FaceAfter(s, e, r, own, exclusive, f);
    }
  }

  /** A contraction keeps the loop invariant. */
  lemma ContractPreservesInv(s: State, e: Entry, estimate: Estimator)
    requires Contractible(s, e)
    ensures Inv(Contract(s, e, estimate))
  {
    ContractRewired(s, e, estimate);
    InvAfter(s, e, Contract(s, e, estimate), MergedFaces(s, e.v1, e.v2), ExclusiveNeighbors(s, e.v1, e.v2));
  }

  /** A contraction lowers the live vertex count by exactly one. */
  lemma ContractLiveCount(s: State, e: Entry, estimate: Estimator)
    requires Mergeable(s, e) && s.liveVertices[e.v2]
    ensures LiveCount(Contract(s, e, estimate)) == LiveCount(s) - 1
  {
    CountTrueClear(s.liveVertices, e.v2);
  }

  /** A contraction never leaves a live face with two equal corners: a face
      holding both `v1` and `v2` is one of the shared faces it kills. */
  lemma ContractKeepsFacesProper(s: State, e: Entry, estimate: Estimator)
    requires Contractible(s, e) && LiveFacesProper(s)
    ensures LiveFacesProper(Contract(s, e, estimate))
  {
    var r := Contract(s, e, estimate);
    var own, exclusive := MergedFaces(s, e.v1, e.v2), ExclusiveNeighbors(s, e.v1, e.v2);
    ContractRewired(s, e, estimate);
    forall f | 0 <= f < |r.faces| && r.liveFaces[f] ensures r.faces[f].Proper() {
      FaceAfter(s, e, r, own, exclusive, f);
    }
  }

  /** `heapq.heappop(heap_cost)`: the least entry, and the state with only
      the heap changed. */
  function Popped(s: State): (r: (Entry, State))
    requires |s.heap| > 0
    ensures r.0 in s.heap && forall x :: x in s.heap ==> NotAfter(r.0, x)
    ensures r.1 == s.(heap := r.1.heap) && multiset(r.1.heap) == multiset(s.heap) - multiset{r.0}
  {
    var p := PopLeast(s.heap);
    (p.0, s.(heap := p.1))
  }

  /** Popping keeps the invariant, and the popped entry names two vertices. */
  lemma PopKeepsInv(s: State)
    requires Inv(s) && |s.heap| > 0
    ensures Inv(Popped(s).1) && Endpoints(s, Popped(s).0)
  {
    var r := Popped(s).1;
    forall x | x in r.heap ensures x in s.heap {
      assert multiset(r.heap)[x] > 0;
    }
  }

  /** One pass of the `while` body on a non-empty heap: pop the least entry,
      apply the three guards to it, and contract it when they all pass. */
  function Iterate(s: State, estimate: Estimator): (r: (State, Entry, Verdict))
    requires Inv(s) && |s.heap| > 0
    ensures Inv(r.0) && |r.0.vertices| == |s.vertices| && |r.0.faces| == |s.faces| && Endpoints(s, r.1)
    ensures r.1 in s.heap && forall x :: x in s.heap ==> NotAfter(r.1, x)
    ensures r.2 == Stale <==> !s.liveVertices[r.1.v1] || !s.liveVertices[r.1.v2]
    ensures r.2 != Accepted ==> r.0 == s.(heap := r.0.heap)
    ensures r.2 != Accepted ==> multiset(r.0.heap) == multiset(s.heap) - multiset{r.1} && |r.0.heap| == |s.heap| - 1
    ensures r.2 == Accepted ==> LiveCount(r.0) == LiveCount(s) - 1
    ensures r.2 == Accepted ==> !r.0.liveVertices[r.1.v2] && r.0.vertices[r.1.v1] == r.1.target
  {
    var (e, popped) := Popped(s);
    PopKeepsInv(s);
    var verdict := Judge(popped, e);
    if verdict == Accepted then
      ContractPreservesInv(popped, e, estimate);
      ContractLiveCount(popped, e, estimate);
      var r := Contract(popped, e, estimate);
      assert !r.liveVertices[e.v2] && r.vertices[e.v1] == e.target && |r.faces| == |s.faces|;
      (r, e, Accepted)
    else
      (popped, e, verdict)
  }

  /** A pass that contracts: the popped entry passes the guards on the
      popped state and the pass is that contraction. */
  lemma IterateAccepted(s: State, estimate: Estimator)
    requires Inv(s) && |s.heap| > 0 && Judge(Popped(s).1, Popped(s).0) == Accepted
    ensures Inv(Popped(s).1) && Contractible(Popped(s).1, Popped(s).0)
    ensures Iterate(s, estimate) == (Contract(Popped(s).1, Popped(s).0, estimate), Popped(s).0, Accepted)
  {
    PopKeepsInv(s);
  }

  /** A pass that drops its entry changes only the heap. */
  lemma IterateDropped(s: State, estimate: Estimator)
    requires Inv(s) && |s.heap| > 0 && Judge(Popped(s).1, Popped(s).0) != Accepted
    ensures Inv(Popped(s).1) && Endpoints(s, Popped(s).0)
    ensures Iterate(s, estimate) == (Popped(s).1, Popped(s).0, Judge(Popped(s).1, Popped(s).0))
  {
    PopKeepsInv(s);
  }

  /** A pass never leaves a live face with two equal corners. */
  lemma IterateKeepsFacesProper(s: State, estimate: Estimator)
    requires Inv(s) && |s.heap| > 0 && LiveFacesProper(s)
    ensures LiveFacesProper(Iterate(s, estimate).0)
  {
    var (e, popped) := Popped(s);
    PopKeepsInv(s);
    if Judge(popped, e) == Accepted {
      ContractKeepsFacesProper(popped, e, estimate);
    }
  }

  /** `while np.sum(vertices_mask) > target_vertex_count`, stopping early
      when the heap is empty. */
  function Simplify(s: State, target: int, estimate: Estimator): (r: State)
    requires Inv(s)
    ensures Inv(r) && |r.vertices| == |s.vertices| && |r.faces| == |s.faces|
    ensures LiveCount(r) <= LiveCount(s)
    ensures LiveCount(s) <= target ==> r == s
    ensures LiveCount(s) > target ==> LiveCount(r) == target || (LiveCount(r) > target && r.heap == [])
    decreases LiveCount(s), |s.heap|
  {
    if LiveCount(s) <= target || s.heap == [] then s
    else Simplify(Iterate(s, estimate).0, target, estimate)
  }

  /** The loop never leaves a live face with two equal corners. */
  lemma {:induction false} SimplifyKeepsFacesProper(s: State, target: int, estimate: Estimator)
    requires Inv(s) && LiveFacesProper(s)
    ensures LiveFacesProper(Simplify(s, target, estimate))
    decreases LiveCount(s), |s.heap|
  {
    if LiveCount(s) > target && s.heap != [] {
      IterateKeepsFacesProper(s, estimate);
      SimplifyKeepsFacesProper(Iterate(s, estimate).0, target, estimate);
    }
  }

  /** `np.ones(n, dtype=bool)`. */
  function AllLive(n: nat): (mask: seq<bool>)
    ensures |mask| == n && forall i :: 0 <= i < n ==> mask[i]
  {
    seq(n, _ => true)
  }

  /** The heap entries for the initial edge rows, in edge order
      (`heapify` is not modelled: the heap is a bag). */
  function Seed(edges: seq<Edge>, estimate: Estimator): (r: seq<Entry>)
    ensures |r| == |edges|
    ensures forall i :: 0 <= i < |edges| ==> r[i].v1 == edges[i].u && r[i].v2 == edges[i].v
  {
    seq(|edges|, i requires 0 <= i < |edges| => Propose(estimate, 0, edges[i].u, edges[i].v))
  }

  /** The state before the loop: everything live, the connectivity of the
      input mesh, one entry per edge row. */
  function Initial(m: Mesh<Point>, estimate: Estimator): State
  {
    State(m.vertices, m.faces, AllLive(|m.vertices|), AllLive(|m.faces|),
      NeighborLists(m), FaceLists(m), Seed(Edges(m), estimate), 0)
  }

  /** A vertex listed as `v`'s neighbour closes an edge row `(v, x)`. */
  lemma TargetIsEdge<V>(m: Mesh<V>, v: int, x: int)
    requires WellFormed(m) && x in Targets(Edges(m), v)
    ensures Edge(v, x) in Edges(m) && 0 <= v < |m.vertices| && 0 <= x < |m.vertices|
  {
    assert x in multiset(Targets(Edges(m), v));
    TargetsCount(Edges(m), v, x);
    assert Edge(v, x) in multiset(Edges(m));
    EdgeEndpointsBelow(m, Edge(v, x));
  }

  /** Every edge row `(u, v)` lists `v` as a neighbour of `u`. */
  lemma EdgeIsTarget<V>(m: Mesh<V>, e: Edge)
    requires WellFormed(m) && e in Edges(m)
    ensures e.v in Targets(Edges(m), e.u) && 0 <= e.u < |m.vertices| && 0 <= e.v < |m.vertices|
  {
    EdgeEndpointsBelow(m, e);
    TargetsCount(Edges(m), e.u, e.v);
    assert e in multiset(Edges(m));
    assert e.v in multiset(Targets(Edges(m), e.u));
  }

  /** Every corner of a face lists that face. */
  lemma CornerListsFace(faces: seq<Face>, f: int, c: int)
    requires 0 <= f < |faces| && faces[f].Has(c)
    ensures f in IncidentFaces(faces, c)
  {
    IncidentCount(faces, c, f);
    assert f in multiset(IncidentFaces(faces, c));
  }

  /** The loop starts in a state that satisfies its invariant, with every
      vertex live. */
  lemma InitialInv(m: Mesh<Point>, estimate: Estimator)
    requires WellFormed(m)
    ensures Inv(Initial(m, estimate)) && LiveCount(Initial(m, estimate)) == |m.vertices|
  {
    var s := Initial(m, estimate);
    CountTrueAll(s.liveVertices);
    InitialLists(m, estimate);
    forall f, c | 0 <= f < |s.faces| && s.faces[f].Has(c)
      ensures 0 <= c < |s.vertices| && CornerIndexed(s, f, c)
    {
      CornerListsFace(m.faces, f, c);
    }
  }

  lemma InitialLists(m: Mesh<Point>, estimate: Estimator)
    requires WellFormed(m)
    ensures Shaped(Initial(m, estimate)) && InRange(Initial(m, estimate)) && HeapSound(Initial(m, estimate))
  {
    var s := Initial(m, estimate);
    var edges := Edges(m);
    forall v, x | 0 <= v < |s.adjacency| && x in s.adjacency[v] ensures 0 <= x < |s.vertices| {
      TargetIsEdge(m, v, x);
    }
    forall v, f | 0 <= v < |s.vertexFaces| && f in s.vertexFaces[v] ensures 0 <= f < |s.faces| {
      IncidentAscending(m.faces, v);
    }
    forall x | x in s.heap
      ensures 0 <= x.v1 < |s.vertices| && 0 <= x.v2 < |s.vertices| && x.v2 in s.adjacency[x.v1]
    {
      var i :| 0 <= i < |s.heap| && s.heap[i] == x;
      EdgeIsTarget(m, edges[i]);
    }
  }

  /** The state the loop of `quadric_edge_collapse_decimation` ends in. */
  function Final(m: Mesh<Point>, target: int, estimate: Estimator): (s: State)
    requires WellFormed(m)
    ensures Inv(s) && |s.vertices| == |m.vertices| && |s.faces| == |m.faces|
    ensures LiveCount(s) <= |m.vertices|
    ensures |m.vertices| <= target ==> s == Initial(m, estimate)
    ensures |m.vertices| > target ==> LiveCount(s) >= target
    ensures |m.vertices| > target ==> LiveCount(s) == target || s.heap == []
  {
    InitialInv(m, estimate);
    Simplify(Initial(m, estimate), target, estimate)
  }

  /** `quadric_edge_collapse_decimation(mesh, target_vertex_count)`, with
      the quadric arithmetic supplied by `estimate`. */
  function Decimation(m: Mesh<Point>, target: int, estimate: Estimator): Mesh<Point>
    requires WellFormed(m)
  {
    var s := Final(m, target, estimate);
    RebuildMesh(s.vertices, s.liveVertices, s.faces, s.liveFaces)
  }

  /** The decimated mesh is well formed, has at most as many vertices and
      faces as the input and, when the input had more than `target`
      vertices, exactly `target` of them unless the heap ran out first (and
      then more). */
  lemma DecimationResult(m: Mesh<Point>, target: int, estimate: Estimator)
    requires WellFormed(m)
    ensures WellFormed(Decimation(m, target, estimate))
    ensures |Decimation(m, target, estimate).vertices| <= |m.vertices|
    ensures |Decimation(m, target, estimate).faces| <= |m.faces|
    ensures |m.vertices| > target ==> |Decimation(m, target, estimate).vertices| >= target
    ensures |m.vertices| > target ==>
      |Decimation(m, target, estimate).vertices| == target || Final(m, target, estimate).heap == []
  {
    RebuildFinal(Final(m, target, estimate));
  }

  /** An input at or under the target comes back unchanged. */
  lemma DecimationUnchanged(m: Mesh<Point>, target: int, estimate: Estimator)
    requires WellFormed(m) && |m.vertices| <= target
    ensures Decimation(m, target, estimate) == m
  {
    var s := Final(m, target, estimate);
    RebuildUnchanged(m.vertices, s.liveVertices, m.faces, s.liveFaces);
  }

  /** Faces with three distinct corners stay so through decimation. */
  lemma DecimationKeepsFacesProper(m: Mesh<Point>, target: int, estimate: Estimator)
    requires WellFormed(m) && forall f :: 0 <= f < |m.faces| ==> m.faces[f].Proper()
    ensures forall k :: 0 <= k < |Decimation(m, target, estimate).faces| ==> Decimation(m, target, estimate).faces[k].Proper()
  {
    InitialInv(m, estimate);
    SimplifyKeepsFacesProper(Initial(m, estimate), target, estimate);
    RebuildFinal(Final(m, target, estimate));
  }

  /** Compacting a state that satisfies the invariant gives a well-formed
      mesh, whose faces have distinct corners when the live faces did. */
  lemma RebuildFinal(s: State)
    requires Inv(s)
    ensures WellFormed(RebuildMesh(s.vertices, s.liveVertices, s.faces, s.liveFaces))
    ensures LiveFacesProper(s) ==> forall k :: 0 <= k < |RebuildMesh(s.vertices, s.liveVertices, s.faces, s.liveFaces).faces| ==>
      RebuildMesh(s.vertices, s.liveVertices, s.faces, s.liveFaces).faces[k].Proper()
  {
    forall f | 0 <= f < |s.faces| && s.liveFaces[f]
      ensures s.liveVertices[s.faces[f].a] && s.liveVertices[s.faces[f].b] && s.liveVertices[s.faces[f].c]
    {
      assert CornerIndexed(s, f, s.faces[f].a) && CornerIndexed(s, f, s.faces[f].b) && CornerIndexed(s, f, s.faces[f].c);
    }
    RebuildWellFormed(s.vertices, s.liveVertices, s.faces, s.liveFaces);
  }
}
