/** The list updates of one pass of the contraction loop, as the
    program computes them: the heap is grown by `heappush` one entry at a
    time, and the adjacency and face lists are edited with `remove`,
    `extend` and per-list substitutions. Each method is proved to compute
    the corresponding function of `Collapse`. */
module Rewiring {
  import opened Lists
  import opened MeshTopology
  import opened Scheduler
  import opened Collapse

  /** The re-seeding loop after a contraction: one `heappush` of `(cost, v_bar, [v1, w])` per
      neighbour `w` of `v1`, with the quadrics of generation `generation`. */
  method PushNeighbors(heap: seq<Entry>, estimate: Estimator, generation: nat, v1: int, neighbors: seq<int>)
    returns (pushed: seq<Entry>)
    ensures pushed == heap + Proposals(estimate, generation, v1, neighbors)
  {
    pushed := heap;
    for j := 0 to |neighbors|
      invariant pushed == heap + Proposals(estimate, generation, v1, neighbors[..j])
    {
      pushed := pushed + [Propose(estimate, generation, v1, neighbors[j])];
      assert Proposals(estimate, generation, v1, neighbors[..j + 1]) ==
        Proposals(estimate, generation, v1, neighbors[..j]) + [Propose(estimate, generation, v1, neighbors[j])];
    }
    assert neighbors[..|neighbors|] == neighbors;
  }

  /** The list and heap updates of a contraction: the new adjacency lists, the new face
      list of `v1` and the heap with `v1`'s new pairs pushed, computed from
      the current lists; storing them is the contraction of `e`. */
  method ContractLists(ghost s: State, e: Entry, estimate: Estimator, lists: seq<seq<int>>, faceLists: seq<seq<int>>,
    heap: seq<Entry>, generation: nat, shared: seq<int>, sharedFaces: seq<int>)
    returns (merged: seq<seq<int>>, own: seq<int>, pushed: seq<Entry>)
    requires Mergeable(s, e) && lists == s.adjacency && faceLists == s.vertexFaces
    requires heap == s.heap && generation == s.generation
    requires forall x :: x in ExclusiveNeighbors(s, e.v1, e.v2) ==> 0 <= x < |s.adjacency|
    requires shared == SharedNeighbors(s, e.v1, e.v2) && sharedFaces == SharedFaces(s, e.v1, e.v2)
    ensures own == MergedFaces(s, e.v1, e.v2)
    ensures Contracted(s, e, sharedFaces, merged, own, pushed) == Contract(s, e, estimate)
  {
    merged := MergeNeighbors(s, lists, e.v1, e.v2, shared);
    own := MergeFaceLists(s, faceLists, e.v1, e.v2, sharedFaces);
    pushed := PushNeighbors(heap, estimate, generation + 1, e.v1, merged[e.v1]);
    PushedIs(s, e, estimate, merged, heap, generation);
    ContractIs(s, e, estimate, sharedFaces, merged, own, pushed);
  }

  /** The pushes onto the current heap, with the next generation, are the
      heap a contraction leaves. */
  lemma PushedIs(s: State, e: Entry, estimate: Estimator, merged: seq<seq<int>>, heap: seq<Entry>, generation: nat)
    requires heap == s.heap && generation == s.generation && 0 <= e.v1 < |merged|
    ensures heap + Proposals(estimate, generation + 1, e.v1, merged[e.v1]) == Pushed(s, e, estimate, merged)
  {
  }

  /** A state whose every part is what a contraction of `e` makes of the
      corresponding part of `s` is that contraction. */
  lemma ContractIs(s: State, e: Entry, estimate: Estimator, sharedFaces: seq<int>, merged: seq<seq<int>>, own: seq<int>,
    pushed: seq<Entry>)
    requires Mergeable(s, e) && sharedFaces == SharedFaces(s, e.v1, e.v2)
    requires merged == MergedAdjacency(s, e.v1, e.v2) && own == MergedFaces(s, e.v1, e.v2)
    requires pushed == Pushed(s, e, estimate, merged)
    ensures Contracted(s, e, sharedFaces, merged, own, pushed) == Contract(s, e, estimate)
  {
  }

  /** The seeding loop over `mesh.edges`: one entry per edge row, in edge order, with the initial
      quadrics. */
  method SeedHeap(edges: seq<Edge>, estimate: Estimator) returns (heap: seq<Entry>)
    ensures heap == Seed(edges, estimate)
  {
    heap := [];
    for i := 0 to |edges|
      invariant heap == Seed(edges[..i], estimate)
    {
      heap := heap + [Propose(estimate, 0, edges[i].u, edges[i].v)];
      assert Seed(edges[..i + 1], estimate) == Seed(edges[..i], estimate) + [Propose(estimate, 0, edges[i].u, edges[i].v)];
    }
    assert edges[..|edges|] == edges;
  }

  /** The adjacency update of a contraction: `v1` drops `v2` and takes `v2`'s exclusive
      neighbours, whose lists then name `v1` for `v2`. */
  method MergeNeighbors(ghost s: State, lists: seq<seq<int>>, v1: int, v2: int, shared: seq<int>)
    returns (adjacency: seq<seq<int>>)
    requires lists == s.adjacency && Shaped(s) && 0 <= v1 < |s.vertices| && 0 <= v2 < |s.vertices| && v2 in s.adjacency[v1]
    requires forall x :: x in ExclusiveNeighbors(s, v1, v2) ==> 0 <= x < |s.adjacency|
    requires shared == SharedNeighbors(s, v1, v2)
    ensures adjacency == MergedAdjacency(s, v1, v2)
  {
    adjacency := lists[v1 := RemoveFirst(lists[v1], v2)];
    var exclusive := Without(adjacency[v2], [v1] + shared);
    assert exclusive == ExclusiveNeighbors(s, v1, v2);
    adjacency := adjacency[v1 := adjacency[v1] + exclusive];
    adjacency := SubstituteNeighbors(adjacency, exclusive, v1, v2);
  }

  /** The face-list update of a contraction: `v1`'s face list takes `v2`'s exclusive faces and
      drops one occurrence of each shared face. */
  method MergeFaceLists(ghost s: State, lists: seq<seq<int>>, v1: int, v2: int, sharedFaces: seq<int>)
    returns (own: seq<int>)
    requires lists == s.vertexFaces && Shaped(s) && 0 <= v1 < |s.vertices| && 0 <= v2 < |s.vertices|
    requires sharedFaces == SharedFaces(s, v1, v2)
    ensures own == MergedFaces(s, v1, v2)
  {
    var exclusiveFaces := Without(lists[v2], sharedFaces);
    var grown := lists[v1] + exclusiveFaces;
    assert multiset(sharedFaces) <= multiset(grown) by {
      forall x ensures multiset(sharedFaces)[x] <= multiset(grown)[x] { }
    }
    own := RemoveAll(grown, sharedFaces);
  }

  /** The rewrite loop over `v_2_exclusive_neighbors`: in the list of every exclusive neighbour, `v2` becomes `v1`. */
  method SubstituteNeighbors(lists: seq<seq<int>>, exclusive: seq<int>, v1: int, v2: int) returns (r: seq<seq<int>>)
    requires forall x :: x in exclusive ==> 0 <= x < |lists|
    ensures |r| == |lists|
    ensures forall v :: 0 <= v < |r| ==> r[v] == if v in exclusive then Substitute(lists[v], v2, v1) else lists[v]
  {
    r := lists;
    for j := 0 to |exclusive|
      invariant |r| == |lists|
      invariant forall v :: 0 <= v < |r| ==> r[v] == if v in exclusive[..j] then Substitute(lists[v], v2, v1) else lists[v]
    {
      var x := exclusive[j];
      assert x in exclusive;
      SubstituteTwice(lists[x], v2, v1);
      r := r[x := Substitute(r[x], v2, v1)];
      assert exclusive[..j + 1] == exclusive[..j] + [x];
    }
    assert exclusive[..|exclusive|] == exclusive;
  }

  /** The loop `for f in shared_faces`: `for f in ys: xs.remove(f)`. */
  method RemoveAll(xs: seq<int>, ys: seq<int>) returns (r: seq<int>)
    requires multiset(ys) <= multiset(xs)
    ensures r == RemoveEach(xs, ys)
  {
    r := xs;
    for j := 0 to |ys|
      invariant multiset(ys[j..]) <= multiset(r)
      invariant RemoveEach(r, ys[j..]) == RemoveEach(xs, ys)
    {
      RemoveEachStep(r, ys[j..]);
      assert ys[j..][1..] == ys[j + 1..];
      r := RemoveFirst(r, ys[j]);
    }
  }

  /** Removing the first element of `ys` is the first step of removing them all. */
  lemma RemoveEachStep(r: seq<int>, ys: seq<int>)
    requires |ys| > 0 && multiset(ys) <= multiset(r)
    ensures ys[0] in r && multiset(ys[1..]) <= multiset(RemoveFirst(r, ys[0]))
    ensures RemoveEach(RemoveFirst(r, ys[0]), ys[1..]) == RemoveEach(r, ys)
  {
    assert ys == [ys[0]] + ys[1..];
    assert ys[0] in multiset(r);
  }
}
