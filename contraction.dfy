/** The contraction loop of `quadric_edge_collapse_decimation` as the
    program runs it: the mesh's vertex and face arrays are updated in
    place, the masks are boolean arrays, and the adjacency lists, face
    lists and heap list are reassigned step by step. Each method is proved
    to do what the value-level transition of `Collapse` describes. */
module Contraction {
  import opened Lists
  import opened MeshTopology
  import opened Scheduler
  import opened Compaction
  import opened Collapse
  import opened Rewiring

  /** The local variables of `quadric_edge_collapse_decimation` during
      the loop. `vertices` and `faces` are the input mesh's own arrays. */
  class Decimator {
    const estimate: Estimator
    const vertices: array<Point>
    const faces: array<Face>
    const verticesMask: array<bool>
    const facesMask: array<bool>
    var adjacency: seq<seq<int>>
    var vertexFaces: seq<seq<int>>
    var heap: seq<Entry>
    var generation: nat

    /** The loop state as a value. */
    ghost function Snap(): State
      reads this, vertices, faces, verticesMask, facesMask
    {
      State(vertices[..], faces[..], verticesMask[..], facesMask[..], adjacency, vertexFaces, heap, generation)
    }

    ghost predicate Valid()
      reads this, vertices, faces, verticesMask, facesMask
    {
      verticesMask != facesMask && Inv(Snap())
    }

    /** The set-up of `quadric_edge_collapse_decimation`: take the mesh's arrays and connectivity, mark
        everything live and push one entry per edge row. */
    constructor (vertices: array<Point>, faces: array<Face>, estimate: Estimator)
      requires WellFormed(Mesh(vertices[..], faces[..]))
      ensures this.vertices == vertices && this.faces == faces && this.estimate == estimate
      ensures fresh(verticesMask) && fresh(facesMask)
      ensures Valid() && Snap() == Initial(Mesh(vertices[..], faces[..]), estimate)
    {
      var liveVertices := LiveMask(vertices.Length);
      var liveFaces := LiveMask(faces.Length);
      this.estimate := estimate;
      this.vertices := vertices;
      this.faces := faces;
      verticesMask := liveVertices;
      facesMask := liveFaces;
      var neighbors, incident, seeded := Connectivity(Mesh(vertices[..], faces[..]), estimate);
      adjacency := neighbors;
      vertexFaces := incident;
      heap := seeded;
      generation := 0;
      new;
      InitialInv(Mesh(vertices[..], faces[..]), estimate);
    }

    /** One pass of the loop body on a non-empty heap; the verdict says
        which `continue` was taken, or that the pair was contracted. */
    method Step() returns (verdict: Verdict)
      requires Valid() && |heap| > 0
      modifies this, vertices, faces, verticesMask, facesMask
      ensures Valid()
      ensures Snap() == Iterate(old(Snap()), estimate).0
      ensures verdict == Iterate(old(Snap()), estimate).2
    {
      ghost var s := Snap();
      PopKeepsInv(s);
      var popped := PopLeast(heap);
      var e := popped.0;
      heap := popped.1;
      assert Snap() == Popped(s).1 && e == Popped(s).0;
      ghost var judged := Judge(Snap(), e);
      if judged != Accepted {
        IterateDropped(s, estimate);
      }
      if !verticesMask[e.v1] || !verticesMask[e.v2] {
        return Stale;
      }
      var shared := Common(adjacency[e.v1], adjacency[e.v2]);
      if |shared| != 2 {
        return NonManifold;
      }
      var sharedFaces := Common(vertexFaces[e.v1], vertexFaces[e.v2]);
      if |sharedFaces| != 2 {
        return Boundary;
      }
      IterateAccepted(s, estimate);
      ContractPreservesInv(Snap(), e, estimate);
      MergedBelow(Snap(), e.v1, e.v2);
      ContractPair(Snap(), e, shared, sharedFaces);
      verdict := Accepted;
    }

    /** The contraction of `quadric_edge_collapse_decimation`, from
        `vertices[id_v_1] = v_bar` to the last `heappush`, for a pair that
        passed the guards. The list updates
        are computed first and the arrays updated after; the two touch
        disjoint state, so the order is immaterial. */
    method ContractPair(ghost s: State, e: Entry, shared: seq<int>, sharedFaces: seq<int>)
      requires s == Snap() && verticesMask != facesMask && Mergeable(s, e)
      requires forall x :: x in ExclusiveNeighbors(s, e.v1, e.v2) ==> 0 <= x < |s.adjacency|
      requires forall f :: f in MergedFaces(s, e.v1, e.v2) ==> 0 <= f < |s.faces|
      requires shared == SharedNeighbors(s, e.v1, e.v2) && sharedFaces == SharedFaces(s, e.v1, e.v2)
      modifies this, vertices, faces, verticesMask, facesMask
      ensures Snap() == Contract(s, e, estimate)
    {
      var merged, own, pushed := ContractLists(s, e, estimate, adjacency, vertexFaces, heap, generation, shared, sharedFaces);
      Apply(s, e, sharedFaces, merged, own, pushed);
    }

    /** Stores a contraction whose new lists and heap are already computed. */
    method Apply(ghost s: State, e: Entry, sharedFaces: seq<int>, merged: seq<seq<int>>, own: seq<int>, pushed: seq<Entry>)
      requires s == Snap() && verticesMask != facesMask && Shaped(s) && Endpoints(s, e)
      requires forall f :: f in own ==> 0 <= f < |s.faces|
      modifies this, vertices, faces, verticesMask, facesMask
      ensures Snap() == Contracted(s, e, sharedFaces, merged, own, pushed)
    {
      UpdateArrays(s, e, sharedFaces, own);
      adjacency, vertexFaces, heap, generation := merged, vertexFaces[e.v1 := own], pushed, generation + 1;
    }

    /** The in-place array writes of a contraction: move `v1` to `v_bar`, clear the mask bits
        of `v2` and of the shared faces, and rewrite `v2` to `v1` in each
        face of `v1`'s new face list. */
    method UpdateArrays(ghost s: State, e: Entry, sharedFaces: seq<int>, own: seq<int>)
      requires Shaped(s) && Endpoints(s, e) && s == Snap() && verticesMask != facesMask
      requires forall f :: f in own ==> 0 <= f < |s.faces|
      modifies vertices, faces, verticesMask, facesMask
      ensures vertices[..] == s.vertices[e.v1 := e.target]
      ensures verticesMask[..] == s.liveVertices[e.v2 := false]
      ensures facesMask[..] == Killed(s.liveFaces, sharedFaces)
      ensures faces[..] == Rewritten(s.faces, own, e.v2, e.v1)
    {
      vertices[e.v1] := e.target;
      verticesMask[e.v2] := false;
      forall f | 0 <= f < facesMask.Length && f in sharedFaces {
        facesMask[f] := false;
      }
      RewriteFaces(s, own, e.v1, e.v2);
      assert faces[..] == Rewritten(s.faces, own, e.v2, e.v1);
      assert facesMask[..] == Killed(s.liveFaces, sharedFaces);
    }

    /** The face rewrite loop of a contraction: `faces[id_f] = [v1 if v == v2 else v for v in
        faces[id_f]]` for each face in `own`, in order. */
    method RewriteFaces(ghost s: State, own: seq<int>, v1: int, v2: int)
      requires Shaped(s) && faces[..] == s.faces
      requires forall f :: f in own ==> 0 <= f < faces.Length
      modifies faces
      ensures forall f :: 0 <= f < faces.Length ==>
        faces[f] == if f in own then s.faces[f].Substitute(v2, v1) else s.faces[f]
    {
      for j := 0 to |own|
        invariant forall f :: 0 <= f < faces.Length ==>
          faces[f] == if f in own[..j] then s.faces[f].Substitute(v2, v1) else s.faces[f]
      {
        var f := own[j];
        assert f in own;
        faces[f] := faces[f].Substitute(v2, v1);
        assert own[..j + 1] == own[..j] + [f];
      }
      assert own[..|own|] == own;
    }

    /** The main loop of `quadric_edge_collapse_decimation`: `while np.sum(vertices_mask) > target_vertex_count`,
        breaking when the heap is empty. */
    method Run(target: int)
      requires Valid()
      modifies this, vertices, faces, verticesMask, facesMask
      ensures Valid() && Snap() == Simplify(old(Snap()), target, estimate)
    {
      while CountTrue(verticesMask[..]) > target
        invariant Valid()
        invariant Simplify(Snap(), target, estimate) == Simplify(old(Snap()), target, estimate)
        decreases LiveCount(Snap()), |heap|
      {
        if |heap| == 0 {
          break;
        }
        var _ := Step();
      }
    }
  }

  /** `vertices_mask` and `faces_mask`: `np.ones(n, dtype=bool)`. */
  method LiveMask(n: nat) returns (mask: array<bool>)
    ensures fresh(mask) && mask[..] == AllLive(n)
  {
    mask := new bool[n](_ => true);
  }

  /** The set-up before the main loop: the mesh's adjacency and face lists
      and one heap entry per edge row. */
  method Connectivity(m: Mesh<Point>, estimate: Estimator) returns (neighbors: seq<seq<int>>, incident: seq<seq<int>>,
    seeded: seq<Entry>)
    requires WellFormed(m)
    ensures neighbors == NeighborLists(m) && incident == FaceLists(m) && seeded == Seed(Edges(m), estimate)
  {
    neighbors := VerticesAdjacency(m);
    incident := VerticesFaces(m);
    seeded := SeedHeap(Edges(m), estimate);
  }

  /** `quadric_edge_collapse_decimation(mesh, target_vertex_count)` on the
      mesh's arrays, which it leaves holding the final loop state. The
      adjacency and face lists are derived afresh from the arrays, as on a
      mesh whose cached lists have not been read yet. */
  method QuadricEdgeCollapseDecimation(vertices: array<Point>, faces: array<Face>, target: int, estimate: Estimator)
    returns (r: Mesh<Point>)
    requires WellFormed(Mesh(vertices[..], faces[..]))
    modifies vertices, faces
    ensures r == Decimation(Mesh(old(vertices[..]), old(faces[..])), target, estimate)
    ensures vertices[..] == Final(Mesh(old(vertices[..]), old(faces[..])), target, estimate).vertices
    ensures faces[..] == Final(Mesh(old(vertices[..]), old(faces[..])), target, estimate).faces
  {
    var d := new Decimator(vertices, faces, estimate);
    d.Run(target);
    r := RebuildMesh(vertices[..], d.verticesMask[..], faces[..], d.facesMask[..]);
  }
}
