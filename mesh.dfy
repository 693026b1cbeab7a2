/** A triangular mesh (vertex array, m x 3 face index array) and the
    connectivity derived from it once: counts, the directed edges of every
    face, the sorted distinct directed edge list, the one-directional
    vertex adjacency and the vertex-to-face lists. */
module MeshTopology {
  import opened Lists

  /** A row `[a, b, c]` of the face index array. */
  datatype Face = Face(a: int, b: int, c: int) {

    function Corners(): seq<int> { [a, b, c] }

    /** How many corners of the face are the vertex `v`. */
    function CornerCount(v: int): nat
    {
      (if a == v then 1 else 0) + (if b == v then 1 else 0) + (if c == v then 1 else 0)
    }

    predicate Has(v: int) { a == v || b == v || c == v }

    /** Three pairwise distinct corners. */
    predicate Proper() { a != b && b != c && a != c }

    predicate IndexesBelow(n: int) { 0 <= a < n && 0 <= b < n && 0 <= c < n }

    /** `[to if v == from else v for v in face]`. */
    function Substitute(from: int, to: int): (f: Face)
      ensures from != to ==> !f.Has(from)
      ensures forall v :: f.Has(v) ==> v == to || (Has(v) && v != from)
    {
      Face(if a == from then to else a, if b == from then to else b, if c == from then to else c)
    }
  }

  /** A row `[u, v]` of an edge array: a directed edge from `u` to `v`. */
  datatype Edge = Edge(u: int, v: int)

  /** `Mesh(vertices, faces)`; the vertex type is left open. */
  datatype Mesh<V> = Mesh(vertices: seq<V>, faces: seq<Face>)

  function VerticesNumber<V>(m: Mesh<V>): nat { |m.vertices| }

  function FacesNumber<V>(m: Mesh<V>): nat { |m.faces| }

  /** Every face index refers to a vertex of the mesh. */
  predicate WellFormed<V>(m: Mesh<V>)
  {
    forall i :: 0 <= i < |m.faces| ==> m.faces[i].IndexesBelow(|m.vertices|)
  }

  /** The three directed edges of one face, in the order (a,b), (b,c), (c,a). */
  function FaceEdges(f: Face): seq<Edge>
  {
    [Edge(f.a, f.b), Edge(f.b, f.c), Edge(f.c, f.a)]
  }

  /** `faces[:, [0, 1, 1, 2, 2, 0]].reshape((-1, 2))`. */
  function FacesEdges(faces: seq<Face>): (r: seq<Edge>)
    ensures |r| == 3 * |faces|
    ensures forall i :: 0 <= i < |faces| ==>
      r[3 * i] == Edge(faces[i].a, faces[i].b) &&
      r[3 * i + 1] == Edge(faces[i].b, faces[i].c) &&
      r[3 * i + 2] == Edge(faces[i].c, faces[i].a)
  {
    if faces == [] then [] else FacesEdges(faces[..|faces| - 1]) + FaceEdges(faces[|faces| - 1])
  }

  /** Every row of `FacesEdges` joins two corners of one face. */
  lemma {:induction false} FacesEdgesFrom(faces: seq<Face>, e: Edge)
    requires e in FacesEdges(faces)
    ensures exists i :: 0 <= i < |faces| && faces[i].Has(e.u) && faces[i].Has(e.v)
  {
    var r := FacesEdges(faces);
    var k :| 0 <= k < |r| && r[k] == e;
    var i := k / 3;
    assert k == 3 * i || k == 3 * i + 1 || k == 3 * i + 2;
    assert faces[i].Has(e.u) && faces[i].Has(e.v);
  }

  /** The lexicographic order of edge rows used by `np.unique(..., axis=0)`. */
  predicate EdgeBefore(x: Edge, y: Edge)
  {
    x.u < y.u || (x.u == y.u && x.v < y.v)
  }

  predicate StrictlySorted(s: seq<Edge>)
  {
    forall i, j :: 0 <= i < j < |s| ==> EdgeBefore(s[i], s[j])
  }

  /** Inserts a row into a strictly sorted list of rows, unless present. */
  function Insert(s: seq<Edge>, e: Edge): (r: seq<Edge>)
    requires StrictlySorted(s)
    ensures StrictlySorted(r)
    ensures forall x :: x in r <==> x in s || x == e
  {
    if s == [] then [e]
    else if e == s[0] then s
    else if EdgeBefore(e, s[0]) then [e] + s
    else
      var rest := Insert(s[1..], e);
      assert forall x :: x in rest ==> EdgeBefore(s[0], x);
      [s[0]] + rest
  }

  /** The distinct rows of `s` in sorted order. */
  function Unique(s: seq<Edge>): (r: seq<Edge>)
    ensures StrictlySorted(r)
    ensures forall x :: x in r <==> x in s
  {
    if s == [] then []
    else
      var rest := Unique(s[..|s| - 1]);
      assert forall x :: x in s <==> x in s[..|s| - 1] || x == s[|s| - 1];
      Insert(rest, s[|s| - 1])
  }

  /** A strictly sorted list of rows is determined by the set of its rows,
      so `Unique` computes exactly what `np.unique` returns. */
  lemma {:induction false} SortedRowsDetermined(s: seq<Edge>, t: seq<Edge>)
    requires StrictlySorted(s) && StrictlySorted(t)
    requires forall x :: x in s <==> x in t
    ensures s == t
  {
    if s != [] { assert s[0] in t; }
    if t != [] { assert t[0] in s; }
    if s != [] && t != [] {
      var i :| 0 <= i < |s| && s[i] == t[0];
      var j :| 0 <= j < |t| && t[j] == s[0];
      assert s[0] == t[0] by {
        if i > 0 && j > 0 {
          assert false;
        }
      }
      assert s == [s[0]] + s[1..] && t == [t[0]] + t[1..];
      forall x ensures x in s[1..] <==> x in t[1..] {
        if x in s[1..] {
          var k :| 1 <= k < |s| && s[k] == x;
          assert EdgeBefore(s[0], s[k]);
          assert x != t[0] && x in s && x in t;
        }
        if x in t[1..] {
          var k :| 1 <= k < |t| && t[k] == x;
          assert EdgeBefore(t[0], t[k]);
          assert x != s[0] && x in t && x in s;
        }
      }
      SortedRowsDetermined(s[1..], t[1..]);
    }
  }

  /** `np.unique(faces_edges, axis=0)`: the distinct directed edges, sorted.
      `(a, b)` and `(b, a)` are different rows and both stay. */
  function Edges<V>(m: Mesh<V>): (r: seq<Edge>)
    ensures StrictlySorted(r)
    ensures forall e :: e in r <==> e in FacesEdges(m.faces)
  {
    Unique(FacesEdges(m.faces))
  }

  /** Both endpoints of every edge of a well-formed mesh are vertices. */
  lemma EdgeEndpointsBelow<V>(m: Mesh<V>, e: Edge)
    requires WellFormed(m) && e in Edges(m)
    ensures 0 <= e.u < |m.vertices| && 0 <= e.v < |m.vertices|
  {
    FacesEdgesFrom(m.faces, e);
  }

  /** The targets of the edges leaving `v`, in edge order. */
  function Targets(edges: seq<Edge>, v: int): seq<int>
  {
    if edges == [] then []
    else
      var last := edges[|edges| - 1];
      Targets(edges[..|edges| - 1], v) + (if last.u == v then [last.v] else [])
  }

  /** One more edge row extends one target list. */
  lemma TargetsAppend(edges: seq<Edge>, i: nat, v: int)
    requires i < |edges|
    ensures Targets(edges[..i + 1], v) == Targets(edges[..i], v) + (if edges[i].u == v then [edges[i].v] else [])
  {
    assert edges[..i + 1][..i] == edges[..i];
  }

  /** `w` occurs in `v`'s target list once per row `(v, w)` of the edges,
      and `(w, v)` rows contribute nothing to it. */
  lemma {:induction false} TargetsCount(edges: seq<Edge>, v: int, w: int)
    ensures multiset(Targets(edges, v))[w] == multiset(edges)[Edge(v, w)]
  {
    if edges != [] {
      var init := edges[..|edges| - 1];
      TargetsCount(init, v, w);
      assert edges == init + [edges[|edges| - 1]];
    }
  }

  /** Over a strictly sorted edge list each target list is strictly
      increasing and repeats no vertex. */
  lemma {:induction false} TargetsAscending(edges: seq<Edge>, v: int)
    requires StrictlySorted(edges)
    ensures forall i, j :: 0 <= i < j < |Targets(edges, v)| ==> Targets(edges, v)[i] < Targets(edges, v)[j]
  {
    if edges != [] {
      var init := edges[..|edges| - 1];
      var last := edges[|edges| - 1];
      TargetsAscending(init, v);
      var t := Targets(init, v);
      if last.u == v {
        forall i | 0 <= i < |t| ensures t[i] < last.v {
          TargetBeforeLast(edges, v, t[i]);
        }
      }
    }
  }

  /** In a strictly sorted edge list whose last row leaves `v`, every
      earlier target of `v` is below that row's target. */
  lemma TargetBeforeLast(edges: seq<Edge>, v: int, w: int)
    requires StrictlySorted(edges) && edges != [] && edges[|edges| - 1].u == v
    requires w in Targets(edges[..|edges| - 1], v)
    ensures w < edges[|edges| - 1].v
  {
    var init := edges[..|edges| - 1];
    assert w in multiset(Targets(init, v));
    TargetsCount(init, v, w);
    assert Edge(v, w) in init;
    var k :| 0 <= k < |init| && init[k] == Edge(v, w);
    assert EdgeBefore(edges[k], edges[|edges| - 1]);
  }

  /** The value of `vertices_adjacency`: each vertex's edge targets. */
  function NeighborLists<V>(m: Mesh<V>): (r: seq<seq<int>>)
    ensures |r| == |m.vertices|
    ensures forall v :: 0 <= v < |r| ==> r[v] == Targets(Edges(m), v)
  {
    var edges := Edges(m);
    seq(|m.vertices|, v requires 0 <= v < |m.vertices| => Targets(edges, v))
  }

  /** `vertices_adjacency`: `neighbors[v1].append(v2)` for each edge row
      `(v1, v2)`; the reverse direction is deliberately not added. */
  method VerticesAdjacency<V>(m: Mesh<V>) returns (neighbors: seq<seq<int>>)
    requires WellFormed(m)
    ensures |neighbors| == VerticesNumber(m)
    ensures forall v :: 0 <= v < |neighbors| ==> neighbors[v] == Targets(Edges(m), v)
    ensures neighbors == NeighborLists(m)
    ensures TotalLength(neighbors) == |Edges(m)|
  {
    var edges := Edges(m);
    forall k | 0 <= k < |edges| ensures 0 <= edges[k].u < VerticesNumber(m) {
      EdgeEndpointsBelow(m, edges[k]);
    }
    neighbors := AppendTargets(edges, VerticesNumber(m));
    assert neighbors == NeighborLists(m);
  }

  /** The loop of `vertices_adjacency` over any edge rows whose sources are
      vertices. */
  method AppendTargets(edges: seq<Edge>, n: nat) returns (neighbors: seq<seq<int>>)
    requires forall k :: 0 <= k < |edges| ==> 0 <= edges[k].u < n
    ensures |neighbors| == n
    ensures forall v :: 0 <= v < n ==> neighbors[v] == Targets(edges, v)
    ensures TotalLength(neighbors) == |edges|
  {
    neighbors := EmptyLists(n);
    for i := 0 to |edges|
      invariant |neighbors| == n
      invariant forall v :: 0 <= v < n ==> neighbors[v] == Targets(edges[..i], v)
      invariant TotalLength(neighbors) == i
    {
      var e := edges[i];
      TotalLengthAppend(neighbors, e.u, [e.v]);
      var next := neighbors[e.u := neighbors[e.u] + [e.v]];
      forall v | 0 <= v < n ensures next[v] == Targets(edges[..i + 1], v) {
        TargetsAppend(edges, i, v);
      }
      neighbors := next;
    }
    assert edges[..|edges|] == edges;
  }

  /** The face indices listed for vertex `v`: face `i` once per corner of
      face `i` that is `v`, in face order. */
  function IncidentFaces(faces: seq<Face>, v: int): seq<int>
  {
    if faces == [] then []
    else
      var i := |faces| - 1;
      IncidentFaces(faces[..i], v) + CornerEntries(faces[i], v, i)
  }

  /** What face `i` adds to `v`'s list: `i` after each corner equal to `v`. */
  function CornerEntries(f: Face, v: int, i: int): (r: seq<int>)
    ensures |r| == f.CornerCount(v)
    ensures forall x :: multiset(r)[x] == if x == i then f.CornerCount(v) else 0
  {
    (if f.a == v then [i] else []) + (if f.b == v then [i] else []) + (if f.c == v then [i] else [])
  }

  /** Face `i` occurs in `v`'s list exactly as often as `v` is a corner of it. */
  lemma {:induction false} IncidentCount(faces: seq<Face>, v: int, i: int)
    ensures multiset(IncidentFaces(faces, v))[i] == if 0 <= i < |faces| then faces[i].CornerCount(v) else 0
  {
    if faces != [] {
      var k := |faces| - 1;
      IncidentCount(faces[..k], v, i);
    }
  }

  /** Each vertex-to-face list is non-decreasing by face index. */
  lemma {:induction false} IncidentAscending(faces: seq<Face>, v: int)
    ensures forall i, j :: 0 <= i < j < |IncidentFaces(faces, v)| ==>
      IncidentFaces(faces, v)[i] <= IncidentFaces(faces, v)[j]
    ensures forall i :: 0 <= i < |IncidentFaces(faces, v)| ==> 0 <= IncidentFaces(faces, v)[i] < |faces|
  {
    if faces != [] {
      IncidentAscending(faces[..|faces| - 1], v);
    }
  }

  /** One more face extends each vertex's list by its corner entries. */
  lemma IncidentAppend(faces: seq<Face>, i: nat, v: int)
    requires i < |faces|
    ensures IncidentFaces(faces[..i + 1], v) == IncidentFaces(faces[..i], v) + CornerEntries(faces[i], v, i)
  {
    assert faces[..i + 1][..i] == faces[..i];
  }

  /** The three appends for face `i` extend each vertex's list by its
      corner entries and the total length by three. */
  lemma AppendCorners(vf: seq<seq<int>>, f: Face, i: int)
    requires f.IndexesBelow(|vf|)
    ensures var r := vf[f.a := vf[f.a] + [i]][f.b := vf[f.a := vf[f.a] + [i]][f.b] + [i]];
      var r' := r[f.c := r[f.c] + [i]];
      |r'| == |vf| &&
      TotalLength(r') == TotalLength(vf) + 3 &&
      forall v :: 0 <= v < |vf| ==> r'[v] == vf[v] + CornerEntries(f, v, i)
  {
    var r1 := vf[f.a := vf[f.a] + [i]];
    var r2 := r1[f.b := r1[f.b] + [i]];
    var r3 := r2[f.c := r2[f.c] + [i]];
    TotalLengthAppend(vf, f.a, [i]);
    TotalLengthAppend(r1, f.b, [i]);
    TotalLengthAppend(r2, f.c, [i]);
  }

  /** The value of `vertices_faces`: each vertex's incident face indices. */
  function FaceLists<V>(m: Mesh<V>): (r: seq<seq<int>>)
    ensures |r| == |m.vertices|
    ensures forall v :: 0 <= v < |r| ==> r[v] == IncidentFaces(m.faces, v)
  {
    seq(|m.vertices|, v requires 0 <= v < |m.vertices| => IncidentFaces(m.faces, v))
  }

  /** `vertices_faces`: for face `i = [a, b, c]`, `i` is appended to the
      lists of `a`, `b` and `c` in turn. */
  method VerticesFaces<V>(m: Mesh<V>) returns (vf: seq<seq<int>>)
    requires WellFormed(m)
    ensures |vf| == VerticesNumber(m)
    ensures forall v :: 0 <= v < |vf| ==> vf[v] == IncidentFaces(m.faces, v)
    ensures vf == FaceLists(m)
    ensures TotalLength(vf) == 3 * FacesNumber(m)
  {
    vf := EmptyLists(|m.vertices|);
    for i := 0 to |m.faces|
      invariant |vf| == |m.vertices|
      invariant forall v :: 0 <= v < |vf| ==> vf[v] == IncidentFaces(m.faces[..i], v)
      invariant TotalLength(vf) == 3 * i
    {
      var f := m.faces[i];
      AppendCorners(vf, f, i);
      vf := vf[f.a := vf[f.a] + [i]];
      vf := vf[f.b := vf[f.b] + [i]];
      vf := vf[f.c := vf[f.c] + [i]];
      forall v | 0 <= v < |vf| ensures vf[v] == IncidentFaces(m.faces[..i + 1], v) {
        IncidentAppend(m.faces, i, v);
      }
    }
    assert m.faces[..|m.faces|] == m.faces;
    assert vf == FaceLists(m);
  }
}
