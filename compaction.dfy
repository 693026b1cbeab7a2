/** `rebuild_mesh`: drop the dead vertices and faces and renumber the
    surviving face corners through the prefix sum of the vertex mask. */
module Compaction {
  import opened Lists
  import opened MeshTopology

  /** `xs[mask]`: the entries whose mask bit is set, in order. */
  function Select<T>(xs: seq<T>, mask: seq<bool>): (r: seq<T>)
    requires |mask| == |xs|
    ensures |r| == CountTrue(mask)
  {
    if xs == [] then []
    else
      var n := |xs| - 1;
      Select(xs[..n], mask[..n]) + (if mask[n] then [xs[n]] else [])
  }

  /** `(np.cumsum(mask) - 1)[i]`: for a live `i`, the number of live
      entries before it. */
  function NewIndex(mask: seq<bool>, i: nat): (k: int)
    requires i < |mask|
    ensures -1 <= k < CountTrue(mask)
    ensures mask[i] ==> 0 <= k
  {
    CountTruePrefix(mask, i + 1, |mask|);
    assert mask[..|mask|] == mask;
    assert mask[..i + 1][..i] == mask[..i];
    CountTrue(mask[..i + 1]) - 1
  }

  /** The prefix count never decreases along the mask. */
  lemma {:induction false} CountTruePrefix(mask: seq<bool>, i: nat, j: nat)
    requires i <= j <= |mask|
    ensures CountTrue(mask[..i]) <= CountTrue(mask[..j])
    decreases j - i
  {
    if i < j {
      CountTruePrefix(mask, i, j - 1);
      assert mask[..j][..j - 1] == mask[..j - 1];
    }
  }

  /** A live entry `i` lands at position `NewIndex(mask, i)` of `xs[mask]`. */
  lemma {:induction false} SelectAt<T>(xs: seq<T>, mask: seq<bool>, i: nat)
    requires |mask| == |xs| && i < |xs| && mask[i]
    ensures 0 <= NewIndex(mask, i) < CountTrue(mask)
    ensures Select(xs, mask)[NewIndex(mask, i)] == xs[i]
  {
    var n := |xs| - 1;
    if i < n {
      assert mask[..n][..i + 1] == mask[..i + 1];
      SelectAt(xs[..n], mask[..n], i);
    } else {
      assert mask[..i + 1] == mask;
    }
  }

  /** The renumbering is strictly increasing on live entries, so
      compaction keeps their relative order. */
  lemma NewIndexIncreasing(mask: seq<bool>, i: nat, j: nat)
    requires i < j < |mask| && mask[j]
    ensures NewIndex(mask, i) < NewIndex(mask, j)
  {
    CountTruePrefix(mask, i + 1, j);
    assert mask[..j + 1][..j] == mask[..j];
  }

  /** Every position of the compacted list is the new index of some live
      entry. */
  lemma {:induction false} NewIndexOnto(mask: seq<bool>, k: nat)
    requires k < CountTrue(mask)
    ensures exists i :: 0 <= i < |mask| && mask[i] && NewIndex(mask, i) == k
  {
    var n := |mask| - 1;
    if k < CountTrue(mask[..n]) {
      NewIndexOnto(mask[..n], k);
      var i :| 0 <= i < n && mask[..n][i] && NewIndex(mask[..n], i) == k;
      assert mask[..n][..i + 1] == mask[..i + 1];
      assert mask[i] && NewIndex(mask, i) == k;
    } else {
      assert mask[..n + 1] == mask;
      assert mask[n] && NewIndex(mask, n) == k;
    }
  }

  /** Every entry of `xs[mask]` is a live entry of `xs`. */
  lemma SelectFrom<T>(xs: seq<T>, mask: seq<bool>, k: nat)
    requires |mask| == |xs| && k < CountTrue(mask)
    ensures exists i :: 0 <= i < |xs| && mask[i] && NewIndex(mask, i) == k && Select(xs, mask)[k] == xs[i]
  {
    NewIndexOnto(mask, k);
    var i :| 0 <= i < |mask| && mask[i] && NewIndex(mask, i) == k;
    SelectAt(xs, mask, i);
  }

  /** An all-true mask keeps everything. */
  lemma {:induction false} SelectAll<T>(xs: seq<T>, mask: seq<bool>)
    requires |mask| == |xs| && forall i :: 0 <= i < |mask| ==> mask[i]
    ensures Select(xs, mask) == xs
  {
    if xs != [] {
      var n := |xs| - 1;
      SelectAll(xs[..n], mask[..n]);
      assert xs == xs[..n] + [xs[n]];
    }
  }

  /** An all-true mask renumbers nothing. */
  lemma NewIndexAll(mask: seq<bool>, i: nat)
    requires i < |mask| && forall j :: 0 <= j < |mask| ==> mask[j]
    ensures NewIndex(mask, i) == i
  {
    CountTrueAll(mask[..i + 1]);
  }

  /** `new_vertices_id[face]` for one face. */
  function Remap(f: Face, vmask: seq<bool>): Face
    requires f.IndexesBelow(|vmask|)
  {
    Face(NewIndex(vmask, f.a), NewIndex(vmask, f.b), NewIndex(vmask, f.c))
  }

  /** Live faces only refer to vertices that exist. */
  predicate LiveFacesBelow(faces: seq<Face>, fmask: seq<bool>, n: int)
    requires |fmask| == |faces|
  {
    forall f :: 0 <= f < |faces| && fmask[f] ==> faces[f].IndexesBelow(n)
  }

  /** `rebuild_mesh(vertices, vertices_mask, faces, faces_mask)`. */
  function RebuildMesh<V>(vertices: seq<V>, vmask: seq<bool>, faces: seq<Face>, fmask: seq<bool>): (r: Mesh<V>)
    requires |vmask| == |vertices| && |fmask| == |faces|
    requires LiveFacesBelow(faces, fmask, |vertices|)
    ensures |r.vertices| == CountTrue(vmask) && |r.faces| == CountTrue(fmask)
    ensures forall i :: 0 <= i < |vertices| && vmask[i] ==> r.vertices[NewIndex(vmask, i)] == vertices[i]
    ensures forall f :: 0 <= f < |faces| && fmask[f] ==>
      r.faces[NewIndex(fmask, f)] == Remap(faces[f], vmask)
  {
    var kept := Select(faces, fmask);
    forall k | 0 <= k < |kept| ensures kept[k].IndexesBelow(|vmask|) {
      SelectFrom(faces, fmask, k);
    }
    var r := Mesh(Select(vertices, vmask), seq(|kept|, k requires 0 <= k < |kept| => Remap(kept[k], vmask)));
    forall i | 0 <= i < |vertices| && vmask[i] ensures r.vertices[NewIndex(vmask, i)] == vertices[i] {
      SelectAt(vertices, vmask, i);
    }
    forall f | 0 <= f < |faces| && fmask[f] ensures r.faces[NewIndex(fmask, f)] == Remap(faces[f], vmask) {
      SelectAt(faces, fmask, f);
    }
    r
  }

  /** Nothing to drop: the mesh comes back as it was. */
  lemma RebuildUnchanged<V>(vertices: seq<V>, vmask: seq<bool>, faces: seq<Face>, fmask: seq<bool>)
    requires |vmask| == |vertices| && |fmask| == |faces|
    requires forall i :: 0 <= i < |vmask| ==> vmask[i]
    requires forall f :: 0 <= f < |fmask| ==> fmask[f]
    requires WellFormed(Mesh(vertices, faces))
    ensures RebuildMesh(vertices, vmask, faces, fmask) == Mesh(vertices, faces)
  {
    SelectAll(vertices, vmask);
    SelectAll(faces, fmask);
    var r := RebuildMesh(vertices, vmask, faces, fmask);
    forall f | 0 <= f < |faces| ensures r.faces[f] == faces[f] {
      NewIndexAll(fmask, f);
      forall c | 0 <= c < |vmask| ensures NewIndex(vmask, c) == c {
        NewIndexAll(vmask, c);
      }
    }
  }

  /** When every live face has live, pairwise distinct corners, the rebuilt
      mesh is well formed and its faces have pairwise distinct corners. */
  lemma RebuildWellFormed<V>(vertices: seq<V>, vmask: seq<bool>, faces: seq<Face>, fmask: seq<bool>)
    requires |vmask| == |vertices| && |fmask| == |faces|
    requires LiveFacesBelow(faces, fmask, |vertices|)
    requires forall f :: 0 <= f < |faces| && fmask[f] ==>
      vmask[faces[f].a] && vmask[faces[f].b] && vmask[faces[f].c]
    ensures WellFormed(RebuildMesh(vertices, vmask, faces, fmask))
    ensures (forall f :: 0 <= f < |faces| && fmask[f] ==> faces[f].Proper()) ==>
      forall k :: 0 <= k < |RebuildMesh(vertices, vmask, faces, fmask).faces| ==>
        RebuildMesh(vertices, vmask, faces, fmask).faces[k].Proper()
  {
    var r := RebuildMesh(vertices, vmask, faces, fmask);
    forall k | 0 <= k < |r.faces|
      ensures r.faces[k].IndexesBelow(|r.vertices|)
      ensures (forall f :: 0 <= f < |faces| && fmask[f] ==> faces[f].Proper()) ==> r.faces[k].Proper()
    {
      SelectFrom(faces, fmask, k);
      var f :| 0 <= f < |faces| && fmask[f] && NewIndex(fmask, f) == k && Select(faces, fmask)[k] == faces[f];
      var face := faces[f];
      SelectAt(vertices, vmask, face.a);
      SelectAt(vertices, vmask, face.b);
      SelectAt(vertices, vmask, face.c);
      if face.Proper() {
        Distinct(vmask, face.a, face.b);
        Distinct(vmask, face.b, face.c);
        Distinct(vmask, face.a, face.c);
      }
    }
  }

  /** Two different live entries get different new indices. */
  lemma Distinct(mask: seq<bool>, i: nat, j: nat)
    requires i < |mask| && j < |mask| && mask[i] && mask[j] && i != j
    ensures NewIndex(mask, i) != NewIndex(mask, j)
  {
    if i < j { NewIndexIncreasing(mask, i, j); } else { NewIndexIncreasing(mask, j, i); }
  }
}
