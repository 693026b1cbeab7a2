/** The priority queue of candidate contractions: entries
    `(cost, position, [v1, v2])` kept in a Python list by `heapq`, popped
    least first under Python's lexicographic comparison of tuples and
    lists. Costs and positions are opaque values: they come from an
    `Estimator` and are only compared. */
module Scheduler {

  /** A merge position `[x, y, z]`. */
  datatype Point = Point(x: real, y: real, z: real)

  /** What the quadric arithmetic yields for a pair: its cost and the
      optimal merge position. */
  datatype Proposal = Proposal(cost: real, target: Point)

  /** The cost and position of pair `(v1, v2)` after `generation`
      contractions (the quadrics and positions change only when a pair is
      contracted, so this covers every state of a run). */
  type Estimator = (nat, int, int) -> Proposal

  /** A heap entry `(cost, v_bar, [v1, v2])`. */
  datatype Entry = Entry(cost: real, target: Point, v1: int, v2: int)

  function Propose(estimate: Estimator, generation: nat, v1: int, v2: int): Entry
  {
    var p := estimate(generation, v1, v2);
    Entry(p.cost, p.target, v1, v2)
  }

  /** Python's `<` on `[x, y, z]`. */
  predicate PointBefore(p: Point, q: Point)
  {
    p.x < q.x || (p.x == q.x && (p.y < q.y || (p.y == q.y && p.z < q.z)))
  }

  /** Python's `<` on `(cost, [x, y, z], [v1, v2])`. */
  predicate Before(e: Entry, f: Entry)
  {
    e.cost < f.cost ||
    (e.cost == f.cost &&
      (PointBefore(e.target, f.target) ||
       (e.target == f.target && (e.v1 < f.v1 || (e.v1 == f.v1 && e.v2 < f.v2)))))
  }

  predicate NotAfter(e: Entry, f: Entry) { e == f || Before(e, f) }

  /** `Before` is a strict total order on entries. */
  lemma BeforeStrictTotal(e: Entry, f: Entry, g: Entry)
    ensures !Before(e, e)
    ensures Before(e, f) && Before(f, g) ==> Before(e, g)
    ensures e == f || Before(e, f) || Before(f, e)
  {
  }

  /** The position of a least entry of the list. */
  function LeastIndex(h: seq<Entry>): (k: nat)
    requires |h| > 0
    ensures k < |h|
    ensures forall j :: 0 <= j < |h| ==> NotAfter(h[k], h[j])
  {
    if |h| == 1 then 0
    else
      var k := LeastIndex(h[..|h| - 1]);
      var last := h[|h| - 1];
      assert forall j :: 0 <= j < |h| - 1 ==> NotAfter(h[k], h[j]);
      if Before(last, h[k]) then
        assert forall j :: 0 <= j < |h| - 1 ==> Before(last, h[j]) by {
          forall j | 0 <= j < |h| - 1 ensures Before(last, h[j]) {
            BeforeStrictTotal(last, h[k], h[j]);
          }
        }
        |h| - 1
      else
        BeforeStrictTotal(last, h[k], h[k]);
        k
  }

  /** A least entry is unique: whatever layout the heap list has, the
      entry `heappop` returns is the one at `LeastIndex`. */
  lemma LeastIsUnique(h: seq<Entry>, e: Entry)
    requires e in h && forall x :: x in h ==> NotAfter(e, x)
    ensures |h| > 0 && e == h[LeastIndex(h)]
  {
    var k := LeastIndex(h);
    var i :| 0 <= i < |h| && h[i] == e;
    assert NotAfter(e, h[k]) && NotAfter(h[k], h[i]);
    BeforeStrictTotal(e, h[k], e);
  }

  /** `heapq.heappop`: the least entry and the list without it. */
  function PopLeast(h: seq<Entry>): (r: (Entry, seq<Entry>))
    requires |h| > 0
    ensures r.0 in h && forall x :: x in h ==> NotAfter(r.0, x)
    ensures |r.1| == |h| - 1
    ensures multiset(r.1) == multiset(h) - multiset{r.0}
  {
    var k := LeastIndex(h);
    assert h == h[..k] + [h[k]] + h[k + 1..];
    (h[k], h[..k] + h[k + 1..])
  }

  /** The entries `heapq.heappush` adds for pairs `[v1, w]`, `w` in `ws`, in order. */
  function Proposals(estimate: Estimator, generation: nat, v1: int, ws: seq<int>): (r: seq<Entry>)
    ensures |r| == |ws|
    ensures forall i :: 0 <= i < |ws| ==> r[i].v1 == v1 && r[i].v2 == ws[i]
    ensures forall x :: x in r ==> x.v1 == v1 && x.v2 in ws
  {
    seq(|ws|, i requires 0 <= i < |ws| => Propose(estimate, generation, v1, ws[i]))
  }
}
