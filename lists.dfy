/** List operations that the mesh code performs with Python lists:
    comprehensions with a filter, `list.remove`, element rewriting,
    and the mask sum `np.sum(mask)`. */
module Lists {

  /** `[x for x in xs if x in ys]`: the elements of `xs` also in `ys`, in order. */
  function Common<T(==,!new)>(xs: seq<T>, ys: seq<T>): (r: seq<T>)
    ensures |r| <= |xs|
    ensures forall x {:trigger multiset(r)[x]} :: multiset(r)[x] == if x in ys then multiset(xs)[x] else 0
    ensures forall x {:trigger x in r} :: x in r <==> x in xs && x in ys
  {
    if xs == [] then []
    else
      assert xs == [xs[0]] + xs[1..];
      if xs[0] in ys then [xs[0]] + Common(xs[1..], ys) else Common(xs[1..], ys)
  }

  /** `[x for x in xs if x not in ys]`: the elements of `xs` not in `ys`, in order. */
  function Without<T(==,!new)>(xs: seq<T>, ys: seq<T>): (r: seq<T>)
    ensures |r| <= |xs|
    ensures forall x {:trigger multiset(r)[x]} :: multiset(r)[x] == if x in ys then 0 else multiset(xs)[x]
    ensures forall x {:trigger x in r} :: x in r <==> x in xs && x !in ys
  {
    if xs == [] then []
    else
      assert xs == [xs[0]] + xs[1..];
      if xs[0] in ys then Without(xs[1..], ys) else [xs[0]] + Without(xs[1..], ys)
  }

  /** `xs.remove(x)`: drops the first occurrence of `x`; Python raises
      `ValueError` when `x` is absent, which callers must rule out. */
  function RemoveFirst<T(==)>(xs: seq<T>, x: T): (r: seq<T>)
    requires x in xs
    ensures multiset(r) == multiset(xs) - multiset{x}
  {
    assert xs == [xs[0]] + xs[1..];
    if xs[0] == x then xs[1..] else [xs[0]] + RemoveFirst(xs[1..], x)
  }

  /** `list.remove` only drops its argument: every other element stays,
      and nothing new appears. */
  lemma RemoveFirstMembers<T>(xs: seq<T>, x: T, y: T)
    requires x in xs
    ensures y in RemoveFirst(xs, x) ==> y in xs
    ensures y in xs && y != x ==> y in RemoveFirst(xs, x)
  {
    assert y in RemoveFirst(xs, x) <==> multiset(RemoveFirst(xs, x))[y] > 0;
    assert y in xs <==> multiset(xs)[y] > 0;
  }

  /** `for y in ys: xs.remove(y)`: removes one occurrence per element of `ys`. */
  function RemoveEach<T(==)>(xs: seq<T>, ys: seq<T>): (r: seq<T>)
    requires multiset(ys) <= multiset(xs)
    ensures multiset(r) == multiset(xs) - multiset(ys)
    decreases |ys|
  {
    if ys == [] then xs
    else
      assert ys == [ys[0]] + ys[1..];
      assert ys[0] in multiset(xs);
      RemoveEach(RemoveFirst(xs, ys[0]), ys[1..])
  }

  /** `[b if x == a else x for x in xs]`. */
  function Substitute<T(==)>(xs: seq<T>, a: T, b: T): seq<T>
  {
    seq(|xs|, i requires 0 <= i < |xs| => if xs[i] == a then b else xs[i])
  }

  /** Every element other than `a` survives a substitution of `a`. */
  lemma SubstituteKeeps<T>(xs: seq<T>, a: T, b: T, x: T)
    requires x in xs && x != a
    ensures x in Substitute(xs, a, b)
  {
    var i :| 0 <= i < |xs| && xs[i] == x;
    assert Substitute(xs, a, b)[i] == x;
  }

  /** Substituting twice is substituting once. */
  lemma SubstituteTwice<T>(xs: seq<T>, a: T, b: T)
    ensures Substitute(Substitute(xs, a, b), a, b) == Substitute(xs, a, b)
  {
  }

  /** Every element of a substitution is `b` or an element of the input. */
  lemma SubstituteFrom<T>(xs: seq<T>, a: T, b: T, x: T)
    requires x in Substitute(xs, a, b)
    ensures x == b || (x in xs && x != a)
  {
    var i :| 0 <= i < |xs| && Substitute(xs, a, b)[i] == x;
  }

  /** `np.sum(mask)` for a boolean mask: the number of true entries. */
  function CountTrue(mask: seq<bool>): (n: nat)
    ensures n <= |mask|
  {
    if mask == [] then 0
    else CountTrue(mask[..|mask| - 1]) + (if mask[|mask| - 1] then 1 else 0)
  }

  /** Clearing one true entry lowers the count by exactly one. */
  lemma {:induction false} CountTrueClear(mask: seq<bool>, i: nat)
    requires i < |mask| && mask[i]
    ensures CountTrue(mask[i := false]) == CountTrue(mask) - 1
  {
    var last := |mask| - 1;
    assert mask[i := false][..last] == if i == last then mask[..last] else mask[..last][i := false];
    if i < last {
      CountTrueClear(mask[..last], i);
    }
  }

  /** A mask whose entries are all true counts its own length. */
  lemma {:induction false} CountTrueAll(mask: seq<bool>)
    requires forall i :: 0 <= i < |mask| ==> mask[i]
    ensures CountTrue(mask) == |mask|
  {
    if mask != [] {
      CountTrueAll(mask[..|mask| - 1]);
    }
  }

  /** Sum of the lengths of a list of lists. */
  function TotalLength<T>(lists: seq<seq<T>>): nat
  {
    if lists == [] then 0 else TotalLength(lists[..|lists| - 1]) + |lists[|lists| - 1]|
  }

  /** Appending `k` elements to one list adds `k` to the total length. */
  lemma {:induction false} TotalLengthAppend<T>(lists: seq<seq<T>>, i: nat, tail: seq<T>)
    requires i < |lists|
    ensures TotalLength(lists[i := lists[i] + tail]) == TotalLength(lists) + |tail|
  {
    var last := |lists| - 1;
    var updated := lists[i := lists[i] + tail];
    assert updated[..last] == if i == last then lists[..last] else lists[..last][i := lists[i] + tail];
    if i < last {
      TotalLengthAppend(lists[..last], i, tail);
    }
  }

  /** `[[] for _ in range(n)]`. */
  function EmptyLists<T>(n: nat): (lists: seq<seq<T>>)
    ensures |lists| == n && TotalLength(lists) == 0
    ensures forall i :: 0 <= i < n ==> lists[i] == []
  {
    if n == 0 then [] else
      var init := EmptyLists(n - 1);
      assert (init + [[]])[..n - 1] == init;
      init + [[]]
  }
}
