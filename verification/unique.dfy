/** `[...new Set(xs)]`: the distinct elements of a list in the order in
    which a JavaScript `Set` first received them. */
module Unique {

  predicate NoDup<T(==)>(xs: seq<T>) {
    forall i, j :: 0 <= i < j < |xs| ==> xs[i] != xs[j]
  }

  /** Position of the first occurrence of `x` in `xs`. */
  function FirstIndex<T(==)>(xs: seq<T>, x: T): (r: nat)
    requires x in xs
    ensures r < |xs| && xs[r] == x && x !in xs[..r]
  {
    if xs[0] == x then 0
    else
      var r := 1 + FirstIndex(xs[1..], x);
      assert xs[..r] == [xs[0]] + xs[1..][..r - 1];
      r
  }

  /** Two first-occurrence positions of the same element coincide. */
  lemma FirstIndexUnique<T>(xs: seq<T>, x: T, k: nat)
    requires k < |xs| && xs[k] == x && x !in xs[..k]
    ensures FirstIndex(xs, x) == k
  {
    var f := FirstIndex(xs, x);
    assert forall j :: 0 <= j < k ==> xs[..k][j] == xs[j];
    assert forall j :: 0 <= j < f ==> xs[..f][j] == xs[j];
  }

  /** Extending a list does not move the first occurrence of an element it
      already held. */
  lemma FirstIndexPrefix<T>(xs: seq<T>, y: T, x: T)
    requires y in xs
    ensures FirstIndex(xs + [x], y) == FirstIndex(xs, y)
  {
    var k := FirstIndex(xs, y);
    assert (xs + [x])[..k] == xs[..k];
    FirstIndexUnique(xs + [x], y, k);
  }

  /** `r` holds the elements of `xs`, each once, in the order of their
      first occurrences in `xs`. */
  ghost predicate DistinctInOrder<T(!new)>(xs: seq<T>, r: seq<T>) {
    && NoDup(r)
    && (forall x :: x in r <==> x in xs)
    && (forall i, j :: 0 <= i < j < |r| ==> FirstIndex(xs, r[i]) < FirstIndex(xs, r[j]))
  }

  /** The distinct elements of `xs`, in first-occurrence order. */
  function Dedup<T(==,!new)>(xs: seq<T>): (r: seq<T>)
    ensures NoDup(r)
    ensures forall x :: x in r <==> x in xs
    ensures forall i, j :: 0 <= i < j < |r| ==> FirstIndex(xs, r[i]) < FirstIndex(xs, r[j])
  {
    if |xs| == 0 then []
    else
      var init := xs[..|xs| - 1];
      var x := xs[|xs| - 1];
      assert xs == init + [x];
      var d := Dedup(init);
      DistinctInOrderSnoc(init, x, d);
      if x in init then d else d + [x]
  }

  /** One more element keeps the order: it is appended exactly when new. */
  lemma DistinctInOrderSnoc<T(!new)>(init: seq<T>, x: T, d: seq<T>)
    requires DistinctInOrder(init, d)
    ensures DistinctInOrder(init + [x], if x in init then d else d + [x])
  {
    FirstIndicesKept(init, x, d);
    if x in init {
      assert forall i :: 0 <= i < |init| + 1 ==> (init + [x])[i] in d;
    } else {
      NewElementLast(init, x, d);
    }
  }

  /** Appending does not move the first occurrences of earlier elements. */
  lemma FirstIndicesKept<T(!new)>(init: seq<T>, x: T, d: seq<T>)
    requires forall i :: 0 <= i < |d| ==> d[i] in init
    ensures forall i :: 0 <= i < |d| ==> d[i] in init + [x] && FirstIndex(init + [x], d[i]) == FirstIndex(init, d[i])
  {
    forall i | 0 <= i < |d| ensures d[i] in init + [x] && FirstIndex(init + [x], d[i]) == FirstIndex(init, d[i]) {
      FirstIndexPrefix(init, d[i], x);
    }
  }

  lemma NewElementLast<T(!new)>(init: seq<T>, x: T, d: seq<T>)
    requires DistinctInOrder(init, d) && x !in init
    requires forall i :: 0 <= i < |d| ==> d[i] in init + [x] && FirstIndex(init + [x], d[i]) == FirstIndex(init, d[i])
    ensures DistinctInOrder(init + [x], d + [x])
  {
    var xs := init + [x];
    var r := d + [x];
    assert xs[..|init|] == init;
    FirstIndexUnique(xs, x, |init|);
    assert x !in d;
    forall y ensures y in r <==> y in xs {
      assert y in r <==> y in d || y == x;
      assert y in xs <==> y in init || y == x;
    }
    forall i, j | 0 <= i < j < |r| ensures r[i] != r[j] && FirstIndex(xs, r[i]) < FirstIndex(xs, r[j]) {
      assert r[i] == d[i] && d[i] in d;
      if j < |d| {
        assert r[j] == d[j];
      }
    }
  }

  /** A list without repetitions is its own deduplication. */
  lemma {:induction false} DedupOfDistinct<T(!new)>(xs: seq<T>)
    requires NoDup(xs)
    ensures Dedup(xs) == xs
  {
    if |xs| > 0 {
      var init := xs[..|xs| - 1];
      var x := xs[|xs| - 1];
      assert xs == init + [x];
      assert NoDup(init);
      assert x !in init;
      DedupOfDistinct(init);
      DedupSnoc(init, x);
    }
  }

  /** Deduplication appends an element exactly when it is new. */
  lemma DedupSnoc<T(!new)>(xs: seq<T>, x: T)
    ensures Dedup(xs + [x]) == if x in xs then Dedup(xs) else Dedup(xs) + [x]
  {
    assert (xs + [x])[..|xs|] == xs;
  }

  /** Deduplication keeps exactly the elements (an instance of the
      contract of `Dedup`, for one element). */
  lemma DedupSameElements<T(!new)>(xs: seq<T>, x: T)
    ensures x in Dedup(xs) <==> x in xs
  {
  }
}
