/** The list operations the scrapers apply to the URLs they collect:
    dropping repeats while keeping first occurrences, and keeping the first
    few. */
module Lists {

  predicate NoDups<T(==)>(xs: seq<T>) {
    forall i, j :: 0 <= i < j < |xs| ==> xs[i] != xs[j]
  }

  /** The position of the first occurrence of `x`. */
  function FirstIndex<T(==)>(xs: seq<T>, x: T): (i: nat)
    requires x in xs
    ensures i < |xs| && xs[i] == x && x !in xs[..i]
  {
    if xs[0] == x then 0
    else
      var i := 1 + FirstIndex(xs[1..], x);
      assert xs[..i] == [xs[0]] + xs[1..][..i - 1];
      i
  }

  /** The loop `for x in xs: if x not in out: out.append(x)`. */
  function Dedup<T(==)>(xs: seq<T>): seq<T> {
    if |xs| == 0 then []
    else
      var d := Dedup(xs[..|xs| - 1]);
      var x := xs[|xs| - 1];
      if x in d then d else d + [x]
  }

  /** Dedup leaves no repeats and loses no value. */
  lemma {:induction false} DedupProps<T>(xs: seq<T>)
    ensures NoDups(Dedup(xs))
    ensures forall k :: 0 <= k < |Dedup(xs)| ==> Dedup(xs)[k] in xs
    ensures forall k :: 0 <= k < |xs| ==> xs[k] in Dedup(xs)
    ensures |Dedup(xs)| <= |xs|
  {
    if |xs| > 0 {
      var init := xs[..|xs| - 1];
      var x := xs[|xs| - 1];
      DedupProps(init);
      assert xs == init + [x];
      var d := Dedup(init);
      assert forall k :: 0 <= k < |xs| - 1 ==> xs[k] == init[k];
      if x !in d {
        assert forall k :: 0 <= k < |d| ==> (d + [x])[k] == d[k];
      }
    }
  }

  /** Each step of the loop: the next element is appended when new. */
  lemma DedupSnoc<T>(xs: seq<T>, x: T)
    ensures Dedup(xs + [x]) == if x in Dedup(xs) then Dedup(xs) else Dedup(xs) + [x]
  {
    assert (xs + [x])[..|xs + [x]| - 1] == xs;
  }

  /** Dedup keeps the order of first occurrences: of two kept values, the
      one earlier in the result occurs first in the input. */
  lemma {:induction false} DedupOrder<T>(xs: seq<T>)
    ensures forall k :: 0 <= k < |Dedup(xs)| ==> Dedup(xs)[k] in xs
    ensures forall i, j :: 0 <= i < j < |Dedup(xs)| ==>
      FirstIndex(xs, Dedup(xs)[i]) < FirstIndex(xs, Dedup(xs)[j])
  {
    DedupProps(xs);
    if |xs| > 0 {
      var init := xs[..|xs| - 1];
      var x := xs[|xs| - 1];
      assert xs == init + [x];
      DedupOrder(init);
      DedupProps(init);
      var d := Dedup(init);
      var r := Dedup(xs);
      forall v | v in init ensures FirstIndex(xs, v) == FirstIndex(init, v) {
        FirstIndexPrefix(init, [x], v);
      }
      forall i, j | 0 <= i < j < |r| ensures FirstIndex(xs, r[i]) < FirstIndex(xs, r[j]) {
        assert r[i] == d[i] && r[i] in init;
        if j < |d| {
          assert r[j] == d[j] && r[j] in init;
        } else {
          assert r[j] == x && x !in init;
          assert FirstIndex(xs, x) == |init| by {
            assert xs[..|init|] == init;
          }
        }
      }
    }
  }

  lemma FirstIndexPrefix<T>(xs: seq<T>, ys: seq<T>, v: T)
    requires v in xs
    ensures FirstIndex(xs + ys, v) == FirstIndex(xs, v)
  {
    var i := FirstIndex(xs, v);
    var k := FirstIndex(xs + ys, v);
    assert (xs + ys)[i] == v;
    assert forall m :: 0 <= m < i ==> xs[..i][m] == (xs + ys)[m];
    assert forall m :: 0 <= m < k ==> (xs + ys)[..k][m] == (xs + ys)[m];
  }

  /** A list that already has no repeats passes through unchanged. */
  lemma {:induction false} DedupOfDistinct<T>(xs: seq<T>)
    requires NoDups(xs)
    ensures Dedup(xs) == xs
  {
    if |xs| > 0 {
      var init := xs[..|xs| - 1];
      assert NoDups(init);
      DedupOfDistinct(init);
      assert xs[|xs| - 1] !in init by {
        assert forall k :: 0 <= k < |init| ==> init[k] == xs[k];
      }
      assert xs[|xs| - 1] !in init;
      assert xs == init + [xs[|xs| - 1]];
    }
  }

  lemma DedupIdempotent<T>(xs: seq<T>)
    ensures Dedup(Dedup(xs)) == Dedup(xs)
  {
    DedupProps(xs);
    DedupOfDistinct(Dedup(xs));
  }

  /** `xs[:n]`. */
  function Take<T>(xs: seq<T>, n: nat): (r: seq<T>)
    ensures |r| == if |xs| < n then |xs| else n
    ensures r == xs[..|r|]
  {
    if |xs| < n then xs else xs[..n]
  }

  lemma TakeNoDups<T>(xs: seq<T>, n: nat)
    requires NoDups(xs)
    ensures NoDups(Take(xs, n))
  {
    assert forall k :: 0 <= k < |Take(xs, n)| ==> Take(xs, n)[k] == xs[k];
  }

  /** The elements of `xs` that pass `keep`, in order. */
  function Filter<T>(xs: seq<T>, keep: T -> bool): (r: seq<T>)
    ensures |r| <= |xs|
    ensures forall k :: 0 <= k < |r| ==> keep(r[k])
  {
    if |xs| == 0 then []
    else
      var rest := Filter(xs[..|xs| - 1], keep);
      if keep(xs[|xs| - 1]) then rest + [xs[|xs| - 1]] else rest
  }

  /** Filtering loses no element that passes. */
  lemma {:induction false} FilterMembers<T>(xs: seq<T>, keep: T -> bool, x: T)
    ensures x in Filter(xs, keep) <==> x in xs && keep(x)
  {
    if |xs| > 0 {
      FilterMembers(xs[..|xs| - 1], keep, x);
      assert xs == xs[..|xs| - 1] + [xs[|xs| - 1]];
    }
  }

  lemma FilterSnoc<T>(xs: seq<T>, x: T, keep: T -> bool)
    ensures Filter(xs + [x], keep) == if keep(x) then Filter(xs, keep) + [x] else Filter(xs, keep)
  {
    assert (xs + [x])[..|xs + [x]| - 1] == xs;
  }

  /** `[f(x) for x in xs]`. */
  function Map<T, U>(xs: seq<T>, f: T -> U): (r: seq<U>)
    ensures |r| == |xs|
    ensures forall k :: 0 <= k < |xs| ==> r[k] == f(xs[k])
  {
    seq(|xs|, k requires 0 <= k < |xs| => f(xs[k]))
  }

  lemma MapSnoc<T, U>(xs: seq<T>, x: T, f: T -> U)
    ensures Map(xs + [x], f) == Map(xs, f) + [f(x)]
  {
  }
}
