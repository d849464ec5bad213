/** Values shared by every component: optional values, results, and the
    sequence operations that stand for SQL's WHERE and ORDER BY clauses. */
module Common {

  datatype Option<+T> = None | Some(value: T)

  datatype Result<+T, +E> = Ok(value: T) | Err(error: E)
}

module Sequences {

  /** The elements of xs that satisfy p, in order: SELECT ... WHERE p. */
  function Select<T>(xs: seq<T>, p: T -> bool): seq<T> {
    if xs == [] then [] else
      var last := |xs| - 1;
      Select(xs[..last], p) + if p(xs[last]) then [xs[last]] else []
  }

  function MapSeq<S, T>(xs: seq<S>, f: S -> T): (ys: seq<T>)
    ensures |ys| == |xs|
    ensures forall i :: 0 <= i < |xs| ==> ys[i] == f(xs[i])
  {
    seq(|xs|, i requires 0 <= i < |xs| => f(xs[i]))
  }

  /** No value occurs twice. */
  predicate Distinct<T(==)>(xs: seq<T>) {
    forall i, j :: 0 <= i < j < |xs| ==> xs[i] != xs[j]
  }

  lemma SelectSnoc<T>(xs: seq<T>, x: T, p: T -> bool)
    ensures Select(xs + [x], p) == Select(xs, p) + if p(x) then [x] else []
  {
  }

  lemma {:induction false} SelectIn<T>(xs: seq<T>, p: T -> bool, x: T)
    ensures x in Select(xs, p) <==> x in xs && p(x)
  {
    if xs != [] {
      var last := |xs| - 1;
      SelectIn(xs[..last], p, x);
      assert xs == xs[..last] + [xs[last]];
    }
  }

  lemma {:induction false} SelectAll<T>(xs: seq<T>, p: T -> bool)
    requires forall i :: 0 <= i < |xs| ==> p(xs[i])
    ensures Select(xs, p) == xs
  {
    if xs != [] {
      SelectAll(xs[..|xs| - 1], p);
    }
  }

  lemma {:induction false} SelectNone<T>(xs: seq<T>, p: T -> bool)
    requires forall i :: 0 <= i < |xs| ==> !p(xs[i])
    ensures Select(xs, p) == []
  {
    if xs != [] {
      SelectNone(xs[..|xs| - 1], p);
    }
  }

  lemma {:induction false} SelectSame<T>(xs: seq<T>, p: T -> bool, q: T -> bool)
    requires forall i :: 0 <= i < |xs| ==> p(xs[i]) == q(xs[i])
    ensures Select(xs, p) == Select(xs, q)
  {
    if xs != [] {
      SelectSame(xs[..|xs| - 1], p, q);
    }
  }

  /** Selecting twice is selecting by the conjunction. */
  lemma {:induction false} SelectTwice<T>(xs: seq<T>, p: T -> bool, q: T -> bool, both: T -> bool)
    requires forall i :: 0 <= i < |xs| ==> both(xs[i]) == (p(xs[i]) && q(xs[i]))
    ensures Select(Select(xs, p), q) == Select(xs, both)
  {
    if xs != [] {
      var before, last := xs[..|xs| - 1], xs[|xs| - 1];
      SelectTwice(before, p, q, both);
      if p(last) {
        SelectSnoc(Select(before, p), last, q);
      } else {
        assert Select(xs, p) == Select(before, p);
      }
    }
  }

  lemma {:induction false} SelectConcat<T>(xs: seq<T>, ys: seq<T>, p: T -> bool)
    ensures Select(xs + ys, p) == Select(xs, p) + Select(ys, p)
  {
    if ys == [] {
      assert xs + ys == xs;
    } else {
      var before, y := ys[..|ys| - 1], ys[|ys| - 1];
      SelectConcat(xs, before, p);
      SelectSnoc(xs + before, y, p);
      SelectSnoc(before, y, p);
      assert ys == before + [y] && xs + ys == xs + before + [y];
    }
  }

  lemma {:induction false} SelectOnly<T>(xs: seq<T>, p: T -> bool, i: nat)
    requires i < |xs| && p(xs[i]) && forall k :: 0 <= k < |xs| && k != i ==> !p(xs[k])
    ensures Select(xs, p) == [xs[i]]
  {
    var last := |xs| - 1;
    if i == last {
      SelectNone(xs[..last], p);
    } else {
      SelectOnly(xs[..last], p, i);
    }
  }

  lemma {:induction false} SelectFirst<T>(xs: seq<T>, p: T -> bool, i: nat)
    requires i < |xs| && p(xs[i]) && forall k :: 0 <= k < i ==> !p(xs[k])
    ensures Select(xs, p) != [] && Select(xs, p)[0] == xs[i]
  {
    if i == |xs| - 1 {
      SelectNone(xs[..i], p);
    } else {
      SelectFirst(xs[..|xs| - 1], p, i);
    }
  }

  /** ys are the elements of xs at the increasing positions at, which are those of
      the elements that satisfy p. */
  ghost predicate SelectedAt<T>(xs: seq<T>, p: T -> bool, ys: seq<T>, at: seq<nat>) {
    && |at| == |ys| && (forall i, j :: 0 <= i < j < |at| ==> at[i] < at[j])
    && (forall i :: 0 <= i < |at| ==> at[i] < |xs| && p(xs[at[i]]) && ys[i] == xs[at[i]])
    && (forall k: nat :: k < |xs| && p(xs[k]) ==> k in at)
  }

  lemma SelectedAtSnoc<T>(xs: seq<T>, x: T, p: T -> bool, ys: seq<T>, at: seq<nat>)
    requires SelectedAt(xs, p, ys, at)
    ensures SelectedAt(xs + [x], p, ys + if p(x) then [x] else [], at + if p(x) then [|xs|] else [])
  {
  }

  lemma {:induction false} SelectIndices<T>(xs: seq<T>, p: T -> bool) returns (at: seq<nat>)
    ensures SelectedAt(xs, p, Select(xs, p), at)
  {
    if xs == [] {
      at := [];
    } else {
      var before, x := xs[..|xs| - 1], xs[|xs| - 1];
      at := SelectIndices(before, p);
      SelectedAtSnoc(before, x, p, Select(before, p), at);
      assert xs == before + [x];
      at := at + if p(x) then [|before|] else [];
    }
  }

  /** Two selections agree after mapping when their inputs correspond index by
      index, the longer input having only rejected elements at its end. */
  lemma {:induction false} SelectCongruence<S, T, U>(xs: seq<S>, ys: seq<T>, p: S -> bool, q: T -> bool,
                                                     f: S -> U, g: T -> U)
    requires |ys| <= |xs|
    requires forall i :: 0 <= i < |ys| ==> p(xs[i]) == q(ys[i]) && f(xs[i]) == g(ys[i])
    requires forall i :: |ys| <= i < |xs| ==> !p(xs[i])
    ensures MapSeq(Select(xs, p), f) == MapSeq(Select(ys, q), g)
  {
    if xs != [] {
      var last := |xs| - 1;
      if |ys| == |xs| {
        SelectCongruence(xs[..last], ys[..last], p, q, f, g);
      } else {
        SelectCongruence(xs[..last], ys, p, q, f, g);
      }
    }
  }

  /** Every selected pair satisfies a relation that all pairs of xs passing p satisfy. */
  lemma {:induction false} SelectPairs<T>(xs: seq<T>, p: T -> bool, rel: (T, T) -> bool)
    requires forall i, j :: 0 <= i < j < |xs| && p(xs[i]) && p(xs[j]) ==> rel(xs[i], xs[j])
    ensures forall i, j :: 0 <= i < j < |Select(xs, p)| ==> rel(Select(xs, p)[i], Select(xs, p)[j])
  {
    if xs != [] {
      var last := |xs| - 1;
      SelectPairs(xs[..last], p, rel);
      forall x | x in Select(xs[..last], p)
        ensures p(xs[last]) ==> rel(x, xs[last])
      {
        SelectIn(xs[..last], p, x);
      }
    }
  }

  // ---- ORDER BY and sort.SliceStable --------------------------------------

  predicate SortedBy<T>(xs: seq<T>, key: T -> int) {
    forall i, j :: 0 <= i < j < |xs| ==> key(xs[i]) <= key(xs[j])
  }

  /** x goes after every element whose key is at most its own. */
  function InsertBy<T>(xs: seq<T>, x: T, key: T -> int): seq<T> {
    if xs == [] || key(xs[|xs| - 1]) <= key(x) then xs + [x]
    else InsertBy(xs[..|xs| - 1], x, key) + [xs[|xs| - 1]]
  }

  function StableSort<T>(xs: seq<T>, key: T -> int): seq<T> {
    if xs == [] then [] else InsertBy(StableSort(xs[..|xs| - 1], key), xs[|xs| - 1], key)
  }

  lemma {:induction false} InsertByPermutes<T>(xs: seq<T>, x: T, key: T -> int)
    ensures multiset(InsertBy(xs, x, key)) == multiset(xs) + multiset{x}
  {
    if !(xs == [] || key(xs[|xs| - 1]) <= key(x)) {
      InsertByPermutes(xs[..|xs| - 1], x, key);
      assert xs == xs[..|xs| - 1] + [xs[|xs| - 1]];
    }
  }

  predicate AtMost<T>(xs: seq<T>, key: T -> int, bound: int) {
    forall i :: 0 <= i < |xs| ==> key(xs[i]) <= bound
  }

  lemma {:induction false} InsertByBound<T>(xs: seq<T>, x: T, key: T -> int, bound: int)
    requires key(x) <= bound && AtMost(xs, key, bound)
    ensures AtMost(InsertBy(xs, x, key), key, bound)
  {
    if !(xs == [] || key(xs[|xs| - 1]) <= key(x)) {
      var before, last := xs[..|xs| - 1], xs[|xs| - 1];
      InsertByBound(before, x, key, bound);
      assert InsertBy(xs, x, key) == InsertBy(before, x, key) + [last];
    }
  }

  lemma {:induction false} InsertBySorts<T>(xs: seq<T>, x: T, key: T -> int)
    requires SortedBy(xs, key)
    ensures SortedBy(InsertBy(xs, x, key), key)
  {
    if !(xs == [] || key(xs[|xs| - 1]) <= key(x)) {
      var before, last := xs[..|xs| - 1], xs[|xs| - 1];
      InsertBySorts(before, x, key);
      InsertByBound(before, x, key, key(last));
      assert InsertBy(xs, x, key) == InsertBy(before, x, key) + [last];
    }
  }

  function KeyIs<T>(key: T -> int, k: int): T -> bool {
    x => key(x) == k
  }

  lemma {:induction false} InsertByStable<T>(xs: seq<T>, x: T, key: T -> int, k: int)
    ensures Select(InsertBy(xs, x, key), KeyIs(key, k))
            == Select(xs, KeyIs(key, k)) + if key(x) == k then [x] else []
  {
    if xs == [] || key(xs[|xs| - 1]) <= key(x) {
      SelectSnoc(xs, x, KeyIs(key, k));
    } else {
      var before, last := xs[..|xs| - 1], xs[|xs| - 1];
      InsertByStable(before, x, key, k);
      assert InsertBy(xs, x, key) == InsertBy(before, x, key) + [last];
      SelectSnoc(InsertBy(before, x, key), last, KeyIs(key, k));
      SelectSnoc(before, last, KeyIs(key, k));
      assert xs == before + [last];
    }
  }

  lemma {:induction false} StableSortPermutes<T>(xs: seq<T>, key: T -> int)
    ensures multiset(StableSort(xs, key)) == multiset(xs)
  {
    if xs != [] {
      var before, x := xs[..|xs| - 1], xs[|xs| - 1];
      StableSortPermutes(before, key);
      InsertByPermutes(StableSort(before, key), x, key);
      assert xs == before + [x];
    }
  }

  lemma {:induction false} StableSortSorts<T>(xs: seq<T>, key: T -> int)
    ensures SortedBy(StableSort(xs, key), key)
  {
    if xs != [] {
      StableSortSorts(xs[..|xs| - 1], key);
      InsertBySorts(StableSort(xs[..|xs| - 1], key), xs[|xs| - 1], key);
    }
  }

  lemma {:induction false} StableSortKeepsOrder<T>(xs: seq<T>, key: T -> int, k: int)
    ensures Select(StableSort(xs, key), KeyIs(key, k)) == Select(xs, KeyIs(key, k))
  {
    if xs != [] {
      StableSortKeepsOrder(xs[..|xs| - 1], key, k);
      InsertByStable(StableSort(xs[..|xs| - 1], key), xs[|xs| - 1], key, k);
    }
  }

  /** The stable sort permutes its input, orders it by key, and keeps the
      relative order of equal keys. */
  lemma StableSortCorrect<T>(xs: seq<T>, key: T -> int)
    ensures multiset(StableSort(xs, key)) == multiset(xs)
    ensures SortedBy(StableSort(xs, key), key)
    ensures forall k: int :: Select(StableSort(xs, key), KeyIs(key, k)) == Select(xs, KeyIs(key, k))
  {
    StableSortPermutes(xs, key);
    StableSortSorts(xs, key);
    forall k: int
      ensures Select(StableSort(xs, key), KeyIs(key, k)) == Select(xs, KeyIs(key, k))
    {
      StableSortKeepsOrder(xs, key, k);
    }
  }

  /** Sorting what is already in order changes nothing. */
  lemma {:induction false} StableSortOfSorted<T>(xs: seq<T>, key: T -> int)
    requires SortedBy(xs, key)
    ensures StableSort(xs, key) == xs
  {
    if xs != [] {
      StableSortOfSorted(xs[..|xs| - 1], key);
    }
  }
}
