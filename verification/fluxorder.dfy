/** Sorting rows by a possibly-missing flux in descending order, missing
    values last, as `DataFrame.sort_values(..., ascending=False)` does with
    its default `na_position="last"`. */
module FluxOrder {
  import opened Results

  /** `a` may come before `b` in a descending order that puts missing values
      last: a present value precedes any missing one, and among present values
      the larger (or equal) comes first. */
  predicate AtLeast(a: Option<real>, b: Option<real>) {
    match a
    case None => b.None?
    case Some(x) => b.None? || x >= b.value
  }

  /** Every element's key ranks at least as high as every later element's. */
  ghost predicate SortedDesc<T>(s: seq<T>, key: T -> Option<real>) {
    forall i, j :: 0 <= i < j < |s| ==> AtLeast(key(s[i]), key(s[j]))
  }

  /** Sum of the present keys; pandas' `Series.sum()` skips NaN the same way. */
  function SumPresent<T>(s: seq<T>, key: T -> Option<real>): real {
    if |s| == 0 then 0.0 else key(s[0]).GetOr(0.0) + SumPresent(s[1..], key)
  }

  /** `AtLeast` is transitive. */
  lemma AtLeastTrans(a: Option<real>, b: Option<real>, c: Option<real>)
    requires AtLeast(a, b) && AtLeast(b, c)
    ensures AtLeast(a, c)
  {
  }

  /** An element ranking at least as high as the head of a sorted sequence
      can go in front of it. */
  lemma ConsSorted<T>(x: T, s: seq<T>, key: T -> Option<real>)
    requires SortedDesc(s, key) && |s| > 0 && AtLeast(key(x), key(s[0]))
    ensures SortedDesc([x] + s, key)
  {
    var r := [x] + s;
    forall i, j | 0 <= i < j < |r| ensures AtLeast(key(r[i]), key(r[j])) {
      if i == 0 && j > 1 {
        AtLeastTrans(key(x), key(s[0]), key(s[j - 1]));
      }
    }
  }

  /** The head of a sorted sequence can go in front of a sorted sequence
      whose elements all rank no higher than it. */
  lemma ConsHead<T>(h: T, rest: seq<T>, key: T -> Option<real>)
    requires SortedDesc(rest, key)
    requires forall y :: y in rest ==> AtLeast(key(h), key(y))
    ensures SortedDesc([h] + rest, key)
  {
    var r := [h] + rest;
    forall i, j | 0 <= i < j < |r| ensures AtLeast(key(r[i]), key(r[j])) {
      if i == 0 {
        assert r[j] == rest[j - 1];
      }
    }
  }

  /** Inserts `x` into a sorted sequence, before the first element it ranks at
      least as high as, so that earlier-inserted equal keys stay in front. */
  function Insert<T>(x: T, s: seq<T>, key: T -> Option<real>): (r: seq<T>)
    requires SortedDesc(s, key)
    ensures SortedDesc(r, key)
    ensures multiset(r) == multiset(s) + multiset{x}
  {
    if |s| == 0 then [x]
    else if AtLeast(key(x), key(s[0])) then
      ConsSorted(x, s, key);
      assert multiset([x] + s) == multiset(s) + multiset{x};
      [x] + s
    else
      var rest := Insert(x, s[1..], key);
      assert s == [s[0]] + s[1..];
      assert forall y :: y in rest ==> AtLeast(key(s[0]), key(y)) by {
        forall y | y in rest ensures AtLeast(key(s[0]), key(y)) {
          assert y in multiset(rest);
          assert y == x || y in s[1..];
        }
      }
      ConsHead(s[0], rest, key);
      [s[0]] + rest
  }

  /** Insertion sort: a descending, missing-last permutation of `s`. */
  function SortDesc<T>(s: seq<T>, key: T -> Option<real>): (r: seq<T>)
    ensures SortedDesc(r, key)
    ensures multiset(r) == multiset(s)
  {
    if |s| == 0 then []
    else
      assert s == [s[0]] + s[1..];
      Insert(s[0], SortDesc(s[1..], key), key)
  }

  /** Inserting adds the inserted key to any sum of present keys. */
  lemma {:induction false} SumPresentInsert<T>(x: T, s: seq<T>, key: T -> Option<real>, val: T -> Option<real>)
    requires SortedDesc(s, key)
    ensures SumPresent(Insert(x, s, key), val) == val(x).GetOr(0.0) + SumPresent(s, val)
  {
    if |s| > 0 && !AtLeast(key(x), key(s[0])) {
      SumPresentInsert(x, s[1..], key, val);
    }
  }

  /** Sorting changes no sum of present values: the column total of the
      sorted table equals that of the unsorted one. */
  lemma {:induction false} SumPresentSort<T>(s: seq<T>, key: T -> Option<real>, val: T -> Option<real>)
    ensures SumPresent(SortDesc(s, key), val) == SumPresent(s, val)
  {
    if |s| > 0 {
      SumPresentSort(s[1..], key, val);
      SumPresentInsert(s[0], SortDesc(s[1..], key), key, val);
    }
  }
}
