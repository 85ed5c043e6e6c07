/**
 * `map`, `filter` and `uniq` of lib/index.ts. `map` and `filter` are folds
 * with `reduce` that append to an accumulator; `uniq` is the runtime's
 * `filter`, which keeps the same elements in the same order as the
 * library's own `filter`, with "the first position of this value" as its
 * callback.
 */
module Transforms {
  import opened Builtins
  import opened Lists

  /** The reducer of `map`: appends `fn(x, i, arr)`. */
  function MapStep<T, U>(fn: Callback<T, U>): Step<seq<U>, T>
  {
    (acc: seq<U>, x: T, i: nat, arr: seq<T>) => acc + [fn(x, i, arr)]
  }

  lemma {:induction false} MapPrefix<T, U>(fn: Callback<T, U>, xs: seq<T>, n: nat)
    requires n <= |xs|
    ensures var r := ReducePrefix(MapStep(fn), [], xs, n);
      |r| == n && forall i :: 0 <= i < n ==> r[i] == fn(xs[i], i, xs)
  {
    if n > 0 {
      MapPrefix(fn, xs, n - 1);
    }
  }

  /** `map(fn)(list)`: `fn` applied to each element with its index, in order. */
  function Map<T, U>(fn: Callback<T, U>, list: seq<T>): (r: seq<U>)
    ensures |r| == |list|
    ensures forall i :: 0 <= i < |list| ==> r[i] == fn(list[i], i, list)
  {
    MapPrefix(fn, list, |list|);
    Reduce(MapStep(fn), [], list)
  }

  /** Ascending positions `j < n` of `xs` for which `fn(xs[j], j, xs)` holds. */
  function Selected<T>(fn: Callback<T, bool>, xs: seq<T>, n: nat): (k: seq<nat>)
    requires n <= |xs|
    ensures forall a, b :: 0 <= a < b < |k| ==> k[a] < k[b]
    ensures forall a :: 0 <= a < |k| ==> k[a] < n
    ensures forall j :: 0 <= j < n ==> (j in k <==> fn(xs[j], j, xs))
  {
    if n == 0 then []
    else
      var p := Selected(fn, xs, n - 1);
      if fn(xs[n - 1], n - 1, xs) then p + [n - 1] else p
  }

  /** The reducer of `filter`: appends `x` when `fn(x, i, arr)` holds. */
  function FilterStep<T>(fn: Callback<T, bool>): Step<seq<T>, T>
  {
    (acc: seq<T>, x: T, i: nat, arr: seq<T>) => if fn(x, i, arr) then acc + [x] else acc
  }

  /** `r` lists the elements of `xs` at the positions `k`, in that order. */
  ghost predicate Picks<T>(r: seq<T>, xs: seq<T>, k: seq<nat>)
  {
    |r| == |k| && forall a :: 0 <= a < |k| ==> k[a] < |xs| && r[a] == xs[k[a]]
  }

  lemma PicksSnoc<T>(r: seq<T>, xs: seq<T>, k: seq<nat>, j: nat)
    requires Picks(r, xs, k) && j < |xs|
    ensures Picks(r + [xs[j]], xs, k + [j])
  {
  }

  lemma {:induction false} FilterPrefix<T>(fn: Callback<T, bool>, xs: seq<T>, n: nat)
    requires n <= |xs|
    ensures Picks(ReducePrefix(FilterStep(fn), [], xs, n), xs, Selected(fn, xs, n))
  {
    if n > 0 {
      FilterPrefix(fn, xs, n - 1);
      var prev, p := ReducePrefix(FilterStep(fn), [], xs, n - 1), Selected(fn, xs, n - 1);
      if fn(xs[n - 1], n - 1, xs) {
        assert ReducePrefix(FilterStep(fn), [], xs, n) == prev + [xs[n - 1]];
        assert Selected(fn, xs, n) == p + [n - 1];
        PicksSnoc(prev, xs, p, n - 1);
      } else {
        assert ReducePrefix(FilterStep(fn), [], xs, n) == prev;
        assert Selected(fn, xs, n) == p;
      }
    }
  }

  /**
   * `filter(fn, list)`: the elements for which `fn` holds, in their original
   * order. The library's curried branch is unreachable, since `!list ===
   * undefined` is always false; only the direct call is modelled.
   */
  function Filter<T>(fn: Callback<T, bool>, list: seq<T>): (r: seq<T>)
    ensures Picks(r, list, Selected(fn, list, |list|))
  {
    FilterPrefix(fn, list, |list|);
    Reduce(FilterStep(fn), [], list)
  }

  lemma {:induction false} FilterAllPrefix<T>(fn: Callback<T, bool>, xs: seq<T>, n: nat)
    requires n <= |xs|
    requires forall j :: 0 <= j < |xs| ==> fn(xs[j], j, xs)
    ensures ReducePrefix(FilterStep(fn), [], xs, n) == xs[..n]
  {
    if n > 0 {
      FilterAllPrefix(fn, xs, n - 1);
      assert xs[..n] == xs[..n - 1] + [xs[n - 1]];
    }
  }

  /** A filter that holds everywhere keeps the whole array. */
  lemma FilterKeepsAll<T>(fn: Callback<T, bool>, xs: seq<T>)
    requires forall j :: 0 <= j < |xs| ==> fn(xs[j], j, xs)
    ensures Filter(fn, xs) == xs
  {
    FilterAllPrefix(fn, xs, |xs|);
    assert xs[..|xs|] == xs;
  }

  /** Filtering a mapped array with an always-true callback changes nothing. */
  lemma MapThenFilterTrue<T, U>(f: Callback<T, U>, xs: seq<T>)
    ensures Filter((y: U, i: nat, arr: seq<U>) => true, Map(f, xs)) == Map(f, xs)
  {
    FilterKeepsAll((y: U, i: nat, arr: seq<U>) => true, Map(f, xs));
  }

  /** The callback of `uniq`: `a.indexOf(v) === i`. */
  function FirstOccurrence<T(==)>(v: T, i: nat, a: seq<T>): bool
  {
    IndexOf(a, v) == i
  }

  /** No value appears twice. */
  ghost predicate Distinct<T>(s: seq<T>)
  {
    forall a, b :: 0 <= a < b < |s| ==> s[a] != s[b]
  }

  /** First-occurrence deduplication, defined from the back: the reference for `uniq`. */
  function Dedup<T(==)>(s: seq<T>): seq<T>
  {
    if s == [] then []
    else
      var p := s[..|s| - 1];
      if s[|s| - 1] in p then Dedup(p) else Dedup(p) + [s[|s| - 1]]
  }

  lemma {:induction false} DedupElements<T>(s: seq<T>)
    ensures forall x :: x in Dedup(s) <==> x in s
  {
    if s != [] {
      var p := s[..|s| - 1];
      DedupElements(p);
      assert s == p + [s[|s| - 1]];
    }
  }

  lemma {:induction false} DedupDistinct<T>(s: seq<T>)
    ensures Distinct(Dedup(s))
  {
    if s != [] {
      var p := s[..|s| - 1];
      DedupDistinct(p);
      DedupElements(p);
    }
  }

  lemma {:induction false} DedupOfDistinct<T>(s: seq<T>)
    requires Distinct(s)
    ensures Dedup(s) == s
  {
    if s != [] {
      var p := s[..|s| - 1];
      DedupOfDistinct(p);
      assert s == p + [s[|s| - 1]];
    }
  }

  lemma {:induction false} UniqPrefix<T>(xs: seq<T>, n: nat)
    requires n <= |xs|
    ensures ReducePrefix(FilterStep(FirstOccurrence), [], xs, n) == Dedup(xs[..n])
  {
    if n > 0 {
      UniqPrefix(xs, n - 1);
      var p := xs[..n][..n - 1];
      assert p == xs[..n - 1];
      var x := xs[n - 1];
      assert ReducePrefix(FilterStep(FirstOccurrence), [], xs, n)
          == FilterStep(FirstOccurrence)(ReducePrefix(FilterStep(FirstOccurrence), [], xs, n - 1), x, n - 1, xs);
      if x in p {
        var k :| 0 <= k < n - 1 && p[k] == x;
        assert IndexOf(xs, x) <= k;
        assert !FirstOccurrence(x, n - 1, xs);
        assert Dedup(xs[..n]) == Dedup(p);
      } else {
        assert x !in xs[..n - 1];
        assert IndexOf(xs, x) == n - 1;
        assert FirstOccurrence(x, n - 1, xs);
        assert Dedup(xs[..n]) == Dedup(p) + [x];
      }
    }
  }

  /**
   * `uniq(list)`: `list.filter((v, i, a) => a.indexOf(v) === i)`. Keeps exactly
   * the first occurrence of each value, in the original order; the result
   * holds the same values and none twice.
   */
  function Uniq<T(==)>(list: seq<T>): (r: seq<T>)
    ensures Picks(r, list, Selected(FirstOccurrence, list, |list|))
    ensures forall j :: 0 <= j < |list| ==> (FirstOccurrence(list[j], j, list) <==> list[j] !in list[..j])
    ensures Distinct(r)
    ensures forall i :: 0 <= i < |r| ==> r[i] in list
    ensures forall j :: 0 <= j < |list| ==> list[j] in r
    ensures r == Dedup(list)
  {
    UniqPrefix(list, |list|);
    assert list[..|list|] == list;
    DedupElements(list);
    DedupDistinct(list);
    forall j | 0 <= j < |list|
      ensures FirstOccurrence(list[j], j, list) <==> list[j] !in list[..j]
    {
      var r := IndexOf(list, list[j]);
      if r < j {
        assert list[..j][r] == list[j];
      }
    }
    Filter(FirstOccurrence, list)
  }

  /** `uniq` is idempotent. */
  lemma UniqIdempotent<T>(xs: seq<T>)
    ensures Uniq(Uniq(xs)) == Uniq(xs)
  {
    DedupOfDistinct(Uniq(xs));
  }

  /** An array without repeated values is its own `uniq`. */
  lemma UniqOfDistinct<T>(xs: seq<T>)
    requires Distinct(xs)
    ensures Uniq(xs) == xs
  {
    DedupOfDistinct(xs);
  }

  /** `uniq(repeat(el, n))` is `[el]` for a positive `n`. */
  lemma {:induction false} UniqOfRepeat<T>(el: T, n: nat)
    requires n > 0
    ensures Uniq(Repeat(el, n)) == [el]
  {
    var xs := Repeat(el, n);
    var p := xs[..n - 1];
    if n == 1 {
      assert p == [];
    } else {
      assert p == Repeat(el, n - 1);
      UniqOfRepeat(el, n - 1);
      assert p[0] == el;
    }
  }
}
