/**
 * The searching operations of lib/index.ts: `findIndex`, `find`, `some`,
 * `every` (all folds with `reduce` over the whole array) and the recursive
 * `dropWhile`.
 */
module Searches {
  import opened Wrappers
  import opened Builtins
  import opened Lists

  /** The reducer of `findIndex`: keeps the first index found, -1 until then. */
  function FindIndexStep<T>(fn: Callback<T, bool>): Step<int, T>
  {
    (firstFound: int, element: T, i: nat, arr: seq<T>) =>
      if firstFound == -1 && fn(element, i, arr) then i else firstFound
  }

  lemma {:induction false} FindIndexPrefix<T>(fn: Callback<T, bool>, xs: seq<T>, n: nat)
    requires n <= |xs|
    ensures var r := ReducePrefix(FindIndexStep(fn), -1, xs, n);
      && -1 <= r < n
      && (r == -1 <==> forall j :: 0 <= j < n ==> !fn(xs[j], j, xs))
      && (0 <= r ==> fn(xs[r], r, xs) && forall j :: 0 <= j < r ==> !fn(xs[j], j, xs))
  {
    if n > 0 {
      FindIndexPrefix(fn, xs, n - 1);
    }
  }

  /** `findIndex(fn, list)`: the least index whose element satisfies `fn`, or -1. */
  function FindIndex<T>(fn: Callback<T, bool>, list: seq<T>): (r: int)
    ensures -1 <= r < |list|
    ensures r == -1 <==> forall j :: 0 <= j < |list| ==> !fn(list[j], j, list)
    ensures 0 <= r ==> fn(list[r], r, list) && forall j :: 0 <= j < r ==> !fn(list[j], j, list)
  {
    FindIndexPrefix(fn, list, |list|);
    Reduce(FindIndexStep(fn), -1, list)
  }

  /**
   * The reducer of `find`, as written: `!firstFound && fn(element, i, arr) ?
   * element : firstFound`. `falsy` tells which element values JavaScript
   * treats as false (`0`, `''`, `false`, `NaN`, `null`): the test
   * `!firstFound` holds for them as it does for `undefined`.
   */
  function FindStep<T>(fn: Callback<T, bool>, falsy: T -> bool): Step<Option<T>, T>
  {
    (firstFound: Option<T>, element: T, i: nat, arr: seq<T>) =>
      if (firstFound.Undefined? || falsy(firstFound.value)) && fn(element, i, arr)
      then Defined(element) else firstFound
  }

  lemma {:induction false} FindPrefix<T>(fn: Callback<T, bool>, falsy: T -> bool, xs: seq<T>, n: nat)
    requires n <= |xs|
    ensures var r := ReducePrefix(FindStep(fn, falsy), Undefined, xs, n);
      && (r == Undefined <==> forall j :: 0 <= j < n ==> !fn(xs[j], j, xs))
      && (r.Defined? ==> exists j :: FoundAt(fn, falsy, xs, n, j) && r.value == xs[j])
  {
    if n > 0 {
      FindPrefix(fn, falsy, xs, n - 1);
      var s := ReducePrefix(FindStep(fn, falsy), Undefined, xs, n - 1);
      if s.Defined? {
        var j :| FoundAt(fn, falsy, xs, n - 1, j) && s.value == xs[j];
        if falsy(s.value) && fn(xs[n - 1], n - 1, xs) {
          assert FoundAt(fn, falsy, xs, n, n - 1);
        } else {
          assert FoundAt(fn, falsy, xs, n, j);
        }
      } else if fn(xs[n - 1], n - 1, xs) {
        assert FoundAt(fn, falsy, xs, n, n - 1);
      }
    }
  }

  /**
   * Where `find`, run over the first `n` elements, can stop: `xs[j]` satisfies
   * `fn`, every earlier element that satisfies `fn` is falsy, and when
   * `xs[j]` is itself falsy no later element satisfies `fn`.
   */
  ghost predicate FoundAt<T>(fn: Callback<T, bool>, falsy: T -> bool, xs: seq<T>, n: nat, j: int)
    requires n <= |xs|
  {
    && 0 <= j < n
    && fn(xs[j], j, xs)
    && (forall k :: 0 <= k < j && fn(xs[k], k, xs) ==> falsy(xs[k]))
    && (falsy(xs[j]) ==> forall k :: j < k < n ==> !fn(xs[k], k, xs))
  }

  /**
   * `find(fn, list)`, as written. It is `undefined` exactly when nothing
   * matches; otherwise it is the first match that is not falsy, or, when every
   * match is falsy, the last match.
   */
  function Find<T>(fn: Callback<T, bool>, falsy: T -> bool, list: seq<T>): (r: Option<T>)
    ensures r == Undefined <==> forall j :: 0 <= j < |list| ==> !fn(list[j], j, list)
    ensures r.Defined? ==> exists j :: FoundAt(fn, falsy, list, |list|, j) && r.value == list[j]
  {
    FindPrefix(fn, falsy, list, |list|);
    Reduce(FindStep(fn, falsy), Undefined, list)
  }

  /** `find` as intended: the first element that satisfies `fn`, whatever its truthiness. */
  function FindFirst<T>(fn: Callback<T, bool>, list: seq<T>): (r: Option<T>)
    ensures r == Undefined <==> forall j :: 0 <= j < |list| ==> !fn(list[j], j, list)
    ensures r.Defined? ==> exists j ::
      (0 <= j < |list| && fn(list[j], j, list) && r.value == list[j]
       && forall k :: 0 <= k < j ==> !fn(list[k], k, list))
  {
    var k := FindIndex(fn, list);
    if k < 0 then Undefined else Defined(list[k])
  }

  /** Over arrays with no falsy element, `find` as written returns the first match. */
  lemma FindAgreesWithoutFalsy<T>(fn: Callback<T, bool>, falsy: T -> bool, xs: seq<T>)
    requires forall j :: 0 <= j < |xs| ==> !falsy(xs[j])
    ensures Find(fn, falsy, xs) == FindFirst(fn, xs)
  {
    var r := Find(fn, falsy, xs);
    if r.Defined? {
      var j :| FoundAt(fn, falsy, xs, |xs|, j) && r.value == xs[j];
      assert FindIndex(fn, xs) == j;
    }
  }

  /** As written, `find(x => x < 2, [0, 1])` skips the falsy match `0` and returns `1`. */
  lemma FindSkipsFalsyMatch()
    ensures var fn, falsy := (x: int, i: nat, a: seq<int>) => x < 2, (x: int) => x == 0;
      Find(fn, falsy, [0, 1]) == Defined(1) && FindFirst(fn, [0, 1]) == Defined(0)
  {
    var fn, falsy := (x: int, i: nat, a: seq<int>) => x < 2, (x: int) => x == 0;
    var xs := [0, 1];
    assert ReducePrefix(FindStep(fn, falsy), Undefined, xs, 1) == Defined(0);
    assert ReducePrefix(FindStep(fn, falsy), Undefined, xs, 2) == Defined(1);
    assert FindIndex(fn, xs) == 0;
  }

  /** The reducer of `some`. */
  function SomeStep<T>(fn: Callback<T, bool>): Step<bool, T>
  {
    (isSomeElTrue: bool, el: T, i: nat, arr: seq<T>) => if !isSomeElTrue then fn(el, i, arr) else true
  }

  lemma {:induction false} SomePrefix<T>(fn: Callback<T, bool>, xs: seq<T>, n: nat)
    requires n <= |xs|
    ensures ReducePrefix(SomeStep(fn), false, xs, n) <==> exists j :: 0 <= j < n && fn(xs[j], j, xs)
  {
    if n > 0 {
      SomePrefix(fn, xs, n - 1);
    }
  }

  /** `some(fn, list)`: whether some element satisfies `fn`. */
  function Some<T>(fn: Callback<T, bool>, list: seq<T>): (r: bool)
    ensures r <==> exists j :: 0 <= j < |list| && fn(list[j], j, list)
  {
    SomePrefix(fn, list, |list|);
    Reduce(SomeStep(fn), false, list)
  }

  /** The reducer of `every`. */
  function EveryStep<T>(fn: Callback<T, bool>): Step<bool, T>
  {
    (isSomeElementTrue: bool, element: T, i: nat, arr: seq<T>) =>
      if !isSomeElementTrue then false else fn(element, i, arr)
  }

  lemma {:induction false} EveryPrefix<T>(fn: Callback<T, bool>, xs: seq<T>, n: nat)
    requires n <= |xs|
    ensures ReducePrefix(EveryStep(fn), true, xs, n) <==> forall j :: 0 <= j < n ==> fn(xs[j], j, xs)
  {
    if n > 0 {
      EveryPrefix(fn, xs, n - 1);
    }
  }

  /** `every(fn, list)`: whether all elements satisfy `fn`. */
  function Every<T>(fn: Callback<T, bool>, list: seq<T>): (r: bool)
    ensures r <==> forall j :: 0 <= j < |list| ==> fn(list[j], j, list)
  {
    EveryPrefix(fn, list, |list|);
    Reduce(EveryStep(fn), true, list)
  }

  /** `some` and `every` are dual, and `some` holds exactly when `findIndex` finds something. */
  lemma SomeEveryDuality<T>(fn: Callback<T, bool>, xs: seq<T>)
    ensures Every(fn, xs) <==> !Some((x: T, i: nat, a: seq<T>) => !fn(x, i, a), xs)
    ensures Some(fn, xs) <==> FindIndex(fn, xs) != -1
  {
  }

  /**
   * `dropWhile(predicate, list)`: drops leading elements while `pred`
   * holds. When every element satisfies it the source goes on to apply
   * `pred` to `undefined`; the model stops there with `Undefined`.
   */
  function DropWhile<T>(pred: T -> bool, list: seq<T>): (r: Option<seq<T>>)
    ensures r == Undefined <==> forall i :: 0 <= i < |list| ==> pred(list[i])
    ensures r.Defined? ==>
      var k := |list| - |r.value|;
      && 0 <= k < |list|
      && r.value == list[k..]
      && !pred(list[k])
      && forall i :: 0 <= i < k ==> pred(list[i])
  {
    if list == [] then Undefined
    else if pred(list[0]) then DropWhile(pred, list[1..])
    else Defined(list)
  }

  /** `dropWhile` drops everything before the first index at which the predicate fails. */
  lemma DropWhileIsDropFindIndex<T>(pred: T -> bool, xs: seq<T>)
    ensures var k := FindIndex((x: T, i: nat, a: seq<T>) => !pred(x), xs);
      DropWhile(pred, xs) == if k == -1 then Undefined else Defined(Drop(k, xs))
  {
    var fn := (x: T, i: nat, a: seq<T>) => !pred(x);
    var k := FindIndex(fn, xs);
    var r := DropWhile(pred, xs);
    assert forall j :: 0 <= j < |xs| ==> (fn(xs[j], j, xs) <==> !pred(xs[j]));
    if k != -1 {
      var m := |xs| - |r.value|;
      assert !pred(xs[k]) && forall j :: 0 <= j < k ==> pred(xs[j]);
      assert m == k;
    }
  }
}
