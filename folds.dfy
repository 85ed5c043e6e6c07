/**
 * `foldl` and `foldr` of lib/index.ts. Both run a loop that reassigns the
 * accumulator and consumes the caller's array in place, `foldl` with
 * `shift` from the front and `foldr` with `pop` from the back, so the array
 * is empty afterwards.
 */
module Folds {
  import opened Wrappers
  import opened Builtins
  import opened Lists

  /** The left fold `reducer(…reducer(reducer(acc, xs[0]), xs[1])…)`. */
  function FoldLeft<T, U>(reducer: (U, T) -> U, acc: U, xs: seq<T>): U
  {
    if xs == [] then acc else FoldLeft(reducer, reducer(acc, xs[0]), xs[1..])
  }

  /** The right fold `f(xs[0], f(xs[1], …f(xs[|xs| - 1], init)…))`. */
  function FoldRight<T, U>(f: (T, U) -> U, xs: seq<T>, init: U): U
  {
    if xs == [] then init else f(xs[0], FoldRight(f, xs[1..], init))
  }

  /** `foldl(reducer, result, list)`: the left fold of `list`; `list` is left empty. */
  method FoldL<T, U>(reducer: (U, T) -> U, result: U, list: JsArray<T>) returns (r: U)
    modifies list
    ensures r == FoldLeft(reducer, result, old(list.elems))
    ensures list.elems == []
  {
    r := result;
    while |list.elems| > 0
      invariant FoldLeft(reducer, r, list.elems) == FoldLeft(reducer, result, old(list.elems))
      decreases |list.elems|
    {
      r := reducer(r, Head(list.elems).value);
      var _ := list.Shift();
    }
  }

  /**
   * `foldr(reducer, result, list)`: `reducer(acc, last)` then `pop`, so the
   * left fold of the reversed `list`; `list` is left empty.
   */
  method FoldR<T, U>(reducer: (U, T) -> U, result: U, list: JsArray<T>) returns (r: U)
    modifies list
    ensures r == FoldLeft(reducer, result, Reverse(old(list.elems)))
    ensures list.elems == []
  {
    r := result;
    while |list.elems| > 0
      invariant FoldLeft(reducer, r, Reverse(list.elems)) == FoldLeft(reducer, result, Reverse(old(list.elems)))
      decreases |list.elems|
    {
      ReverseLastFirst(list.elems);
      r := reducer(r, Last(list.elems).value);
      var _ := list.Pop();
    }
    assert Reverse(list.elems) == [];
  }

  /** Folding past an appended element applies the reducer once more. */
  lemma {:induction false} FoldLeftSnoc<T, U>(reducer: (U, T) -> U, acc: U, xs: seq<T>, x: T)
    ensures FoldLeft(reducer, acc, xs + [x]) == reducer(FoldLeft(reducer, acc, xs), x)
  {
    if xs != [] {
      assert (xs + [x])[1..] == xs[1..] + [x];
      FoldLeftSnoc(reducer, reducer(acc, xs[0]), xs[1..], x);
    }
  }

  /** What `foldr` computes is the usual right fold, with the reducer's arguments swapped. */
  lemma {:induction false} FoldrIsRightFold<T, U>(reducer: (U, T) -> U, init: U, xs: seq<T>)
    ensures FoldLeft(reducer, init, Reverse(xs)) == FoldRight((x: T, acc: U) => reducer(acc, x), xs, init)
  {
    if xs != [] {
      ReverseFirstLast(xs);
      FoldLeftSnoc(reducer, init, Reverse(xs[1..]), xs[0]);
      FoldrIsRightFold(reducer, init, xs[1..]);
    }
  }

  /** With a reducer whose later arguments may be swapped, an element can be folded in first instead of last. */
  lemma {:induction false} FoldLeftMoveFirst<T, U>(reducer: (U, T) -> U, acc: U, x: T, xs: seq<T>)
    requires forall a: U, y: T, z: T :: reducer(reducer(a, y), z) == reducer(reducer(a, z), y)
    ensures FoldLeft(reducer, reducer(acc, x), xs) == reducer(FoldLeft(reducer, acc, xs), x)
  {
    if xs != [] {
      FoldLeftMoveFirst(reducer, reducer(acc, xs[0]), x, xs[1..]);
    }
  }

  /**
   * When the order of the elements does not matter to the reducer (as with
   * `add`), `foldr` and `foldl` compute the same value.
   */
  lemma {:induction false} FoldrEqualsFoldl<T, U>(reducer: (U, T) -> U, init: U, xs: seq<T>)
    requires forall a: U, y: T, z: T :: reducer(reducer(a, y), z) == reducer(reducer(a, z), y)
    ensures FoldLeft(reducer, init, Reverse(xs)) == FoldLeft(reducer, init, xs)
  {
    if xs != [] {
      ReverseFirstLast(xs);
      FoldLeftSnoc(reducer, init, Reverse(xs[1..]), xs[0]);
      FoldrEqualsFoldl(reducer, init, xs[1..]);
      FoldLeftMoveFirst(reducer, init, xs[0], xs[1..]);
    }
  }

  /** `foldl(add, 0, [1, 2, 3, 4, 5])` and `foldr` over the same input are both 15. */
  method SumExample() returns (left: int, right: int)
    ensures left == 15 && right == 15
  {
    var add := (a: int, b: int) => a + b;
    var xs := new JsArray([1, 2, 3, 4, 5]);
    left := FoldL(add, 0, xs);
    xs := new JsArray([1, 2, 3, 4, 5]);
    right := FoldR(add, 0, xs);
    FoldrEqualsFoldl(add, 0, [1, 2, 3, 4, 5]);
  }
}
