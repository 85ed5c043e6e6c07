/**
 * The parts of the JavaScript runtime that the utility library calls:
 * `Array.prototype.reduce`, `slice`, `indexOf`, `Array.from`, reading an
 * array index, and the in-place `shift` and `pop` of an array object.
 */
module Builtins {
  import opened Wrappers

  /** The callback of the array methods: element, index, and the whole array. */
  type Callback<!T, R> = (T, nat, seq<T>) -> R

  /** The callback of `reduce`: accumulator, element, index, and the whole array. */
  type Step<!U, !T> = (U, T, nat, seq<T>) -> U

  /** `reduce(f, init)` after it has visited the first `n` elements, left to right. */
  function ReducePrefix<T, U>(f: Step<U, T>, init: U, xs: seq<T>, n: nat): U
    requires n <= |xs|
  {
    if n == 0 then init else f(ReducePrefix(f, init, xs, n - 1), xs[n - 1], n - 1, xs)
  }

  /** `xs.reduce(f, init)`. */
  function Reduce<T, U>(f: Step<U, T>, init: U, xs: seq<T>): U
  {
    ReducePrefix(f, init, xs, |xs|)
  }

  /** `xs.indexOf(x)`: the first position holding `x`, or -1. */
  function IndexOf<T(==)>(xs: seq<T>, x: T): (r: int)
    ensures -1 <= r < |xs|
    ensures r == -1 <==> x !in xs
    ensures 0 <= r ==> xs[r] == x && x !in xs[..r]
  {
    if xs == [] then -1
    else if xs[0] == x then 0
    else
      var k := IndexOf(xs[1..], x);
      if k == -1 then -1
      else
        assert xs[..k + 1] == [xs[0]] + xs[1..][..k];
        k + 1
  }

  /** Reading `xs[i]`: `undefined` past the end. */
  function At<T>(xs: seq<T>, i: nat): Option<T>
  {
    if i < |xs| then Defined(xs[i]) else Undefined
  }

  /** How `slice` resolves an index argument: negative counts from the end; both are clamped. */
  function RelativeIndex(k: int, len: nat): (r: nat)
    ensures r <= len
    ensures 0 <= k <= len ==> r == k
    ensures k < 0 && 0 <= len + k ==> r == len + k
  {
    if k < 0 then (if len + k < 0 then 0 else len + k)
    else if k < len then k else len
  }

  /** `xs.slice(start, end)`. */
  function Slice<T>(xs: seq<T>, start: int, end: int): (r: seq<T>)
    ensures |r| <= |xs|
  {
    var from, to := RelativeIndex(start, |xs|), RelativeIndex(end, |xs|);
    if from < to then xs[from..to] else []
  }

  /** `Array.from({ length }, (_, i) => f(i))` for an integral `length`. */
  function ArrayFrom<T>(length: int, f: nat -> T): (r: seq<T>)
    ensures |r| == if length < 0 then 0 else length
    ensures forall i :: 0 <= i < |r| ==> r[i] == f(i)
  {
    seq(if length < 0 then 0 else length, i requires 0 <= i => f(i))
  }

  /** A JavaScript array object, which `shift` and `pop` change in place. */
  class JsArray<T> {
    var elems: seq<T>

    constructor (xs: seq<T>)
      ensures elems == xs
    {
      elems := xs;
    }

    /** `shift()`: removes and returns the first element; `undefined` on an empty array. */
    method Shift() returns (first: Option<T>)
      modifies this
      ensures old(elems) == [] ==> first == Undefined && elems == []
      ensures old(elems) != [] ==> first == Defined(old(elems)[0]) && elems == old(elems)[1..]
    {
      if elems == [] {
        first := Undefined;
      } else {
        first := Defined(elems[0]);
        elems := elems[1..];
      }
    }

    /** `pop()`: removes and returns the last element; `undefined` on an empty array. */
    method Pop() returns (last: Option<T>)
      modifies this
      ensures old(elems) == [] ==> last == Undefined && elems == []
      ensures old(elems) != [] ==>
        last == Defined(old(elems)[|old(elems)| - 1]) && elems == old(elems)[..|old(elems)| - 1]
    {
      if elems == [] {
        last := Undefined;
      } else {
        last := Defined(elems[|elems| - 1]);
        elems := elems[..|elems| - 1];
      }
    }
  }
}
