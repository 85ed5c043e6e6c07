/**
 * The structural list operations of lib/index.ts: building, slicing and
 * measuring arrays. Arrays are immutable values here; none of these
 * operations changes its argument in the library either.
 */
module Lists {
  import opened Wrappers
  import opened Builtins

  /** `append(list, x)`: a new array, `x` after the elements of `list`. */
  function Append<T>(list: seq<T>, newElement: T): (r: seq<T>)
    ensures Last(r) == Defined(newElement)
    ensures DropLast(1, r) == list
  {
    list + [newElement]
  }

  /** `concat(list1, list2)`: the elements of `list1`, then those of `list2`. */
  function Concat<T>(list1: seq<T>, list2: seq<T>): (r: seq<T>)
    ensures Take(|list1|, r) == list1
    ensures Drop(|list1|, r) == list2
  {
    list1 + list2
  }

  /** `head(li)`: the first element; `undefined` for an empty array. */
  function Head<T>(li: seq<T>): (r: Option<T>)
    ensures r == Undefined <==> li == []
    ensures li != [] ==> r == Defined(li[0])
  {
    if |li| > 0 then Defined(li[0]) else Undefined
  }

  /** `last(list)`: the last element; `undefined` for an empty array. */
  function Last<T>(list: seq<T>): (r: Option<T>)
    ensures r == Undefined <==> list == []
    ensures list != [] ==> r == Defined(list[|list| - 1])
  {
    if |list| > 0 then Defined(list[|list| - 1]) else Undefined
  }

  /** `tail(li)`: everything after the first element; `[]` for an empty array. */
  function Tail<T>(li: seq<T>): (r: seq<T>)
    ensures li == [] ==> r == []
    ensures li != [] ==> [li[0]] + r == li
  {
    if |li| > 0 then li[1..] else []
  }

  /** `take(n, list)`, i.e. `list.slice(0, n)`. */
  function Take<T>(n: int, list: seq<T>): (r: seq<T>)
    ensures r <= list
    ensures |r| == RelativeIndex(n, |list|)
  {
    Slice(list, 0, n)
  }

  /** `drop(n, list)`, i.e. `list.slice(n)`. */
  function Drop<T>(n: int, list: seq<T>): (r: seq<T>)
    ensures |r| == |list| - RelativeIndex(n, |list|)
    ensures r == list[RelativeIndex(n, |list|)..]
  {
    Slice(list, n, |list|)
  }

  /** `dropLast(n, list)`, i.e. `list.slice(0, list.length - n)`, as written. */
  function DropLast<T>(n: int, list: seq<T>): (r: seq<T>)
    ensures r <= list
    ensures 0 <= n <= |list| ==> |r| == |list| - n
    ensures n < 0 ==> r == list
    ensures |list| < n ==> |r| == RelativeIndex(|list| - n, |list|)
  {
    Slice(list, 0, |list| - n)
  }

  /** `dropLast` as its name promises: all but the last `n` elements, and none when `n` exceeds the length. */
  function DropLastClamped<T>(n: int, list: seq<T>): (r: seq<T>)
    ensures r <= list
    ensures n < 0 ==> r == list
    ensures 0 <= n <= |list| ==> |r| == |list| - n
    ensures |list| <= n ==> r == []
  {
    if n < 0 then list else if n <= |list| then list[..|list| - n] else []
  }

  /** `take` and `drop` at the same `n` split the array in two. */
  lemma TakeDropSplit<T>(n: int, xs: seq<T>)
    requires 0 <= n <= |xs|
    ensures Take(n, xs) + Drop(n, xs) == xs
    ensures |Take(n, xs)| == n
  {
    assert Take(n, xs) == xs[..n];
  }

  /** Within bounds, `dropLast(n)` is `take` of the rest, and it is followed by the last `n` elements. */
  lemma DropLastIsTake<T>(n: int, xs: seq<T>)
    requires 0 <= n <= |xs|
    ensures DropLast(n, xs) == Take(|xs| - n, xs)
    ensures DropLast(n, xs) + Drop(|xs| - n, xs) == xs
  {
    TakeDropSplit(|xs| - n, xs);
  }

  /** As written, `dropLast` past the length keeps a prefix: `dropLast(7, [1, 2, 3, 4, 5])` is `[1, 2, 3]`. */
  lemma DropLastPastLength()
    ensures DropLast(7, [1, 2, 3, 4, 5]) == [1, 2, 3]
    ensures DropLastClamped(7, [1, 2, 3, 4, 5]) == []
  {
    assert [1, 2, 3, 4, 5][..3] == [1, 2, 3];
  }

  /** The corrected `dropLast` agrees with the one written wherever `n` is not larger than the array. */
  lemma DropLastClampedAgrees<T>(n: int, xs: seq<T>)
    requires n <= |xs|
    ensures DropLastClamped(n, xs) == DropLast(n, xs)
  {
  }

  /** `tail` is `drop(1)`. */
  lemma TailIsDropOne<T>(xs: seq<T>)
    ensures Tail(xs) == Drop(1, xs)
  {
  }

  /** `head` and `tail` take a non-empty array apart. */
  lemma HeadTailRebuild<T>(xs: seq<T>)
    requires Head(xs).Defined?
    ensures [Head(xs).value] + Tail(xs) == xs
  {
  }

  /** The reducer of `len`. */
  function LenStep<T>(listLength: int, x: T, i: nat, arr: seq<T>): int
  {
    listLength + 1
  }

  lemma {:induction false} LenPrefix<T>(xs: seq<T>, n: nat)
    requires n <= |xs|
    ensures ReducePrefix(LenStep, 0, xs, n) == n
  {
    if n > 0 {
      LenPrefix(xs, n - 1);
    }
  }

  /** `len(list)`: counts the elements with `reduce`. */
  function Len<T>(list: seq<T>): (r: int)
    ensures r == |list|
  {
    LenPrefix(list, |list|);
    Reduce(LenStep, 0, list)
  }

  /** `isEmpty(list)`: `!list.length`. */
  function IsEmpty<T>(list: seq<T>): (r: bool)
    ensures r <==> list == []
  {
    |list| == 0
  }

  /** `isEmpty`, a zero `len` and an undefined `head` say the same thing. */
  lemma EmptinessAgrees<T>(xs: seq<T>)
    ensures IsEmpty(xs) <==> Len(xs) == 0
    ensures IsEmpty(xs) <==> Head(xs) == Undefined
  {
  }

  /** `includes(el, list)`: `list.indexOf(el) >= 0`. */
  function Includes<T(==)>(el: T, list: seq<T>): (r: bool)
    ensures r <==> el in list
  {
    IndexOf(list, el) >= 0
  }

  /** `range(a, b)`: `Array.from({ length: b - a }, (_, i) => i + a)`, for integral bounds. */
  function Range(a: int, b: int): (r: seq<int>)
    ensures |r| == if a <= b then b - a else 0
    ensures forall i :: 0 <= i < |r| ==> r[i] == a + i
  {
    ArrayFrom(b - a, i => i + a)
  }

  /** Adjacent ranges concatenate. */
  lemma RangeSplit(a: int, b: int, c: int)
    requires a <= b <= c
    ensures Range(a, b) + Range(b, c) == Range(a, c)
  {
    var l, r, all := Range(a, b), Range(b, c), Range(a, c);
    forall i | 0 <= i < |all|
      ensures (l + r)[i] == all[i]
    {
      if i >= |l| {
        assert (l + r)[i] == r[i - |l|];
      }
    }
  }

  /** `range(2, 8)` is `[2, 3, 4, 5, 6, 7]`. */
  lemma RangeExample()
    ensures Range(2, 8) == [2, 3, 4, 5, 6, 7]
  {
    var r := Range(2, 8);
    assert r[0] == 2 && r[1] == 3 && r[2] == 4 && r[3] == 5 && r[4] == 6 && r[5] == 7;
  }

  /** A number is in `range(a, b)` exactly when `a <= x < b`. */
  lemma RangeIncludes(a: int, b: int, x: int)
    ensures Includes(x, Range(a, b)) <==> a <= x < b
  {
    var r := Range(a, b);
    if a <= x < b {
      assert r[x - a] == x;
    }
  }

  /** `repeat(el, n)`: `Array.from({ length: n }, () => el)`. */
  function Repeat<T>(el: T, n: int): (r: seq<T>)
    ensures |r| == if n < 0 then 0 else n
    ensures forall i :: 0 <= i < |r| ==> r[i] == el
  {
    ArrayFrom(n, _ => el)
  }

  /** Repeating `m` times and then `n` times is repeating `m + n` times. */
  lemma RepeatAdds<T>(el: T, m: nat, n: nat)
    ensures Repeat(el, m) + Repeat(el, n) == Repeat(el, m + n)
  {
    var l, r := Repeat(el, m), Repeat(el, n);
    assert forall i :: 0 <= i < m + n ==> (l + r)[i] == el;
  }

  /** The reducer of `zip`: pairs each element with `list2[i]`. */
  function ZipStep<T, U>(list2: seq<U>): Step<seq<(T, Option<U>)>, T>
  {
    (acc: seq<(T, Option<U>)>, v: T, i: nat, arr: seq<T>) => acc + [(v, At(list2, i))]
  }

  lemma {:induction false} ZipPrefix<T, U>(list1: seq<T>, list2: seq<U>, n: nat)
    requires n <= |list1|
    ensures var r := ReducePrefix(ZipStep(list2), [], list1, n);
      |r| == n &&
      forall i :: 0 <= i < n ==> r[i] == (list1[i], if i < |list2| then Defined(list2[i]) else Undefined)
  {
    if n > 0 {
      ZipPrefix(list1, list2, n - 1);
    }
  }

  /** `zip(list1, list2)`: one pair per element of `list1`; past the end of `list2` the second is `undefined`. */
  function Zip<T, U>(list1: seq<T>, list2: seq<U>): (r: seq<(T, Option<U>)>)
    ensures |r| == |list1|
    ensures forall i :: 0 <= i < |list1| ==>
      r[i] == (list1[i], if i < |list2| then Defined(list2[i]) else Undefined)
  {
    ZipPrefix(list1, list2, |list1|);
    Reduce(ZipStep(list2), [], list1)
  }

  /** Zipping arrays of equal length loses nothing: both come back from the pairs. */
  lemma ZipUnzip<T, U>(list1: seq<T>, list2: seq<U>)
    requires |list1| == |list2|
    ensures var z := Zip(list1, list2);
      seq(|z|, i requires 0 <= i < |z| => z[i].0) == list1 &&
      seq(|z|, i requires 0 <= i < |z| => z[i].1) == seq(|list2|, i requires 0 <= i < |list2| => Defined(list2[i]))
  {
  }

  /** The reducer of `reverse`: puts each element in front. */
  function RevStep<T>(acc: seq<T>, v: T, i: nat, arr: seq<T>): seq<T>
  {
    [v] + acc
  }

  lemma {:induction false} ReversePrefix<T>(xs: seq<T>, n: nat)
    requires n <= |xs|
    ensures var r := ReducePrefix(RevStep, [], xs, n);
      |r| == n && forall j :: 0 <= j < n ==> r[j] == xs[n - 1 - j]
  {
    if n > 0 {
      ReversePrefix(xs, n - 1);
    }
  }

  /**
   * `reverse(input)`. A string is reversed through `split('')` and `join('')`,
   * which on `seq<char>` is this same function.
   */
  function Reverse<T>(input: seq<T>): (r: seq<T>)
    ensures |r| == |input|
    ensures forall j :: 0 <= j < |input| ==> r[j] == input[|input| - 1 - j]
  {
    ReversePrefix(input, |input|);
    Reduce(RevStep, [], input)
  }

  /** Reversing twice gives the array back. */
  lemma ReverseInvolutive<T>(xs: seq<T>)
    ensures Reverse(Reverse(xs)) == xs
  {
    var r := Reverse(xs);
    assert forall j :: 0 <= j < |xs| ==> Reverse(r)[j] == r[|xs| - 1 - j] == xs[j];
  }

  /** The last element comes first, then the reversed rest. */
  lemma ReverseLastFirst<T>(xs: seq<T>)
    requires xs != []
    ensures Reverse(xs) == [xs[|xs| - 1]] + Reverse(xs[..|xs| - 1])
  {
    var r, rest := Reverse(xs), Reverse(xs[..|xs| - 1]);
    forall j | 0 <= j < |xs|
      ensures r[j] == ([xs[|xs| - 1]] + rest)[j]
    {
      if j > 0 {
        assert ([xs[|xs| - 1]] + rest)[j] == rest[j - 1];
      }
    }
  }

  /** The first element goes last, after the reversed rest. */
  lemma ReverseFirstLast<T>(xs: seq<T>)
    requires xs != []
    ensures Reverse(xs) == Reverse(xs[1..]) + [xs[0]]
  {
    var r, rest := Reverse(xs), Reverse(xs[1..]);
    forall j | 0 <= j < |xs|
      ensures r[j] == (rest + [xs[0]])[j]
    {
      if j < |xs| - 1 {
        assert (rest + [xs[0]])[j] == rest[j];
      }
    }
  }

  /** One level of concatenation, defined from the front: the reference for `flatten`. */
  function Concatenation<T>(li: seq<seq<T>>): seq<T>
  {
    if li == [] then [] else li[0] + Concatenation(li[1..])
  }

  lemma {:induction false} ConcatenationSnoc<T>(li: seq<seq<T>>, v: seq<T>)
    ensures Concatenation(li + [v]) == Concatenation(li) + v
  {
    if li == [] {
      assert li + [v] == [v];
      assert Concatenation([v]) == v + Concatenation([]);
    } else {
      assert (li + [v])[1..] == li[1..] + [v];
      ConcatenationSnoc(li[1..], v);
    }
  }

  /** The reducer of `flatten`: `acc.concat(v)`. */
  function FlattenStep<T>(acc: seq<T>, v: seq<T>, i: nat, arr: seq<seq<T>>): seq<T>
  {
    acc + v
  }

  lemma {:induction false} FlattenPrefix<T>(li: seq<seq<T>>, n: nat)
    requires n <= |li|
    ensures ReducePrefix(FlattenStep, [], li, n) == Concatenation(li[..n])
  {
    if n > 0 {
      FlattenPrefix(li, n - 1);
      assert li[..n] == li[..n - 1] + [li[n - 1]];
      ConcatenationSnoc(li[..n - 1], li[n - 1]);
    }
  }

  /** `flatten(li)`: the inner arrays one after another, one level deep. */
  function Flatten<T>(li: seq<seq<T>>): (r: seq<T>)
    ensures r == Concatenation(li)
  {
    FlattenPrefix(li, |li|);
    assert li[..|li|] == li;
    Reduce(FlattenStep, [], li)
  }

  /** Flattening distributes over concatenation of the outer arrays. */
  lemma {:induction false} FlattenConcat<T>(a: seq<seq<T>>, b: seq<seq<T>>)
    ensures Flatten(a + b) == Flatten(a) + Flatten(b)
  {
    if a == [] {
      assert a + b == b;
    } else {
      assert (a + b)[1..] == a[1..] + b;
      FlattenConcat(a[1..], b);
    }
  }
}
