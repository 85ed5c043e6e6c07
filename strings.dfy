/** The string operations of lib/index.ts: `join`, `startsWith` and `endsWith`. */
module Strings {
  import opened Builtins
  import opened Lists

  /** Strings joined with `d` between neighbours, defined from the back: the reference for `join`. */
  function Intercalate(parts: seq<string>, d: string): string
  {
    if |parts| == 0 then ""
    else if |parts| == 1 then parts[0]
    else Intercalate(parts[..|parts| - 1], d) + d + parts[|parts| - 1]
  }

  /** The reducer of `join`: the element, then the delimiter unless it is the last. */
  function JoinStep(delimiter: string): Step<string, string>
  {
    (acc: string, v: string, i: nat, arr: seq<string>) =>
      acc + v + (if i != |arr| - 1 then delimiter else "")
  }

  lemma {:induction false} JoinPrefix(list: seq<string>, delimiter: string, n: nat)
    requires n <= |list|
    ensures ReducePrefix(JoinStep(delimiter), "", list, n) ==
      if n == 0 then ""
      else if n == |list| then Intercalate(list[..n], delimiter)
      else Intercalate(list[..n], delimiter) + delimiter
  {
    if n > 0 {
      JoinPrefix(list, delimiter, n - 1);
      assert list[..n][..n - 1] == list[..n - 1];
    }
  }

  /**
   * `join(list, delimiter)` over an array of strings: the elements with
   * `delimiter` between each pair and none at the end.
   */
  function Join(list: seq<string>, delimiter: string): (r: string)
    ensures r == Intercalate(list, delimiter)
  {
    JoinPrefix(list, delimiter, |list|);
    assert list[..|list|] == list;
    Reduce(JoinStep(delimiter), "", list)
  }

  lemma {:induction false} IntercalateEmptyDelimiter(parts: seq<string>)
    ensures Intercalate(parts, "") == Concatenation(parts)
  {
    if |parts| > 1 {
      var p := parts[..|parts| - 1];
      IntercalateEmptyDelimiter(p);
      assert parts == p + [parts[|parts| - 1]];
      ConcatenationSnoc(p, parts[|parts| - 1]);
    } else if |parts| == 1 {
      assert Concatenation(parts) == parts[0] + Concatenation([]);
    }
  }

  /** With the default delimiter `''`, `join` is the plain concatenation of the strings. */
  lemma JoinEmptyDelimiter(list: seq<string>)
    ensures Join(list, "") == Concatenation(list)
  {
    IntercalateEmptyDelimiter(list);
  }

  /** `join(['hello,', 'world'], ' ')` is `'hello, world'`. */
  lemma JoinExample()
    ensures Join(["hello,", "world"], " ") == "hello, world"
  {
    assert ["hello,", "world"][..1] == ["hello,"];
  }

  /** `startsWith(str1, str2)`: `str1 === str2.slice(0, str1.length)`, i.e. `str1` is a prefix of `str2`. */
  function StartsWith(str1: string, str2: string): (r: bool)
    ensures r <==> str1 <= str2
  {
    str1 == Slice(str2, 0, |str1|)
  }

  /**
   * `endsWith(str1, str2)`: `str1 === str2.slice(str2.length - str1.length)`,
   * i.e. `str1` is a suffix of `str2`. A `str1` longer than `str2` makes the
   * start negative, which `slice` counts from the end; the slice is then
   * shorter than `str1`, so the answer is still false.
   */
  function EndsWith(str1: string, str2: string): (r: bool)
    ensures r <==> |str1| <= |str2| && str2[|str2| - |str1|..] == str1
  {
    str1 == Slice(str2, |str2| - |str1|, |str2|)
  }

  /** A suffix is a prefix of the reversed strings. */
  lemma EndsWithIsReversedStartsWith(str1: string, str2: string)
    ensures EndsWith(str1, str2) <==> StartsWith(Reverse(str1), Reverse(str2))
  {
    var r1, r2 := Reverse(str1), Reverse(str2);
    if |str1| <= |str2| {
      var suffix := str2[|str2| - |str1|..];
      if suffix == str1 {
        assert forall j :: 0 <= j < |r1| ==> r1[j] == r2[j];
      }
      if r1 <= r2 {
        forall j | 0 <= j < |str1|
          ensures suffix[j] == str1[j]
        {
          assert r1[|str1| - 1 - j] == r2[|str1| - 1 - j];
        }
      }
    }
  }
}
