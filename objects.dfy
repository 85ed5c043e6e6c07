/**
 * The object operations of lib/index.ts: `assoc` and `assocPath`, which build
 * new objects by spreading the old ones, and `dissoc`, which deletes a key
 * from the caller's object in place.
 */
module Objects {
  import opened Wrappers

  /** A JavaScript value as these operations see it: a primitive (a number) or a plain object. */
  datatype Value = Leaf(n: int) | Obj(fields: map<string, Value>)

  /** A plain object: its own keys and their values. */
  type Record = map<string, Value>

  /** The TypeError thrown when a property of `undefined` is read. */
  datatype TypeError = CannotReadProperty(key: string)

  /** `{ ...o }`: the own fields of `o`; spreading a primitive or `undefined` gives `{}`. */
  function Spread(o: Option<Value>): Record
  {
    if o.Defined? && o.value.Obj? then o.value.fields else map[]
  }

  /** `o[key]` for a defined `o`: `undefined` for a missing key or a primitive. */
  function Child(o: Option<Value>, key: string): Option<Value>
  {
    if o.Defined? && o.value.Obj? && key in o.value.fields then Defined(o.value.fields[key]) else Undefined
  }

  /** The value reached by following `path` from `o`, `undefined` once a key is missing. */
  function Lookup(o: Option<Value>, path: seq<string>): Option<Value>
    decreases |path|
  {
    if path == [] then o
    else if o == Undefined then Undefined
    else Lookup(Child(o, path[0]), path[1..])
  }

  /** `assoc(k, v, obj)`: `{ ...obj, [k]: v }`, a new object. */
  function Assoc(k: string, v: Value, obj: Record): (r: Record)
    ensures r.Keys == obj.Keys + {k}
    ensures r[k] == v
    ensures forall j :: j in obj && j != k ==> r[j] == obj[j]
  {
    obj[k := v]
  }

  /**
   * The keys `assocPath(path)` writes along: destructuring `[head, ...tail]`
   * out of an empty path gives `head === undefined`, a computed key that
   * JavaScript turns into the string "undefined".
   */
  function Target(path: seq<string>): (t: seq<string>)
    ensures t != []
    ensures path == [] ==> t == ["undefined"]
    ensures path != [] ==> t == path
  {
    if path == [] then ["undefined"] else path
  }

  /**
   * The inner `setValue([head, ...tail], o)` of `assocPath`: with more keys to
   * go, `{ ...o, [head]: setValue(tail, o[head]) }`, which throws when `o` is
   * `undefined`; at the last key, `{ ...o, [head]: v }`.
   */
  function SetValue(path: seq<string>, o: Option<Value>, v: Value): Result<Record, TypeError>
    requires path != []
    decreases |path|
  {
    if |path| > 1 then
      if o == Undefined then Err(CannotReadProperty(path[0]))
      else
        match SetValue(path[1..], Child(o, path[0]), v)
        case Err(e) => Err(e)
        case Ok(m) => Ok(Spread(o)[path[0] := Obj(m)])
    else Ok(Spread(o)[path[0] := v])
  }

  /** `assocPath(path)(v, obj)`. */
  function AssocPath(path: seq<string>, v: Value, obj: Record): Result<Record, TypeError>
  {
    SetValue(Target(path), Defined(Obj(obj)), v)
  }

  /** `q` leaves `p` at some level: after a common prefix the two paths name different keys. */
  predicate Diverges(p: seq<string>, q: seq<string>)
  {
    p != [] && q != [] && (p[0] != q[0] || Diverges(p[1..], q[1..]))
  }

  lemma {:induction false} SetValueFails(path: seq<string>, o: Option<Value>, v: Value)
    requires path != []
    ensures SetValue(path, o, v).Err? <==> 1 < |path| && Lookup(o, path[..|path| - 2]) == Undefined
  {
    if 1 < |path| && o != Undefined {
      SetValueFails(path[1..], Child(o, path[0]), v);
      if 2 < |path| {
        assert path[..|path| - 2] == [path[0]] + path[1..][..|path| - 3];
      }
    }
  }

  lemma {:induction false} SetValueSets(path: seq<string>, o: Option<Value>, v: Value)
    requires path != [] && SetValue(path, o, v).Ok?
    ensures Lookup(Defined(Obj(SetValue(path, o, v).value)), path) == Defined(v)
  {
    if 1 < |path| {
      SetValueSets(path[1..], Child(o, path[0]), v);
    }
  }

  lemma {:induction false} SetValueFrame(path: seq<string>, o: Option<Value>, v: Value, q: seq<string>)
    requires path != [] && SetValue(path, o, v).Ok?
    requires Diverges(path, q)
    ensures Lookup(Defined(Obj(SetValue(path, o, v).value)), q) == Lookup(o, q)
  {
    var m := SetValue(path, o, v).value;
    if q[0] == path[0] {
      SetValueFrame(path[1..], Child(o, path[0]), v, q[1..]);
    } else if o == Undefined {
      assert Child(Defined(Obj(m)), q[0]) == Undefined;
    }
  }

  /**
   * `assocPath(path)(v, obj)` throws exactly when the object missing on the
   * path lies two or more levels above the last key: only the parent of the
   * last key may be absent (or a primitive), and is then created.
   */
  lemma AssocPathFails(path: seq<string>, v: Value, obj: Record)
    ensures AssocPath(path, v, obj).Err? <==>
      2 < |path| && Lookup(Defined(Obj(obj)), path[..|path| - 2]) == Undefined
  {
    SetValueFails(Target(path), Defined(Obj(obj)), v);
  }

  /** Where `assocPath` succeeds, the value at the path is `v`. */
  lemma AssocPathSets(path: seq<string>, v: Value, obj: Record)
    requires AssocPath(path, v, obj).Ok?
    ensures Lookup(Defined(Obj(AssocPath(path, v, obj).value)), Target(path)) == Defined(v)
  {
    SetValueSets(Target(path), Defined(Obj(obj)), v);
  }

  /**
   * Where `assocPath` succeeds, every path that leaves `path` at some level
   * reaches what it reached before: all other keys at every level keep their
   * values. `obj` itself is a value here and cannot change.
   */
  lemma AssocPathFrame(path: seq<string>, v: Value, obj: Record, q: seq<string>)
    requires AssocPath(path, v, obj).Ok?
    requires Diverges(Target(path), q)
    ensures Lookup(Defined(Obj(AssocPath(path, v, obj).value)), q) == Lookup(Defined(Obj(obj)), q)
  {
    SetValueFrame(Target(path), Defined(Obj(obj)), v, q);
  }

  /** A one-key `assocPath` is `assoc`. */
  lemma AssocPathSingleKey(k: string, v: Value, obj: Record)
    ensures AssocPath([k], v, obj) == Ok(Assoc(k, v, obj))
  {
  }

  /** The example of the library's tests: setting `a.b.c` to 10 changes nothing else. */
  lemma AssocPathExample()
    ensures var before := map["a" := Obj(map["b" := Obj(map["c" := Leaf(3)]), "d" := Leaf(2)]), "e" := Leaf(1)];
      var after := map["a" := Obj(map["b" := Obj(map["c" := Leaf(10)]), "d" := Leaf(2)]), "e" := Leaf(1)];
      AssocPath(["a", "b", "c"], Leaf(10), before) == Ok(after)
  {
    var before := map["a" := Obj(map["b" := Obj(map["c" := Leaf(3)]), "d" := Leaf(2)]), "e" := Leaf(1)];
    var a, b := before["a"].fields, before["a"].fields["b"].fields;
    var b2 := map["c" := Leaf(10)];
    var a2 := map["b" := Obj(b2), "d" := Leaf(2)];
    var after := map["a" := Obj(a2), "e" := Leaf(1)];
    assert ["a", "b", "c"][1..] == ["b", "c"];
    assert ["b", "c"][1..] == ["c"];
    assert b["c" := Leaf(10)] == b2;
    assert SetValue(["c"], Defined(Obj(b)), Leaf(10)) == Ok(b2);
    assert Child(Defined(Obj(a)), "b") == Defined(Obj(b));
    assert a["b" := Obj(b2)].Keys == a2.Keys;
    assert a["b" := Obj(b2)] == a2;
    assert Spread(Defined(Obj(a))) == a;
    assert ["b", "c"][0] == "b" && |["b", "c"]| == 2;
    assert SetValue(["b", "c"], Defined(Obj(a)), Leaf(10)) == Ok(a2);
    assert Child(Defined(Obj(before)), "a") == Defined(Obj(a));
    assert before["a" := Obj(a2)].Keys == after.Keys;
    assert before["a" := Obj(a2)] == after;
    assert Spread(Defined(Obj(before))) == before;
    assert ["a", "b", "c"][0] == "a" && |["a", "b", "c"]| == 3;
    assert SetValue(["a", "b", "c"], Defined(Obj(before)), Leaf(10)) == Ok(after);
  }

  /** `obj` without the key `k`. */
  function Without(m: Record, k: string): (r: Record)
    ensures r.Keys == m.Keys - {k}
    ensures forall j :: j in r ==> r[j] == m[j]
  {
    m - {k}
  }

  /** Deleting a key that `assoc` added gives back the original object. */
  lemma DissocUndoesAssoc(k: string, v: Value, m: Record)
    requires k !in m
    ensures Without(Assoc(k, v, m), k) == m
  {
  }

  /** Putting a deleted key back with its old value gives back the original object. */
  lemma AssocUndoesDissoc(k: string, m: Record)
    requires k in m
    ensures Assoc(k, m[k], Without(m, k)) == m
  {
  }

  /** A JavaScript object whose keys `delete` removes in place. */
  class JsObject {
    var fields: Record

    constructor (fields: Record)
      ensures this.fields == fields
    {
      this.fields := fields;
    }
  }

  /** `dissoc(k, obj)`: `delete obj[k]`, then returns the same object. */
  method Dissoc(k: string, obj: JsObject) returns (r: JsObject)
    modifies obj
    ensures r == obj
    ensures obj.fields == Without(old(obj.fields), k)
  {
    obj.fields := obj.fields - {k};
    r := obj;
  }

  /** The example of the library's tests: `dissoc('c', { a: 1, b: 2, c: 3 })` is `{ a: 1, b: 2 }`. */
  method DissocExample() returns (r: JsObject)
    ensures r.fields == map["a" := Leaf(1), "b" := Leaf(2)]
  {
    var obj := new JsObject(map["a" := Leaf(1), "b" := Leaf(2), "c" := Leaf(3)]);
    r := Dissoc("c", obj);
  }
}
