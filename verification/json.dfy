/**
 * JSON values as the locale bundle reads and writes them, the JavaScript
 * truthiness of a value, and the deep merge the compile pass and the render
 * hook apply through the `deepmerge` package: objects merge key by key,
 * recursively, and keys of both sides survive; two arrays are combined by the
 * package's array strategy, kept abstract here; an array against a
 * non-array gives the later value; a later primitive at the top level
 * contributes only its own keys (none for a number or boolean, its indices
 * for a string), and a later `null` makes the package throw.
 */
module Json {
  import opened Wrappers
  import opened Strings

  datatype Json =
    | Null
    | Bool(b: bool)
    | Num(n: int)
    | Str(s: string)
    | Arr(items: seq<Json>)
    | Obj(fields: map<string, Json>)

  /** `{}` */
  const EmptyObject: Json := Obj(map[])

  /** How two arrays are combined by the merge (the package's `arrayMerge` option). */
  type ArrayMerge = (seq<Json>, seq<Json>) -> seq<Json>

  /** A value taken as a JavaScript condition. */
  predicate Truthy(j: Json) {
    match j
    case Null => false
    case Bool(b) => b
    case Num(n) => n != 0
    case Str(s) => s != ""
    case _ => true
  }

  /** `isMergeableObject`: the values the merge recurses into. */
  predicate Mergeable(j: Json) {
    j.Obj? || j.Arr?
  }

  /** The own enumerable keys of a primitive string: each index, holding that character. */
  function StringEntries(s: string): (r: map<string, Json>)
    ensures forall k :: k in r ==> |k| >= 1 && IsDigit(k[0])
    decreases |s|
  {
    if |s| == 0 then map[]
    else StringEntries(s[..|s| - 1])[NatToString(|s| - 1) := Str([s[|s| - 1]])]
  }

  /**
   * `deepmerge(a, b)`: `b` merged over `a`, or `None` where the package
   * throws. When exactly one side is an array the result is `b`; two arrays
   * go to the array strategy; otherwise the result is a new object holding
   * the keys of `a` (when `a` is an object) and then the own keys of `b`,
   * where a key present on both sides whose new value is mergeable is merged
   * recursively. A `null` `b` has no keys to enumerate, which throws.
   */
  function DeepMerge(a: Json, b: Json, arrays: ArrayMerge): (r: Option<Json>)
    ensures r.None? <==> b.Null? && !a.Arr?
    ensures a.Obj? && b.Obj? ==> r.Some? && r.value.Obj? && r.value.fields.Keys == a.fields.Keys + b.fields.Keys
    decreases b
  {
    if a.Arr? != b.Arr? then Some(b)
    else if b.Arr? then Some(Arr(arrays(a.items, b.items)))
    else if b.Null? then None
    else if b.Obj? then
      var base := if a.Obj? then a.fields else map[];
      Some(Obj(map k | k in base.Keys + b.fields.Keys ::
        if k in b.fields then
          if k in base && Mergeable(b.fields[k]) then DeepMerge(base[k], b.fields[k], arrays).value else b.fields[k]
        else base[k]))
    else
      var base := if a.Obj? then a.fields else map[];
      Some(Obj(base + (if b.Str? then StringEntries(b.s) else map[])))
  }

  /** Merging into `{}`: a mergeable value is taken as it is, a number or boolean gives `{}`, `null` throws. */
  lemma MergeIntoEmpty(b: Json, arrays: ArrayMerge)
    ensures Mergeable(b) ==> DeepMerge(EmptyObject, b, arrays) == Some(b)
    ensures b.Null? ==> DeepMerge(EmptyObject, b, arrays).None?
    ensures b.Bool? || b.Num? ==> DeepMerge(EmptyObject, b, arrays) == Some(EmptyObject)
    ensures b.Str? ==> DeepMerge(EmptyObject, b, arrays) == Some(Obj(StringEntries(b.s)))
  {
    if b.Obj? {
      var r := DeepMerge(EmptyObject, b, arrays).value;
      assert r.fields.Keys == b.fields.Keys;
      forall k | k in b.fields ensures r.fields[k] == b.fields[k] { }
      assert r.fields == b.fields;
    } else if b.Str? {
      assert map[] + StringEntries(b.s) == StringEntries(b.s);
    }
  }

  /** A number or boolean merged over an object leaves the object as it is. */
  lemma ScalarKeepsTarget(a: Json, b: Json, arrays: ArrayMerge)
    requires a.Obj? && (b.Bool? || b.Num?)
    ensures DeepMerge(a, b, arrays) == Some(a)
  {
    assert a.fields + map[] == a.fields;
  }

  /** What each key of the merge of two objects holds. */
  lemma MergeFields(a: Json, b: Json, arrays: ArrayMerge, k: string)
    requires a.Obj? && b.Obj?
    ensures var r := DeepMerge(a, b, arrays).value;
      && (k in r.fields <==> k in a.fields || k in b.fields)
      && (k in a.fields && k in b.fields && Mergeable(b.fields[k]) ==>
            r.fields[k] == DeepMerge(a.fields[k], b.fields[k], arrays).value)
      && (k in b.fields && (k !in a.fields || !Mergeable(b.fields[k])) ==> r.fields[k] == b.fields[k])
      && (k in a.fields && k !in b.fields ==> r.fields[k] == a.fields[k])
  {
  }

  // ---------------------------------------------------------------------------
  // Leaves addressed by a key path
  // ---------------------------------------------------------------------------

  /** The value reached by following the keys of `path` from `j`, if any. */
  function Lookup(j: Json, path: seq<string>): Option<Json>
    decreases |path|
  {
    if |path| == 0 then Some(j)
    else if j.Obj? && path[0] in j.fields then Lookup(j.fields[path[0]], path[1..])
    else None
  }

  /** Along `path`, `b` holds only objects until some key is missing: `b` does not cover that path. */
  predicate Uncovered(b: Json, path: seq<string>)
    decreases |path|
  {
    b.Obj? && |path| > 0 &&
    (path[0] !in b.fields || Uncovered(b.fields[path[0]], path[1..]))
  }

  /**
   * Every leaf of the later object wins, however deep it sits. The path is
   * not empty: a later value that is itself a number or boolean does not
   * replace an earlier object (see ScalarKeepsTarget).
   */
  lemma {:induction false} LaterLeafWins(a: Json, b: Json, arrays: ArrayMerge, path: seq<string>)
    requires |path| > 0
    requires Lookup(b, path).Some? && !Mergeable(Lookup(b, path).value)
    ensures DeepMerge(a, b, arrays).Some?
    ensures Lookup(DeepMerge(a, b, arrays).value, path) == Lookup(b, path)
    decreases |path|
  {
    var k := path[0];
    var r := DeepMerge(a, b, arrays).value;
    assert b.Obj? && k in b.fields;
    if a.Obj? && k in a.fields && Mergeable(b.fields[k]) {
      MergeFields(a, b, arrays, k);
      LaterLeafWins(a.fields[k], b.fields[k], arrays, path[1..]);
    } else if a.Obj? {
      MergeFields(a, b, arrays, k);
    }
    assert Lookup(r, path) == Lookup(r.fields[k], path[1..]);
  }

  /** Every earlier value survives unless the later object reaches its path. */
  lemma {:induction false} EarlierLeafSurvives(a: Json, b: Json, arrays: ArrayMerge, path: seq<string>)
    requires Lookup(a, path).Some?
    requires Uncovered(b, path)
    ensures DeepMerge(a, b, arrays).Some?
    ensures Lookup(DeepMerge(a, b, arrays).value, path) == Lookup(a, path)
    decreases |path|
  {
    var k := path[0];
    assert a.Obj? && k in a.fields;
    var r := DeepMerge(a, b, arrays).value;
    MergeFields(a, b, arrays, k);
    if k in b.fields {
      EarlierLeafSurvives(a.fields[k], b.fields[k], arrays, path[1..]);
    }
    assert Lookup(r, path) == Lookup(r.fields[k], path[1..]);
  }

  /** Illustration of MergeFields: nested objects merge key-wise, `{a:{x:1}}` then `{a:{y:2}}` gives `{a:{x:1,y:2}}`. */
  lemma MergeNestedExample(arrays: ArrayMerge)
    ensures DeepMerge(Obj(map["a" := Obj(map["x" := Num(1)])]), Obj(map["a" := Obj(map["y" := Num(2)])]), arrays)
         == Some(Obj(map["a" := Obj(map["x" := Num(1), "y" := Num(2)])]))
  {
    var inner := DeepMerge(Obj(map["x" := Num(1)]), Obj(map["y" := Num(2)]), arrays).value;
    assert inner.fields.Keys == {"x", "y"};
    assert inner.fields == map["x" := Num(1), "y" := Num(2)];
    var a, b := Obj(map["a" := Obj(map["x" := Num(1)])]), Obj(map["a" := Obj(map["y" := Num(2)])]);
    var outer := DeepMerge(a, b, arrays).value;
    MergeFields(a, b, arrays, "a");
    assert outer.fields.Keys == {"a"};
    assert outer.fields == map["a" := inner];
  }

  /** Illustration of MergeIntoEmpty: a string merged at the top level spreads into its indices: `{}` then `"ab"` gives `{"0":"a","1":"b"}`. */
  lemma MergeStringExample(arrays: ArrayMerge)
    ensures DeepMerge(EmptyObject, Str("ab"), arrays) == Some(Obj(map["0" := Str("a"), "1" := Str("b")]))
  {
    assert "ab"[..1] == "a" && "a"[..0] == "";
    assert NatToString(0) == "0" && NatToString(1) == "1";
    assert StringEntries("ab") == map["0" := Str("a"), "1" := Str("b")];
    MergeIntoEmpty(Str("ab"), arrays);
  }

  /** Illustration of MergeFields: two arrays under one key are combined by the array strategy. */
  lemma MergeArrayExample(arrays: ArrayMerge)
    ensures DeepMerge(Obj(map["a" := Arr([Num(1), Num(2)])]), Obj(map["a" := Arr([Num(3)])]), arrays)
         == Some(Obj(map["a" := Arr(arrays([Num(1), Num(2)], [Num(3)]))]))
  {
    var a, b := Obj(map["a" := Arr([Num(1), Num(2)])]), Obj(map["a" := Arr([Num(3)])]);
    var t := DeepMerge(a, b, arrays).value;
    MergeFields(a, b, arrays, "a");
    assert t.fields.Keys == {"a"};
    assert t.fields == map["a" := Arr(arrays([Num(1), Num(2)], [Num(3)]))];
  }
}
