/** The cell lookup of the data table: a dotted key read out of a record. */
module DataTable {
  import opened Wrappers
  import opened Sequences

  /** The values a record can hold, as far as the lookup tells them apart. */
  datatype JsValue =
    | Undefined
    | Null
    | Bool(b: bool)
    | Num(n: int)
    | Str(s: string)
    | Obj(fields: map<string, JsValue>)

  /** `v == null`: null or undefined. */
  predicate Nullish(v: JsValue) {
    v.Null? || v.Undefined?
  }

  /** The placeholder shown for a missing value. */
  const Dash: JsValue := Str("-")

  /** One step of the lookup: the property `k` of a (truthy) object holding it, and
      null for anything else. */
  function Step(v: JsValue, k: string): JsValue {
    if v.Obj? && k in v.fields then v.fields[k] else Null
  }

  /** The `reduce` over the segments, from the first to the last. */
  function Walk(v: JsValue, segments: seq<string>): JsValue
    decreases segments
  {
    if segments == [] then v else Walk(Step(v, segments[0]), segments[1..])
  }

  /** The lookup of a path that exists all the way: `Some` of the value it reaches. */
  function Lookup(v: JsValue, segments: seq<string>): (r: Option<JsValue>)
    decreases segments
  {
    if segments == [] then Some(v)
    else if v.Obj? && segments[0] in v.fields then Lookup(v.fields[segments[0]], segments[1..])
    else None
  }

  /** `getRecordProperty(item, key)`. */
  function GetRecordProperty(item: JsValue, key: string): (r: JsValue)
    ensures item.Str? ==> r == item
    ensures Nullish(item) ==> r == Dash
    ensures !Nullish(r)
  {
    if item.Str? then item
    else if Nullish(item) then Dash
    else
      var found := Walk(item, SplitOn(key, '.'));
      if Nullish(found) then Dash else found
  }

  /** Once the lookup has reached null it stays null. */
  lemma {:induction false} NullAbsorbs(segments: seq<string>)
    ensures Walk(Null, segments) == Null
  {
    if segments != [] {
      NullAbsorbs(segments[1..]);
    }
  }

  /** Walking a concatenation is walking its parts in turn. */
  lemma {:induction false} WalkAppend(v: JsValue, a: seq<string>, b: seq<string>)
    ensures Walk(v, a + b) == Walk(Walk(v, a), b)
    decreases a
  {
    if a == [] {
      assert a + b == b;
    } else {
      assert (a + b)[0] == a[0] && (a + b)[1..] == a[1..] + b;
      WalkAppend(Step(v, a[0]), a[1..], b);
    }
  }

  /** The fold agrees with the path lookup: it reaches the value at the end of a
      path that exists, and null when some segment is missing or meets a value that
      is not an object. */
  lemma {:induction false} WalkIsLookup(v: JsValue, segments: seq<string>)
    ensures Walk(v, segments) == match Lookup(v, segments) case Some(x) => x case None => Null
  {
    if segments != [] {
      if v.Obj? && segments[0] in v.fields {
        WalkIsLookup(v.fields[segments[0]], segments[1..]);
      } else {
        NullAbsorbs(segments[1..]);
      }
    }
  }

  /** A missing segment, or an intermediate value that is not an object, gives the
      placeholder whatever follows. */
  lemma MissingSegment(item: JsValue, key: string, i: nat)
    requires item.Obj?
    requires i < |SplitOn(key, '.')|
    requires var segments := SplitOn(key, '.');
      var reached := Walk(item, segments[..i]);
      !(reached.Obj? && segments[i] in reached.fields)
    ensures GetRecordProperty(item, key) == Dash
  {
    var segments := SplitOn(key, '.');
    assert segments == segments[..i] + ([segments[i]] + segments[i + 1..]);
    WalkAppend(item, segments[..i], [segments[i]] + segments[i + 1..]);
    NullAbsorbs(segments[i + 1..]);
  }

  /** A key without dots reads that field of the record: its value when it is not
      null or undefined, falsy values such as `0`, `''` and `false` included, and
      the placeholder otherwise. */
  lemma SingleSegment(fields: map<string, JsValue>, key: string)
    requires '.' !in key && key in fields
    ensures GetRecordProperty(Obj(fields), key) == if Nullish(fields[key]) then Dash else fields[key]
  {
    SplitNoSeparator(key, '.');
    assert [key][1..] == [];
    assert Walk(Obj(fields), [key]) == Walk(fields[key], []);
  }

  /** A dotted key descends one level per segment. */
  lemma NestedKey(item: JsValue, first: string, rest: string)
    requires '.' !in first
    ensures !item.Str? && !Nullish(item) ==>
      GetRecordProperty(item, first + "." + rest) ==
        var found := Walk(Step(item, first), SplitOn(rest, '.'));
        if Nullish(found) then Dash else found
  {
    SplitPrefix(first, '.', rest);
    assert first + "." + rest == first + ['.'] + rest;
  }

  /** Falsy values are shown as they are; only a null or undefined one is replaced. */
  lemma FalsyLeaves()
    ensures GetRecordProperty(Obj(map["count" := Num(0)]), "count") == Num(0)
    ensures GetRecordProperty(Obj(map["note" := Str("")]), "note") == Str("")
    ensures GetRecordProperty(Obj(map["note" := Null]), "note") == Dash
  {
    SingleSegment(map["count" := Num(0)], "count");
    SingleSegment(map["note" := Str("")], "note");
    SingleSegment(map["note" := Null], "note");
  }

  /** A two-level key `outer.inner` reads the nested field. */
  lemma NestedField(outer: string, inner: string, v: JsValue)
    requires '.' !in outer && '.' !in inner
    ensures GetRecordProperty(Obj(map[outer := Obj(map[inner := v])]), outer + "." + inner) ==
      if Nullish(v) then Dash else v
  {
    NestedKey(Obj(map[outer := Obj(map[inner := v])]), outer, inner);
    SplitNoSeparator(inner, '.');
    assert [inner][1..] == [];
    assert Walk(Obj(map[inner := v]), [inner]) == Walk(v, []);
  }

  /** A segment that meets a string gives the placeholder, whatever follows. */
  lemma StringIntermediate(name: string, text: string, rest: string)
    requires '.' !in name
    ensures GetRecordProperty(Obj(map[name := Str(text)]), name + "." + rest) == Dash
  {
    NestedKey(Obj(map[name := Str(text)]), name, rest);
    var segments := SplitOn(rest, '.');
    if segments != [] {
      NullAbsorbs(segments[1..]);
    }
  }
}
