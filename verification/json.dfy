/** Parsed JSON values as the scripts hold them after `json.load`, and the
    null-stripping pass `stripNone` that the merge step applies to every merged
    record before writing it. */
module Json {
  import opened Wrappers

  /** A JSON value. Objects keep their fields in insertion order, as Python
      dictionaries do. */
  datatype Json =
    | JNull
    | JBool(b: bool)
    | JInt(i: int)
    | JNum(n: real)
    | JStr(s: string)
    | JArr(items: seq<Json>)
    | JObj(fields: seq<(string, Json)>)

  predicate IsScalar(j: Json) {
    !j.JArr? && !j.JObj?
  }

  /** Value of the first field named `k`, the lookup `obj[k]` / `obj.get(k)`. */
  function GetField(fields: seq<(string, Json)>, k: string): Option<Json> {
    if |fields| == 0 then None
    else if fields[0].0 == k then Some(fields[0].1)
    else GetField(fields[1..], k)
  }

  /** `j[k]` on an object; `None` where Python raises (missing key, not an object). */
  function Get(j: Json, k: string): Option<Json> {
    if j.JObj? then GetField(j.fields, k) else None
  }

  /** `j[i]` on an array; `None` where Python raises. */
  function At(j: Json, i: nat): Option<Json> {
    if j.JArr? && i < |j.items| then Some(j.items[i]) else None
  }

  /** Python dictionaries never hold a key twice. */
  predicate DistinctKeys(fields: seq<(string, Json)>) {
    forall i, j :: 0 <= i < j < |fields| ==> fields[i].0 != fields[j].0
  }

  /** No null inside an array or an object, at any depth. A bare null is allowed:
      `stripNone(None)` is `None`. */
  predicate NoNull(j: Json)
    decreases j
  {
    match j
    case JArr(items) => ItemsNoNull(items)
    case JObj(fields) => FieldsNoNull(fields)
    case _ => true
  }

  predicate ItemsNoNull(items: seq<Json>)
    decreases items
  {
    |items| > 0 ==> items[0] != JNull && NoNull(items[0]) && ItemsNoNull(items[1..])
  }

  predicate FieldsNoNull(fields: seq<(string, Json)>)
    decreases fields
  {
    |fields| > 0 ==>
      var f := fields[0];
      assert f in fields && f.1 < f;
      f.1 != JNull && NoNull(f.1) && FieldsNoNull(fields[1..])
  }

  /** `stripNone`: drops every null-valued field and every null array element,
      recursively. Scalars come back unchanged. */
  function StripNone(j: Json): (r: Json)
    decreases j
    ensures NoNull(r)
    ensures j != JNull ==> r != JNull
    ensures IsScalar(j) ==> r == j
    ensures j.JArr? <==> r.JArr?
    ensures j.JObj? <==> r.JObj?
  {
    match j
    case JArr(items) => JArr(StripItems(items))
    case JObj(fields) => JObj(StripFields(fields))
    case _ => j
  }

  function StripItems(items: seq<Json>): (r: seq<Json>)
    decreases items
    ensures ItemsNoNull(r)
    ensures |r| <= |items|
  {
    if |items| == 0 then []
    else if items[0] == JNull then StripItems(items[1..])
    else [StripNone(items[0])] + StripItems(items[1..])
  }

  /** Stripping a list works piecewise, so the surviving items keep their
      order and multiplicity and nothing else appears. */
  lemma {:induction false} StripItemsAppend(a: seq<Json>, b: seq<Json>)
    ensures StripItems(a + b) == StripItems(a) + StripItems(b)
    decreases |a|
  {
    if |a| > 0 {
      assert (a + b)[0] == a[0];
      assert (a + b)[1..] == a[1..] + b;
      StripItemsAppend(a[1..], b);
    } else {
      assert a + b == b;
    }
  }

  /** A single item is dropped when null and stripped otherwise. */
  lemma StripItemsSingle(x: Json)
    ensures StripItems([x]) == if x == JNull then [] else [StripNone(x)]
  {
    assert [x][1..] == [];
  }

  function StripFields(fields: seq<(string, Json)>): (r: seq<(string, Json)>)
    decreases fields
    ensures FieldsNoNull(r)
    ensures |r| <= |fields|
  {
    if |fields| == 0 then []
    else
      var f := fields[0];
      assert f in fields && f.1 < f;
      if f.1 == JNull then StripFields(fields[1..])
      else [(f.0, StripNone(f.1))] + StripFields(fields[1..])
  }

  /** A value without nulls is left untouched. */
  lemma {:induction false} StripNoNull(j: Json)
    requires NoNull(j)
    ensures StripNone(j) == j
    decreases j
  {
    match j
    case JArr(items) => StripItemsNoNull(items);
    case JObj(fields) => StripFieldsNoNull(fields);
    case _ =>
  }

  lemma {:induction false} StripItemsNoNull(items: seq<Json>)
    requires ItemsNoNull(items)
    ensures StripItems(items) == items
    decreases items
  {
    if |items| > 0 {
      StripNoNull(items[0]);
      StripItemsNoNull(items[1..]);
      assert [items[0]] + items[1..] == items;
    }
  }

  lemma {:induction false} StripFieldsNoNull(fields: seq<(string, Json)>)
    requires FieldsNoNull(fields)
    ensures StripFields(fields) == fields
    decreases fields
  {
    if |fields| > 0 {
      var f := fields[0];
      assert f in fields && f.1 < f;
      StripNoNull(f.1);
      StripFieldsNoNull(fields[1..]);
      assert StripFields(fields) == [(f.0, StripNone(f.1))] + StripFields(fields[1..]);
      assert [f] + fields[1..] == fields;
    }
  }

  /** Stripping twice is stripping once. */
  lemma StripIdempotent(j: Json)
    ensures StripNone(StripNone(j)) == StripNone(j)
  {
    StripNoNull(StripNone(j));
  }

  /** On a dictionary, a key survives exactly when its value is not null, and
      its value is then stripped recursively. */
  lemma {:induction false} StripKeepsKeys(fields: seq<(string, Json)>, k: string)
    requires DistinctKeys(fields)
    ensures GetField(StripFields(fields), k) ==
      (match GetField(fields, k)
       case Some(v) => if v == JNull then None else Some(StripNone(v))
       case None => None)
    decreases fields
  {
    if |fields| > 0 {
      assert DistinctKeys(fields[1..]) by {
        forall i, j | 0 <= i < j < |fields[1..]|
          ensures fields[1..][i].0 != fields[1..][j].0
        {
          assert fields[1..][i] == fields[i + 1] && fields[1..][j] == fields[j + 1];
        }
      }
      StripKeepsKeys(fields[1..], k);
      if fields[0].0 == k {
        assert GetField(fields[1..], k).None? by {
          forall i | 0 <= i < |fields[1..]| ensures fields[1..][i].0 != k {
            assert fields[1..][i] == fields[i + 1];
          }
          GetFieldMissing(fields[1..], k);
        }
      }
    }
  }

  /** On a list, every non-null element survives, stripped: the result holds
      the stripped image of each non-null input element. */
  lemma {:induction false} StripItemsKeepsNonNull(items: seq<Json>, x: Json)
    requires x != JNull && x in items
    ensures StripNone(x) in StripItems(items)
    decreases items
  {
    if items[0] != x {
      StripItemsKeepsNonNull(items[1..], x);
    }
  }

  /** The first field named `k`, when not null, survives stripping with its
      value stripped, whatever follows it. */
  lemma {:induction false} StripKeepsFirst(fields: seq<(string, Json)>, k: string)
    requires GetField(fields, k).Some? && GetField(fields, k).value != JNull
    ensures GetField(StripFields(fields), k) == Some(StripNone(GetField(fields, k).value))
    decreases fields
  {
    if fields[0].0 != k {
      StripKeepsFirst(fields[1..], k);
    }
  }

  /** A list without nulls keeps its length, each element stripped in place. */
  lemma {:induction false} StripItemsInPlace(items: seq<Json>)
    requires forall i :: 0 <= i < |items| ==> items[i] != JNull
    ensures |StripItems(items)| == |items|
    ensures forall i :: 0 <= i < |items| ==> StripItems(items)[i] == StripNone(items[i])
    decreases items
  {
    if |items| > 0 {
      StripItemsInPlace(items[1..]);
      assert forall i :: 1 <= i < |items| ==> StripItems(items)[i] == StripItems(items[1..])[i - 1];
    }
  }

  /** The lookup finds the first field with the key. */
  lemma {:induction false} GetFieldAt(fields: seq<(string, Json)>, i: nat)
    requires i < |fields|
    requires forall j :: 0 <= j < i ==> fields[j].0 != fields[i].0
    ensures GetField(fields, fields[i].0) == Some(fields[i].1)
    decreases i
  {
    if i > 0 {
      GetFieldAt(fields[1..], i - 1);
    }
  }

  /** A key no field carries is not found. */
  lemma {:induction false} GetFieldMissing(fields: seq<(string, Json)>, k: string)
    requires forall i :: 0 <= i < |fields| ==> fields[i].0 != k
    ensures GetField(fields, k).None?
    decreases fields
  {
    if |fields| > 0 {
      GetFieldMissing(fields[1..], k);
    }
  }

  /** With distinct keys, every field is found by its own key. */
  lemma DistinctLookup(fields: seq<(string, Json)>)
    requires DistinctKeys(fields)
    ensures forall i :: 0 <= i < |fields| ==> GetField(fields, fields[i].0) == Some(fields[i].1)
  {
    forall i | 0 <= i < |fields| ensures GetField(fields, fields[i].0) == Some(fields[i].1) {
      GetFieldAt(fields, i);
    }
  }

  /** An object whose values are all non-null scalars holds no null. */
  lemma {:induction false} ScalarFieldsNoNull(fields: seq<(string, Json)>)
    requires forall i :: 0 <= i < |fields| ==> fields[i].1 != JNull && IsScalar(fields[i].1)
    ensures FieldsNoNull(fields)
    decreases |fields|
  {
    if |fields| > 0 {
      ScalarFieldsNoNull(fields[1..]);
    }
  }
}
