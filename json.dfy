/** JSON values as the client sees them after `JSON.parse` and before
    `JSON.stringify`, with object members kept in insertion order. The two
    library functions themselves are not modelled: a client is given them as
    a `Codec`, and what is assumed about them is stated where it is used. */
module Json {
  import opened JsText

  datatype Json =
    | JNull
    | JBool(b: bool)
    | JNumber(n: int)
    | JString(s: JsString)
    | JArray(items: seq<Json>)
    | JObject(members: seq<Member>)

  datatype Member = Member(key: JsString, value: Json)

  /** `JSON.stringify` and `JSON.parse`; `parse` gives None where it throws. */
  datatype Codec = Codec(stringify: Json -> JsString, parse: JsString -> Option<Json>)

  /** A value for which the `in` operator throws a TypeError. */
  predicate IsPrimitive(v: Json)
  {
    v.JNull? || v.JBool? || v.JNumber? || v.JString?
  }

  /** The member names in order. */
  function Keys(ms: seq<Member>): (ks: seq<JsString>)
    ensures |ks| == |ms|
  {
    if ms == [] then [] else Keys(ms[..|ms| - 1]) + [ms[|ms| - 1].key]
  }

  /** `obj[key]`: the value of the last member named `key`, as `JSON.parse`
      keeps the last of duplicate names. */
  function Lookup(ms: seq<Member>, key: JsString): (r: Option<Json>)
    ensures r.Some? ==> Member(key, r.value) in ms
    ensures r.Some? <==> key in Keys(ms)
  {
    if ms == [] then None
    else if ms[|ms| - 1].key == key then Some(ms[|ms| - 1].value)
    else Lookup(ms[..|ms| - 1], key)
  }

  /** Looking up in an object with one more member at the end. */
  lemma LookupSnoc(ms: seq<Member>, m: Member, key: JsString)
    ensures Lookup(ms + [m], key) == if m.key == key then Some(m.value) else Lookup(ms, key)
  {
    assert (ms + [m])[..|ms|] == ms;
  }

  /** The member `Lookup` finds is the last one named `key`. */
  lemma {:induction false} LookupIsLast(ms: seq<Member>, key: JsString)
    ensures Lookup(ms, key).Some? ==>
      exists i :: 0 <= i < |ms| && ms[i] == Member(key, Lookup(ms, key).value) &&
        forall j :: i < j < |ms| ==> ms[j].key != key
  {
    if ms != [] && ms[|ms| - 1].key != key && Lookup(ms, key).Some? {
      var init := ms[..|ms| - 1];
      LookupIsLast(init, key);
      var i :| 0 <= i < |init| && init[i] == Member(key, Lookup(init, key).value) &&
        forall j :: i < j < |init| ==> init[j].key != key;
      assert ms[i] == init[i];
      assert forall j :: i < j < |ms| ==> ms[j].key != key by {
        forall j | i < j < |ms| ensures ms[j].key != key {
          if j < |init| { assert ms[j] == init[j]; }
        }
      }
    }
  }

  /** `key in obj`: some member is named `key`. */
  predicate Has(ms: seq<Member>, key: JsString)
    ensures Has(ms, key) <==> exists i :: 0 <= i < |ms| && ms[i].key == key
  {
    HasSome(ms, key);
    Lookup(ms, key).Some?
  }

  lemma {:induction false} HasSome(ms: seq<Member>, key: JsString)
    ensures Lookup(ms, key).Some? <==> exists i :: 0 <= i < |ms| && ms[i].key == key
  {
    if ms != [] {
      var init := ms[..|ms| - 1];
      HasSome(init, key);
      if ms[|ms| - 1].key != key {
        assert forall i :: 0 <= i < |init| ==> ms[i] == init[i];
      }
    }
  }

  /** Every member named `key` takes `value`; the others stay as they are. */
  function Replace(ms: seq<Member>, key: JsString, value: Json): (r: seq<Member>)
    ensures Keys(r) == Keys(ms)
  {
    if ms == [] then []
    else
      var last := ms[|ms| - 1];
      Replace(ms[..|ms| - 1], key, value) + [if last.key == key then Member(key, value) else last]
  }

  /** `{ ...obj, [key]: value }`: an existing member keeps its place and takes
      the new value, otherwise the member is added last. */
  function Set(ms: seq<Member>, key: JsString, value: Json): (r: seq<Member>)
    ensures Has(ms, key) ==> Keys(r) == Keys(ms)
    ensures !Has(ms, key) ==> r == ms + [Member(key, value)]
  {
    if Has(ms, key) then Replace(ms, key, value) else ms + [Member(key, value)]
  }

  /** After setting, the member reads back as the value set. */
  lemma {:induction false} LookupSetSame(ms: seq<Member>, key: JsString, value: Json)
    ensures Lookup(Set(ms, key, value), key) == Some(value)
  {
    if Has(ms, key) {
      LookupReplaceSame(ms, key, value);
    } else {
      var r := ms + [Member(key, value)];
      assert r[|r| - 1].key == key;
    }
  }

  lemma {:induction false} LookupReplaceSame(ms: seq<Member>, key: JsString, value: Json)
    requires Has(ms, key)
    ensures Lookup(Replace(ms, key, value), key) == Some(value)
    decreases |ms|
  {
    var n := |ms| - 1;
    var r := Replace(ms, key, value);
    assert r[..n] == Replace(ms[..n], key, value);
    if ms[n].key != key {
      LookupReplaceSame(ms[..n], key, value);
    }
  }

  /** Setting one member leaves the others as they were. */
  lemma {:induction false} LookupSetOther(ms: seq<Member>, key: JsString, value: Json, other: JsString)
    requires other != key
    ensures Lookup(Set(ms, key, value), other) == Lookup(ms, other)
  {
    if Has(ms, key) {
      LookupReplaceOther(ms, key, value, other);
    } else {
      var r := ms + [Member(key, value)];
      assert r[..|r| - 1] == ms;
    }
  }

  lemma {:induction false} LookupReplaceOther(ms: seq<Member>, key: JsString, value: Json, other: JsString)
    requires other != key
    ensures Lookup(Replace(ms, key, value), other) == Lookup(ms, other)
    decreases |ms|
  {
    if ms != [] {
      var n := |ms| - 1;
      var r := Replace(ms, key, value);
      assert r[..n] == Replace(ms[..n], key, value);
      LookupReplaceOther(ms[..n], key, value, other);
    }
  }
}
