/** The JSON-RPC client of src/copilot.ts: the request counter, the two maps
    from request id to the `resolve` and `reject` functions of the request's
    promise, the frames written to the server, and the handling of each
    inbound chunk. A promise is not modelled; calling its `resolve` or
    `reject` function is recorded as an `Invocation`. */
module Rpc {
  import opened JsText
  import opened Json
  import opened Framing

  const IdKey: JsString := Lit("id")
  const MethodKey: JsString := Lit("method")
  const ParamsKey: JsString := Lit("params")
  const ResultKey: JsString := Lit("result")
  const ErrorKey: JsString := Lit("error")
  const JsonRpcKey: JsString := Lit("jsonrpc")
  const JsonRpcVersion: JsString := Lit("2.0")

  /** The member names the client uses are pairwise different. */
  lemma KeysDiffer()
    ensures IdKey != MethodKey && IdKey != ParamsKey && IdKey != JsonRpcKey
    ensures MethodKey != ParamsKey && MethodKey != JsonRpcKey && ParamsKey != JsonRpcKey
    ensures ResultKey != IdKey && ErrorKey != IdKey && ResultKey != ErrorKey
  {
    assert IdKey[0] != MethodKey[0] && IdKey[0] != ParamsKey[0] && IdKey[0] != JsonRpcKey[0];
    assert MethodKey[0] != ParamsKey[0] && MethodKey[0] != JsonRpcKey[0] && ParamsKey[0] != JsonRpcKey[0];
    assert ResultKey[0] != IdKey[0] && ErrorKey[0] != IdKey[0] && ResultKey[0] != ErrorKey[0];
  }

  // ---------------------------------------------------------------------
  // Outbound messages

  /** `{ ...data, jsonrpc: "2.0" }` */
  function Envelope(data: seq<Member>): (v: Json)
    ensures v.JObject? && Lookup(v.members, JsonRpcKey) == Some(JString(JsonRpcVersion))
  {
    LookupSetSame(data, JsonRpcKey, JString(JsonRpcVersion));
    JObject(Set(data, JsonRpcKey, JString(JsonRpcVersion)))
  }

  /** `{ id, method, params }` */
  function RequestData(id: nat, name: JsString, params: Json): seq<Member>
  {
    [Member(IdKey, JNumber(id)), Member(MethodKey, JString(name)), Member(ParamsKey, params)]
  }

  /** `{ method, params }` */
  function NotificationData(name: JsString, params: Json): seq<Member>
  {
    [Member(MethodKey, JString(name)), Member(ParamsKey, params)]
  }

  /** A request carries its id, method, params and the protocol version, in that order. */
  lemma RequestEnvelope(id: nat, name: JsString, params: Json)
    ensures Envelope(RequestData(id, name, params)).members ==
      RequestData(id, name, params) + [Member(JsonRpcKey, JString(JsonRpcVersion))]
    ensures Lookup(Envelope(RequestData(id, name, params)).members, IdKey) == Some(JNumber(id))
  {
    KeysDiffer();
    var a, b, c := Member(IdKey, JNumber(id)), Member(MethodKey, JString(name)), Member(ParamsKey, params);
    var d := Member(JsonRpcKey, JString(JsonRpcVersion));
    assert RequestData(id, name, params) == [] + [a] + [b] + [c];
    LookupSnoc([], a, JsonRpcKey);
    LookupSnoc([a], b, JsonRpcKey);
    LookupSnoc([a] + [b], c, JsonRpcKey);
    assert !Has([a, b, c], JsonRpcKey);
    LookupSnoc([a, b, c], d, IdKey);
    LookupSnoc([a] + [b], c, IdKey);
    LookupSnoc([a], b, IdKey);
    LookupSnoc([], a, IdKey);
    assert [a] + [b] == [a, b] && [] + [a] == [a];
  }

  /** A notification has no id. */
  lemma NotificationEnvelope(name: JsString, params: Json)
    ensures Envelope(NotificationData(name, params)).members ==
      NotificationData(name, params) + [Member(JsonRpcKey, JString(JsonRpcVersion))]
    ensures !Has(Envelope(NotificationData(name, params)).members, IdKey)
  {
    KeysDiffer();
    var b, c := Member(MethodKey, JString(name)), Member(ParamsKey, params);
    var d := Member(JsonRpcKey, JString(JsonRpcVersion));
    assert NotificationData(name, params) == [] + [b] + [c];
    LookupSnoc([], b, JsonRpcKey);
    LookupSnoc([b], c, JsonRpcKey);
    assert !Has([b, c], JsonRpcKey);
    LookupSnoc([b, c], d, IdKey);
    LookupSnoc([b], c, IdKey);
    LookupSnoc([], b, IdKey);
    assert [] + [b] == [b];
  }

  // ---------------------------------------------------------------------
  // handleReceivedPayload, as a function of the two maps

  /** The `resolve` or `reject` function of the promise of request `request`. */
  datatype Continuation = Resolver(request: nat) | Rejecter(request: nat)

  /** One call of a resolve or reject function with its argument. */
  datatype Invocation = Invocation(target: Continuation, argument: Json)

  /** `resolveMap` and `rejectMap`. */
  datatype Tables = Tables(resolvers: map<nat, Continuation>, rejecters: map<nat, Continuation>)

  /** Each key maps to the functions of the promise created under that id. */
  ghost predicate Consistent(t: Tables)
  {
    (forall k :: k in t.resolvers ==> t.resolvers[k] == Resolver(k)) &&
    (forall k :: k in t.rejecters ==> t.rejecters[k] == Rejecter(k))
  }

  /** The function is still in its map, so a later response can call it. */
  predicate Pending(t: Tables, c: Continuation)
  {
    match c
    case Resolver(k) => k in t.resolvers
    case Rejecter(k) => k in t.rejecters
  }

  /** The maps after `Map.delete` of the function's key. */
  function Without(t: Tables, c: Continuation): Tables
  {
    match c
    case Resolver(k) => Tables(t.resolvers - {k}, t.rejecters)
    case Rejecter(k) => Tables(t.resolvers, t.rejecters - {k})
  }

  /** The key `Map.get(payload.id)` finds: a Map compares numbers by value
      and never takes another kind of value for a number. */
  function MapKey(id: Json): (r: Option<nat>)
    ensures r.Some? ==> id == JNumber(r.value)
    ensures id.JNumber? && id.n >= 0 ==> r.Some?
  {
    if id.JNumber? && id.n >= 0 then Some(id.n) else None
  }

  /** What one payload does: the new maps, the functions called, and whether
      the `in` operator threw. */
  datatype Handled = Handled(tables: Tables, invoked: seq<Invocation>, threw: bool)

  /** handleReceivedPayload. `"id" in payload` throws for a primitive; an
      array has no "id". A payload with "result" is a response even if it
      also has "error". */
  function HandlePayload(t: Tables, p: Json): (h: Handled)
    ensures h.threw <==> IsPrimitive(p)
    ensures |h.invoked| <= 1
    ensures h.invoked == [] ==> h.tables == t
    ensures h.tables.resolvers.Keys <= t.resolvers.Keys && h.tables.rejecters.Keys <= t.rejecters.Keys
    ensures h.invoked != [] && Consistent(t) ==>
      Pending(t, h.invoked[0].target) && h.tables == Without(t, h.invoked[0].target)
  {
    if IsPrimitive(p) then Handled(t, [], true)
    else if !p.JObject? || !Has(p.members, IdKey) then Handled(t, [], false)
    else
      var key := MapKey(Lookup(p.members, IdKey).value);
      if Has(p.members, ResultKey) then
        if key.Some? && key.value in t.resolvers then
          Handled(Tables(t.resolvers - {key.value}, t.rejecters),
                  [Invocation(t.resolvers[key.value], Lookup(p.members, ResultKey).value)], false)
        else Handled(t, [], false)
      else if Has(p.members, ErrorKey) then
        if key.Some? && key.value in t.rejecters then
          Handled(Tables(t.resolvers, t.rejecters - {key.value}),
                  [Invocation(t.rejecters[key.value], Lookup(p.members, ErrorKey).value)], false)
        else Handled(t, [], false)
      else Handled(t, [], false)
  }

  /** A response `{ id, result }` for a pending id calls that resolver once with
      the result and deletes only its key; the rejecter stays registered. An
      "error" member next to "result" is ignored. */
  lemma ResultResolves(t: Tables, ms: seq<Member>, k: nat)
    requires Lookup(ms, IdKey) == Some(JNumber(k)) && Has(ms, ResultKey) && k in t.resolvers
    ensures HandlePayload(t, JObject(ms)) ==
      Handled(Tables(t.resolvers - {k}, t.rejecters),
              [Invocation(t.resolvers[k], Lookup(ms, ResultKey).value)], false)
  {
  }

  /** A response `{ id, error }` without "result" for a pending id calls that
      rejecter once with the error and deletes only its key. */
  lemma ErrorRejects(t: Tables, ms: seq<Member>, k: nat)
    requires Lookup(ms, IdKey) == Some(JNumber(k)) && !Has(ms, ResultKey) && Has(ms, ErrorKey)
    requires k in t.rejecters
    ensures HandlePayload(t, JObject(ms)) ==
      Handled(Tables(t.resolvers, t.rejecters - {k}),
              [Invocation(t.rejecters[k], Lookup(ms, ErrorKey).value)], false)
  {
  }

  /** An object payload without "id", with an id no map holds, or with neither
      "result" nor "error" changes nothing and calls nothing. */
  lemma UnmatchedIgnored(t: Tables, ms: seq<Member>)
    requires
      || !Has(ms, IdKey)
      || (!Has(ms, ResultKey) && !Has(ms, ErrorKey))
      || (Has(ms, IdKey) && Has(ms, ResultKey) &&
          var k := MapKey(Lookup(ms, IdKey).value); k.None? || k.value !in t.resolvers)
      || (Has(ms, IdKey) && !Has(ms, ResultKey) &&
          var k := MapKey(Lookup(ms, IdKey).value); k.None? || k.value !in t.rejecters)
    ensures HandlePayload(t, JObject(ms)) == Handled(t, [], false)
  {
  }

  /** `"id" in payload` throws for a primitive before anything is called or
      deleted. */
  lemma PrimitiveThrows(t: Tables, p: Json)
    requires IsPrimitive(p)
    ensures HandlePayload(t, p) == Handled(t, [], true)
  {
  }

  /** An array payload has no "id" member: it changes nothing and calls nothing. */
  lemma ArrayIgnored(t: Tables, xs: seq<Json>)
    ensures HandlePayload(t, JArray(xs)) == Handled(t, [], false)
  {
  }

  /** A resolved request keeps its rejecter: a later `{ id, error }` for the
      same id still calls it. */
  lemma RejecterOutlivesResolve(t: Tables, p: seq<Member>, q: seq<Member>, k: nat)
    requires Consistent(t) && k in t.resolvers && k in t.rejecters
    requires Lookup(p, IdKey) == Some(JNumber(k)) && Has(p, ResultKey)
    requires Lookup(q, IdKey) == Some(JNumber(k)) && !Has(q, ResultKey) && Has(q, ErrorKey)
    ensures var h := HandlePayload(t, JObject(p));
      k in h.tables.rejecters &&
      HandlePayload(h.tables, JObject(q)).invoked == [Invocation(Rejecter(k), Lookup(q, ErrorKey).value)]
  {
    ResultResolves(t, p, k);
  }

  /** Once a response has resolved an id, a second `{ id, result }` response
      for the same id calls nothing. */
  lemma SecondResultIgnored(t: Tables, p: Json, q: Json)
    requires p.JObject? && q.JObject?
    requires Has(p.members, IdKey) && Has(p.members, ResultKey)
    requires Has(q.members, IdKey) && Has(q.members, ResultKey)
    requires Lookup(q.members, IdKey) == Lookup(p.members, IdKey)
    requires HandlePayload(t, p).invoked != []
    ensures HandlePayload(HandlePayload(t, p).tables, q).invoked == []
  {
  }

  // ---------------------------------------------------------------------
  // The `data` handler: each payload text of a chunk in order

  /** The state after some payload texts of a chunk. `aborted` is set when
      handleReceivedPayload threw, which ends the handler. */
  datatype Received = Received(tables: Tables, invoked: seq<Invocation>, aborted: bool)

  /** One iteration of the `for` loop: a text that `JSON.parse` rejects is skipped. */
  function Step(parse: JsString -> Option<Json>, r: Received, text: JsString): Received
  {
    if r.aborted then r
    else match parse(text)
      case None => r
      case Some(p) =>
        var h := HandlePayload(r.tables, p);
        Received(h.tables, r.invoked + h.invoked, h.threw)
  }

  /** The loop over `texts`, starting from the maps `t`. */
  function Receive(parse: JsString -> Option<Json>, t: Tables, texts: seq<JsString>): Received
    decreases |texts|
  {
    if texts == [] then Received(t, [], false)
    else Step(parse, Receive(parse, t, texts[..|texts| - 1]), texts[|texts| - 1])
  }

  /** One text calls at most one function, and the maps only lose entries.
      A text after a throw, or one that does not parse, changes nothing. */
  lemma StepShrinks(parse: JsString -> Option<Json>, r: Received, text: JsString)
    ensures var s := Step(parse, r, text);
      && (r.aborted || parse(text).None? ==> s == r)
      && |r.invoked| <= |s.invoked| <= |r.invoked| + 1 && s.invoked[..|r.invoked|] == r.invoked
      && s.tables.resolvers.Keys <= r.tables.resolvers.Keys
      && s.tables.rejecters.Keys <= r.tables.rejecters.Keys
  {
  }

  /** A chunk of `n` texts calls at most `n` functions, and the maps only
      lose entries. */
  lemma {:induction false} ReceiveShrinks(parse: JsString -> Option<Json>, t: Tables, texts: seq<JsString>)
    ensures var r := Receive(parse, t, texts);
      && |r.invoked| <= |texts|
      && r.tables.resolvers.Keys <= t.resolvers.Keys
      && r.tables.rejecters.Keys <= t.rejecters.Keys
    decreases |texts|
  {
    if texts != [] {
      var init := texts[..|texts| - 1];
      ReceiveShrinks(parse, t, init);
      StepShrinks(parse, Receive(parse, t, init), texts[|texts| - 1]);
    }
  }

  /** A text that fails to parse may as well not be there. */
  lemma {:induction false} UnparsableSkipped(parse: JsString -> Option<Json>, t: Tables,
                                             before: seq<JsString>, text: JsString, after: seq<JsString>)
    requires parse(text).None?
    ensures Receive(parse, t, before + [text] + after) == Receive(parse, t, before + after)
    decreases |after|
  {
    if after == [] {
      assert before + [text] + after == before + [text];
      assert (before + [text])[..|before|] == before;
      assert before + after == before;
    } else {
      var n := |after| - 1;
      UnparsableSkipped(parse, t, before, text, after[..n]);
      assert (before + [text] + after)[..|before| + 1 + n] == before + [text] + after[..n];
      assert (before + after)[..|before| + n] == before + after[..n];
    }
  }

  /** The texts are handled in order: the second part of a chunk continues
      from where the first part left the maps. */
  lemma {:induction false} ReceiveConcat(parse: JsString -> Option<Json>, t: Tables,
                                         first: seq<JsString>, second: seq<JsString>)
    ensures var r1 := Receive(parse, t, first);
            var r2 := Receive(parse, r1.tables, second);
            Receive(parse, t, first + second) ==
              if r1.aborted then r1 else Received(r2.tables, r1.invoked + r2.invoked, r2.aborted)
    decreases |second|
  {
    var r1 := Receive(parse, t, first);
    if second == [] {
      assert first + second == first;
    } else {
      var n := |second| - 1;
      ReceiveConcat(parse, t, first, second[..n]);
      assert (first + second)[..|first| + n] == first + second[..n];
      if !r1.aborted {
        StepAfter(parse, r1.invoked, Receive(parse, r1.tables, second[..n]), second[n]);
      }
    }
  }

  /** A step behaves the same whatever calls came before it. */
  lemma StepAfter(parse: JsString -> Option<Json>, log: seq<Invocation>, r: Received, text: JsString)
    ensures var s := Step(parse, r, text);
      Step(parse, Received(r.tables, log + r.invoked, r.aborted), text) == Received(s.tables, log + s.invoked, s.aborted)
  {
    if !r.aborted && parse(text).Some? {
      var h := HandlePayload(r.tables, parse(text).value);
      assert log + r.invoked + h.invoked == log + (r.invoked + h.invoked);
    }
  }

  lemma ReceiveSnoc(parse: JsString -> Option<Json>, t: Tables, texts: seq<JsString>, i: nat)
    requires i < |texts|
    ensures Receive(parse, t, texts[..i + 1]) == Step(parse, Receive(parse, t, texts[..i]), texts[i])
  {
    assert texts[..i + 1][..i] == texts[..i];
  }

  /** Once a text has thrown, the rest of the chunk is not looked at. */
  lemma {:induction false} AbortedStays(parse: JsString -> Option<Json>, t: Tables, texts: seq<JsString>, n: nat)
    requires n <= |texts| && Receive(parse, t, texts[..n]).aborted
    ensures Receive(parse, t, texts) == Receive(parse, t, texts[..n])
    decreases |texts| - n
  {
    if n < |texts| {
      ReceiveSnoc(parse, t, texts, n);
      AbortedStays(parse, t, texts, n + 1);
    } else {
      assert texts[..n] == texts;
    }
  }

  /** The targets of a sequence of invocations. */
  function Targets(log: seq<Invocation>): (cs: set<Continuation>)
    ensures forall i :: 0 <= i < |log| ==> log[i].target in cs
    ensures forall c :: c in cs ==> exists i :: 0 <= i < |log| && log[i].target == c
  {
    set i | 0 <= i < |log| :: log[i].target
  }

  lemma TargetsAppend(a: seq<Invocation>, b: seq<Invocation>)
    ensures Targets(a + b) == Targets(a) + Targets(b)
  {
    forall c | c in Targets(a + b) ensures c in Targets(a) + Targets(b) {
      var i :| 0 <= i < |a + b| && (a + b)[i].target == c;
      if i < |a| { assert a[i] == (a + b)[i]; } else { assert b[i - |a|] == (a + b)[i]; }
    }
    forall c | c in Targets(a) + Targets(b) ensures c in Targets(a + b) {
      if c in Targets(a) {
        var i :| 0 <= i < |a| && a[i].target == c;
        assert (a + b)[i] == a[i];
      } else {
        var i :| 0 <= i < |b| && b[i].target == c;
        assert (a + b)[|a| + i] == b[i];
      }
    }
  }

  predicate Distinct(log: seq<Invocation>)
  {
    forall i, j :: 0 <= i < j < |log| ==> log[i].target != log[j].target
  }

  /** Starting from the maps `t0`, the maps `t` and the calls `log` account
      for every function: each one called once, only while registered, and
      deleted when called; the others are still registered. */
  ghost predicate Accounted(t0: Tables, t: Tables, log: seq<Invocation>)
  {
    && Consistent(t)
    && Distinct(log)
    && (forall c :: c in Targets(log) ==> Pending(t0, c) && !Pending(t, c))
    && (forall c :: Pending(t, c) <==> Pending(t0, c) && c !in Targets(log))
  }

  lemma HandleAccounted(t0: Tables, t: Tables, log: seq<Invocation>, p: Json)
    requires Accounted(t0, t, log)
    ensures var h := HandlePayload(t, p); Accounted(t0, h.tables, log + h.invoked)
  {
    var h := HandlePayload(t, p);
    var log' := log + h.invoked;
    TargetsAppend(log, h.invoked);
    if h.invoked != [] {
      var c := h.invoked[0].target;
      assert h.invoked == [h.invoked[0]];
      assert Targets(h.invoked) == {c} by { assert h.invoked[0].target == c; }
      assert c !in Targets(log);
      forall i, j | 0 <= i < j < |log'| ensures log'[i].target != log'[j].target {
        if j == |log| { assert log'[j] == h.invoked[0]; assert log'[i] == log[i]; }
      }
      forall other ensures Pending(h.tables, other) <==> Pending(t0, other) && other !in Targets(log') {
        PendingWithout(t, c, other);
      }
    } else {
      assert log' == log;
    }
  }

  /** However many responses a chunk holds, each resolve or reject function is
      called at most once, only while registered, and is deleted when called. */
  lemma {:induction false} AtMostOnce(parse: JsString -> Option<Json>, t: Tables, texts: seq<JsString>)
    requires Consistent(t)
    ensures var r := Receive(parse, t, texts); Accounted(t, r.tables, r.invoked)
    decreases |texts|
  {
    if texts == [] {
      assert Targets([]) == {};
    } else {
      var n := |texts| - 1;
      AtMostOnce(parse, t, texts[..n]);
      var r := Receive(parse, t, texts[..n]);
      if !r.aborted && parse(texts[n]).Some? {
        HandleAccounted(t, r.tables, r.invoked, parse(texts[n]).value);
      }
    }
  }

  /** Receiving the frame of a serialized message dispatches exactly that
      message, when parsing its JSON text gives the message back and the text
      is non-empty and holds no header. `JSON.stringify` never writes an
      empty text, nor a raw CR or LF, so its output always meets the last two. */
  lemma FrameDelivered(codec: Codec, t: Tables, v: Json)
    requires codec.parse(codec.stringify(v)) == Some(v)
    requires codec.stringify(v) != [] && NoHeader(codec.stringify(v))
    ensures var h := HandlePayload(t, v);
      Receive(codec.parse, t, Payloads(Frame(codec.stringify(v)))) == Received(h.tables, h.invoked, h.threw)
  {
    PayloadsOfFrame(codec.stringify(v));
    var texts := [codec.stringify(v)];
    assert texts[..0] == [];
  }

  /** Deleting one function leaves every other one as it was. */
  lemma PendingWithout(t: Tables, c: Continuation, other: Continuation)
    ensures Pending(Without(t, c), other) <==> Pending(t, other) && other != c
  {
  }

  /** The ids handed out are 1 to `issued`; each function of each such
      request has either been called exactly once, or is still registered
      and has never been called. */
  ghost predicate Bookkept(t: Tables, issued: nat, log: seq<Invocation>)
  {
    && Consistent(t)
    && (forall k :: k in t.resolvers ==> 1 <= k <= issued)
    && (forall k :: k in t.rejecters ==> 1 <= k <= issued)
    && (forall i :: 0 <= i < |log| ==> 1 <= log[i].target.request <= issued)
    && Distinct(log)
    && (forall c: Continuation :: 1 <= c.request <= issued ==> (Pending(t, c) <==> c !in Targets(log)))
  }

  /** Registering the next id in both maps keeps the books. */
  lemma RegisterBookkept(t: Tables, issued: nat, log: seq<Invocation>)
    requires Bookkept(t, issued, log)
    ensures var id := issued + 1;
      Bookkept(Tables(t.resolvers[id := Resolver(id)], t.rejecters[id := Rejecter(id)]), id, log)
  {
    var id := issued + 1;
    var t' := Tables(t.resolvers[id := Resolver(id)], t.rejecters[id := Rejecter(id)]);
    forall c: Continuation | 1 <= c.request <= id
      ensures Pending(t', c) <==> c !in Targets(log)
    {
      if c.request != id {
        assert Pending(t', c) == Pending(t, c);
      }
    }
  }

  /** Calling a registered function and deleting it keeps the books. */
  lemma InvokeBookkept(t: Tables, issued: nat, log: seq<Invocation>, inv: Invocation)
    requires Bookkept(t, issued, log) && Pending(t, inv.target)
    ensures Bookkept(Without(t, inv.target), issued, log + [inv])
  {
    var c := inv.target;
    var log' := log + [inv];
    assert 1 <= c.request <= issued;
    assert c !in Targets(log);
    TargetsAppend(log, [inv]);
    assert Targets([inv]) == {c} by { assert [inv][0].target == c; }
    forall other: Continuation | 1 <= other.request <= issued
      ensures Pending(Without(t, c), other) <==> other !in Targets(log')
    {
      PendingWithout(t, c, other);
    }
    forall i, j | 0 <= i < j < |log'| ensures log'[i].target != log'[j].target {
      if j == |log| { assert log'[i] == log[i]; }
    }
  }

  // ---------------------------------------------------------------------
  // The client

  class RpcClient {
    /** `JSON.stringify` and `JSON.parse`. */
    const codec: Codec
    /** The module-level `requestId`. */
    var requestId: nat
    var resolveMap: map<nat, Continuation>
    var rejectMap: map<nat, Continuation>
    /** Everything written to the server's standard input, one frame per write. */
    var written: seq<JsString>
    /** Every call of a promise's resolve or reject function, in order. */
    var invocations: seq<Invocation>

    function TablesOf(): Tables
      reads this`resolveMap, this`rejectMap
    {
      Tables(resolveMap, rejectMap)
    }

    /** The invariant of the client's state; see Bookkept. */
    ghost predicate Valid()
      reads this`requestId, this`resolveMap, this`rejectMap, this`invocations
    {
      Bookkept(TablesOf(), requestId, invocations)
    }

    constructor (codec: Codec)
      ensures Valid()
      ensures this.codec == codec && requestId == 0
      ensures resolveMap == map[] && rejectMap == map[]
      ensures written == [] && invocations == []
    {
      this.codec := codec;
      requestId := 0;
      resolveMap, rejectMap := map[], map[];
      written, invocations := [], [];
    }

    /** sendMessage: the frame of `{ ...data, jsonrpc: "2.0" }`. */
    method SendMessage(data: seq<Member>)
      modifies this`written
      ensures written == old(written) + [Frame(codec.stringify(Envelope(data)))]
    {
      var json := codec.stringify(Envelope(data));
      written := written + [Frame(json)];
    }

    /** sendRequest: the id is the counter after its increment, and the
        request is registered under that same id in both maps. */
    method SendRequest(name: JsString, params: Json) returns (id: nat)
      requires Valid()
      modifies this
      ensures Valid()
      ensures id == old(requestId) + 1 && requestId == id
      ensures id !in old(resolveMap) && id !in old(rejectMap)
      ensures written == old(written) + [Frame(codec.stringify(Envelope(RequestData(id, name, params))))]
      ensures resolveMap == old(resolveMap)[id := Resolver(id)]
      ensures rejectMap == old(rejectMap)[id := Rejecter(id)]
      ensures invocations == old(invocations)
    {
      requestId := requestId + 1;
      id := requestId;
      SendMessage(RequestData(id, name, params));
      Register(id);
    }

    /** The executor of the request's promise: both of its functions are
        registered under the new id. */
    method Register(id: nat)
      requires id == requestId && id >= 1
      requires Bookkept(TablesOf(), id - 1, invocations)
      modifies this`resolveMap, this`rejectMap
      ensures Valid()
      ensures id !in old(resolveMap) && id !in old(rejectMap)
      ensures resolveMap == old(resolveMap)[id := Resolver(id)]
      ensures rejectMap == old(rejectMap)[id := Rejecter(id)]
    {
      RegisterBookkept(TablesOf(), id - 1, invocations);
      resolveMap := resolveMap[id := Resolver(id)];
      rejectMap := rejectMap[id := Rejecter(id)];
    }

    /** sendNotification: a frame without id; the counter and the maps stay. */
    method SendNotification(name: JsString, params: Json)
      requires Valid()
      modifies this
      ensures Valid()
      ensures written == old(written) + [Frame(codec.stringify(Envelope(NotificationData(name, params))))]
      ensures requestId == old(requestId) && resolveMap == old(resolveMap) && rejectMap == old(rejectMap)
      ensures invocations == old(invocations)
    {
      SendMessage(NotificationData(name, params));
    }

    /** handleReceivedPayload; `threw` is the TypeError of `in` on a primitive. */
    method HandleReceivedPayload(p: Json) returns (threw: bool)
      requires Valid()
      modifies this
      ensures Valid()
      ensures var h := HandlePayload(old(TablesOf()), p);
        TablesOf() == h.tables && invocations == old(invocations) + h.invoked && threw == h.threw
      ensures requestId == old(requestId) && written == old(written)
    {
      if IsPrimitive(p) {
        return true;
      }
      threw := false;
      if p.JObject? && Has(p.members, IdKey) {
        var key := MapKey(Lookup(p.members, IdKey).value);
        if Has(p.members, ResultKey) {
          if key.Some? && key.value in resolveMap {
            Invoke(Invocation(resolveMap[key.value], Lookup(p.members, ResultKey).value));
          }
        } else if Has(p.members, ErrorKey) {
          if key.Some? && key.value in rejectMap {
            Invoke(Invocation(rejectMap[key.value], Lookup(p.members, ErrorKey).value));
          }
        }
      }
    }

    /** Call a registered function, then delete it from its map. */
    method Invoke(inv: Invocation)
      requires Valid() && Pending(TablesOf(), inv.target)
      modifies this
      ensures Valid()
      ensures TablesOf() == Without(old(TablesOf()), inv.target)
      ensures invocations == old(invocations) + [inv]
      ensures requestId == old(requestId) && written == old(written)
    {
      InvokeBookkept(TablesOf(), requestId, invocations, inv);
      invocations := invocations + [inv];
      match inv.target {
        case Resolver(k) => resolveMap := resolveMap - {k};
        case Rejecter(k) => rejectMap := rejectMap - {k};
      }
    }

    /** The `data` handler for one chunk, already decoded to a string. */
    method OnData(chunk: JsString) returns (aborted: bool)
      requires Valid()
      modifies this
      ensures Valid()
      ensures var r := Receive(codec.parse, old(TablesOf()), Payloads(chunk));
        TablesOf() == r.tables && invocations == old(invocations) + r.invoked && aborted == r.aborted
      ensures requestId == old(requestId) && written == old(written)
    {
      var texts := Payloads(chunk);
      aborted := HandleTexts(texts);
    }

    /** The `for` loop of the `data` handler over the payload texts. */
    method HandleTexts(texts: seq<JsString>) returns (aborted: bool)
      requires Valid()
      modifies this
      ensures Valid()
      ensures var r := Receive(codec.parse, old(TablesOf()), texts);
        TablesOf() == r.tables && invocations == old(invocations) + r.invoked && aborted == r.aborted
      ensures requestId == old(requestId) && written == old(written)
    {
      ghost var t := TablesOf();
      ghost var log := invocations;
      ghost var acc := Received(t, [], false);
      var i := 0;
      while i < |texts|
        invariant 0 <= i <= |texts|
        invariant Valid()
        invariant requestId == old(requestId) && written == old(written)
        invariant acc == Receive(codec.parse, t, texts[..i]) && !acc.aborted
        invariant TablesOf() == acc.tables && invocations == log + acc.invoked
      {
        ReceiveSnoc(codec.parse, t, texts, i);
        var threw := HandleText(texts[i], log, acc);
        acc := Step(codec.parse, acc, texts[i]);
        if threw {
          AbortedStays(codec.parse, t, texts, i + 1);
          return true;
        }
        i := i + 1;
      }
      assert texts[..i] == texts;
      return false;
    }

    /** One iteration: parse the text, skip it if it does not parse, else
        handle it. `acc` is what the earlier texts of the chunk did. */
    method HandleText(text: JsString, ghost log: seq<Invocation>, ghost acc: Received) returns (threw: bool)
      requires Valid()
      requires TablesOf() == acc.tables && invocations == log + acc.invoked && !acc.aborted
      modifies this
      ensures Valid()
      ensures var r := Step(codec.parse, acc, text);
        TablesOf() == r.tables && invocations == log + r.invoked && threw == r.aborted
      ensures requestId == old(requestId) && written == old(written)
    {
      var parsed := codec.parse(text);
      if parsed.None? {
        return false;
      }
      threw := HandleReceivedPayload(parsed.value);
      assert invocations == log + (acc.invoked + HandlePayload(acc.tables, parsed.value).invoked);
    }
  }
}
