/** What the older serializer promises call by call: the dispatch, the float
    adapter, backreferences and attachment order, the DateTime family, and the
    property loop that sets every property. */
module LegacyProperties {
  import opened Wrappers
  import opened ByteStrings
  import opened Values
  import opened FloatAdapter
  import opened Engine
  import opened Legacy
  import opened Utf8
  import opened BinarySafety

  // ---------------------------------------------------------------------
  // Encoding

  /** `getSerializer` sends null, booleans, integers and strings to
      `serializeScalar`, which hands them back unchanged; arrays keep their
      keys. */
  lemma ScalarsUnchanged(c: LegacyConfig, h: Heap, st: EncodeState, v: Value)
    requires LegacyReady(c, h, st)
    requires v.Null? || v.Bool? || v.Int? || v.Str?
    ensures GetSerializer(c, h, v) == ScalarRoute
    ensures Legacy.SerializeData(c, h, st, v) == Success((v, st))
  {
  }

  /** `json_encode` without UTF-8 handling fails on an ill-formed string, so
      `serialize` produces no JSON for it; a well-formed string is written as
      it is. */
  lemma StringNeedsUtf8(c: LegacyConfig, h: Heap, s: Bytes)
    requires LegacyReady(c, h, FreshEncode)
    ensures Legacy.Serialize(c, h, Str(s)) == if WellFormed(s) then Success(Str(s)) else Failure(EncodeFailed)
  {
    ScalarsUnchanged(c, h, FreshEncode, Str(s));
  }

  /** Without `JSON_PRESERVE_ZERO_FRACTION`, a float whose string form has no
      dot becomes `JsonSerializerFloatAdapter(<text>.0)`; every other float,
      and every float when zero fractions are preserved, is left alone. */
  lemma FloatAdapted(c: LegacyConfig, h: Heap, st: EncodeState, t: Bytes)
    requires LegacyReady(c, h, st)
    ensures var r := Legacy.SerializeData(c, h, st, Float(t));
      && r.Success? && r.value.1 == st
      && (!c.preserveZeroFraction && Dot !in t ==> r.value.0 == Str(AdapterName + [LeftParen] + t + [Dot, Zero, RightParen]))
      && (c.preserveZeroFraction || Dot in t ==> r.value.0 == Float(t))
  {
    var w := AdapterName + [LeftParen] + t + [Dot, Zero] + [RightParen];
    assert w == AdapterName + [LeftParen] + t + [Dot, Zero, RightParen];
  }

  /** A resource has no entry in `serializationMap` and is refused. */
  lemma ResourceRefused(c: LegacyConfig, h: Heap, st: EncodeState, n: nat)
    requires LegacyReady(c, h, st)
    ensures GetSerializer(c, h, Resource(n)) == NoRoute
    ensures Legacy.SerializeData(c, h, st, Resource(n)) == Failure(ResourceNotSupported)
  {
  }

  /** An object already in the identity map encodes as `{"@type": "@<index>"}`
      and nothing else, and the identity map does not change. */
  lemma RevisitIsBackref(c: LegacyConfig, h: Heap, st: EncodeState, id: ObjId)
    requires LegacyReady(c, h, st) && id < |h| && id in st.visited
    ensures Legacy.SerializeData(c, h, st, Obj(id)) == Success((Backref(IndexOf(st.visited, id)), st))
  {
  }

  /** An object met for the first time is attached at the next index before its
      properties are walked, and its encoding opens with its class name. */
  lemma NewObjectTakesNextIndex(c: LegacyConfig, h: Heap, st: EncodeState, id: ObjId)
    requires LegacyReady(c, h, st) && id < |h| && id !in st.visited
    ensures var r := Legacy.SerializeData(c, h, st, Obj(id));
      r.Success? ==>
        && |r.value.1.visited| > |st.visited|
        && r.value.1.visited[|st.visited|] == id
        && r.value.0.Arr? && |r.value.0.entries| > 0
        && r.value.0.entries[0] == (TypeKey, Str(ClassOf(h[id])))
  {
    var head := [(TypeKey, Str(ClassOf(h[id])))];
    var st1 := EncodeState(st.visited + [id]);
    var r := Legacy.SerializeObject(c, h, st, id);
    if r.Success? && h[id].Instance? {
      var o := h[id];
      ExtractIn(Properties(c.classes[o.cls], o.fields), o.fields, |h|);
      var body := Legacy.SerializeArray(c, h, st1, Extract(Properties(c.classes[o.cls], o.fields), o.fields));
      assert body.Success?;
      PlusAssignKeepsFirst(head, body.value.0);
      assert st1.visited <= body.value.1.visited;
    }
  }

  /** A closure is walked like any object: it takes an index and becomes
      `{"@type": "Closure"}`, having no properties. */
  lemma ClosureIsBareObject(c: LegacyConfig, h: Heap, st: EncodeState, id: ObjId)
    requires LegacyReady(c, h, st) && id < |h| && h[id].Closure? && id !in st.visited
    ensures Legacy.SerializeData(c, h, st, Obj(id)) == Success((Arr([(TypeKey, Str(Ascii("Closure")))]), EncodeState(st.visited + [id])))
  {
  }

  /** `serialize` calls `reset` first: the first object it meets takes index 0. */
  lemma SerializeStartsFresh(c: LegacyConfig, h: Heap, id: ObjId)
    requires LegacyReady(c, h, FreshEncode) && id < |h|
    ensures var r := Legacy.SerializeData(c, h, FreshEncode, Obj(id));
      r.Success? ==> |r.value.1.visited| > 0 && r.value.1.visited[0] == id
  {
    NewObjectTakesNextIndex(c, h, FreshEncode, id);
  }

  // ---------------------------------------------------------------------
  // Decoding

  /** Scalars and null come back as they are. */
  lemma ScalarsPassThrough(c: LegacyConfig, st: DecodeState, v: Value)
    requires IsData(v) && DecodeStateOk(st) && !v.Arr?
    ensures Legacy.UnserializeData(c, st, v) == Success((v, st))
  {
  }

  /** `{"@type": "@<n>"}` decodes to the object registered at index `n`, and to
      null when nothing is registered there; the state does not change. */
  lemma BackrefResolves(c: LegacyConfig, st: DecodeState, n: nat)
    requires DecodeStateOk(st)
    ensures Legacy.UnserializeData(c, st, Backref(n)) == Success((if n < |st.mapping| then Obj(st.mapping[n]) else Null, st))
  {
    var name := [At] + Decimal(n);
    assert name[1..] == Decimal(n);
    DecimalValue(n);
  }

  /** `unserialize` calls `reset` first: a document that is only a
      backreference decodes to null. */
  lemma UnserializeStartsFresh(c: LegacyConfig, n: nat)
    ensures Legacy.Unserialize(c, Backref(n)) == Success((Null, []))
  {
    BackrefResolves(c, FreshDecode, n);
  }

  /** A class name that is not a backreference and not an existing class is
      refused. */
  lemma UnknownClassRefused(c: LegacyConfig, st: DecodeState, es: Entries, cls: Bytes)
    requires EntriesData(es) && DecodeStateOk(st)
    requires Lookup(es, TypeKey) == Some(Str(cls))
    requires |cls| == 0 || cls[0] != At
    requires cls !in c.classes
    ensures Legacy.UnserializeData(c, st, Arr(es)) == Failure(UnknownClass(Str(cls)))
  {
  }

  /** A class of the DateTime family, by name or by inheritance, is restored
      natively from the array without `@type`, and registered at the next
      index. */
  lemma DateTimeFamilyRegistered(c: LegacyConfig, st: DecodeState, es: Entries, cls: Bytes, i: nat)
    requires EntriesData(es) && DecodeStateOk(st)
    requires Lookup(es, TypeKey) == Some(Str(cls))
    requires |cls| == 0 || cls[0] != At
    requires cls in c.classes
    requires i < |DateTimeClassTypes| && (DateTimeClassTypes[i] == cls || DateTimeClassTypes[i] in Ancestors(c, cls))
    ensures Legacy.UnserializeData(c, st, Arr(es)) == Success((Obj(|st.heap|), DecodeState(st.heap + [c.natives.restoreDateTime(cls, Remove(es, TypeKey))], st.mapping + [|st.heap|])))
  {
    assert InDateTimeFamily(c, cls);
    var o := c.natives.restoreDateTime(cls, Remove(es, TypeKey));
    assert Legacy.UnserializeObject(c, st, es) == Success(Register(st, o));
  }

  /** A user-defined object is registered at the next index before its
      properties are set, so a property that refers back to that index decodes
      to the object itself, declared or not. */
  lemma SelfReferenceDecodes(c: LegacyConfig, st: DecodeState, cls: Bytes, k: Key)
    requires DecodeStateOk(st) && cls in c.classes
    requires !c.classes[cls].hasWakeup
    ensures var r := UnserializeUserDefinedObject(c, st, cls, [(k, Backref(|st.mapping|))]);
      && r.Success?
      && r.value.0 == Obj(|st.heap|)
      && r.value.1.mapping == st.mapping + [|st.heap|]
      && r.value.1.heap[|st.heap|] == Instance(cls, Put(c.classes[cls].declared, k, Obj(|st.heap|)))
  {
    var id := |st.heap|;
    var st1 := DecodeState(st.heap + [Instance(cls, c.classes[cls].declared)], st.mapping + [id]);
    var rest := [(k, Backref(|st.mapping|))];
    EntriesSizeUnfold(rest);
    RegisterOk(st, st1, Instance(cls, c.classes[cls].declared));
    BackrefResolves(c, st1, |st.mapping|);
    SetStep(c, id, st1, rest, Obj(id), st1);
  }

  /** `__wakeup` runs once every property is set: the restored object is what
      `__wakeup` makes of the instance the property loop left. */
  lemma WakeupRunsLast(c: LegacyConfig, st: DecodeState, cls: Bytes, rest: Entries)
    requires EntriesData(rest) && DecodeStateOk(st) && cls in c.classes && c.classes[cls].hasWakeup
    ensures var r := UnserializeUserDefinedObject(c, st, cls, rest);
      var st1 := DecodeState(st.heap + [Instance(cls, c.classes[cls].declared)], st.mapping + [|st.heap|]);
      var loop := SetProperties(c, |st.heap|, st1, rest);
      && (r.Success? <==> loop.Success?)
      && (r.Success? ==> r.value.1.heap[|st.heap|] == Instance(cls, c.natives.wakeup(cls, loop.value.heap[|st.heap|].fields)))
  {
  }

  /** Every property of the array ends up on the object, declared or not. */
  lemma {:induction false} SetsEveryProperty(c: LegacyConfig, id: ObjId, st: DecodeState, rest: Entries)
    requires EntriesData(rest) && DecodeStateOk(st) && id < |st.heap| && st.heap[id].Instance?
    ensures var r := SetProperties(c, id, st, rest);
      r.Success? ==> forall i | 0 <= i < |rest| :: rest[i].0 in Keys(r.value.heap[id].fields)
    decreases |rest|
  {
    if |rest| > 0 {
      var st2, failed := SetAdvance(c, id, st, rest);
      if !failed {
        SetsEveryProperty(c, id, st2, rest[1..]);
        SetsEveryPropertyCons(c, id, st, rest, st2);
      }
    }
  }

  lemma SetsEveryPropertyCons(c: LegacyConfig, id: ObjId, st: DecodeState, rest: Entries, st2: DecodeState)
    requires EntriesData(rest) && DecodeStateOk(st) && id < |st.heap| && st.heap[id].Instance? && |rest| > 0
    requires DecodeStateOk(st2) && id < |st2.heap| && st2.heap[id].Instance?
    requires rest[0].0 in Keys(st2.heap[id].fields)
    requires SetProperties(c, id, st, rest) == SetProperties(c, id, st2, rest[1..])
    requires var r := SetProperties(c, id, st2, rest[1..]);
      r.Success? ==> forall i | 0 <= i < |rest[1..]| :: rest[1..][i].0 in Keys(r.value.heap[id].fields)
    ensures var r := SetProperties(c, id, st, rest);
      r.Success? ==> forall i | 0 <= i < |rest| :: rest[i].0 in Keys(r.value.heap[id].fields)
  {
    var r := SetProperties(c, id, st, rest);
    if r.Success? {
      SetKeepsKeys(c, id, st2, rest[1..], rest[0].0);
      KeysCovered(rest, Keys(r.value.heap[id].fields));
    }
  }

  // ---------------------------------------------------------------------
  // Steps of the property loop

  /** Registering a new object at the next index keeps every index in range. */
  lemma RegisterOk(st: DecodeState, st1: DecodeState, o: Object)
    requires DecodeStateOk(st)
    requires st1 == DecodeState(st.heap + [o], st.mapping + [|st.heap|])
    ensures DecodeStateOk(st1) && |st1.heap| == |st.heap| + 1 && st1.heap[|st.heap|] == o
    ensures |st.mapping| < |st1.mapping| && st1.mapping[|st.mapping|] == |st.heap|
  {
  }

  /** One turn of the loop: decode the value, set it, continue with the rest. */
  lemma {:induction false} SetStep(c: LegacyConfig, n: nat, D: DecodeState, es: Entries, x: Value, D1: DecodeState)
    requires EntriesData(es) && DecodeStateOk(D) && n < |D.heap| && D.heap[n].Instance? && |es| > 0
    requires Legacy.UnserializeData(c, D, es[0].1) == Success((x, D1))
    ensures D1.heap[n] == D.heap[n] && DecodeStateOk(D1)
    ensures SetProperties(c, n, D, es) == SetProperties(c, n, SetProperty(D1, n, es[0].0, x), es[1..])
  {
    EntriesSizeUnfold(es);
  }

  lemma SetFails(c: LegacyConfig, n: nat, D: DecodeState, es: Entries)
    requires EntriesData(es) && DecodeStateOk(D) && n < |D.heap| && D.heap[n].Instance? && |es| > 0
    requires Legacy.UnserializeData(c, D, es[0].1).Failure?
    ensures SetProperties(c, n, D, es).Failure?
  {
    EntriesSizeUnfold(es);
  }

  /** One turn of the loop either fails, and so does the loop, or continues
      from a state that holds the first key. */
  lemma {:induction false} SetAdvance(c: LegacyConfig, n: nat, D: DecodeState, es: Entries) returns (D2: DecodeState, failed: bool)
    requires EntriesData(es) && DecodeStateOk(D) && n < |D.heap| && D.heap[n].Instance? && |es| > 0
    ensures failed ==> SetProperties(c, n, D, es).Failure?
    ensures !failed ==> DecodeStateOk(D2) && n < |D2.heap| && D2.heap[n].Instance? && EntriesData(es[1..])
    ensures !failed ==> es[0].0 in Keys(D2.heap[n].fields)
    ensures !failed ==> SetProperties(c, n, D, es) == SetProperties(c, n, D2, es[1..])
  {
    if Legacy.UnserializeData(c, D, es[0].1).Success? {
      var (x, D1) := Legacy.UnserializeData(c, D, es[0].1).value;
      SetStep(c, n, D, es, x, D1);
      D2, failed := SetProperty(D1, n, es[0].0, x), false;
    } else {
      SetFails(c, n, D, es);
      D2, failed := D, true;
    }
  }

  /** The loop never removes a property. */
  lemma {:induction false} SetKeepsKeys(c: LegacyConfig, id: ObjId, st: DecodeState, rest: Entries, k: Key)
    requires EntriesData(rest) && DecodeStateOk(st) && id < |st.heap| && st.heap[id].Instance?
    requires k in Keys(st.heap[id].fields)
    ensures var r := SetProperties(c, id, st, rest);
      r.Success? ==> k in Keys(r.value.heap[id].fields)
    decreases |rest|
  {
    if |rest| > 0 {
      EntriesSizeUnfold(rest);
      var (k0, pv) := rest[0];
      if Legacy.UnserializeData(c, st, pv).Success? {
        var (d, st1) := Legacy.UnserializeData(c, st, pv).value;
        assert st1.heap[id] == st.heap[id];
        LookupPutKeys(st1.heap[id].fields, k0, d);
        SetKeepsKeys(c, id, SetProperty(st1, id, k0, d), rest[1..], k);
      }
    }
  }
}
