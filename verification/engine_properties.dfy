/** What the main serializer promises call by call: backreferences and the
    order in which objects are attached and registered, custom serializers,
    closures and resources, unknown classes, and the undeclared-property
    policy. */
module EngineProperties {
  import opened Wrappers
  import opened ByteStrings
  import opened Values
  import opened FloatAdapter
  import opened Engine

  // ---------------------------------------------------------------------
  // The mode setter

  /** Each mode constant is accepted and selects exactly its mode, leaving the
      rest of the configuration alone. */
  lemma ModeCodeAccepted(c: Config, m: Mode)
    ensures SetUndeclaredPropertyMode(c, ModeCode(m)) == Success(c.(mode := m))
  {
  }

  // ---------------------------------------------------------------------
  // Encoding: backreferences and attachment order

  /** An object already in the identity map encodes as `{"@type": "@<index>"}`
      and nothing else, and the identity map does not change. */
  lemma RevisitIsBackref(c: Config, h: Heap, st: EncodeState, id: ObjId)
    requires EncodeReady(c, h, st) && id < |h| && h[id].Instance? && id in st.visited
    ensures SerializeData(c, h, st, Obj(id)) == Success((Backref(IndexOf(st.visited, id)), st))
    ensures Backref(IndexOf(st.visited, id)).entries == [(TypeKey, Str([At] + Decimal(IndexOf(st.visited, id))))]
  {
  }

  /** An object met for the first time is attached at the next index before its
      properties are walked, and its encoding opens with its class name. */
  lemma NewObjectTakesNextIndex(c: Config, h: Heap, st: EncodeState, id: ObjId)
    requires EncodeReady(c, h, st) && id < |h| && h[id].Instance? && id !in st.visited
    ensures var r := SerializeData(c, h, st, Obj(id));
      r.Success? ==>
        && |r.value.1.visited| > |st.visited|
        && r.value.1.visited[|st.visited|] == id
        && r.value.0.Arr? && |r.value.0.entries| > 0
        && r.value.0.entries[0] == (TypeKey, Str(h[id].cls))
  {
    var r := SerializeObject(c, h, st, id);
    var o := h[id];
    var head := [(TypeKey, Str(o.cls))];
    var st1 := EncodeState(st.visited + [id]);
    if r.Success? {
      if o.cls in c.custom {
        PlusAssignKeepsFirst(head, c.custom[o.cls].serialize(o));
      } else if !c.classes[o.cls].splList {
        var info := c.classes[o.cls];
        ExtractIn(Properties(info, o.fields), o.fields, |h|);
        var body := SerializeEntries(c, h, st1, Extract(Properties(info, o.fields), o.fields));
        assert body.Success?;
        PlusAssignKeepsFirst(head, body.value.0);
        assert st1.visited <= body.value.1.visited;
      }
    }
  }

  /** `serialize` starts from an empty identity map: the first object it meets
      takes index 0. */
  lemma SerializeStartsFresh(c: Config, h: Heap, id: ObjId)
    requires Classed(c, h) && WellFormedHeap(h) && id < |h| && h[id].Instance?
    ensures var r := SerializeData(c, h, FreshEncode, Obj(id));
      r.Success? ==> |r.value.1.visited| > 0 && r.value.1.visited[0] == id
  {
    NewObjectTakesNextIndex(c, h, FreshEncode, id);
  }

  /** A custom serializer registered under the object's exact class replaces
      the property walk: `@type` comes first, and an entry of the custom array
      that clashes with `@type` is dropped by `+=`. The object still takes an
      index. */
  lemma CustomEncoding(c: Config, h: Heap, st: EncodeState, id: ObjId)
    requires EncodeReady(c, h, st) && id < |h| && h[id].Instance? && id !in st.visited
    requires h[id].cls in c.custom
    ensures var r := SerializeData(c, h, st, Obj(id));
      && r.Success?
      && r.value.1 == EncodeState(st.visited + [id])
      && r.value.0.Arr? && |r.value.0.entries| > 0
      && r.value.0.entries[0] == (TypeKey, Str(h[id].cls))
      && Lookup(r.value.0.entries, TypeKey) == Some(Str(h[id].cls))
      && forall k | k != TypeKey :: Lookup(r.value.0.entries, k) == Lookup(c.custom[h[id].cls].serialize(h[id]), k)
  {
    var o := h[id];
    var head := [(TypeKey, Str(o.cls))];
    var b := c.custom[o.cls].serialize(o);
    PlusAssignKeepsFirst(head, b);
    forall k ensures Lookup(PlusAssign(head, b), k) == if k == TypeKey then Some(Str(o.cls)) else Lookup(b, k) {
      LookupPlusAssign(head, b, k);
    }
  }

  /** A float goes through the corrected adapter guard and attaches nothing. It
      comes out as line 251 as written would emit it, except for a negative
      whole float without zero-fraction support. That float is wrapped here,
      where the code as written leaves it bare. */
  lemma FloatEncoding(c: Config, h: Heap, st: EncodeState, t: Bytes)
    requires EncodeReady(c, h, st)
    ensures SerializeData(c, h, st, Float(t)) == Success((AdaptFloat(t, c.preserveZeroFraction), st))
    ensures SerializeData(c, h, st, Float(t)) != Success((AdaptFloatAsWritten(t, c.preserveZeroFraction), st))
      <==> !c.preserveZeroFraction && |t| > 1 && t[0] == Minus && AllDigits(t[1..])
  {
    MainGuardsDiffer(t, c.preserveZeroFraction);
  }

  /** Resources are refused, and so are closures when no closure serializer
      was given. */
  lemma EncodeRefusals(c: Config, h: Heap, st: EncodeState, v: Value)
    requires EncodeReady(c, h, st) && ValueIn(v, |h|)
    requires v.Resource? || (v.Obj? && h[v.id].Closure? && c.closures.None?)
    ensures SerializeData(c, h, st, v) == Failure(if v.Resource? then ResourceNotSupported else ClosureSerializerMissing)
  {
  }

  /** A closure becomes `{"@closure": true, "value": <code>}` and takes no index;
      decoding that array hands `value` to the closure serializer and builds a
      new closure that is not registered. */
  lemma ClosureRoundTrip(c: Config, h: Heap, st: EncodeState, id: ObjId, dst: DecodeState)
    requires EncodeReady(c, h, st) && id < |h| && h[id].Closure? && c.closures.Some?
    requires DecodeStateOk(dst)
    ensures var code := c.closures.value.serialize(h[id].fn);
      var d := Arr([(ClosureKey, Bool(true)), (ValueKey, Str(code))]);
      && SerializeData(c, h, st, Obj(id)) == Success((d, st))
      && UnserializeData(c, dst, d) == Success((Obj(|dst.heap|), DecodeState(dst.heap + [Closure(c.closures.value.unserialize(Str(code)))], dst.mapping)))
  {
    ClosureArrayLookups();
  }

  /** The array a closure is written as has no `@type` and holds the code under `value`. */
  lemma ClosureArrayLookups()
    ensures forall code: Bytes :: Lookup([(ClosureKey, Bool(true)), (ValueKey, Str(code))], TypeKey) == None
    ensures forall code: Bytes :: Lookup([(ClosureKey, Bool(true)), (ValueKey, Str(code))], ValueKey) == Some(Str(code))
  {
    forall code: Bytes ensures Lookup([(ClosureKey, Bool(true)), (ValueKey, Str(code))], TypeKey) == None
      && Lookup([(ClosureKey, Bool(true)), (ValueKey, Str(code))], ValueKey) == Some(Str(code))
    {
      LookupPair((ClosureKey, Bool(true)), (ValueKey, Str(code)), TypeKey);
      LookupPair((ClosureKey, Bool(true)), (ValueKey, Str(code)), ValueKey);
    }
  }

  /** Lookup in a two-entry array. */
  lemma LookupPair(e1: (Key, Value), e2: (Key, Value), k: Key)
    ensures Lookup([e1, e2], k) == if e1.0 == k then Some(e1.1) else if e2.0 == k then Some(e2.1) else None
  {
    var es := [e1, e2];
    assert es[1..] == [e2];
  }

  /** Without a closure serializer, an array with a truthy `@closure` and no
      `@type` is refused. */
  lemma ClosureNeedsBackend(c: Config, st: DecodeState, es: Entries)
    requires EntriesData(es) && DecodeStateOk(st) && c.closures.None?
    requires !IsSet(es, TypeKey) && Lookup(es, ClosureKey).Some? && Truthy(Lookup(es, ClosureKey).value)
    ensures UnserializeData(c, st, Arr(es)) == Failure(ClosureSerializerMissing)
  {
  }

  // ---------------------------------------------------------------------
  // Decoding: backreferences, registration and classes

  /** `{"@type": "@<n>"}` decodes to the object registered at index `n`, and to
      null when nothing is registered there; the state does not change. */
  lemma BackrefResolves(c: Config, st: DecodeState, n: nat)
    requires DecodeStateOk(st)
    ensures UnserializeData(c, st, Backref(n)) == Success((if n < |st.mapping| then Obj(st.mapping[n]) else Null, st))
  {
    var name := [At] + Decimal(n);
    assert name[1..] == Decimal(n);
    BackrefIndex(n);
  }

  /** `unserialize` starts from an empty mapping: no index is registered, so a
      document that is only a backreference decodes to null. */
  lemma UnserializeStartsFresh(c: Config, n: nat)
    ensures Unserialize(c, Backref(n), false) == Success((Null, []))
  {
    BackrefResolves(c, FreshDecode, n);
  }

  /** A class name that is neither a backreference, nor custom, nor an existing
      class is refused, whatever else the array holds (a truthy `@closure`
      included: `@type` is looked at first). */
  lemma UnknownClassRefused(c: Config, st: DecodeState, es: Entries, cls: Bytes)
    requires EntriesData(es) && DecodeStateOk(st)
    requires Lookup(es, TypeKey) == Some(Str(cls))
    requires |cls| == 0 || cls[0] != At
    requires cls !in c.custom && cls !in c.classes
    ensures UnserializeData(c, st, Arr(es)) == Failure(UnknownClass(Str(cls)))
  {
  }

  /** A custom class decodes through its custom serializer, on the array without
      `@type`, and the result is registered at the next index. */
  lemma CustomDecoding(c: Config, st: DecodeState, es: Entries, cls: Bytes)
    requires EntriesData(es) && DecodeStateOk(st)
    requires Lookup(es, TypeKey) == Some(Str(cls))
    requires |cls| == 0 || cls[0] != At
    requires cls in c.custom
    ensures UnserializeData(c, st, Arr(es)) == Success((Obj(|st.heap|), DecodeState(st.heap + [c.custom[cls].unserialize(Remove(es, TypeKey))], st.mapping + [|st.heap|])))
  {
  }

  /** `DateTime` is restored natively from the array without `@type`, and
      registered at the next index. */
  lemma DateTimeRegistered(c: Config, st: DecodeState, es: Entries)
    requires EntriesData(es) && DecodeStateOk(st)
    requires Lookup(es, TypeKey) == Some(Str(DateTimeName))
    requires DateTimeName !in c.custom && DateTimeName in c.classes
    ensures UnserializeData(c, st, Arr(es)) == Success((Obj(|st.heap|), DecodeState(st.heap + [c.natives.restoreDateTime(DateTimeName, Remove(es, TypeKey))], st.mapping + [|st.heap|])))
  {
    assert DateTimeName[0] != At;
    var o := c.natives.restoreDateTime(DateTimeName, Remove(es, TypeKey));
    assert UnserializeObject(c, st, es) == Success(Register(st, o));
  }

  /** An `SplDoublyLinkedList` is written as its class and its native
      serialization under `value`, and takes an index. */
  lemma SplListEncoding(c: Config, h: Heap, st: EncodeState, id: ObjId)
    requires EncodeReady(c, h, st) && id < |h| && h[id].Instance? && id !in st.visited
    requires h[id].cls !in c.custom && c.classes[h[id].cls].splList
    ensures SerializeData(c, h, st, Obj(id)) == Success((Arr([(TypeKey, Str(h[id].cls)), (ValueKey, Str(c.natives.splSerialize(h[id])))]), EncodeState(st.visited + [id])))
  {
    var o := h[id];
    var e1, e2 := (TypeKey, Str(o.cls)), (ValueKey, Str(c.natives.splSerialize(o)));
    assert [e1] + [e2] == [e1, e2];
    assert SerializeObject(c, h, st, id) == Success((Arr([e1] + [e2]), EncodeState(st.visited + [id])));
  }

  /** An `SplDoublyLinkedList` class is restored natively from its `value`
      entry, null when there is none, and registered at the next index. */
  lemma SplListRegistered(c: Config, st: DecodeState, es: Entries, cls: Bytes)
    requires EntriesData(es) && DecodeStateOk(st)
    requires Lookup(es, TypeKey) == Some(Str(cls))
    requires |cls| == 0 || cls[0] != At
    requires cls !in c.custom && cls in c.classes && cls != DateTimeName && c.classes[cls].splList
    ensures UnserializeData(c, st, Arr(es)) == Success((Obj(|st.heap|), DecodeState(st.heap + [c.natives.splRestore(cls, Get(Remove(es, TypeKey), ValueKey))], st.mapping + [|st.heap|])))
  {
  }

  /** A custom serializer pair round-trips through the engine when its array
      has no `@type` entry: the decoder hands back exactly the array the custom
      serializer produced. */
  lemma CustomRoundTrip(c: Config, h: Heap, id: ObjId)
    requires Classed(c, h) && WellFormedHeap(h) && id < |h| && h[id].Instance?
    requires h[id].cls in c.custom && (|h[id].cls| == 0 || h[id].cls[0] != At)
    requires TypeKey !in Keys(c.custom[h[id].cls].serialize(h[id]))
    ensures var r := SerializeData(c, h, FreshEncode, Obj(id));
      && r.Success?
      && UnserializeData(c, FreshDecode, r.value.0) == Success((Obj(0), DecodeState([c.custom[h[id].cls].unserialize(c.custom[h[id].cls].serialize(h[id]))], [0])))
  {
    var o := h[id];
    var head := [(TypeKey, Str(o.cls))];
    var b := c.custom[o.cls].serialize(o);
    CustomEncodes(c, h, id);
    LookupConcat(head, b, TypeKey);
    CustomDecoding(c, FreshDecode, head + b, o.cls);
    RemoveFirst((TypeKey, Str(o.cls)), b);
    assert FreshDecode.heap + [c.custom[o.cls].unserialize(b)] == [c.custom[o.cls].unserialize(b)];
    assert FreshDecode.mapping + [0] == [0];
  }

  /** A custom-serialized object is written as its class entry followed by the
      custom serializer's array. */
  lemma CustomEncodes(c: Config, h: Heap, id: ObjId)
    requires Classed(c, h) && WellFormedHeap(h) && id < |h| && h[id].Instance?
    requires h[id].cls in c.custom
    requires TypeKey !in Keys(c.custom[h[id].cls].serialize(h[id]))
    ensures var b := c.custom[h[id].cls].serialize(h[id]);
      && SerializeData(c, h, FreshEncode, Obj(id)) == Success((Arr([(TypeKey, Str(h[id].cls))] + b), EncodeState([id])))
      && EntriesData([(TypeKey, Str(h[id].cls))] + b)
  {
    var o := h[id];
    var b := c.custom[o.cls].serialize(o);
    PlusAssignSingle((TypeKey, Str(o.cls)), b);
    assert FreshEncode.visited + [id] == [id];
    assert SerializeObject(c, h, FreshEncode, id) == Success((Arr([(TypeKey, Str(o.cls))] + b), EncodeState([id])));
  }


  /** A user-defined object is registered at the next index before its
      properties are decoded: a property that refers back to that index decodes
      to the object itself, so a cycle comes back as the same instance. */
  lemma SelfReferenceDecodes(c: Config, st: DecodeState, cls: Bytes, k: Key)
    requires DecodeStateOk(st) && cls in c.classes
    requires k in Keys(c.classes[cls].declared) || c.mode == SetMode
    requires !c.classes[cls].hasWakeup
    ensures var r := UnserializeInstance(c, st, cls, [(k, Backref(|st.mapping|))]);
      && r.Success?
      && r.value.0 == Obj(|st.heap|)
      && r.value.1.mapping == st.mapping + [|st.heap|]
      && r.value.1.heap[|st.heap|] == Instance(cls, Put(c.classes[cls].declared, k, Obj(|st.heap|)))
  {
    var id := |st.heap|;
    var info := c.classes[cls];
    var st1 := DecodeState(st.heap + [Instance(cls, info.declared)], st.mapping + [id]);
    var rest := [(k, Backref(|st.mapping|))];
    EntriesSizeUnfold(rest);
    RegisterKeepsOk(st, st1, Instance(cls, info.declared));
    BackrefResolves(c, st1, |st.mapping|);
    DecodePropsStep(c, info, id, st1, rest, Obj(id), st1);
    InstanceUnfold(c, st, cls, rest);
  }

  /** Without `__wakeup`, the object is the instance the property loop leaves. */
  lemma InstanceUnfold(c: Config, st: DecodeState, cls: Bytes, rest: Entries)
    requires EntriesData(rest) && DecodeStateOk(st) && cls in c.classes && !c.classes[cls].hasWakeup
    ensures var st1 := DecodeState(st.heap + [Instance(cls, c.classes[cls].declared)], st.mapping + [|st.heap|]);
      var loop := UnserializeProps(c, c.classes[cls], |st.heap|, st1, rest);
      UnserializeInstance(c, st, cls, rest) == if loop.Success? then Success((Obj(|st.heap|), loop.value)) else Failure(loop.error)
  {
  }

  /** `__wakeup` runs once the property loop is done: the restored object is
      what `__wakeup` makes of the instance the loop left, and the object
      fails exactly when the loop does. */
  lemma WakeupRunsLast(c: Config, st: DecodeState, cls: Bytes, rest: Entries)
    requires EntriesData(rest) && DecodeStateOk(st) && cls in c.classes && c.classes[cls].hasWakeup
    ensures var r := UnserializeInstance(c, st, cls, rest);
      var st1 := DecodeState(st.heap + [Instance(cls, c.classes[cls].declared)], st.mapping + [|st.heap|]);
      var loop := UnserializeProps(c, c.classes[cls], |st.heap|, st1, rest);
      && (r.Success? <==> loop.Success?)
      && (r.Success? ==> r.value.1.heap[|st.heap|] == Instance(cls, c.natives.wakeup(cls, loop.value.heap[|st.heap|].fields)))
  {
  }

  /** Registering a new object at the next index keeps every index in range. */
  lemma RegisterKeepsOk(st: DecodeState, st1: DecodeState, o: Object)
    requires DecodeStateOk(st)
    requires st1 == DecodeState(st.heap + [o], st.mapping + [|st.heap|])
    ensures DecodeStateOk(st1) && |st1.heap| == |st.heap| + 1 && st1.heap[|st.heap|] == o
    ensures |st.mapping| < |st1.mapping| && st1.mapping[|st.mapping|] == |st.heap|
  {
  }

  // ---------------------------------------------------------------------
  // The undeclared-property policy

  /** One step of the property loop for a key that is set: decode the value,
      set it on the instance, continue with the rest. */
  lemma {:induction false} DecodePropsStep(c: Config, info: ClassInfo, n: nat, D: DecodeState, es: Entries, x: Value, D1: DecodeState)
    requires EntriesData(es) && DecodeStateOk(D) && n < |D.heap| && D.heap[n].Instance? && |es| > 0
    requires es[0].0 in Keys(info.declared) || c.mode == SetMode
    requires UnserializeData(c, D, es[0].1) == Success((x, D1))
    ensures D1.heap[n] == D.heap[n] && DecodeStateOk(D1)
    ensures UnserializeProps(c, info, n, D, es) == UnserializeProps(c, info, n, SetProperty(D1, n, es[0].0, x), es[1..])
  {
    EntriesSizeUnfold(es);
  }

  /** One step of the loop for a key that is set: either decoding its value
      fails and so does the loop, or the loop continues from the state that
      holds the decoded value. */
  lemma {:induction false} PropsAdvance(c: Config, info: ClassInfo, n: nat, D: DecodeState, es: Entries) returns (D2: DecodeState, failed: bool)
    requires EntriesData(es) && DecodeStateOk(D) && n < |D.heap| && D.heap[n].Instance? && |es| > 0
    requires es[0].0 in Keys(info.declared) || c.mode == SetMode
    ensures failed ==> UnserializeProps(c, info, n, D, es).Failure?
    ensures !failed ==> DecodeStateOk(D2) && n < |D2.heap| && D2.heap[n].Instance? && EntriesData(es[1..])
    ensures !failed ==> es[0].0 in Keys(D2.heap[n].fields)
    ensures !failed ==> UnserializeProps(c, info, n, D, es) == UnserializeProps(c, info, n, D2, es[1..])
  {
    if UnserializeData(c, D, es[0].1).Success? {
      var (x, D1) := UnserializeData(c, D, es[0].1).value;
      DecodePropsStep(c, info, n, D, es, x, D1);
      D2, failed := SetProperty(D1, n, es[0].0, x), false;
    } else {
      DecodePropsFails(c, info, n, D, es);
      D2, failed := D, true;
    }
  }

  /** The loop never removes a property. */
  lemma {:induction false} PropsKeepKeys(c: Config, info: ClassInfo, id: ObjId, st: DecodeState, rest: Entries, k: Key)
    requires EntriesData(rest) && DecodeStateOk(st) && id < |st.heap| && st.heap[id].Instance?
    requires k in Keys(st.heap[id].fields)
    ensures var r := UnserializeProps(c, info, id, st, rest);
      r.Success? ==> k in Keys(r.value.heap[id].fields)
    decreases |rest|
  {
    if |rest| > 0 {
      EntriesSizeUnfold(rest);
      var (k0, pv) := rest[0];
      if k0 in Keys(info.declared) || c.mode == SetMode {
        if UnserializeData(c, st, pv).Success? {
          var (d, st1) := UnserializeData(c, st, pv).value;
          assert st1.heap[id] == st.heap[id];
          LookupPutKeys(st1.heap[id].fields, k0, d);
          PropsKeepKeys(c, info, id, SetProperty(st1, id, k0, d), rest[1..], k);
        }
      } else if c.mode == IgnoreMode {
        PropsKeepKeys(c, info, id, st, rest[1..], k);
      }
    }
  }

  /** In mode 3 the loop stops at an undeclared key. */
  lemma PropsRefuses(c: Config, info: ClassInfo, n: nat, D: DecodeState, es: Entries)
    requires EntriesData(es) && DecodeStateOk(D) && n < |D.heap| && D.heap[n].Instance? && |es| > 0
    requires c.mode == ExceptionMode && es[0].0 !in Keys(info.declared)
    ensures UnserializeProps(c, info, n, D, es) == Failure(UndeclaredProperty(es[0].0))
  {
    EntriesSizeUnfold(es);
  }

  /** The loop fails when a value it decodes fails. */
  lemma DecodePropsFails(c: Config, info: ClassInfo, n: nat, D: DecodeState, es: Entries)
    requires EntriesData(es) && DecodeStateOk(D) && n < |D.heap| && D.heap[n].Instance? && |es| > 0
    requires es[0].0 in Keys(info.declared) || c.mode == SetMode
    requires UnserializeData(c, D, es[0].1).Failure?
    ensures UnserializeProps(c, info, n, D, es).Failure?
  {
    EntriesSizeUnfold(es);
  }

  /** Mode 2 drops undeclared properties without decoding them: when no key is
      declared, nothing changes. */
  lemma {:induction false} IgnoreModeDropsUndeclared(c: Config, info: ClassInfo, id: ObjId, st: DecodeState, rest: Entries)
    requires EntriesData(rest) && DecodeStateOk(st) && id < |st.heap| && st.heap[id].Instance?
    requires c.mode == IgnoreMode
    requires forall i | 0 <= i < |rest| :: rest[i].0 !in Keys(info.declared)
    ensures UnserializeProps(c, info, id, st, rest) == Success(st)
    decreases |rest|
  {
    if |rest| > 0 {
      IgnoreModeDropsUndeclared(c, info, id, st, rest[1..]);
    }
  }

  /** The entries whose key the class declares, in order. */
  function DeclaredEntries(info: ClassInfo, es: Entries): (r: Entries)
    ensures forall i | 0 <= i < |r| :: r[i].0 in Keys(info.declared)
    ensures forall i | 0 <= i < |es| && es[i].0 in Keys(info.declared) :: es[i] in r
    ensures forall e | e in r :: e in es
    ensures EntriesData(es) ==> EntriesData(r)
  {
    if |es| == 0 then []
    else if es[0].0 in Keys(info.declared) then [es[0]] + DeclaredEntries(info, es[1..])
    else DeclaredEntries(info, es[1..])
  }

  /** In mode 2 an undeclared key is skipped without decoding its value. */
  lemma IgnoreModeSkips(c: Config, info: ClassInfo, id: ObjId, st: DecodeState, rest: Entries)
    requires EntriesData(rest) && DecodeStateOk(st) && id < |st.heap| && st.heap[id].Instance? && |rest| > 0
    requires c.mode == IgnoreMode && rest[0].0 !in Keys(info.declared)
    ensures UnserializeProps(c, info, id, st, rest) == UnserializeProps(c, info, id, st, rest[1..])
  {
    EntriesSizeUnfold(rest);
  }

  /** In mode 2 the loop does exactly what it does on the declared entries
      alone: the undeclared ones are neither decoded nor set. */
  lemma {:induction false} IgnoreModeKeepsDeclared(c: Config, info: ClassInfo, id: ObjId, st: DecodeState, rest: Entries)
    requires EntriesData(rest) && DecodeStateOk(st) && id < |st.heap| && st.heap[id].Instance?
    requires c.mode == IgnoreMode
    ensures EntriesData(DeclaredEntries(info, rest))
    ensures UnserializeProps(c, info, id, st, rest) == UnserializeProps(c, info, id, st, DeclaredEntries(info, rest))
    decreases |rest|
  {
    if |rest| > 0 {
      var fl := DeclaredEntries(info, rest);
      if rest[0].0 in Keys(info.declared) {
        assert fl == [rest[0]] + DeclaredEntries(info, rest[1..]);
        assert fl[0] == rest[0] && fl[1..] == DeclaredEntries(info, rest[1..]);
        EntriesSizeUnfold(rest);
        EntriesSizeUnfold(fl);
        if UnserializeData(c, st, rest[0].1).Success? {
          var (x, D1) := UnserializeData(c, st, rest[0].1).value;
          DecodePropsStep(c, info, id, st, rest, x, D1);
          DecodePropsStep(c, info, id, st, fl, x, D1);
          IgnoreModeKeepsDeclared(c, info, id, SetProperty(D1, id, rest[0].0, x), rest[1..]);
        }
      } else {
        IgnoreModeSkips(c, info, id, st, rest);
        IgnoreModeKeepsDeclared(c, info, id, st, rest[1..]);
      }
    }
  }

  /** In mode 2 a key the class does not declare never becomes a property of
      the instance. */
  lemma {:induction false} IgnoreModeNeverSets(c: Config, info: ClassInfo, id: ObjId, st: DecodeState, rest: Entries, k: Key)
    requires EntriesData(rest) && DecodeStateOk(st) && id < |st.heap| && st.heap[id].Instance?
    requires c.mode == IgnoreMode && k !in Keys(info.declared) && k !in Keys(st.heap[id].fields)
    ensures var r := UnserializeProps(c, info, id, st, rest);
      r.Success? ==> k !in Keys(r.value.heap[id].fields)
    decreases |rest|
  {
    if |rest| > 0 {
      if rest[0].0 in Keys(info.declared) {
        if UnserializeData(c, st, rest[0].1).Success? {
          var (x, D1) := UnserializeData(c, st, rest[0].1).value;
          DecodePropsStep(c, info, id, st, rest, x, D1);
          LookupPutKeys(D1.heap[id].fields, rest[0].0, x);
          IgnoreModeNeverSets(c, info, id, SetProperty(D1, id, rest[0].0, x), rest[1..], k);
        }
      } else {
        IgnoreModeSkips(c, info, id, st, rest);
        IgnoreModeNeverSets(c, info, id, st, rest[1..], k);
      }
    }
  }

  /** Mode 3 refuses the object as soon as one property is undeclared. */
  lemma {:induction false} ExceptionModeRefusesUndeclared(c: Config, info: ClassInfo, id: ObjId, st: DecodeState, rest: Entries, i: nat)
    requires EntriesData(rest) && DecodeStateOk(st) && id < |st.heap| && st.heap[id].Instance?
    requires c.mode == ExceptionMode
    requires i < |rest| && rest[i].0 !in Keys(info.declared)
    ensures UnserializeProps(c, info, id, st, rest).Failure?
    decreases |rest|
  {
    if rest[0].0 !in Keys(info.declared) {
      PropsRefuses(c, info, id, st, rest);
    } else {
      var st2, j, failed := ExceptionModeStep(c, info, id, st, rest, i);
      if !failed {
        ExceptionModeRefusesUndeclared(c, info, id, st2, rest[1..], j);
      }
    }
  }

  /** Past a declared key the undeclared one is still ahead, one place closer. */
  lemma {:induction false} ExceptionModeStep(c: Config, info: ClassInfo, id: ObjId, st: DecodeState, rest: Entries, i: nat)
    returns (st2: DecodeState, j: nat, failed: bool)
    requires EntriesData(rest) && DecodeStateOk(st) && id < |st.heap| && st.heap[id].Instance?
    requires i < |rest| && rest[i].0 !in Keys(info.declared) && rest[0].0 in Keys(info.declared)
    ensures failed ==> UnserializeProps(c, info, id, st, rest).Failure?
    ensures !failed ==> DecodeStateOk(st2) && id < |st2.heap| && st2.heap[id].Instance? && EntriesData(rest[1..])
    ensures !failed ==> j < |rest[1..]| && rest[1..][j].0 !in Keys(info.declared)
    ensures !failed ==> UnserializeProps(c, info, id, st, rest) == UnserializeProps(c, info, id, st2, rest[1..])
  {
    assert i != 0;
    j := i - 1;
    assert rest[1..][j] == rest[i];
    st2, failed := PropsAdvance(c, info, id, st, rest);
  }

  /** Mode 1 sets every property, declared or not. */
  lemma {:induction false} SetModeSetsAll(c: Config, info: ClassInfo, id: ObjId, st: DecodeState, rest: Entries)
    requires EntriesData(rest) && DecodeStateOk(st) && id < |st.heap| && st.heap[id].Instance?
    requires c.mode == SetMode
    ensures var r := UnserializeProps(c, info, id, st, rest);
      r.Success? ==> forall i | 0 <= i < |rest| :: rest[i].0 in Keys(r.value.heap[id].fields)
    decreases |rest|
  {
    if |rest| > 0 {
      var st2, failed := PropsAdvance(c, info, id, st, rest);
      if !failed {
        SetModeSetsAll(c, info, id, st2, rest[1..]);
        SetModeSetsAllCons(c, info, id, st, rest, st2);
      }
    }
  }

  lemma {:induction false} SetModeSetsAllCons(c: Config, info: ClassInfo, id: ObjId, st: DecodeState, rest: Entries, st2: DecodeState)
    requires EntriesData(rest) && DecodeStateOk(st) && id < |st.heap| && st.heap[id].Instance? && |rest| > 0
    requires DecodeStateOk(st2) && id < |st2.heap| && st2.heap[id].Instance?
    requires rest[0].0 in Keys(st2.heap[id].fields)
    requires UnserializeProps(c, info, id, st, rest) == UnserializeProps(c, info, id, st2, rest[1..])
    requires var r := UnserializeProps(c, info, id, st2, rest[1..]);
      r.Success? ==> forall i | 0 <= i < |rest[1..]| :: rest[1..][i].0 in Keys(r.value.heap[id].fields)
    ensures var r := UnserializeProps(c, info, id, st, rest);
      r.Success? ==> forall i | 0 <= i < |rest| :: rest[i].0 in Keys(r.value.heap[id].fields)
  {
    var r := UnserializeProps(c, info, id, st, rest);
    if r.Success? {
      PropsKeepKeys(c, info, id, st2, rest[1..], rest[0].0);
      KeysCovered(rest, Keys(r.value.heap[id].fields));
    }
  }
}
