/** The older serializer, `Zumba\Util\JsonSerializer`. It uses the same identity
    map and backreference scheme as the main serializer, but:
    - it dispatches on the value's type through `serializationMap`;
    - it has no custom serializers, no closure serializer and no
      `SplDoublyLinkedList` path (a closure is walked like any object);
    - it restores the whole DateTime family (`isDateTimeFamilyObject`) through
      native `unserialize`;
    - it always sets undeclared properties;
    - it guards the float adapter with `strpos((string)$value, '.') === false`.

    The agreement lemmas at the end show that, where those differences do not
    arise, both directions compute exactly what the main serializer computes. */
module Legacy {
  import opened Wrappers
  import opened ByteStrings
  import opened Values
  import opened FloatAdapter
  import opened Engine
  import opened BinarySafety

  /** `DatePeriod`, the one class `getSerializer` routes by name. */
  const PeriodName: Bytes := [68, 97, 116, 101, 80, 101, 114, 105, 111, 100]

  /** `$dateTimeClassType`, in order. */
  const DateTimeClassTypes: seq<Bytes> := [
    DateTimeName,
    [68, 97, 116, 101, 84, 105, 109, 101, 73, 109, 109, 117, 116, 97, 98, 108, 101],
    [68, 97, 116, 101, 84, 105, 109, 101, 90, 111, 110, 101],
    [68, 97, 116, 101, 73, 110, 116, 101, 114, 118, 97, 108],
    PeriodName]

  /** The DateTime family, spelled out. */
  lemma LegacySpelling()
    ensures DateTimeClassTypes == [Ascii("DateTime"), Ascii("DateTimeImmutable"), Ascii("DateTimeZone"), Ascii("DateInterval"), Ascii("DatePeriod")]
  {
    EngineSpelling();
    assert DateTimeClassTypes[1] == Ascii("DateTimeImmutable");
    assert DateTimeClassTypes[2] == Ascii("DateTimeZone");
    assert DateTimeClassTypes[3] == Ascii("DateInterval");
    assert DateTimeClassTypes[4] == Ascii("DatePeriod");
  }

  /** A serializer instance: the classes that exist with, for each, the classes
      it extends (what `is_subclass_of` consults), whether
      `JSON_PRESERVE_ZERO_FRACTION` is defined, and the native paths. */
  datatype LegacyConfig = LegacyConfig(
    classes: map<Bytes, ClassInfo>,
    ancestors: map<Bytes, set<Bytes>>,
    preserveZeroFraction: bool,
    natives: Natives)

  /** The proper ancestors of a class; a class that does not exist has none. */
  function Ancestors(c: LegacyConfig, cls: Bytes): set<Bytes> {
    if cls in c.ancestors then c.ancestors[cls] else {}
  }

  /** The class is one of the five DateTime family names or extends one. */
  predicate InDateTimeFamily(c: LegacyConfig, cls: Bytes) {
    exists i | 0 <= i < |DateTimeClassTypes| :: DateTimeClassTypes[i] == cls || DateTimeClassTypes[i] in Ancestors(c, cls)
  }

  /** `isDateTimeFamilyObject`: the loop over `$dateTimeClassType`. */
  method IsDateTimeFamilyObject(c: LegacyConfig, cls: Bytes) returns (r: bool)
    ensures r <==> InDateTimeFamily(c, cls)
  {
    r := false;
    var i := 0;
    while i < |DateTimeClassTypes|
      invariant 0 <= i <= |DateTimeClassTypes|
      invariant r <==> exists j | 0 <= j < i :: DateTimeClassTypes[j] == cls || DateTimeClassTypes[j] in Ancestors(c, cls)
    {
      var t := DateTimeClassTypes[i];
      r := r || t in Ancestors(c, cls) || t == cls;
      i := i + 1;
    }
  }

  /** `$value instanceof \DatePeriod`. */
  predicate IsPeriodClass(c: LegacyConfig, cls: Bytes) {
    cls == PeriodName || PeriodName in Ancestors(c, cls)
  }

  // ---------------------------------------------------------------------
  // Encoding

  /** The method `getSerializer` names. */
  datatype Route = ScalarRoute | ArrayRoute | ObjectRoute | PeriodRoute | NoRoute

  /** `getSerializer`: `gettype`, with null sent to `serializeScalar` and a
      `DatePeriod` to `serializeDatePeriod`; a resource has no entry in
      `serializationMap`. */
  function GetSerializer(c: LegacyConfig, h: Heap, v: Value): (r: Route)
    requires ValueIn(v, |h|)
    ensures r == NoRoute <==> v.Resource?
    ensures r == ArrayRoute <==> v.Arr?
    ensures r == PeriodRoute <==> v.Obj? && h[v.id].Instance? && IsPeriodClass(c, h[v.id].cls)
    ensures r == ScalarRoute <==> !v.Arr? && !v.Obj? && !v.Resource?
  {
    match v
    case Resource(_) => NoRoute
    case Arr(_) => ArrayRoute
    case Obj(id) => if h[id].Instance? && IsPeriodClass(c, h[id].cls) then PeriodRoute else ObjectRoute
    case _ => ScalarRoute
  }

  /** What the encoder may be called on: a closed heap whose instances are of
      existing classes other than `DatePeriod`, and an identity map into it. */
  predicate LegacyReady(c: LegacyConfig, h: Heap, st: EncodeState) {
    && WellFormedHeap(h) && EncodeStateIn(st, |h|)
    && forall o | 0 <= o < |h| :: h[o].Instance? ==> h[o].cls in c.classes && !IsPeriodClass(c, h[o].cls)
  }

  /** `serializeScalar`: the float adapter when zero fractions are not
      preserved, the value itself otherwise. */
  function SerializeScalar(c: LegacyConfig, v: Value): (r: Value)
    requires v.Null? || v.Bool? || v.Int? || v.Float? || v.Str?
    ensures !v.Float? ==> r == v
  {
    if v.Float? then AdaptFloatUtil(v.text, c.preserveZeroFraction) else v
  }

  /** `serializeData`: the method `getSerializer` names, applied to the value. */
  function SerializeData(c: LegacyConfig, h: Heap, st: EncodeState, v: Value): (r: Result<(Value, EncodeState), Error>)
    requires LegacyReady(c, h, st) && ValueIn(v, |h|)
    ensures r.Success? ==> st.visited <= r.value.1.visited && EncodeStateIn(r.value.1, |h|)
    ensures r.Success? ==> IsData(r.value.0)
    decreases Unvisited(h, st), Size(v)
  {
    match GetSerializer(c, h, v)
    case NoRoute => Failure(ResourceNotSupported)
    case ScalarRoute => Success((SerializeScalar(c, v), st))
    case ArrayRoute =>
      var body :- SerializeArray(c, h, st, v.entries);
      Success((Arr(body.0), body.1))
    case ObjectRoute => SerializeObject(c, h, st, v.id)
    case PeriodRoute => assert false; Failure(ResourceNotSupported)
  }

  /** `serializeArray`: `array_map` of `serializeData`, keys kept. */
  function SerializeArray(c: LegacyConfig, h: Heap, st: EncodeState, es: Entries): (r: Result<(Entries, EncodeState), Error>)
    requires LegacyReady(c, h, st) && EntriesIn(es, |h|)
    ensures r.Success? ==> st.visited <= r.value.1.visited && EncodeStateIn(r.value.1, |h|)
    ensures r.Success? ==> Keys(r.value.0) == Keys(es) && EntriesData(r.value.0)
    decreases Unvisited(h, st), EntriesSize(es)
  {
    if |es| == 0 then Success(([], st))
    else
      EntriesSizeUnfold(es);
      var head :- SerializeData(c, h, st, es[0].1);
      UnvisitedShrinks(h, st, head.1);
      var tail :- SerializeArray(c, h, head.1, es[1..]);
      Success(([(es[0].0, head.0)] + tail.0, tail.1))
  }

  /** `serializeObject`: a backreference for an object already attached;
      otherwise the object is attached at the next index, and its class name
      is followed by its properties. A closure has none. */
  function SerializeObject(c: LegacyConfig, h: Heap, st: EncodeState, id: ObjId): (r: Result<(Value, EncodeState), Error>)
    requires LegacyReady(c, h, st) && id < |h|
    ensures r.Success? ==> st.visited <= r.value.1.visited && EncodeStateIn(r.value.1, |h|)
    ensures r.Success? ==> IsData(r.value.0)
    decreases Unvisited(h, st), 0
  {
    if id in st.visited then Success((Backref(IndexOf(st.visited, id)), st))
    else
      var st1 := EncodeState(st.visited + [id]);
      assert id in Unvisited(h, st) - Unvisited(h, st1);
      UnvisitedShrinks(h, st, st1);
      var head := [(TypeKey, Str(ClassOf(h[id])))];
      match h[id]
      case Closure(_) => Success((Arr(head), st1))
      case Instance(cls, fields) =>
        var data := Extract(Properties(c.classes[cls], fields), fields);
        ExtractIn(Properties(c.classes[cls], fields), fields, |h|);
        var body :- SerializeArray(c, h, st1, data);
        PlusAssignData(head, body.0);
        Success((Arr(PlusAssign(head, body.0)), body.1))
  }

  /** `serialize` at the level of the JSON tree: `reset`, the walk, then
      `json_encode` with no UTF-8 handling. An ill-formed string or key makes
      `json_encode` return false, and `serialize` then hands back `false` (or
      `""` once the adapter's rewrite has run) instead of JSON: `EncodeFailed`.
      The adapter's text rewrite is `FloatAdapter.Strip`. */
  function Serialize(c: LegacyConfig, h: Heap, v: Value): (r: Result<Value, Error>)
    requires LegacyReady(c, h, FreshEncode) && ValueIn(v, |h|)
    ensures r.Success? <==> SerializeData(c, h, FreshEncode, v).Success? && AllWellFormed(SerializeData(c, h, FreshEncode, v).value.0)
    ensures r.Success? ==> IsData(r.value) && AllWellFormed(r.value)
    ensures SerializeData(c, h, FreshEncode, v).Success? && !AllWellFormed(SerializeData(c, h, FreshEncode, v).value.0) ==> r == Failure(EncodeFailed)
  {
    var (d, _) :- SerializeData(c, h, FreshEncode, v);
    if AllWellFormed(d) then Success(d) else Failure(EncodeFailed)
  }

  // ---------------------------------------------------------------------
  // Decoding

  /** `unserializeData`: scalars and null as they are, arrays with `@type` as
      objects, other arrays element by element. */
  function UnserializeData(c: LegacyConfig, st: DecodeState, v: Value): (r: Result<(Value, DecodeState), Error>)
    requires IsData(v) && DecodeStateOk(st)
    ensures r.Success? ==> Extends(st, r.value.1) && DecodeStateOk(r.value.1)
    ensures r.Success? ==> ValueIn(r.value.0, |r.value.1.heap|)
    decreases Size(v), 2
  {
    match v
    case Arr(es) =>
      if IsSet(es, TypeKey) then UnserializeObject(c, st, es)
      else
        var body :- UnserializeArray(c, st, es);
        Success((Arr(body.0), body.1))
    case _ => Success((v, st))
  }

  /** `array_map` of `unserializeData`. */
  function UnserializeArray(c: LegacyConfig, st: DecodeState, es: Entries): (r: Result<(Entries, DecodeState), Error>)
    requires EntriesData(es) && DecodeStateOk(st)
    ensures r.Success? ==> Extends(st, r.value.1) && DecodeStateOk(r.value.1)
    ensures r.Success? ==> Keys(r.value.0) == Keys(es) && EntriesIn(r.value.0, |r.value.1.heap|)
    decreases EntriesSize(es), 2
  {
    if |es| == 0 then Success(([], st))
    else
      EntriesSizeUnfold(es);
      var head :- UnserializeData(c, st, es[0].1);
      var tail :- UnserializeArray(c, head.1, es[1..]);
      ValueInGrows(head.0, |head.1.heap|, |tail.1.heap|);
      Success(([(es[0].0, head.0)] + tail.0, tail.1))
  }

  /** `unserializeObject`: a backreference, an unknown class, the DateTime
      family, or a user-defined object. */
  function UnserializeObject(c: LegacyConfig, st: DecodeState, es: Entries): (r: Result<(Value, DecodeState), Error>)
    requires EntriesData(es) && DecodeStateOk(st) && IsSet(es, TypeKey)
    ensures r.Success? ==> Extends(st, r.value.1) && DecodeStateOk(r.value.1)
    ensures r.Success? ==> ValueIn(r.value.0, |r.value.1.heap|)
    decreases Size(Arr(es)), 1
  {
    var t := Lookup(es, TypeKey).value;
    var rest := Remove(es, TypeKey);
    if !t.Str? then Failure(UnknownClass(t))
    else
      var cls := t.s;
      if |cls| > 0 && cls[0] == At then Success((Resolve(st, cls[1..]), st))
      else if cls !in c.classes then Failure(UnknownClass(t))
      else if InDateTimeFamily(c, cls) then
        Success(Register(st, c.natives.restoreDateTime(cls, rest)))
      else
        RemoveSize(es, TypeKey);
        RemoveData(es, TypeKey);
        UnserializeUserDefinedObject(c, st, cls, rest)
  }

  /** `unserializeUserDefinedObject`: a new instance with its declared
      defaults, registered at the next index before its properties are set,
      then `__wakeup`. */
  function UnserializeUserDefinedObject(c: LegacyConfig, st: DecodeState, cls: Bytes, rest: Entries): (r: Result<(Value, DecodeState), Error>)
    requires EntriesData(rest) && DecodeStateOk(st) && cls in c.classes
    ensures r.Success? ==> Extends(st, r.value.1) && DecodeStateOk(r.value.1)
    ensures r.Success? ==> r.value.0 == Obj(|st.heap|) && |r.value.1.heap| > |st.heap|
    decreases EntriesSize(rest), 1
  {
    var info := c.classes[cls];
    var id := |st.heap|;
    var st1 := DecodeState(st.heap + [Instance(cls, info.declared)], st.mapping + [id]);
    var st2 :- SetProperties(c, id, st1, rest);
    assert st.heap <= st2.heap by {
      assert forall j | 0 <= j < |st.heap| :: st2.heap[j] == st.heap[j];
    }
    var st3 := if info.hasWakeup then st2.(heap := st2.heap[id := Instance(cls, c.natives.wakeup(cls, st2.heap[id].fields))]) else st2;
    Success((Obj(id), st3))
  }

  /** `setUnserializedObjectProperties`: every entry, declared or not, is
      decoded and set. */
  function SetProperties(c: LegacyConfig, id: ObjId, st: DecodeState, rest: Entries): (r: Result<DecodeState, Error>)
    requires EntriesData(rest) && DecodeStateOk(st) && id < |st.heap| && st.heap[id].Instance?
    ensures r.Success? ==> |st.heap| <= |r.value.heap| && st.mapping <= r.value.mapping && DecodeStateOk(r.value)
    ensures r.Success? ==> forall j | 0 <= j < |st.heap| && j != id :: r.value.heap[j] == st.heap[j]
    ensures r.Success? ==> r.value.heap[id].Instance? && r.value.heap[id].cls == st.heap[id].cls
    decreases EntriesSize(rest), 0
  {
    if |rest| == 0 then Success(st)
    else
      EntriesSizeUnfold(rest);
      var (k, pv) := rest[0];
      var (d, st1) :- UnserializeData(c, st, pv);
      assert st1.heap[id] == st.heap[id];
      SetProperties(c, id, SetProperty(st1, id, k, d), rest[1..])
  }

  /** `unserialize` at the level of the JSON tree: `reset`, then the walk. */
  function Unserialize(c: LegacyConfig, d: Value): (r: Result<(Value, Heap), Error>)
    requires IsData(d)
    ensures r.Success? ==> ValueIn(r.value.0, |r.value.1|)
  {
    var (x, st) :- UnserializeData(c, FreshDecode, d);
    Success((x, st.heap))
  }
}
