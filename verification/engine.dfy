/** The main serializer, `Zumba\JsonSerializer\JsonSerializer`: the walk from a
    PHP object graph to a JSON tree (`serializeData`, `serializeObject`) and back
    (`unserializeData`, `unserializeObject`), each threading its own identity map.

    Reflection is replaced by a table of class facts (`ClassInfo`); closure
    libraries, custom serializers and the native DateTime and SplDoublyLinkedList
    paths are uninterpreted functions held in the configuration. */
module Engine {
  import opened Wrappers
  import opened ByteStrings
  import opened Values
  import opened FloatAdapter
  import opened BinarySafety

  const At: byte := 64
  /** `CLASS_IDENTIFIER_KEY`, `@type`. */
  const TypeKey: Key := StrKey([64, 116, 121, 112, 101])
  /** `CLOSURE_IDENTIFIER_KEY`, `@closure`. */
  const ClosureKey: Key := StrKey([64, 99, 108, 111, 115, 117, 114, 101])
  const ValueKey: Key := StrKey([118, 97, 108, 117, 101])
  const DateTimeName: Bytes := [68, 97, 116, 101, 84, 105, 109, 101]

  /** The reserved keys and the DateTime class name, spelled out. */
  lemma EngineSpelling()
    ensures TypeKey == StrKey(Ascii("@type")) && ClosureKey == StrKey(Ascii("@closure"))
    ensures ValueKey == StrKey(Ascii("value")) && DateTimeName == Ascii("DateTime")
  {
  }

  /** The undeclared-property policy of `unserializeObject`. */
  datatype Mode = SetMode | IgnoreMode | ExceptionMode

  /** The `UNDECLARED_PROPERTY_MODE_*` constant of a mode. */
  function ModeCode(m: Mode): int {
    match m
    case SetMode => 1
    case IgnoreMode => 2
    case ExceptionMode => 3
  }

  /** What reflection tells about a class: its declared properties with their
      defaults in declaration order, its `__sleep` method when it has one (the
      list it returns, given the instance's properties), whether it has
      `__wakeup`, and whether it is an `SplDoublyLinkedList`. */
  datatype ClassInfo = ClassInfo(declared: Entries, sleep: Option<Entries -> seq<Key>>, hasWakeup: bool, splList: bool)

  /** Arrays a custom serializer hands back: a PHP array (one entry per key) of
      plain data, ready for `json_encode`. */
  type DataEntries = es: Entries | EntriesData(es) && UniqueKeys(es) witness []

  /** An entry of `$customObjectSerializerMap`. */
  datatype CustomSerializer = CustomSerializer(serialize: Object -> DataEntries, unserialize: Entries -> Object)

  /** The closure serializer given to the constructor. */
  datatype ClosureBackend = ClosureBackend(serialize: Callable -> Bytes, unserialize: Value -> Callable)

  /** The native paths the model does not open: `__wakeup`, DateTime restoration
      through native `unserialize`, and `SplDoublyLinkedList::serialize` and
      `::unserialize`. */
  datatype Natives = Natives(
    wakeup: (Bytes, Entries) -> Entries,
    restoreDateTime: (Bytes, Entries) -> Object,
    splSerialize: Object -> Bytes,
    splRestore: (Bytes, Value) -> Object)

  /** A serializer instance: the classes that exist, the custom serializers by
      exact class name, the closure serializer, the undeclared-property mode and
      whether `JSON_PRESERVE_ZERO_FRACTION` is available. */
  datatype Config = Config(
    classes: map<Bytes, ClassInfo>,
    custom: map<Bytes, CustomSerializer>,
    closures: Option<ClosureBackend>,
    mode: Mode,
    preserveZeroFraction: bool,
    natives: Natives)

  /** The exceptions the engine throws. */
  datatype Error =
    | ResourceNotSupported
    | ClosureSerializerMissing
    | UnknownClass(typeValue: Value)
    | UndeclaredProperty(property: Key)
    | InvalidArgument
    | EncodeFailed

  /** `setUnserializeUndeclaredPropertyMode`: accepts the three mode constants
      and rejects everything else. */
  function SetUndeclaredPropertyMode(c: Config, value: int): (r: Result<Config, Error>)
    ensures r.Success? <==> value == 1 || value == 2 || value == 3
    ensures r.Success? ==> ModeCode(r.value.mode) == value
    ensures r.Success? ==> r.value == c.(mode := r.value.mode)
    ensures r.Failure? ==> r.error == InvalidArgument
  {
    if value == 1 then Success(c.(mode := SetMode))
    else if value == 2 then Success(c.(mode := IgnoreMode))
    else if value == 3 then Success(c.(mode := ExceptionMode))
    else Failure(InvalidArgument)
  }

  // ---------------------------------------------------------------------
  // Encoding

  /** The encoder's identity map: `objectStorage` holds the objects in the order
      they were attached, so an object's index is its position and
      `objectMappingIndex` is the length. */
  datatype EncodeState = EncodeState(visited: seq<ObjId>)

  /** What `reset` leaves for `serialize`. */
  const FreshEncode: EncodeState := EncodeState([])

  predicate Distinct(ids: seq<ObjId>) {
    forall i, j | 0 <= i < j < |ids| :: ids[i] != ids[j]
  }

  /** The identity map names distinct objects of a heap of `n` cells. */
  predicate EncodeStateIn(st: EncodeState, n: nat) {
    Distinct(st.visited) && forall i | 0 <= i < |st.visited| :: st.visited[i] < n
  }

  /** The objects still to be attached: they bound the encoder's recursion. */
  ghost function Unvisited(h: Heap, st: EncodeState): set<ObjId> {
    set o | 0 <= o < |h| && o !in st.visited
  }

  /** The position of the first occurrence of `x`: `$this->objectStorage[$value]`
      for an attached object. */
  function IndexOf<T(==)>(xs: seq<T>, x: T): (n: nat)
    requires x in xs
    ensures n < |xs| && xs[n] == x
    ensures forall j | 0 <= j < n :: xs[j] != x
  {
    if xs[0] == x then 0 else 1 + IndexOf(xs[1..], x)
  }

  /** Every instance in the heap is of a class that exists. */
  predicate Classed(c: Config, h: Heap) {
    forall o | 0 <= o < |h| :: h[o].Instance? ==> h[o].cls in c.classes
  }

  /** What the encoder may be called on: a closed heap of known classes and a
      value that points into it. */
  predicate EncodeReady(c: Config, h: Heap, st: EncodeState) {
    Classed(c, h) && WellFormedHeap(h) && EncodeStateIn(st, |h|)
  }

  /** `{"@type": "@<n>"}`: the reference to the object attached at index `n`. */
  function Backref(n: nat): Value {
    Arr([(TypeKey, Str([At] + Decimal(n)))])
  }

  /** `getObjectProperties`: the `__sleep` list, or the declared properties
      followed by the instance's other properties, without repeats. */
  function Properties(info: ClassInfo, fields: Entries): (r: seq<Key>)
    ensures info.sleep.Some? ==> r == info.sleep.value(fields)
    ensures info.sleep.None? ==> forall k :: k in r <==> k in Keys(info.declared) || k in Keys(fields)
    ensures info.sleep.None? ==> forall i, j | 0 <= i < j < |r| :: r[i] != r[j]
    ensures info.sleep.None? ==> forall i, j | 0 <= i < j < |r| :: r[j] in Keys(info.declared) ==> r[i] in Keys(info.declared)
  {
    match info.sleep
    case Some(sleep) => sleep(fields)
    case None =>
      DeclaredFirst(Keys(info.declared), Keys(fields));
      Unique(Keys(info.declared) + Keys(fields))
  }

  /** `array_unique` of `a + b` lists the keys of `a` before the others. */
  lemma DeclaredFirst(a: seq<Key>, b: seq<Key>)
    ensures var r := Unique(a + b);
      forall i, j | 0 <= i < j < |r| :: r[j] in a ==> r[i] in a
  {
    var r := Unique(a + b);
    forall i, j | 0 <= i < j < |r| && r[j] in a ensures r[i] in a {
      IndexOfPrefix(a, b, r[j]);
      IndexOfPrefix(a, b, r[i]);
    }
  }

  /** The first position of `x` in `a + b` lies in `a` exactly when `x` is in `a`. */
  lemma IndexOfPrefix(a: seq<Key>, b: seq<Key>, x: Key)
    requires x in a + b
    ensures IndexOf(a + b, x) < |a| <==> x in a
  {
    if x in a {
      var m :| 0 <= m < |a| && a[m] == x;
      assert (a + b)[m] == x;
    }
  }

  /** `array_unique`: the first occurrence of each key, in order. */
  function Unique(ks: seq<Key>): (r: seq<Key>)
    ensures forall k :: k in r <==> k in ks
    ensures forall i, j | 0 <= i < j < |r| :: r[i] != r[j]
    ensures forall i, j | 0 <= i < j < |r| :: IndexOf(ks, r[i]) < IndexOf(ks, r[j])
  {
    UniqueIntoOrder([], ks);
    UniqueInto([], ks)
  }

  function UniqueInto(acc: seq<Key>, ks: seq<Key>): (r: seq<Key>)
    requires forall i, j | 0 <= i < j < |acc| :: acc[i] != acc[j]
    ensures forall k :: k in r <==> k in acc || k in ks
    ensures forall i, j | 0 <= i < j < |r| :: r[i] != r[j]
    decreases |ks|
  {
    if |ks| == 0 then acc
    else if ks[0] in acc then UniqueInto(acc, ks[1..])
    else UniqueInto(acc + [ks[0]], ks[1..])
  }

  /** `UniqueInto` keeps what it has collected in front, and appends the new
      keys in the order of their first occurrence. */
  lemma {:induction false} UniqueIntoOrder(acc: seq<Key>, ks: seq<Key>)
    requires forall i, j | 0 <= i < j < |acc| :: acc[i] != acc[j]
    ensures var r := UniqueInto(acc, ks);
      && acc <= r
      && (forall i | |acc| <= i < |r| :: r[i] in ks && r[i] !in acc)
      && (forall i, j | |acc| <= i < j < |r| :: IndexOf(ks, r[i]) < IndexOf(ks, r[j]))
    decreases |ks|
  {
    if |ks| > 0 {
      var r := UniqueInto(acc, ks);
      if ks[0] in acc {
        UniqueIntoOrder(acc, ks[1..]);
        forall i | |acc| <= i < |r| ensures r[i] in ks && IndexOf(ks, r[i]) == 1 + IndexOf(ks[1..], r[i]) {
          assert r[i] in ks[1..] && r[i] != ks[0];
        }
      } else {
        var acc' := acc + [ks[0]];
        UniqueIntoOrder(acc', ks[1..]);
        assert r[|acc|] == acc'[|acc|] == ks[0];
        forall i | |acc| < i < |r| ensures r[i] in ks && r[i] !in acc && IndexOf(ks, r[i]) == 1 + IndexOf(ks[1..], r[i]) {
          assert r[i] in ks[1..] && r[i] !in acc';
        }
      }
    }
  }

  /** `$a[$k]`, null when the key is absent: what `extractObjectData` reads for
      a property the object lacks, and what `unserializeObject` reads for a
      missing `value`. */
  function Get(es: Entries, k: Key): Value {
    match Lookup(es, k)
    case Some(v) => v
    case None => Null
  }

  /** `extractObjectData`: `$data[$property]` for each listed property in turn. */
  function Extract(props: seq<Key>, fields: Entries): (r: Entries)
    ensures forall k :: k in Keys(r) <==> k in props
  {
    ExtractInto([], props, fields)
  }

  function ExtractInto(data: Entries, props: seq<Key>, fields: Entries): (r: Entries)
    ensures forall k :: k in Keys(r) <==> k in Keys(data) || k in props
    decreases |props|
  {
    if |props| == 0 then data
    else
      LookupPutKeys(data, props[0], Get(fields, props[0]));
      ExtractInto(Put(data, props[0], Get(fields, props[0])), props[1..], fields)
  }

  lemma {:induction false} LookupPutKeys(es: Entries, k: Key, v: Value)
    ensures forall k' :: k' in Keys(Put(es, k, v)) <==> k' == k || k' in Keys(es)
  {
    forall k' ensures k' in Keys(Put(es, k, v)) <==> k' == k || k' in Keys(es) {
      LookupPut(es, k, v, k');
    }
  }

  /** `serializeData`. */
  function SerializeData(c: Config, h: Heap, st: EncodeState, v: Value): (r: Result<(Value, EncodeState), Error>)
    requires EncodeReady(c, h, st) && ValueIn(v, |h|)
    ensures r.Success? ==> st.visited <= r.value.1.visited && EncodeStateIn(r.value.1, |h|)
    ensures r.Success? ==> IsData(r.value.0)
    decreases Unvisited(h, st), Size(v)
  {
    match v
    case Null => Success((v, st))
    case Bool(_) => Success((v, st))
    case Int(_) => Success((v, st))
    case Str(_) => Success((v, st))
    case Float(t) => Success((AdaptFloat(t, c.preserveZeroFraction), st))
    case Resource(_) => Failure(ResourceNotSupported)
    case Arr(es) =>
      var body :- SerializeEntries(c, h, st, es);
      Success((Arr(body.0), body.1))
    case Obj(id) =>
      match h[id]
      case Closure(fn) =>
        if c.closures.None? then Failure(ClosureSerializerMissing)
        else Success((Arr([(ClosureKey, Bool(true)), (ValueKey, Str(c.closures.value.serialize(fn)))]), st))
      case Instance(_, _) => SerializeObject(c, h, st, id)
  }

  /** `array_map` of `serializeData` over an array: keys kept, values encoded in order. */
  function SerializeEntries(c: Config, h: Heap, st: EncodeState, es: Entries): (r: Result<(Entries, EncodeState), Error>)
    requires EncodeReady(c, h, st) && EntriesIn(es, |h|)
    ensures r.Success? ==> st.visited <= r.value.1.visited && EncodeStateIn(r.value.1, |h|)
    ensures r.Success? ==> Keys(r.value.0) == Keys(es) && EntriesData(r.value.0)
    decreases Unvisited(h, st), EntriesSize(es)
  {
    if |es| == 0 then Success(([], st))
    else
      EntriesSizeUnfold(es);
      var head :- SerializeData(c, h, st, es[0].1);
      UnvisitedShrinks(h, st, head.1);
      var tail :- SerializeEntries(c, h, head.1, es[1..]);
      Success(([(es[0].0, head.0)] + tail.0, tail.1))
  }

  /** `serializeObject`: a backreference for an object already attached;
      otherwise the object is attached at the next index and its class and
      data follow. */
  function SerializeObject(c: Config, h: Heap, st: EncodeState, id: ObjId): (r: Result<(Value, EncodeState), Error>)
    requires EncodeReady(c, h, st) && id < |h| && h[id].Instance?
    ensures r.Success? ==> st.visited <= r.value.1.visited && EncodeStateIn(r.value.1, |h|)
    ensures r.Success? ==> IsData(r.value.0)
    decreases Unvisited(h, st), 0
  {
    if id in st.visited then Success((Backref(IndexOf(st.visited, id)), st))
    else
      var st1 := EncodeState(st.visited + [id]);
      assert id in Unvisited(h, st) - Unvisited(h, st1);
      UnvisitedShrinks(h, st, st1);
      var o := h[id];
      var head := [(TypeKey, Str(o.cls))];
      var info := c.classes[o.cls];
      if o.cls in c.custom then
        PlusAssignData(head, c.custom[o.cls].serialize(o));
        Success((Arr(PlusAssign(head, c.custom[o.cls].serialize(o))), st1))
      else if info.splList then
        Success((Arr(head + [(ValueKey, Str(c.natives.splSerialize(o)))]), st1))
      else
        var data := Extract(Properties(info, o.fields), o.fields);
        ExtractIn(Properties(info, o.fields), o.fields, |h|);
        var body :- SerializeEntries(c, h, st1, data);
        PlusAssignData(head, body.0);
        Success((Arr(PlusAssign(head, body.0)), body.1))
  }

  /** Attaching more objects leaves fewer unvisited. */
  lemma UnvisitedShrinks(h: Heap, st: EncodeState, st': EncodeState)
    requires st.visited <= st'.visited
    ensures Unvisited(h, st') <= Unvisited(h, st)
  {
  }

  /** `$a += $b` of two data arrays is data. */
  lemma {:induction false} PlusAssignData(a: Entries, b: Entries)
    requires EntriesData(a) && EntriesData(b)
    ensures EntriesData(PlusAssign(a, b))
    decreases |b|
  {
    if |b| > 0 {
      if b[0].0 in Keys(a) {
        PlusAssignData(a, b[1..]);
      } else {
        PlusAssignData(a + [b[0]], b[1..]);
      }
    }
  }

  /** Extracted values point where the object's properties point. */
  lemma ExtractIn(props: seq<Key>, fields: Entries, n: nat)
    requires EntriesIn(fields, n)
    ensures EntriesIn(Extract(props, fields), n)
  {
    ExtractIntoIn([], props, fields, n);
  }

  lemma {:induction false} ExtractIntoIn(data: Entries, props: seq<Key>, fields: Entries, n: nat)
    requires EntriesIn(fields, n) && EntriesIn(data, n)
    ensures EntriesIn(ExtractInto(data, props, fields), n)
    decreases |props|
  {
    if |props| > 0 {
      var v := Get(fields, props[0]);
      assert ValueIn(v, n) by {
        if Lookup(fields, props[0]).Some? {
          LookupIn(fields, props[0], n);
        }
      }
      PutIn(data, props[0], v, n);
      ExtractIntoIn(Put(data, props[0], v), props[1..], fields, n);
    }
  }

  lemma {:induction false} LookupIn(es: Entries, k: Key, n: nat)
    requires EntriesIn(es, n) && Lookup(es, k).Some?
    ensures ValueIn(Lookup(es, k).value, n)
  {
    if es[0].0 != k {
      LookupIn(es[1..], k, n);
    }
  }

  lemma {:induction false} PutIn(es: Entries, k: Key, v: Value, n: nat)
    requires EntriesIn(es, n) && ValueIn(v, n)
    ensures EntriesIn(Put(es, k, v), n)
  {
    if |es| > 0 && es[0].0 != k {
      PutIn(es[1..], k, v, n);
    }
  }

  /** `serialize` at the level of the JSON tree: a fresh identity map, the
      object walk, then the binary-safety pass when the tree is not UTF-8. */
  function Serialize(c: Config, h: Heap, v: Value): (r: Result<Value, Error>)
    requires Classed(c, h) && WellFormedHeap(h) && ValueIn(v, |h|)
    ensures r.Success? <==> SerializeData(c, h, FreshEncode, v).Success?
    ensures r.Success? && AllWellFormed(SerializeData(c, h, FreshEncode, v).value.0) ==> r.value == SerializeData(c, h, FreshEncode, v).value.0
  {
    var (d, _) :- SerializeData(c, h, FreshEncode, v);
    Success(PrepareForJson(d))
  }

  // ---------------------------------------------------------------------
  // Decoding

  /** The decoder's state: the objects built so far, and `objectMapping`, whose
      length is `objectMappingIndex`. */
  datatype DecodeState = DecodeState(heap: Heap, mapping: seq<ObjId>)

  /** What `reset` leaves for `unserialize`: no objects, empty mapping. */
  const FreshDecode: DecodeState := DecodeState([], [])

  /** The mapping names objects of the heap. */
  predicate DecodeStateOk(st: DecodeState) {
    forall i | 0 <= i < |st.mapping| :: st.mapping[i] < |st.heap|
  }

  /** `st'` only added objects and mapping entries to `st`. */
  predicate Extends(st: DecodeState, st': DecodeState) {
    st.heap <= st'.heap && st.mapping <= st'.mapping
  }

  /** `$this->objectMapping[$this->objectMappingIndex++] = $obj`, for an object
      built by a native or custom path. */
  function Register(st: DecodeState, o: Object): (r: (Value, DecodeState))
    ensures r.0 == Obj(|st.heap|)
    ensures r.1.heap == st.heap + [o] && r.1.mapping == st.mapping + [|st.heap|]
    ensures DecodeStateOk(st) ==> DecodeStateOk(r.1) && Resolve(r.1, Decimal(|st.mapping|)) == r.0
    ensures DecodeStateOk(st) ==> forall n: nat | n < |st.mapping| :: Resolve(r.1, Decimal(n)) == Resolve(st, Decimal(n))
  {
    BackrefIndices();
    (Obj(|st.heap|), DecodeState(st.heap + [o], st.mapping + [|st.heap|]))
  }

  /** Sets one property of the instance at `id`. */
  function SetProperty(st: DecodeState, id: ObjId, k: Key, v: Value): (r: DecodeState)
    requires id < |st.heap| && st.heap[id].Instance?
    ensures |r.heap| == |st.heap| && r.mapping == st.mapping
    ensures r.heap[id] == Instance(st.heap[id].cls, Put(st.heap[id].fields, k, v))
    ensures forall j | 0 <= j < |st.heap| && j != id :: r.heap[j] == st.heap[j]
  {
    st.(heap := st.heap[id := Instance(st.heap[id].cls, Put(st.heap[id].fields, k, v))])
  }

  /** `unserializeData`. */
  function UnserializeData(c: Config, st: DecodeState, v: Value): (r: Result<(Value, DecodeState), Error>)
    requires IsData(v) && DecodeStateOk(st)
    ensures r.Success? ==> Extends(st, r.value.1) && DecodeStateOk(r.value.1)
    ensures r.Success? ==> ValueIn(r.value.0, |r.value.1.heap|)
    decreases Size(v), 2
  {
    match v
    case Arr(es) =>
      if IsSet(es, TypeKey) then UnserializeObject(c, st, es)
      else if Lookup(es, ClosureKey).Some? && Truthy(Lookup(es, ClosureKey).value) then
        if c.closures.None? then Failure(ClosureSerializerMissing)
        else
          var fn := c.closures.value.unserialize(Get(es, ValueKey));
          Success((Obj(|st.heap|), st.(heap := st.heap + [Closure(fn)])))
      else
        var body :- UnserializeEntries(c, st, es);
        Success((Arr(body.0), body.1))
    case _ => Success((v, st))
  }

  /** `array_map` of `unserializeData` over an array. */
  function UnserializeEntries(c: Config, st: DecodeState, es: Entries): (r: Result<(Entries, DecodeState), Error>)
    requires EntriesData(es) && DecodeStateOk(st)
    ensures r.Success? ==> Extends(st, r.value.1) && DecodeStateOk(r.value.1)
    ensures r.Success? ==> Keys(r.value.0) == Keys(es) && EntriesIn(r.value.0, |r.value.1.heap|)
    decreases EntriesSize(es), 2
  {
    if |es| == 0 then Success(([], st))
    else
      EntriesSizeUnfold(es);
      var head :- UnserializeData(c, st, es[0].1);
      var tail :- UnserializeEntries(c, head.1, es[1..]);
      ValueInGrows(head.0, |head.1.heap|, |tail.1.heap|);
      Success(([(es[0].0, head.0)] + tail.0, tail.1))
  }

  /** `unserializeObject` on an array whose `@type` is set. */
  function UnserializeObject(c: Config, st: DecodeState, es: Entries): (r: Result<(Value, DecodeState), Error>)
    requires EntriesData(es) && DecodeStateOk(st) && IsSet(es, TypeKey)
    ensures r.Success? ==> Extends(st, r.value.1) && DecodeStateOk(r.value.1)
    ensures r.Success? ==> ValueIn(r.value.0, |r.value.1.heap|)
    decreases Size(Arr(es)), 1
  {
    var t := Lookup(es, TypeKey).value;
    var rest := Remove(es, TypeKey);
    if !t.Str? then Failure(UnknownClass(t))
    else
      var cls := t.s;
      if |cls| > 0 && cls[0] == At then Success((Resolve(st, cls[1..]), st))
      else if cls in c.custom then
        Success(Register(st, c.custom[cls].unserialize(rest)))
      else if cls !in c.classes then Failure(UnknownClass(t))
      else if cls == DateTimeName then
        Success(Register(st, c.natives.restoreDateTime(cls, rest)))
      else if c.classes[cls].splList then
        Success(Register(st, c.natives.splRestore(cls, Get(rest, ValueKey))))
      else
        RemoveSize(es, TypeKey);
        RemoveData(es, TypeKey);
        UnserializeInstance(c, st, cls, rest)
  }

  /** The index `@<n>` spells back is `n`. */
  lemma BackrefIndex(n: nat)
    ensures ArrayKey(Decimal(n)) == IntKey(n)
  {
    DecimalValue(n);
  }

  lemma BackrefIndices()
    ensures forall n: nat :: ArrayKey(Decimal(n)) == IntKey(n)
  {
    forall n: nat ensures ArrayKey(Decimal(n)) == IntKey(n) {
      BackrefIndex(n);
    }
  }

  /** `$this->objectMapping[substr($className, 1)]`: the object registered under
      the index the rest of the name spells, or null when there is none. */
  function Resolve(st: DecodeState, index: Bytes): (r: Value)
    requires DecodeStateOk(st)
    ensures r == Null || (r.Obj? && r.id < |st.heap|)
  {
    var k := ArrayKey(index);
    if k.IntKey? && 0 <= k.i < |st.mapping| then Obj(st.mapping[k.i]) else Null
  }

  /** The user-defined branch of `unserializeObject`: a new instance with its
      declared defaults, registered at the next index before its properties are
      decoded, then `__wakeup`. */
  function UnserializeInstance(c: Config, st: DecodeState, cls: Bytes, rest: Entries): (r: Result<(Value, DecodeState), Error>)
    requires EntriesData(rest) && DecodeStateOk(st) && cls in c.classes
    ensures r.Success? ==> Extends(st, r.value.1) && DecodeStateOk(r.value.1)
    ensures r.Success? ==> r.value.0 == Obj(|st.heap|) && |r.value.1.heap| > |st.heap|
    decreases EntriesSize(rest), 1
  {
    var info := c.classes[cls];
    var id := |st.heap|;
    var st1 := DecodeState(st.heap + [Instance(cls, info.declared)], st.mapping + [id]);
    var st2 :- UnserializeProps(c, info, id, st1, rest);
    assert st.heap <= st2.heap by {
      assert forall j | 0 <= j < |st.heap| :: st2.heap[j] == st.heap[j];
    }
    var st3 := if info.hasWakeup then st2.(heap := st2.heap[id := Instance(cls, c.natives.wakeup(cls, st2.heap[id].fields))]) else st2;
    Success((Obj(id), st3))
  }

  /** The property loop of `unserializeObject` over the entries still to set on
      the instance at `id`. */
  function UnserializeProps(c: Config, info: ClassInfo, id: ObjId, st: DecodeState, rest: Entries): (r: Result<DecodeState, Error>)
    requires EntriesData(rest) && DecodeStateOk(st) && id < |st.heap| && st.heap[id].Instance?
    ensures r.Success? ==> |st.heap| <= |r.value.heap| && st.mapping <= r.value.mapping && DecodeStateOk(r.value)
    ensures r.Success? ==> forall j | 0 <= j < |st.heap| && j != id :: r.value.heap[j] == st.heap[j]
    ensures r.Success? ==> r.value.heap[id].Instance? && r.value.heap[id].cls == st.heap[id].cls
    decreases EntriesSize(rest), 0
  {
    if |rest| == 0 then Success(st)
    else
      EntriesSizeUnfold(rest);
      var (k, pv) := rest[0];
      if k in Keys(info.declared) || c.mode == SetMode then
        var (d, st1) :- UnserializeData(c, st, pv);
        assert st1.heap[id] == st.heap[id];
        UnserializeProps(c, info, id, SetProperty(st1, id, k, d), rest[1..])
      else if c.mode == IgnoreMode then UnserializeProps(c, info, id, st, rest[1..])
      else Failure(UndeclaredProperty(k))
  }

  /** References into a heap stay valid as the heap grows. */
  lemma {:induction false} ValueInGrows(v: Value, n: nat, m: nat)
    requires ValueIn(v, n) && n <= m
    ensures ValueIn(v, m)
    decreases v
  {
    match v
    case Arr(es) =>
      forall i | 0 <= i < |es| ensures ValueIn(es[i].1, m) {
        ValueInGrows(es[i].1, n, m);
      }
    case _ =>
  }

  /** `unserialize` at the level of the JSON tree: a fresh mapping and heap, the
      binary-safety decoding when the JSON text mentions `@utf8encoded`, then the
      object walk. */
  function Unserialize(c: Config, d: Value, mentionsMarker: bool): (r: Result<(Value, Heap), Error>)
    requires IsData(d)
    ensures r.Success? ==> ValueIn(r.value.0, |r.value.1|)
  {
    DecodedIsData(d);
    var (x, st) :- UnserializeData(c, FreshDecode, RestoreFromJson(d, mentionsMarker));
    Success((x, st.heap))
  }
}
