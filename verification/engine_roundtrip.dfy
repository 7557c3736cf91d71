/** `unserialize(serialize($v))` on object graphs: the decoder rebuilds the
    encoder's graph up to renaming, with the object attached at index `i` becoming
    the `i`-th decoded object. Shared references stay shared and cycles stay
    cycles, because both sides number objects in the same first-visit order.

    The theorem covers plain graphs: instances of existing classes with no
    custom serializer, no `__sleep`, no `__wakeup` and no native restore path,
    each holding its declared properties; arrays that do not use `@type` or
    `@closure` as keys; no resources or closures; mode 1 and
    `JSON_PRESERVE_ZERO_FRACTION`. */
module EngineRoundTrip {
  import opened Wrappers
  import opened ByteStrings
  import opened Values
  import opened BinarySafety
  import opened Engine
  import opened EngineProperties

  // ---------------------------------------------------------------------
  // Plain graphs

  predicate PlainConfig(c: Config) {
    c.mode == SetMode && c.preserveZeroFraction
  }

  /** A class whose instances take the generic property path both ways. */
  predicate PlainClass(c: Config, cls: Bytes) {
    && cls in c.classes && cls !in c.custom && cls != DateTimeName
    && |cls| > 0 && cls[0] != At
    && c.classes[cls].sleep.None? && !c.classes[cls].hasWakeup && !c.classes[cls].splList
  }

  /** A value with no resource and no array keyed `@type` or `@closure`. */
  predicate PlainValue(v: Value) {
    match v
    case Resource(_) => false
    case Arr(es) => TypeKey !in Keys(es) && ClosureKey !in Keys(es) && forall i | 0 <= i < |es| :: PlainValue(es[i].1)
    case _ => true
  }

  predicate PlainEntries(es: Entries) {
    forall i | 0 <= i < |es| :: PlainValue(es[i].1)
  }

  /** An instance of a plain class that holds its declared properties, once each. */
  predicate PlainObject(c: Config, o: Object) {
    && o.Instance? && PlainClass(c, o.cls)
    && UniqueKeys(o.fields) && TypeKey !in Keys(o.fields)
    && (forall k | k in Keys(c.classes[o.cls].declared) :: k in Keys(o.fields))
    && PlainEntries(o.fields)
  }

  predicate PlainHeap(c: Config, h: Heap) {
    WellFormedHeap(h) && forall o | 0 <= o < |h| :: PlainObject(c, h[o])
  }

  // ---------------------------------------------------------------------
  // The renaming

  /** `v` with each attached object replaced by its index. */
  function Image(V: seq<ObjId>, v: Value): Value {
    match v
    case Obj(id) => if id in V then Obj(IndexOf(V, id)) else v
    case Arr(es) => Arr(seq(|es|, i requires 0 <= i < |es| => (es[i].0, Image(V, es[i].1))))
    case _ => v
  }

  function ImageEntries(V: seq<ObjId>, es: Entries): (r: Entries)
    ensures |r| == |es|
    ensures forall i | 0 <= i < |es| :: r[i] == (es[i].0, Image(V, es[i].1))
  {
    seq(|es|, i requires 0 <= i < |es| => (es[i].0, Image(V, es[i].1)))
  }

  function ImageOpt(V: seq<ObjId>, o: Option<Value>): Option<Value> {
    match o
    case Some(x) => Some(Image(V, x))
    case None => None
  }

  /** Every object `v` refers to is attached. */
  predicate RefsIn(v: Value, V: seq<ObjId>) {
    match v
    case Obj(id) => id in V
    case Arr(es) => forall i | 0 <= i < |es| :: RefsIn(es[i].1, V)
    case _ => true
  }

  predicate RefsInEntries(es: Entries, V: seq<ObjId>) {
    forall i | 0 <= i < |es| :: RefsIn(es[i].1, V)
  }

  /** `[0, 1, …, n - 1]`: the decoder's mapping when every object it built was
      registered in order. */
  function Identity(n: nat): (r: seq<ObjId>)
    ensures |r| == n && forall i | 0 <= i < n :: r[i] == i
  {
    if n == 0 then [] else Identity(n - 1) + [n - 1]
  }

  /** `$a[$k] = $v` for each entry of `ys` in turn. */
  function PutAll(fs: Entries, ys: Entries): Entries
    decreases |ys|
  {
    if |ys| == 0 then fs else PutAll(Put(fs, ys[0].0, ys[0].1), ys[1..])
  }

  /** The `i`-th decoded object is the object attached at index `i`: same class,
      and each property holds the renamed original value. */
  ghost predicate Restored(h: Heap, V: seq<ObjId>, H: Heap, i: nat) {
    && i < |V| && i < |H| && V[i] < |h| && h[V[i]].Instance? && H[i].Instance?
    && H[i].cls == h[V[i]].cls
    && RefsInEntries(h[V[i]].fields, V)
    && forall k :: Lookup(H[i].fields, k) == ImageOpt(V, Lookup(h[V[i]].fields, k))
  }

  /** The invariant the two walks keep in step: the decoder has built one object
      per attached object and registered each at its own index. */
  ghost predicate Setting(c: Config, h: Heap, V: seq<ObjId>, D: DecodeState) {
    && PlainConfig(c) && PlainHeap(c, h) && Classed(c, h)
    && EncodeStateIn(EncodeState(V), |h|)
    && |D.heap| == |V| && D.mapping == Identity(|V|)
  }

  /** One step of the two walks: the objects attached during the step are
      restored, the objects before it are untouched. */
  ghost predicate Advance(h: Heap, V: seq<ObjId>, V': seq<ObjId>, D: DecodeState, D': DecodeState) {
    && V <= V' && |D'.heap| == |V'| && D'.mapping == Identity(|V'|)
    && D.heap <= D'.heap
    && forall i | |V| <= i < |V'| :: Restored(h, V', D'.heap, i)
  }

  // ---------------------------------------------------------------------
  // Facts about the renaming

  lemma {:induction false} RefsGrow(v: Value, V: seq<ObjId>, V': seq<ObjId>)
    requires RefsIn(v, V) && V <= V'
    ensures RefsIn(v, V')
    decreases v
  {
    match v
    case Obj(id) =>
      var i :| 0 <= i < |V| && V[i] == id;
      assert V'[i] == id;
    case Arr(es) =>
      forall i | 0 <= i < |es| ensures RefsIn(es[i].1, V') {
        RefsGrow(es[i].1, V, V');
      }
    case _ =>
  }

  lemma RefsEntriesGrow(es: Entries, V: seq<ObjId>, V': seq<ObjId>)
    requires RefsInEntries(es, V) && V <= V'
    ensures RefsInEntries(es, V')
  {
    forall i | 0 <= i < |es| ensures RefsIn(es[i].1, V') {
      RefsGrow(es[i].1, V, V');
    }
  }

  /** Attaching more objects does not change the image of a value whose
      objects were already attached. */
  lemma {:induction false} ImageStable(V: seq<ObjId>, V': seq<ObjId>, v: Value)
    requires V <= V' && Distinct(V') && RefsIn(v, V)
    ensures Image(V', v) == Image(V, v)
    decreases v
  {
    match v
    case Obj(id) =>
      var i := IndexOf(V, id);
      assert V'[i] == id;
      assert id in V';
      var j := IndexOf(V', id);
      assert i == j;
    case Arr(es) =>
      forall i | 0 <= i < |es| ensures Image(V', es[i].1) == Image(V, es[i].1) {
        ImageStable(V, V', es[i].1);
      }
      assert ImageEntries(V', es) == ImageEntries(V, es);
    case _ =>
  }

  lemma {:induction false} LookupRefs(es: Entries, k: Key, V: seq<ObjId>)
    requires RefsInEntries(es, V) && Lookup(es, k).Some?
    ensures RefsIn(Lookup(es, k).value, V)
  {
    if es[0].0 != k {
      LookupRefs(es[1..], k, V);
    }
  }

  /** A restored object stays restored while later objects are attached. */
  lemma {:induction false} RestoredStable(h: Heap, V: seq<ObjId>, V': seq<ObjId>, H: Heap, H': Heap, i: nat)
    requires Restored(h, V, H, i) && V <= V' && Distinct(V') && i < |H'| && H'[i] == H[i]
    ensures Restored(h, V', H', i)
  {
    var fields := h[V[i]].fields;
    assert V'[i] == V[i];
    RefsEntriesGrow(fields, V, V');
    forall k ensures Lookup(H'[i].fields, k) == ImageOpt(V', Lookup(fields, k)) {
      if Lookup(fields, k).Some? {
        LookupRefs(fields, k, V);
        ImageStable(V, V', Lookup(fields, k).value);
      }
    }
  }

  lemma {:induction false} RestoredRangeStable(h: Heap, V: seq<ObjId>, V': seq<ObjId>, H: Heap, H': Heap, lo: nat, hi: nat)
    requires forall i | lo <= i < hi :: Restored(h, V, H, i)
    requires V <= V' && Distinct(V') && hi <= |H| && hi <= |H'|
    requires forall i | lo <= i < hi :: H'[i] == H[i]
    ensures forall i | lo <= i < hi :: Restored(h, V', H', i)
  {
    forall i | lo <= i < hi ensures Restored(h, V', H', i) {
      RestoredStable(h, V, V', H, H', i);
    }
  }

  lemma {:induction false} LookupImage(V: seq<ObjId>, es: Entries, k: Key)
    ensures Lookup(ImageEntries(V, es), k) == ImageOpt(V, Lookup(es, k))
  {
    if |es| > 0 && es[0].0 != k {
      assert ImageEntries(V, es)[1..] == ImageEntries(V, es[1..]);
      LookupImage(V, es[1..], k);
    }
  }

  lemma ImageKeys(V: seq<ObjId>, es: Entries)
    ensures Keys(ImageEntries(V, es)) == Keys(es)
  {
  }

  lemma {:induction false} PutUnique(es: Entries, k: Key, v: Value)
    requires UniqueKeys(es)
    ensures UniqueKeys(Put(es, k, v))
  {
    if |es| > 0 && es[0].0 != k {
      PutUnique(es[1..], k, v);
      LookupPut(es[1..], k, v, es[0].0);
      assert es[0].0 !in Keys(es[1..]);
    }
  }

  /** In an array with one entry per key, looking up an entry's key finds it. */
  lemma {:induction false} LookupAt(es: Entries, i: nat)
    requires UniqueKeys(es) && i < |es|
    ensures Lookup(es, es[i].0) == Some(es[i].1)
  {
    if i > 0 {
      assert es[1..][i - 1] == es[i];
      LookupAt(es[1..], i - 1);
    }
  }

  lemma {:induction false} LookupPutAll(fs: Entries, ys: Entries, k: Key)
    requires UniqueKeys(ys)
    ensures Lookup(PutAll(fs, ys), k) == if k in Keys(ys) then Lookup(ys, k) else Lookup(fs, k)
    decreases |ys|
  {
    if |ys| > 0 {
      LookupPutAll(Put(fs, ys[0].0, ys[0].1), ys[1..], k);
      LookupPut(fs, ys[0].0, ys[0].1, k);
    }
  }

  lemma {:induction false} LookupExtractInto(data: Entries, props: seq<Key>, fields: Entries, k: Key)
    ensures Lookup(ExtractInto(data, props, fields), k) == if k in props then Some(Get(fields, k)) else Lookup(data, k)
    decreases |props|
  {
    if |props| > 0 {
      LookupExtractInto(Put(data, props[0], Get(fields, props[0])), props[1..], fields, k);
      LookupPut(data, props[0], Get(fields, props[0]), k);
    }
  }

  lemma {:induction false} ExtractIntoUnique(data: Entries, props: seq<Key>, fields: Entries)
    requires UniqueKeys(data)
    ensures UniqueKeys(ExtractInto(data, props, fields))
    decreases |props|
  {
    if |props| > 0 {
      PutUnique(data, props[0], Get(fields, props[0]));
      ExtractIntoUnique(Put(data, props[0], Get(fields, props[0])), props[1..], fields);
    }
  }

  /** What `extractObjectData` hands to `array_map` for a plain object: one
      entry per property, holding the property's value. */
  lemma ExtractPlain(c: Config, h: Heap, id: ObjId)
    requires PlainHeap(c, h) && id < |h|
    ensures var o := h[id];
      var X := Extract(Properties(c.classes[o.cls], o.fields), o.fields);
      && UniqueKeys(X) && TypeKey !in Keys(X)
      && EntriesIn(X, |h|) && PlainEntries(X)
      && (forall k :: Lookup(X, k) == Lookup(o.fields, k))
  {
    var o := h[id];
    var props := Properties(c.classes[o.cls], o.fields);
    var X := Extract(props, o.fields);
    ExtractIntoUnique([], props, o.fields);
    forall k ensures Lookup(X, k) == Lookup(o.fields, k) {
      LookupExtractInto([], props, o.fields, k);
    }
    forall i | 0 <= i < |X| ensures ValueIn(X[i].1, |h|) && PlainValue(X[i].1) {
      LookupAt(X, i);
      LookupIn(o.fields, X[i].0, |h|);
      LookupPlain(o.fields, X[i].0);
    }
  }

  lemma {:induction false} LookupPlain(es: Entries, k: Key)
    requires PlainEntries(es) && Lookup(es, k).Some?
    ensures PlainValue(Lookup(es, k).value)
  {
    if es[0].0 != k {
      LookupPlain(es[1..], k);
    }
  }

  // ---------------------------------------------------------------------
  // The two walks in step

  /** A plain heap is a heap of known classes. */
  lemma PlainIsClassed(c: Config, h: Heap)
    requires PlainHeap(c, h)
    ensures Classed(c, h)
  {
    forall o | 0 <= o < |h| ensures h[o].Instance? && h[o].cls in c.classes {
      assert PlainObject(c, h[o]);
    }
  }

  /** Attaching an object the walk has not seen keeps the identity map distinct. */
  lemma AttachFresh(V: seq<ObjId>, id: ObjId, n: nat)
    requires EncodeStateIn(EncodeState(V), n) && id < n && id !in V
    ensures EncodeStateIn(EncodeState(V + [id]), n)
  {
    var V1 := V + [id];
    forall i, j | 0 <= i < j < |V1| ensures V1[i] != V1[j] {
      if j == |V| {
        assert V1[i] == V[i];
      } else {
        assert V1[i] == V[i] && V1[j] == V[j];
      }
    }
  }

  lemma PrefixByIndex<T>(a: seq<T>, b: seq<T>)
    requires |a| <= |b| && forall j | 0 <= j < |a| :: b[j] == a[j]
    ensures a <= b
  {
    assert a == b[..|a|];
  }

  /** A step that attaches nothing advances nothing. */
  lemma AdvanceRefl(h: Heap, V: seq<ObjId>, D: DecodeState)
    requires |D.heap| == |V| && D.mapping == Identity(|V|)
    ensures Advance(h, V, V, D, D)
  {
    PrefixByIndex(D.heap, D.heap);
  }

  /** Advancing twice is advancing once. */
  lemma {:induction false} AdvanceTrans(h: Heap, V: seq<ObjId>, V1: seq<ObjId>, V': seq<ObjId>, D: DecodeState, D1: DecodeState, D': DecodeState)
    requires Advance(h, V, V1, D, D1) && Advance(h, V1, V', D1, D') && Distinct(V')
    ensures Advance(h, V, V', D, D')
  {
    RestoredRangeStable(h, V1, V', D1.heap, D'.heap, |V|, |V1|);
  }

  lemma ImageEntriesCons(V: seq<ObjId>, es: Entries)
    requires |es| > 0
    ensures ImageEntries(V, es) == [(es[0].0, Image(V, es[0].1))] + ImageEntries(V, es[1..])
  {
    assert ImageEntries(V, es)[1..] == ImageEntries(V, es[1..]);
  }

  /** `array_map` over `serializeData`, one entry at a time. */
  lemma {:induction false} EncodeEntriesStep(c: Config, h: Heap, st: EncodeState, es: Entries, d: Value, st1: EncodeState, ds: Entries, st2: EncodeState)
    requires EncodeReady(c, h, st) && EntriesIn(es, |h|) && |es| > 0
    requires SerializeData(c, h, st, es[0].1) == Success((d, st1))
    requires SerializeEntries(c, h, st1, es[1..]) == Success((ds, st2))
    ensures SerializeEntries(c, h, st, es) == Success(([(es[0].0, d)] + ds, st2))
  {
  }

  /** `array_map` over `unserializeData`, one entry at a time. */
  lemma {:induction false} DecodeEntriesStep(c: Config, D: DecodeState, es: Entries, x: Value, D1: DecodeState, xs: Entries, D2: DecodeState)
    requires EntriesData(es) && DecodeStateOk(D) && |es| > 0
    requires UnserializeData(c, D, es[0].1) == Success((x, D1))
    requires UnserializeEntries(c, D1, es[1..]) == Success((xs, D2))
    ensures UnserializeEntries(c, D, es) == Success(([(es[0].0, x)] + xs, D2))
  {
  }

  /** An array without `@type` and `@closure` decodes entry by entry. */
  lemma DecodePlainArray(c: Config, D: DecodeState, ds: Entries, xs: Entries, D1: DecodeState)
    requires EntriesData(ds) && DecodeStateOk(D) && TypeKey !in Keys(ds) && ClosureKey !in Keys(ds)
    requires UnserializeEntries(c, D, ds) == Success((xs, D1))
    ensures UnserializeData(c, D, Arr(ds)) == Success((Arr(xs), D1))
  {
  }

  /** What `serializeObject` emits for a plain object met for the first time:
      `@type`, then the encoded properties. */
  lemma {:induction false} EncodeNewPlain(c: Config, h: Heap, V: seq<ObjId>, id: ObjId, ds: Entries, st2: EncodeState)
    requires PlainConfig(c) && PlainHeap(c, h) && EncodeStateIn(EncodeState(V), |h|) && id < |h| && id !in V
    requires PlainObject(c, h[id]) && EncodeStateIn(EncodeState(V + [id]), |h|)
    requires var o := h[id];
      var X := Extract(Properties(c.classes[o.cls], o.fields), o.fields);
      && EntriesIn(X, |h|) && UniqueKeys(X) && TypeKey !in Keys(X)
      && SerializeEntries(c, h, EncodeState(V + [id]), X) == Success((ds, st2))
    ensures TypeKey !in Keys(ds) && EntriesData(ds)
    ensures SerializeObject(c, h, EncodeState(V), id) == Success((Arr([(TypeKey, Str(h[id].cls))] + ds), st2))
  {
    var o := h[id];
    var X := Extract(Properties(c.classes[o.cls], o.fields), o.fields);
    var head := [(TypeKey, Str(o.cls))];
    forall i | 0 <= i < |ds| ensures ds[i].0 !in Keys(head) {
      assert ds[i].0 == Keys(X)[i];
    }
    assert UniqueKeys(ds) by {
      forall i, j | 0 <= i < j < |ds| ensures ds[i].0 != ds[j].0 {
        assert ds[i].0 == Keys(X)[i] && ds[j].0 == Keys(X)[j];
      }
    }
    PlusAssignDisjoint(head, ds);
    UnvisitedShrinks(h, EncodeState(V), EncodeState(V + [id]));
  }

  /** What `unserializeObject` does with `{"@type": cls, …}` for a plain class:
      a new instance at the next index, filled by the property loop. */
  lemma DecodeNewPlain(c: Config, D: DecodeState, cls: Bytes, body: Entries, D2: DecodeState)
    requires PlainConfig(c) && PlainClass(c, cls) && DecodeStateOk(D)
    requires EntriesData(body) && TypeKey !in Keys(body)
    requires var n := |D.heap|;
      var D1 := DecodeState(D.heap + [Instance(cls, c.classes[cls].declared)], D.mapping + [n]);
      UnserializeProps(c, c.classes[cls], n, D1, body) == Success(D2)
    ensures IsData(Arr([(TypeKey, Str(cls))] + body))
    ensures UnserializeData(c, D, Arr([(TypeKey, Str(cls))] + body)) == Success((Obj(|D.heap|), D2))
  {
    var es := [(TypeKey, Str(cls))] + body;
    RemoveFirst(es[0], body);
    assert es[1..] == body;
    assert EntriesData(es) by {
      forall i | 0 <= i < |es| ensures IsData(es[i].1) {
        if i > 0 {
          assert es[i] == body[i - 1];
        }
      }
    }
    DecodeTyped(c, D, es);
    DecodePlainClass(c, D, cls, es);
    DecodeInstanceNoWakeup(c, D, cls, body);
  }

  /** An array with `@type` set goes to `unserializeObject`. */
  lemma DecodeTyped(c: Config, D: DecodeState, es: Entries)
    requires EntriesData(es) && DecodeStateOk(D) && |es| > 0 && es[0].0 == TypeKey && es[0].1.Str?
    ensures IsSet(es, TypeKey) && UnserializeData(c, D, Arr(es)) == UnserializeObject(c, D, es)
  {
  }

  lemma DecodePlainClass(c: Config, D: DecodeState, cls: Bytes, es: Entries)
    requires PlainClass(c, cls) && EntriesData(es) && DecodeStateOk(D)
    requires |es| > 0 && es[0] == (TypeKey, Str(cls)) && Remove(es, TypeKey) == es[1..]
    ensures IsSet(es, TypeKey) && EntriesData(es[1..])
    ensures UnserializeObject(c, D, es) == UnserializeInstance(c, D, cls, es[1..])
  {
    RemoveData(es, TypeKey);
  }

  lemma DecodeInstanceNoWakeup(c: Config, D: DecodeState, cls: Bytes, body: Entries)
    requires EntriesData(body) && DecodeStateOk(D) && cls in c.classes && !c.classes[cls].hasWakeup
    ensures var n := |D.heap|;
      var D1 := DecodeState(D.heap + [Instance(cls, c.classes[cls].declared)], D.mapping + [n]);
      var p := UnserializeProps(c, c.classes[cls], n, D1, body);
      p.Success? ==> UnserializeInstance(c, D, cls, body) == Success((Obj(n), p.value))
  {
  }

  /** The bookkeeping of a new object: the cell at `|V|` is restored, the cells
      before it are untouched, and the cells after it were restored by the
      property loop. */
  lemma {:induction false} NewObjectAdvance(c: Config, h: Heap, V: seq<ObjId>, V': seq<ObjId>, D: DecodeState, D1: DecodeState, D': DecodeState, X: Entries)
    requires PlainHeap(c, h) && Distinct(V') && |V| < |V'| && V'[|V|] < |h| && |D.heap| == |V|
    requires var o := h[V'[|V|]];
      && PlainObject(c, o)
      && X == Extract(Properties(c.classes[o.cls], o.fields), o.fields)
      && D1.heap == D.heap + [Instance(o.cls, c.classes[o.cls].declared)]
    requires Filled(h, V + [V'[|V|]], V', D1, D', |V|, X)
    ensures Advance(h, V, V', D, D')
  {
    assert forall j | 0 <= j < |V| :: D'.heap[j] == D1.heap[j] == D.heap[j];
    PrefixByIndex(D.heap, D'.heap);
    NewObjectRestored(c, h, V, V', D1, D', X);
  }

  lemma {:induction false} NewObjectRestored(c: Config, h: Heap, V: seq<ObjId>, V': seq<ObjId>, D1: DecodeState, D': DecodeState, X: Entries)
    requires PlainHeap(c, h) && Distinct(V') && |V| < |V'| && V'[|V|] < |h|
    requires var o := h[V'[|V|]];
      && PlainObject(c, o)
      && X == Extract(Properties(c.classes[o.cls], o.fields), o.fields)
    requires Filled(h, V + [V'[|V|]], V', D1, D', |V|, X)
    requires D1.heap[|V|] == Instance(h[V'[|V|]].cls, c.classes[h[V'[|V|]].cls].declared)
    ensures forall i | |V| <= i < |V'| :: Restored(h, V', D'.heap, i)
  {
    forall i | |V| <= i < |V'| ensures Restored(h, V', D'.heap, i) {
      if i == |V| {
        RestoredNew(c, h, V', D'.heap, i);
      }
    }
  }


  /** An object met again is written as `@n` and read back as the object
      registered at `n`. */
  lemma BackrefRoundTrip(c: Config, h: Heap, V: seq<ObjId>, D: DecodeState, id: ObjId)
    requires EncodeReady(c, h, EncodeState(V)) && id < |h| && h[id].Instance? && id in V
    requires DecodeStateOk(D) && D.mapping == Identity(|V|)
    ensures SerializeObject(c, h, EncodeState(V), id) == Success((Backref(IndexOf(V, id)), EncodeState(V)))
    ensures IsData(Backref(IndexOf(V, id)))
    ensures UnserializeData(c, D, Backref(IndexOf(V, id))) == Success((Image(V, Obj(id)), D))
  {
    var n := IndexOf(V, id);
    BackrefResolves(c, D, n);
    assert D.mapping[n] == n;
  }

  /** The object attached at index `i` is renamed to `i`. */
  lemma ImageAttached(V: seq<ObjId>, i: nat)
    requires Distinct(V) && i < |V|
    ensures Image(V, Obj(V[i])) == Obj(i)
  {
    assert V[i] in V;
    assert IndexOf(V, V[i]) == i;
  }

  /** Encoding a plain value and decoding the result gives back the value's
      image, attaches every object the value reaches, and restores each object
      attached on the way. */
  lemma {:induction false} DataRoundTrip(c: Config, h: Heap, V: seq<ObjId>, D: DecodeState, v: Value)
    returns (d: Value, V': seq<ObjId>, D': DecodeState)
    requires Setting(c, h, V, D) && ValueIn(v, |h|) && PlainValue(v)
    ensures SerializeData(c, h, EncodeState(V), v) == Success((d, EncodeState(V')))
    ensures IsData(d) && UnserializeData(c, D, d) == Success((Image(V', v), D'))
    ensures EncodeStateIn(EncodeState(V'), |h|) && RefsIn(v, V') && Advance(h, V, V', D, D')
    decreases Unvisited(h, EncodeState(V)), Size(v), 0
  {
    match v
    case Obj(id) =>
      assert PlainObject(c, h[id]);
      d, V', D' := ObjectRoundTrip(c, h, V, D, id);
    case Arr(es) =>
      var ds, xs;
      ds, xs, V', D' := EntriesRoundTrip(c, h, V, D, es);
      d := ArrayCons(c, h, V, D, es, ds, xs, V', D');
    case _ =>
      d, V', D' := v, V, D;
      ScalarRoundTrip(c, h, V, D, v);
  }

  /** Scalars pass through both walks unchanged. */
  lemma ScalarRoundTrip(c: Config, h: Heap, V: seq<ObjId>, D: DecodeState, v: Value)
    requires Setting(c, h, V, D) && PlainValue(v) && !v.Arr? && !v.Obj?
    ensures SerializeData(c, h, EncodeState(V), v) == Success((v, EncodeState(V)))
    ensures IsData(v) && UnserializeData(c, D, v) == Success((Image(V, v), D))
    ensures RefsIn(v, V) && Advance(h, V, V, D, D)
  {
    AdvanceRefl(h, V, D);
  }

  /** An array is encoded and decoded entry by entry. */
  lemma {:induction false} ArrayCons(c: Config, h: Heap, V: seq<ObjId>, D: DecodeState, es: Entries, ds: Entries, xs: Entries, V': seq<ObjId>, D': DecodeState)
    returns (d: Value)
    requires Setting(c, h, V, D) && ValueIn(Arr(es), |h|) && PlainValue(Arr(es))
    requires SerializeEntries(c, h, EncodeState(V), es) == Success((ds, EncodeState(V')))
    requires EntriesData(ds) && Keys(ds) == Keys(es)
    requires UnserializeEntries(c, D, ds) == Success((xs, D')) && xs == ImageEntries(V', es)
    requires RefsInEntries(es, V')
    ensures SerializeData(c, h, EncodeState(V), Arr(es)) == Success((d, EncodeState(V')))
    ensures IsData(d) && UnserializeData(c, D, d) == Success((Image(V', Arr(es)), D'))
    ensures RefsIn(Arr(es), V')
  {
    d := Arr(ds);
    DecodePlainArray(c, D, ds, xs, D');
    assert Image(V', Arr(es)) == Arr(ImageEntries(V', es));
  }

  lemma {:induction false} EntriesRoundTrip(c: Config, h: Heap, V: seq<ObjId>, D: DecodeState, es: Entries)
    returns (ds: Entries, xs: Entries, V': seq<ObjId>, D': DecodeState)
    requires Setting(c, h, V, D) && EntriesIn(es, |h|) && PlainEntries(es)
    ensures SerializeEntries(c, h, EncodeState(V), es) == Success((ds, EncodeState(V')))
    ensures EntriesData(ds) && Keys(ds) == Keys(es)
    ensures UnserializeEntries(c, D, ds) == Success((xs, D')) && xs == ImageEntries(V', es)
    ensures EncodeStateIn(EncodeState(V'), |h|) && RefsInEntries(es, V') && Advance(h, V, V', D, D')
    decreases Unvisited(h, EncodeState(V)), EntriesSize(es), 0
  {
    if |es| == 0 {
      ds, xs, V', D' := [], [], V, D;
      assert ImageEntries(V, es) == [];
      AdvanceRefl(h, V, D);
    } else {
      EntriesSizeUnfold(es);
      var d0, V1, D1 := DataRoundTrip(c, h, V, D, es[0].1);
      UnvisitedShrinks(h, EncodeState(V), EncodeState(V1));
      var dt, xt;
      dt, xt, V', D' := EntriesRoundTrip(c, h, V1, D1, es[1..]);
      ds, xs := EntriesCons(c, h, V, D, es, d0, V1, D1, dt, xt, V', D');
    }
  }

  /** The first entry, then the rest. */
  lemma {:induction false} EntriesCons(c: Config, h: Heap, V: seq<ObjId>, D: DecodeState, es: Entries,
                    d0: Value, V1: seq<ObjId>, D1: DecodeState, dt: Entries, xt: Entries, V': seq<ObjId>, D': DecodeState)
    returns (ds: Entries, xs: Entries)
    requires Setting(c, h, V, D) && EntriesIn(es, |h|) && |es| > 0
    requires SerializeData(c, h, EncodeState(V), es[0].1) == Success((d0, EncodeState(V1)))
    requires IsData(d0) && UnserializeData(c, D, d0) == Success((Image(V1, es[0].1), D1))
    requires EncodeStateIn(EncodeState(V1), |h|) && RefsIn(es[0].1, V1) && Advance(h, V, V1, D, D1)
    requires SerializeEntries(c, h, EncodeState(V1), es[1..]) == Success((dt, EncodeState(V')))
    requires EntriesData(dt) && Keys(dt) == Keys(es[1..])
    requires DecodeStateOk(D1) && UnserializeEntries(c, D1, dt) == Success((xt, D')) && xt == ImageEntries(V', es[1..])
    requires EncodeStateIn(EncodeState(V'), |h|) && RefsInEntries(es[1..], V') && Advance(h, V1, V', D1, D')
    ensures SerializeEntries(c, h, EncodeState(V), es) == Success((ds, EncodeState(V')))
    ensures EntriesData(ds) && Keys(ds) == Keys(es)
    ensures UnserializeEntries(c, D, ds) == Success((xs, D')) && xs == ImageEntries(V', es)
    ensures RefsInEntries(es, V') && Advance(h, V, V', D, D')
  {
    var (k, x) := es[0];
    EncodeEntriesStep(c, h, EncodeState(V), es, d0, EncodeState(V1), dt, EncodeState(V'));
    ds := [(k, d0)] + dt;
    assert ds[0] == (k, d0) && ds[1..] == dt;
    DecodeEntriesStep(c, D, ds, Image(V1, x), D1, xt, D');
    ImageStable(V1, V', x);
    ImageEntriesCons(V', es);
    xs := [(k, Image(V1, x))] + xt;
    RefsGrow(x, V1, V');
    AdvanceTrans(h, V, V1, V', D, D1, D');
  }

  lemma {:induction false} ObjectRoundTrip(c: Config, h: Heap, V: seq<ObjId>, D: DecodeState, id: ObjId)
    returns (d: Value, V': seq<ObjId>, D': DecodeState)
    requires Setting(c, h, V, D) && id < |h| && h[id].Instance?
    ensures SerializeObject(c, h, EncodeState(V), id) == Success((d, EncodeState(V')))
    ensures IsData(d) && UnserializeData(c, D, d) == Success((Image(V', Obj(id)), D'))
    ensures EncodeStateIn(EncodeState(V'), |h|) && id in V' && Advance(h, V, V', D, D')
    decreases Unvisited(h, EncodeState(V)), 0, 1
  {
    if id in V {
      d, V', D' := Backref(IndexOf(V, id)), V, D;
      BackrefRoundTrip(c, h, V, D, id);
      AdvanceRefl(h, V, D);
    } else {
      d, V', D' := NewObjectRoundTrip(c, h, V, D, id);
      ImageAttached(V', |V|);
    }
  }

  lemma {:induction false} NewObjectRoundTrip(c: Config, h: Heap, V: seq<ObjId>, D: DecodeState, id: ObjId)
    returns (d: Value, V': seq<ObjId>, D': DecodeState)
    requires Setting(c, h, V, D) && id < |h| && id !in V
    ensures PlainObject(c, h[id])
    ensures SerializeObject(c, h, EncodeState(V), id) == Success((d, EncodeState(V')))
    ensures IsData(d) && UnserializeData(c, D, d) == Success((Obj(|V|), D'))
    ensures EncodeStateIn(EncodeState(V'), |h|) && |V| < |V'| && V'[|V|] == id && Advance(h, V, V', D, D')
    decreases Unvisited(h, EncodeState(V)), 0, 0
  {
    var o := h[id];
    assert PlainObject(c, o);
    AttachFresh(V, id, |h|);
    assert id in Unvisited(h, EncodeState(V)) - Unvisited(h, EncodeState(V + [id]));
    UnvisitedShrinks(h, EncodeState(V), EncodeState(V + [id]));
    ExtractPlain(c, h, id);
    var D1 := NewObjectSetting(c, h, V, D, id);
    var ds;
    ds, V', D' := PropsRoundTrip(c, h, V + [id], D1, |V|, c.classes[o.cls], Extract(Properties(c.classes[o.cls], o.fields), o.fields));
    d := NewObjectCons(c, h, V, D, id, ds, V', D');
  }

  /** The decoder's state once the new instance is registered, in step with the
      encoder's once the object is attached. */
  lemma {:induction false} NewObjectSetting(c: Config, h: Heap, V: seq<ObjId>, D: DecodeState, id: ObjId) returns (D1: DecodeState)
    requires Setting(c, h, V, D) && id < |h| && id !in V && PlainObject(c, h[id])
    requires EncodeStateIn(EncodeState(V + [id]), |h|)
    ensures D1 == DecodeState(D.heap + [Instance(h[id].cls, c.classes[h[id].cls].declared)], D.mapping + [|V|])
    ensures Setting(c, h, V + [id], D1) && D1.heap[|V|].Instance?
  {
    D1 := DecodeState(D.heap + [Instance(h[id].cls, c.classes[h[id].cls].declared)], D.mapping + [|V|]);
    assert D1.mapping == Identity(|V| + 1);
  }

  /** The new object's encoding and decoding, from those of its properties. */
  lemma {:induction false} NewObjectCons(c: Config, h: Heap, V: seq<ObjId>, D: DecodeState, id: ObjId, ds: Entries, V': seq<ObjId>, D': DecodeState)
    returns (d: Value)
    requires Setting(c, h, V, D) && id < |h| && id !in V && PlainObject(c, h[id])
    requires EncodeStateIn(EncodeState(V + [id]), |h|)
    requires var o := h[id];
      var X := Extract(Properties(c.classes[o.cls], o.fields), o.fields);
      var D1 := DecodeState(D.heap + [Instance(o.cls, c.classes[o.cls].declared)], D.mapping + [|V|]);
      && EntriesIn(X, |h|) && UniqueKeys(X) && TypeKey !in Keys(X)
      && SerializeEntries(c, h, EncodeState(V + [id]), X) == Success((ds, EncodeState(V')))
      && EntriesData(ds) && DecodeStateOk(D1) && UnserializeProps(c, c.classes[o.cls], |V|, D1, ds) == Success(D')
      && EncodeStateIn(EncodeState(V'), |h|) && Filled(h, V + [id], V', D1, D', |V|, X)
    ensures SerializeObject(c, h, EncodeState(V), id) == Success((d, EncodeState(V')))
    ensures IsData(d) && UnserializeData(c, D, d) == Success((Obj(|V|), D'))
    ensures |V| < |V'| && V'[|V|] == id && Advance(h, V, V', D, D')
  {
    var o := h[id];
    EncodeNewPlain(c, h, V, id, ds, EncodeState(V'));
    d := Arr([(TypeKey, Str(o.cls))] + ds);
    DecodeNewPlain(c, D, o.cls, ds, D');
    assert (V + [id])[|V|] == id;
    NewObjectAdvance(c, h, V, V', D, DecodeState(D.heap + [Instance(o.cls, c.classes[o.cls].declared)], D.mapping + [|V|]), D',
      Extract(Properties(c.classes[o.cls], o.fields), o.fields));
  }

  /** What the property loop leaves: the instance at `n` has received the image
      of each entry of `Y` in order, the other cells that existed are untouched,
      and the objects attached meanwhile are restored. */
  ghost predicate Filled(h: Heap, W: seq<ObjId>, W': seq<ObjId>, E: DecodeState, E': DecodeState, n: nat, Y: Entries) {
    && W <= W' && |E.heap| <= |E'.heap| && |E'.heap| == |W'| && E'.mapping == Identity(|W'|)
    && n < |E.heap| && E.heap[n].Instance?
    && (forall j | 0 <= j < |E.heap| && j != n :: E'.heap[j] == E.heap[j])
    && E'.heap[n] == Instance(E.heap[n].cls, PutAll(E.heap[n].fields, ImageEntries(W', Y)))
    && RefsInEntries(Y, W')
    && (forall i | |W| <= i < |W'| :: Restored(h, W', E'.heap, i))
  }

  lemma FilledEmpty(h: Heap, W: seq<ObjId>, E: DecodeState, n: nat, Y: Entries)
    requires |E.heap| == |W| && E.mapping == Identity(|W|) && n < |W| && E.heap[n].Instance? && |Y| == 0
    ensures Filled(h, W, W, E, E, n, Y)
  {
    assert ImageEntries(W, Y) == [];
  }

  /** Setting the first entry, then filling the rest, fills all of `Y`. */
  lemma {:induction false} FilledCons(h: Heap, W: seq<ObjId>, W1: seq<ObjId>, W': seq<ObjId>, E: DecodeState, E1: DecodeState, E': DecodeState, n: nat, Y: Entries)
    requires |Y| > 0 && Distinct(W') && W1 <= W'
    requires |E.heap| == |W| && n < |W| && E.heap[n].Instance?
    requires Advance(h, W, W1, E, E1) && RefsIn(Y[0].1, W1)
    requires Filled(h, W1, W', SetProperty(E1, n, Y[0].0, Image(W1, Y[0].1)), E', n, Y[1..])
    ensures Filled(h, W, W', E, E', n, Y)
  {
    var (k, y) := Y[0];
    var E2 := SetProperty(E1, n, k, Image(W1, y));
    ImageStable(W1, W', y);
    ImageEntriesCons(W', Y);
    RefsGrow(y, W1, W');
    RestoredRangeStable(h, W1, W', E1.heap, E'.heap, |W|, |W1|);
  }

  /** The property loop of `unserializeObject` over what `array_map` made of
      the extracted data, in step with the encoding of that data. */
  lemma {:induction false} PropsRoundTrip(c: Config, h: Heap, W: seq<ObjId>, E: DecodeState, n: nat, info: ClassInfo, Y: Entries)
    returns (ds: Entries, W': seq<ObjId>, E': DecodeState)
    requires Setting(c, h, W, E) && n < |W| && E.heap[n].Instance?
    requires EntriesIn(Y, |h|) && PlainEntries(Y)
    ensures SerializeEntries(c, h, EncodeState(W), Y) == Success((ds, EncodeState(W')))
    ensures EntriesData(ds) && UnserializeProps(c, info, n, E, ds) == Success(E')
    ensures EncodeStateIn(EncodeState(W'), |h|) && Filled(h, W, W', E, E', n, Y)
    decreases Unvisited(h, EncodeState(W)), EntriesSize(Y), 0
  {
    if |Y| == 0 {
      ds, W', E' := [], W, E;
      FilledEmpty(h, W, E, n, Y);
    } else {
      EntriesSizeUnfold(Y);
      var d0, W1, E1 := DataRoundTrip(c, h, W, E, Y[0].1);
      UnvisitedShrinks(h, EncodeState(W), EncodeState(W1));
      assert E1.heap[n] == E.heap[n];
      var dt;
      dt, W', E' := PropsRoundTrip(c, h, W1, SetProperty(E1, n, Y[0].0, Image(W1, Y[0].1)), n, info, Y[1..]);
      ds := PropsCons(c, h, W, E, n, info, Y, d0, W1, E1, dt, W', E');
    }
  }

  /** The first property, then the rest. */
  lemma {:induction false} PropsCons(c: Config, h: Heap, W: seq<ObjId>, E: DecodeState, n: nat, info: ClassInfo, Y: Entries,
                  d0: Value, W1: seq<ObjId>, E1: DecodeState, dt: Entries, W': seq<ObjId>, E': DecodeState)
    returns (ds: Entries)
    requires Setting(c, h, W, E) && n < |W| && E.heap[n].Instance?
    requires EntriesIn(Y, |h|) && |Y| > 0
    requires SerializeData(c, h, EncodeState(W), Y[0].1) == Success((d0, EncodeState(W1)))
    requires IsData(d0) && UnserializeData(c, E, d0) == Success((Image(W1, Y[0].1), E1))
    requires EncodeStateIn(EncodeState(W1), |h|) && RefsIn(Y[0].1, W1) && Advance(h, W, W1, E, E1)
    requires E1.heap[n] == E.heap[n]
    requires SerializeEntries(c, h, EncodeState(W1), Y[1..]) == Success((dt, EncodeState(W')))
    requires EntriesData(dt) && UnserializeProps(c, info, n, SetProperty(E1, n, Y[0].0, Image(W1, Y[0].1)), dt) == Success(E')
    requires EncodeStateIn(EncodeState(W'), |h|) && Filled(h, W1, W', SetProperty(E1, n, Y[0].0, Image(W1, Y[0].1)), E', n, Y[1..])
    ensures SerializeEntries(c, h, EncodeState(W), Y) == Success((ds, EncodeState(W')))
    ensures EntriesData(ds) && UnserializeProps(c, info, n, E, ds) == Success(E')
    ensures Filled(h, W, W', E, E', n, Y)
  {
    var k := Y[0].0;
    EncodeEntriesStep(c, h, EncodeState(W), Y, d0, EncodeState(W1), dt, EncodeState(W'));
    ds := [(k, d0)] + dt;
    assert ds[0] == (k, d0) && ds[1..] == dt;
    DecodePropsStep(c, info, n, E, ds, Image(W1, Y[0].1), E1);
    FilledCons(h, W, W1, W', E, E1, E', n, Y);
  }

  /** The object the decoder built at index `n` for the `n`-th attached object:
      its class, and each declared default overwritten by the image of the
      extracted property. */
  lemma RestoredNew(c: Config, h: Heap, V: seq<ObjId>, H: Heap, n: nat)
    requires PlainHeap(c, h) && Distinct(V) && n < |V| && V[n] < |h| && n < |H|
    requires var o := h[V[n]];
      var X := Extract(Properties(c.classes[o.cls], o.fields), o.fields);
      && H[n] == Instance(o.cls, PutAll(c.classes[o.cls].declared, ImageEntries(V, X)))
      && RefsInEntries(X, V)
    ensures Restored(h, V, H, n)
  {
    var id := V[n];
    var o := h[id];
    assert PlainObject(c, o);
    var info := c.classes[o.cls];
    var props := Properties(info, o.fields);
    var X := Extract(props, o.fields);
    ExtractPlain(c, h, id);
    forall i | 0 <= i < |o.fields| ensures RefsIn(o.fields[i].1, V) {
      LookupAt(o.fields, i);
      LookupRefs(X, o.fields[i].0, V);
    }
    var Y := ImageEntries(V, X);
    assert UniqueKeys(Y) by {
      forall i, j | 0 <= i < j < |Y| ensures Y[i].0 != Y[j].0 {
        assert Y[i].0 == X[i].0 && Y[j].0 == X[j].0;
      }
    }
    forall k ensures Lookup(H[n].fields, k) == ImageOpt(V, Lookup(o.fields, k)) {
      LookupPutAll(info.declared, Y, k);
      ImageKeys(V, X);
      if k in Keys(X) {
        LookupImage(V, X, k);
      } else {
        assert k !in Keys(info.declared) + Keys(o.fields);
      }
    }
  }

  // ---------------------------------------------------------------------
  // The theorem

  /** `unserialize(serialize($v))` on a plain graph, at the level of the
      object walks: encoding succeeds, its output is JSON data, and decoding
      it from a fresh state gives the value with each object renamed to its
      first-visit index. The decoder builds one object per object the value
      reaches, registered at that index, and each comes back with its class
      and every property renamed the same way. */
  lemma {:induction false} ObjectGraphRoundTrip(c: Config, h: Heap, v: Value) returns (d: Value, V: seq<ObjId>, H: Heap)
    requires PlainConfig(c) && PlainHeap(c, h) && ValueIn(v, |h|) && PlainValue(v)
    ensures SerializeData(c, h, FreshEncode, v) == Success((d, EncodeState(V)))
    ensures IsData(d) && UnserializeData(c, FreshDecode, d) == Success((Image(V, v), DecodeState(H, Identity(|V|))))
    ensures Distinct(V) && RefsIn(v, V) && |H| == |V|
    ensures forall i | 0 <= i < |V| :: Restored(h, V, H, i)
  {
    PlainIsClassed(c, h);
    assert Identity(0) == [];
    var D';
    d, V, D' := DataRoundTrip(c, h, [], FreshDecode, v);
    H := D'.heap;
  }

  /** The same through `serialize` and `unserialize`, binary-safety pass
      included: it holds when the walk's output is data the pass is exact on,
      and the JSON text is taken to mention `@utf8encoded` at least when the
      escaped data carries that key. */
  lemma {:induction false} SerializeRoundTrip(c: Config, h: Heap, v: Value, mentionsMarker: bool) returns (V: seq<ObjId>, H: Heap)
    requires PlainConfig(c) && PlainHeap(c, h) && ValueIn(v, |h|) && PlainValue(v)
    requires SerializeData(c, h, FreshEncode, v).Success? ==> PassSafe(SerializeData(c, h, FreshEncode, v).value.0)
    requires Serialize(c, h, v).Success? ==> (HasKeyInside(Serialize(c, h, v).value, Utf8EncodedKey) ==> mentionsMarker)
    ensures Serialize(c, h, v).Success? && IsData(Serialize(c, h, v).value)
    ensures Unserialize(c, Serialize(c, h, v).value, mentionsMarker) == Success((Image(V, v), H))
    ensures Distinct(V) && RefsIn(v, V) && |H| == |V|
    ensures forall i | 0 <= i < |V| :: Restored(h, V, H, i)
  {
    var d;
    d, V, H := ObjectGraphRoundTrip(c, h, v);
    assert Serialize(c, h, v) == Success(PrepareForJson(d));
    PreparedIsData(d);
    PipelineRoundTrip(d, mentionsMarker);
  }

  /** Sharing survives: two references to attached objects decode to the same
      object exactly when they referred to the same object. */
  lemma ImageKeepsIdentity(V: seq<ObjId>, a: ObjId, b: ObjId)
    requires Distinct(V) && a in V && b in V
    ensures Image(V, Obj(a)) == Image(V, Obj(b)) <==> a == b
  {
    var i, j := IndexOf(V, a), IndexOf(V, b);
    assert V[i] == a && V[j] == b;
  }

  /** A value whose references are attached is renamed to the `j`-th decoded
      object exactly when it was a reference to the `j`-th attached object. */
  lemma ImageIsObj(V: seq<ObjId>, x: Value, j: nat)
    requires Distinct(V) && RefsIn(x, V) && j < |V|
    ensures Image(V, x) == Obj(j) <==> x == Obj(V[j])
  {
    if x.Obj? {
      ImageAttached(V, j);
      ImageKeepsIdentity(V, x.id, V[j]);
    }
  }

  /** Edges survive, cycles included: property `k` of the `i`-th decoded object
      refers to the `j`-th decoded object exactly when property `k` of the
      `i`-th attached object referred to the `j`-th attached object. */
  lemma {:induction false} EdgePreserved(h: Heap, V: seq<ObjId>, H: Heap, i: nat, j: nat, k: Key)
    requires Distinct(V) && Restored(h, V, H, i) && j < |V|
    ensures Lookup(H[i].fields, k) == Some(Obj(j)) <==> Lookup(h[V[i]].fields, k) == Some(Obj(V[j]))
  {
    var o := Lookup(h[V[i]].fields, k);
    if o.Some? {
      LookupRefs(h[V[i]].fields, k, V);
      ImageIsObj(V, o.value, j);
    }
  }
}
