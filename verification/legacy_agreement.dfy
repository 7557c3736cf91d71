/** The older serializer against the main one. Both walk the graph in the same
    order with the same identity map; they part only where one has a feature
    the other lacks. On heaps of instances with zero fractions preserved, the
    two encoders agree. On data with no untyped `@closure` marker, with no
    DateTime family class other than `DateTime` and no `SplDoublyLinkedList`,
    the two decoders agree, the main one in mode 1. The round trip of the main
    serializer then carries over. */
module LegacyAgreement {
  import opened Wrappers
  import opened ByteStrings
  import opened Values
  import opened Engine
  import opened EngineRoundTrip
  import Legacy

  /** The main serializer with the older one's settings: no custom serializers,
      no closure serializer, undeclared properties always set. */
  function AsMain(c: Legacy.LegacyConfig): (m: Config)
    ensures m.classes == c.classes && m.custom == map[] && m.closures.None?
    ensures m.mode == SetMode && m.preserveZeroFraction == c.preserveZeroFraction && m.natives == c.natives
  {
    Config(c.classes, map[], None, SetMode, c.preserveZeroFraction, c.natives)
  }

  /** Heaps both encoders walk alike: instances only, none of them an
      `SplDoublyLinkedList`. */
  predicate Comparable(c: Legacy.LegacyConfig, h: Heap) {
    forall o | 0 <= o < |h| :: h[o].Instance? && (h[o].cls in c.classes ==> !c.classes[h[o].cls].splList)
  }

  // ---------------------------------------------------------------------
  // Encoding

  lemma {:induction false} EncodeDataAgrees(c: Legacy.LegacyConfig, h: Heap, st: EncodeState, v: Value)
    requires Legacy.LegacyReady(c, h, st) && ValueIn(v, |h|) && Comparable(c, h) && c.preserveZeroFraction
    ensures EncodeReady(AsMain(c), h, st)
    ensures Legacy.SerializeData(c, h, st, v) == SerializeData(AsMain(c), h, st, v)
    decreases Unvisited(h, st), Size(v)
  {
    match v
    case Arr(es) => EncodeArrayAgrees(c, h, st, es);
    case Obj(id) => EncodeObjectAgrees(c, h, st, id);
    case _ =>
  }

  lemma {:induction false} EncodeArrayAgrees(c: Legacy.LegacyConfig, h: Heap, st: EncodeState, es: Entries)
    requires Legacy.LegacyReady(c, h, st) && EntriesIn(es, |h|) && Comparable(c, h) && c.preserveZeroFraction
    ensures EncodeReady(AsMain(c), h, st)
    ensures Legacy.SerializeArray(c, h, st, es) == SerializeEntries(AsMain(c), h, st, es)
    decreases Unvisited(h, st), EntriesSize(es)
  {
    if |es| > 0 {
      EntriesSizeUnfold(es);
      EncodeDataAgrees(c, h, st, es[0].1);
      var head := Legacy.SerializeData(c, h, st, es[0].1);
      if head.Success? {
        UnvisitedShrinks(h, st, head.value.1);
        EncodeArrayAgrees(c, h, head.value.1, es[1..]);
      }
    }
  }

  lemma {:induction false} EncodeObjectAgrees(c: Legacy.LegacyConfig, h: Heap, st: EncodeState, id: ObjId)
    requires Legacy.LegacyReady(c, h, st) && id < |h| && Comparable(c, h) && c.preserveZeroFraction
    ensures EncodeReady(AsMain(c), h, st)
    ensures Legacy.SerializeObject(c, h, st, id) == SerializeObject(AsMain(c), h, st, id)
    decreases Unvisited(h, st), 0
  {
    if id !in st.visited {
      var st1 := EncodeState(st.visited + [id]);
      assert id in Unvisited(h, st) - Unvisited(h, st1);
      UnvisitedShrinks(h, st, st1);
      var o := h[id];
      var props := Properties(c.classes[o.cls], o.fields);
      ExtractIn(props, o.fields, |h|);
      EncodeArrayAgrees(c, h, st1, Extract(props, o.fields));
    }
  }

  // ---------------------------------------------------------------------
  // Decoding

  /** No array without `@type` carries a truthy `@closure`: the only data on
      which the main decoder asks for a closure serializer. */
  predicate MarkerFree(v: Value) {
    match v
    case Arr(es) =>
      && (IsSet(es, TypeKey) || !(Lookup(es, ClosureKey).Some? && Truthy(Lookup(es, ClosureKey).value)))
      && forall i | 0 <= i < |es| :: MarkerFree(es[i].1)
    case _ => true
  }

  predicate EntriesMarkerFree(es: Entries) {
    forall i | 0 <= i < |es| :: MarkerFree(es[i].1)
  }

  /** The classes both decoders treat alike: `DateTime` is the only DateTime
      family class, and no class is an `SplDoublyLinkedList`. */
  predicate OnlyDateTime(c: Legacy.LegacyConfig) {
    forall cls | cls in c.classes :: !c.classes[cls].splList && (Legacy.InDateTimeFamily(c, cls) ==> cls == DateTimeName)
  }

  lemma {:induction false} RemoveMarkerFree(es: Entries, k: Key)
    requires EntriesMarkerFree(es)
    ensures EntriesMarkerFree(Remove(es, k))
  {
    if |es| > 0 {
      RemoveMarkerFree(es[1..], k);
      var r := Remove(es, k);
      if es[0].0 != k {
        forall i | 0 <= i < |r| ensures MarkerFree(r[i].1) {
          if i > 0 {
            assert r[i] == Remove(es[1..], k)[i - 1];
          }
        }
      }
    }
  }

  lemma {:induction false} DecodeDataAgrees(c: Legacy.LegacyConfig, st: DecodeState, v: Value)
    requires IsData(v) && DecodeStateOk(st) && MarkerFree(v) && OnlyDateTime(c)
    ensures Legacy.UnserializeData(c, st, v) == UnserializeData(AsMain(c), st, v)
    decreases Size(v), 2
  {
    match v
    case Arr(es) =>
      if IsSet(es, TypeKey) {
        DecodeObjectAgrees(c, st, es);
      } else {
        DecodeArrayAgrees(c, st, es);
      }
    case _ =>
  }

  lemma {:induction false} DecodeArrayAgrees(c: Legacy.LegacyConfig, st: DecodeState, es: Entries)
    requires EntriesData(es) && DecodeStateOk(st) && EntriesMarkerFree(es) && OnlyDateTime(c)
    ensures Legacy.UnserializeArray(c, st, es) == UnserializeEntries(AsMain(c), st, es)
    decreases EntriesSize(es), 2
  {
    if |es| > 0 {
      EntriesSizeUnfold(es);
      DecodeDataAgrees(c, st, es[0].1);
      var head := Legacy.UnserializeData(c, st, es[0].1);
      if head.Success? {
        assert EntriesMarkerFree(es[1..]) by {
          forall i | 0 <= i < |es[1..]| ensures MarkerFree(es[1..][i].1) {
            assert es[1..][i] == es[i + 1];
          }
        }
        DecodeArrayAgrees(c, head.value.1, es[1..]);
      }
    }
  }

  lemma {:induction false} DecodeObjectAgrees(c: Legacy.LegacyConfig, st: DecodeState, es: Entries)
    requires EntriesData(es) && DecodeStateOk(st) && IsSet(es, TypeKey) && EntriesMarkerFree(es) && OnlyDateTime(c)
    ensures Legacy.UnserializeObject(c, st, es) == UnserializeObject(AsMain(c), st, es)
    decreases Size(Arr(es)), 1
  {
    var t := Lookup(es, TypeKey).value;
    if t.Str? && !(|t.s| > 0 && t.s[0] == At) && t.s in c.classes {
      assert Legacy.DateTimeClassTypes[0] == DateTimeName;
      if !Legacy.InDateTimeFamily(c, t.s) {
        var rest := Remove(es, TypeKey);
        RemoveSize(es, TypeKey);
        RemoveData(es, TypeKey);
        RemoveMarkerFree(es, TypeKey);
        DecodeInstanceAgrees(c, st, t.s, rest);
      }
    }
  }

  lemma DecodeInstanceAgrees(c: Legacy.LegacyConfig, st: DecodeState, cls: Bytes, rest: Entries)
    requires EntriesData(rest) && DecodeStateOk(st) && cls in c.classes && EntriesMarkerFree(rest) && OnlyDateTime(c)
    ensures Legacy.UnserializeUserDefinedObject(c, st, cls, rest) == UnserializeInstance(AsMain(c), st, cls, rest)
    decreases EntriesSize(rest), 1
  {
    var id := |st.heap|;
    var st1 := DecodeState(st.heap + [Instance(cls, c.classes[cls].declared)], st.mapping + [id]);
    DecodePropsAgrees(c, c.classes[cls], id, st1, rest);
  }

  lemma {:induction false} DecodePropsAgrees(c: Legacy.LegacyConfig, info: ClassInfo, id: ObjId, st: DecodeState, rest: Entries)
    requires EntriesData(rest) && DecodeStateOk(st) && id < |st.heap| && st.heap[id].Instance?
    requires EntriesMarkerFree(rest) && OnlyDateTime(c)
    ensures Legacy.SetProperties(c, id, st, rest) == UnserializeProps(AsMain(c), info, id, st, rest)
    decreases EntriesSize(rest), 0
  {
    if |rest| > 0 {
      EntriesSizeUnfold(rest);
      DecodeDataAgrees(c, st, rest[0].1);
      var head := Legacy.UnserializeData(c, st, rest[0].1);
      if head.Success? {
        var (d, st1) := head.value;
        assert st1.heap[id] == st.heap[id];
        assert EntriesMarkerFree(rest[1..]) by {
          forall i | 0 <= i < |rest[1..]| ensures MarkerFree(rest[1..][i].1) {
            assert rest[1..][i] == rest[i + 1];
          }
        }
        DecodePropsAgrees(c, info, id, SetProperty(st1, id, rest[0].0, d), rest[1..]);
      }
    }
  }

  // ---------------------------------------------------------------------
  // The round trip of the older serializer

  /** On plain graphs the main encoder writes no untyped `@closure` marker:
      every array it builds for an object opens with `@type`, and plain arrays
      do not use the key. */
  lemma {:induction false} EncodedDataMarkerFree(c: Config, h: Heap, st: EncodeState, v: Value)
    requires EncodeReady(c, h, st) && PlainConfig(c) && PlainHeap(c, h) && ValueIn(v, |h|) && PlainValue(v)
    ensures var r := SerializeData(c, h, st, v); r.Success? ==> MarkerFree(r.value.0)
    decreases Unvisited(h, st), Size(v)
  {
    match v
    case Arr(es) =>
      EncodedArrayMarkerFree(c, h, st, es);
      var r := SerializeEntries(c, h, st, es);
      if r.Success? {
        assert ClosureKey !in Keys(r.value.0);
      }
    case Obj(id) => EncodedObjectMarkerFree(c, h, st, id);
    case _ =>
  }

  lemma {:induction false} EncodedArrayMarkerFree(c: Config, h: Heap, st: EncodeState, es: Entries)
    requires EncodeReady(c, h, st) && PlainConfig(c) && PlainHeap(c, h) && EntriesIn(es, |h|) && PlainEntries(es)
    ensures var r := SerializeEntries(c, h, st, es); r.Success? ==> EntriesMarkerFree(r.value.0)
    decreases Unvisited(h, st), EntriesSize(es)
  {
    if |es| > 0 {
      EntriesSizeUnfold(es);
      EncodedDataMarkerFree(c, h, st, es[0].1);
      var head := SerializeData(c, h, st, es[0].1);
      if head.Success? {
        UnvisitedShrinks(h, st, head.value.1);
        assert PlainEntries(es[1..]) by {
          forall i | 0 <= i < |es[1..]| ensures PlainValue(es[1..][i].1) {
            assert es[1..][i] == es[i + 1];
          }
        }
        EncodedArrayMarkerFree(c, h, head.value.1, es[1..]);
        var tail := SerializeEntries(c, h, head.value.1, es[1..]);
        if tail.Success? {
          ConsMarkerFree(es[0].0, head.value.0, tail.value.0);
        }
      }
    }
  }

  lemma ConsMarkerFree(k: Key, x: Value, tail: Entries)
    requires MarkerFree(x) && EntriesMarkerFree(tail)
    ensures EntriesMarkerFree([(k, x)] + tail)
  {
    var r := [(k, x)] + tail;
    forall i | 0 <= i < |r| ensures MarkerFree(r[i].1) {
      if i > 0 {
        assert r[i] == tail[i - 1];
      }
    }
  }

  lemma {:induction false} EncodedObjectMarkerFree(c: Config, h: Heap, st: EncodeState, id: ObjId)
    requires EncodeReady(c, h, st) && PlainConfig(c) && PlainHeap(c, h) && id < |h|
    ensures h[id].Instance?
    ensures var r := SerializeObject(c, h, st, id); r.Success? ==> MarkerFree(r.value.0)
    decreases Unvisited(h, st), 0
  {
    if id !in st.visited {
      var st1 := EncodeState(st.visited + [id]);
      assert id in Unvisited(h, st) - Unvisited(h, st1);
      UnvisitedShrinks(h, st, st1);
      AttachFresh(st.visited, id, |h|);
      var o := h[id];
      var X := Extract(Properties(c.classes[o.cls], o.fields), o.fields);
      ExtractPlain(c, h, id);
      EncodedArrayMarkerFree(c, h, st1, X);
      var body := SerializeEntries(c, h, st1, X);
      if body.Success? {
        EncodeNewPlain(c, h, st.visited, id, body.value.0, body.value.1);
        HeadedMarkerFree(o.cls, body.value.0);
      }
    }
  }

  /** `["@type" => <class>]` followed by marker-free values is marker-free. */
  lemma HeadedMarkerFree(cls: Bytes, b: Entries)
    requires EntriesMarkerFree(b)
    ensures MarkerFree(Arr([(TypeKey, Str(cls))] + b))
  {
    var r := [(TypeKey, Str(cls))] + b;
    assert Lookup(r, TypeKey) == Some(Str(cls));
    forall i | 0 <= i < |r| ensures MarkerFree(r[i].1) {
      if i > 0 {
        assert r[i] == b[i - 1];
      }
    }
  }

  /** The older serializer round-trips plain graphs exactly as the main one does:
      the decoded value is the original with each object renamed to its index,
      and the decoded objects restore the attached ones, class and properties. */
  lemma {:induction false} LegacyRoundTrip(c: Legacy.LegacyConfig, h: Heap, v: Value) returns (V: seq<ObjId>, H: Heap)
    requires Legacy.LegacyReady(c, h, FreshEncode) && OnlyDateTime(c) && c.preserveZeroFraction
    requires PlainHeap(AsMain(c), h) && ValueIn(v, |h|) && PlainValue(v)
    requires var e := Legacy.SerializeData(c, h, FreshEncode, v); e.Success? ==> BinarySafety.AllWellFormed(e.value.0)
    ensures Legacy.Serialize(c, h, v).Success? && IsData(Legacy.Serialize(c, h, v).value)
    ensures Legacy.Unserialize(c, Legacy.Serialize(c, h, v).value) == Success((Image(V, v), H))
    ensures Distinct(V) && RefsIn(v, V) && |H| == |V|
    ensures forall i | 0 <= i < |V| :: Restored(h, V, H, i)
  {
    assert Comparable(c, h);
    EncodeDataAgrees(c, h, FreshEncode, v);
    var d;
    d, V, H := ObjectGraphRoundTrip(AsMain(c), h, v);
    EncodedDataMarkerFree(AsMain(c), h, FreshEncode, v);
    DecodeDataAgrees(c, FreshDecode, d);
  }
}
