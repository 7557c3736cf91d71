/** The PHP value universe the codec walks, PHP's ordered arrays, and the
    object heap. Objects are identities (`ObjId`) into an immutable heap. */
module Values {
  import opened Wrappers
  import opened ByteStrings

  type ObjId = nat

  /** A PHP array key: an integer, or a string that is not a canonical integer. */
  datatype Key = IntKey(i: int) | StrKey(s: Bytes)

  /** A PHP value. A float is represented by its string form `(string)$f`;
      an object is a reference into the heap. */
  datatype Value =
    | Null
    | Bool(b: bool)
    | Int(i: int)
    | Float(text: Bytes)
    | Str(s: Bytes)
    | Arr(entries: seq<(Key, Value)>)
    | Obj(id: ObjId)
    | Resource(handle: nat)

  type Entries = seq<(Key, Value)>

  /** The uninterpreted code of a closure. */
  datatype Callable = Callable(code: Bytes)

  /** A heap cell: an instance of a named class with its properties in order,
      or a closure. */
  datatype Object = Instance(cls: Bytes, fields: Entries) | Closure(fn: Callable)

  type Heap = seq<Object>

  /** The class name PHP reports for a heap object. */
  function ClassOf(o: Object): Bytes {
    match o
    case Instance(c, _) => c
    case Closure(_) => Ascii("Closure")
  }

  // ---------------------------------------------------------------------
  // Array keys

  predicate IsNegativeCanonical(s: Bytes) {
    |s| > 1 && s[0] == 45 && CanonicalDigits(s[1..]) && s[1] != 48
  }

  /** The key PHP uses for a string offset: canonical decimal integers become
      integer keys, everything else stays a string key. */
  function ArrayKey(s: Bytes): (k: Key)
    ensures k.StrKey? ==> k.s == s
  {
    if CanonicalDigits(s) then IntKey(DigitsValue(s))
    else if IsNegativeCanonical(s) then IntKey(0 - DigitsValue(s[1..]))
    else StrKey(s)
  }

  /** A string holding a byte outside ASCII is never an integer key. */
  lemma HighByteKeepsStringKey(s: Bytes, i: nat)
    requires i < |s| && s[i] >= 128
    ensures ArrayKey(s) == StrKey(s)
  {
    assert !AllDigits(s) by { assert !IsDigit(s[i]); }
    if |s| > 1 && s[0] == 45 {
      assert i >= 1;
      assert !AllDigits(s[1..]) by { assert s[1..][i - 1] == s[i]; }
    }
  }

  // ---------------------------------------------------------------------
  // Ordered arrays

  function Keys(es: Entries): (ks: seq<Key>)
    ensures |ks| == |es|
    ensures forall i | 0 <= i < |es| :: ks[i] == es[i].0
  {
    if |es| == 0 then [] else [es[0].0] + Keys(es[1..])
  }

  /** Keys found in `ks` for the head and for every entry of the tail are
      found for every entry. */
  lemma KeysCovered(es: Entries, ks: seq<Key>)
    requires |es| > 0 && es[0].0 in ks
    requires forall i | 0 <= i < |es[1..]| :: es[1..][i].0 in ks
    ensures forall i | 0 <= i < |es| :: es[i].0 in ks
  {
    forall i | 0 < i < |es| ensures es[i].0 in ks {
      var j: nat := i - 1;
      assert es[1..][j] == es[i];
    }
  }

  predicate UniqueKeys(es: Entries) {
    forall i, j | 0 <= i < j < |es| :: es[i].0 != es[j].0
  }

  /** `$a[$k]` when the key exists. */
  function Lookup(es: Entries, k: Key): (r: Option<Value>)
    ensures r.Some? <==> k in Keys(es)
  {
    if |es| == 0 then None
    else if es[0].0 == k then Some(es[0].1)
    else Lookup(es[1..], k)
  }

  /** `isset($a[$k])`: the key exists and its value is not null. */
  predicate IsSet(es: Entries, k: Key) {
    Lookup(es, k).Some? && Lookup(es, k).value != Null
  }

  /** `$a[$k] = $v`: replaces the value in place when the key exists, appends otherwise. */
  function Put(es: Entries, k: Key, v: Value): (r: Entries)
    ensures k in Keys(r)
  {
    if |es| == 0 then [(k, v)]
    else if es[0].0 == k then [(k, v)] + es[1..]
    else [es[0]] + Put(es[1..], k, v)
  }

  /** `unset($a[$k])`. */
  function Remove(es: Entries, k: Key): (r: Entries)
    ensures k !in Keys(r)
  {
    if |es| == 0 then []
    else if es[0].0 == k then Remove(es[1..], k)
    else [es[0]] + Remove(es[1..], k)
  }

  /** `$a += $b`: adds the entries of `$b` whose keys `$a` lacks, keeping `$a` first. */
  function PlusAssign(a: Entries, b: Entries): Entries
    decreases |b|
  {
    if |b| == 0 then a
    else if b[0].0 in Keys(a) then PlusAssign(a, b[1..])
    else PlusAssign(a + [b[0]], b[1..])
  }

  lemma KeysAppend(a: Entries, b: Entries)
    ensures Keys(a + b) == Keys(a) + Keys(b)
  {
  }

  lemma {:induction false} PutAbsent(es: Entries, k: Key, v: Value)
    requires k !in Keys(es)
    ensures Put(es, k, v) == es + [(k, v)]
  {
    if |es| > 0 {
      assert k !in Keys(es[1..]);
      PutAbsent(es[1..], k, v);
    }
  }

  lemma {:induction false} LookupPut(es: Entries, k: Key, v: Value, k': Key)
    ensures Lookup(Put(es, k, v), k') == if k' == k then Some(v) else Lookup(es, k')
  {
    if |es| > 0 && es[0].0 != k {
      LookupPut(es[1..], k, v, k');
    }
  }

  lemma {:induction false} LookupAppend(es: Entries, e: (Key, Value), k: Key)
    ensures Lookup(es + [e], k) == if k in Keys(es) then Lookup(es, k) else if e.0 == k then Some(e.1) else None
  {
    if |es| > 0 {
      assert (es + [e])[1..] == es[1..] + [e];
      LookupAppend(es[1..], e, k);
    }
  }

  lemma ConcatAssoc(a: Entries, b: Entries, c: Entries)
    ensures a + b + c == a + (b + c)
  {
  }

  /** Lookup in a concatenation finds the first part's entry when there is one. */
  lemma {:induction false} LookupConcat(a: Entries, b: Entries, k: Key)
    ensures Lookup(a + b, k) == if k in Keys(a) then Lookup(a, k) else Lookup(b, k)
  {
    if |a| == 0 {
      assert a + b == b;
    } else {
      assert (a + b)[0] == a[0];
      assert (a + b)[1..] == a[1..] + b;
      LookupConcat(a[1..], b, k);
    }
  }

  lemma {:induction false} RemoveAbsent(es: Entries, k: Key)
    requires k !in Keys(es)
    ensures Remove(es, k) == es
  {
    if |es| > 0 {
      RemoveAbsent(es[1..], k);
    }
  }

  /** Removing a key that occurs first and only once drops exactly that entry. */
  lemma RemoveFirst(e: (Key, Value), es: Entries)
    requires e.0 !in Keys(es)
    ensures Remove([e] + es, e.0) == es
  {
    assert ([e] + es)[1..] == es;
    RemoveAbsent(es, e.0);
  }

  /** `$a += $b` on disjoint arrays is concatenation. */
  /** `[$k => $v] + $b` when `$b` has no key `$k`: the entry, then `$b`. */
  lemma PlusAssignSingle(e: (Key, Value), b: Entries)
    requires UniqueKeys(b) && e.0 !in Keys(b)
    ensures PlusAssign([e], b) == [e] + b
  {
    forall i | 0 <= i < |b| ensures b[i].0 !in Keys([e]) {
      assert Keys(b)[i] == b[i].0;
    }
    PlusAssignDisjoint([e], b);
  }

  lemma {:induction false} PlusAssignDisjoint(a: Entries, b: Entries)
    requires UniqueKeys(b)
    requires forall i | 0 <= i < |b| :: b[i].0 !in Keys(a)
    ensures PlusAssign(a, b) == a + b
    decreases |b|
  {
    if |b| > 0 {
      KeysAppend(a, [b[0]]);
      assert b == [b[0]] + b[1..];
      PlusAssignDisjoint(a + [b[0]], b[1..]);
    }
  }

  /** `$a += $b` keeps `$a` as it is, in front. */
  lemma {:induction false} PlusAssignKeepsFirst(a: Entries, b: Entries)
    ensures a <= PlusAssign(a, b)
    decreases |b|
  {
    if |b| > 0 {
      if b[0].0 in Keys(a) {
        PlusAssignKeepsFirst(a, b[1..]);
      } else {
        PlusAssignKeepsFirst(a + [b[0]], b[1..]);
      }
    }
  }

  /** `($a += $b)[$k]` is `$a[$k]` when `$a` has the key, `$b[$k]` otherwise. */
  lemma {:induction false} LookupPlusAssign(a: Entries, b: Entries, k: Key)
    ensures Lookup(PlusAssign(a, b), k) == if k in Keys(a) then Lookup(a, k) else Lookup(b, k)
    decreases |b|
  {
    if |b| > 0 {
      if b[0].0 in Keys(a) {
        LookupPlusAssign(a, b[1..], k);
      } else {
        LookupPlusAssign(a + [b[0]], b[1..], k);
        KeysAppend(a, [b[0]]);
        LookupAppend(a, b[0], k);
      }
    }
  }

  lemma UniqueAppend(es: Entries, e: (Key, Value))
    requires UniqueKeys(es) && e.0 !in Keys(es)
    ensures UniqueKeys(es + [e])
  {
  }

  // ---------------------------------------------------------------------
  // Measures and well-formedness

  /** A measure that strictly shrinks from an array to each of its values. */
  ghost function Size(v: Value): (r: nat)
    ensures r >= 1
    decreases v
  {
    match v
    case Arr(es) => 1 + EntriesUnder(v, es)
    case _ => 1
  }

  ghost function EntriesUnder(parent: Value, es: Entries): nat
    requires forall i | 0 <= i < |es| :: es[i].1 < parent
    decreases parent, |es|
  {
    if |es| == 0 then 0 else 1 + Size(es[0].1) + EntriesUnder(parent, es[1..])
  }

  lemma {:induction false} EntriesUnderParent(p: Value, q: Value, es: Entries)
    requires forall i | 0 <= i < |es| :: es[i].1 < p
    requires forall i | 0 <= i < |es| :: es[i].1 < q
    ensures EntriesUnder(p, es) == EntriesUnder(q, es)
    decreases |es|
  {
    if |es| > 0 {
      EntriesUnderParent(p, q, es[1..]);
    }
  }

  /** The total size of the values of an array. */
  ghost function EntriesSize(es: Entries): nat {
    Size(Arr(es)) - 1
  }

  lemma EntriesSizeUnfold(es: Entries)
    requires |es| > 0
    ensures EntriesSize(es) == 1 + Size(es[0].1) + EntriesSize(es[1..])
    ensures Size(es[0].1) < EntriesSize(es)
    ensures EntriesSize(es[1..]) < EntriesSize(es)
  {
    var v := Arr(es);
    assert Size(v) == 1 + EntriesUnder(v, es);
    assert EntriesUnder(v, es) == 1 + Size(es[0].1) + EntriesUnder(v, es[1..]);
    assert Size(Arr(es[1..])) == 1 + EntriesUnder(Arr(es[1..]), es[1..]);
    EntriesUnderParent(v, Arr(es[1..]), es[1..]);
  }

  /** Every entry's value is smaller than the entries that hold it. */
  lemma {:induction false} EntryBelow(es: Entries, i: nat)
    requires i < |es|
    ensures Size(es[i].1) < EntriesSize(es)
  {
    EntriesSizeUnfold(es);
    if i > 0 {
      assert es[1..][i - 1] == es[i];
      EntryBelow(es[1..], i - 1);
    }
  }

  lemma EntriesSizeEmpty(es: Entries)
    requires |es| == 0
    ensures EntriesSize(es) == 0
  {
    assert Size(Arr(es)) == 1 + EntriesUnder(Arr(es), es);
  }

  lemma {:induction false} RemoveSize(es: Entries, k: Key)
    ensures EntriesSize(Remove(es, k)) <= EntriesSize(es)
  {
    if |es| > 0 {
      RemoveSize(es[1..], k);
      EntriesSizeUnfold(es);
      if es[0].0 != k {
        var r := Remove(es, k);
        assert r[1..] == Remove(es[1..], k);
        EntriesSizeUnfold(r);
      }
    }
  }

  /** Every object reference in `v` points into a heap of `n` cells. */
  predicate ValueIn(v: Value, n: nat) {
    match v
    case Obj(id) => id < n
    case Arr(es) => forall i | 0 <= i < |es| :: ValueIn(es[i].1, n)
    case _ => true
  }

  predicate EntriesIn(es: Entries, n: nat) {
    forall i | 0 <= i < |es| :: ValueIn(es[i].1, n)
  }

  /** A heap closed under references: every property of every instance points
      into the heap. PHP's object graph always has this shape. */
  predicate WellFormedHeap(h: Heap) {
    forall o | 0 <= o < |h| :: h[o].Instance? ==> EntriesIn(h[o].fields, |h|)
  }

  /** Values a JSON decoder can produce: no objects and no resources. */
  predicate IsData(v: Value) {
    match v
    case Obj(_) => false
    case Resource(_) => false
    case Arr(es) => forall i | 0 <= i < |es| :: IsData(es[i].1)
    case _ => true
  }

  /** The values of an array are JSON data. */
  predicate EntriesData(es: Entries) {
    forall i | 0 <= i < |es| :: IsData(es[i].1)
  }

  lemma {:induction false} LookupData(es: Entries, k: Key)
    requires EntriesData(es) && Lookup(es, k).Some?
    ensures IsData(Lookup(es, k).value)
  {
    if es[0].0 != k {
      LookupData(es[1..], k);
    }
  }

  lemma {:induction false} PutData(es: Entries, k: Key, v: Value)
    requires EntriesData(es) && IsData(v)
    ensures EntriesData(Put(es, k, v))
  {
    if |es| > 0 && es[0].0 != k {
      PutData(es[1..], k, v);
    }
  }

  lemma {:induction false} RemoveData(es: Entries, k: Key)
    requires EntriesData(es)
    ensures EntriesData(Remove(es, k))
  {
    if |es| > 0 {
      RemoveData(es[1..], k);
    }
  }

  /** PHP truthiness, the negation of `empty($v)`. */
  predicate Truthy(v: Value) {
    match v
    case Null => false
    case Bool(b) => b
    case Int(i) => i != 0
    case Float(t) => t != Ascii("0") && t != Ascii("-0")
    case Str(s) => s != [] && s != Ascii("0")
    case Arr(es) => |es| > 0
    case Obj(_) => true
    case Resource(_) => true
  }
}
