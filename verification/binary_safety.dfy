/** The binary-safety pass of the codec (`encodeNonUtf8ToUtf8` /
    `decodeNonUtf8FromUtf8`): strings and keys that are not well-formed UTF-8 are
    re-encoded byte by byte, and a sibling `@utf8encoded` array records, per key,
    bit 1 when the key was re-encoded and bit 2 when the value was. */
module BinarySafety {
  import opened Wrappers
  import opened ByteStrings
  import opened Values
  import opened Utf8

  /** The two reserved keys, written out byte by byte; `ReservedSpelling` checks
      them against their ASCII spelling. */
  const Utf8EncodedKey: Key := StrKey([64, 117, 116, 102, 56, 101, 110, 99, 111, 100, 101, 100])
  const ScalarKey: Key := StrKey([64, 115, 99, 97, 108, 97, 114])
  const KeyEncoded: int := 1
  const ValueEncoded: int := 2

  /** `($a & $bit) != 0` for a single-bit mask, on two's-complement integers. */
  predicate HasBit(a: int, bit: nat)
    requires bit == 1 || bit == 2
  {
    if bit == 1 then a % 2 == 1 else (a / 2) % 2 == 1
  }

  /** `$a | $bit` for a single-bit mask: sets that bit and keeps the other one. */
  function SetBit(a: int, bit: nat): (r: int)
    requires bit == 1 || bit == 2
    ensures HasBit(r, bit)
    ensures HasBit(r, 3 - bit) == HasBit(a, 3 - bit)
  {
    if HasBit(a, bit) then a else a + bit
  }

  /** The flag recorded for `k`, or 0 when none: `isset($encodedKeys[$k]) ? $encodedKeys[$k] : 0`. */
  function FlagOf(flags: Entries, k: Key): int {
    match Lookup(flags, k)
    case Some(Int(n)) => n
    case _ => 0
  }

  /** `$encodedKeys[$k] |= $bit`. */
  function Mark(flags: Entries, k: Key, bit: nat): Entries
    requires bit == 1 || bit == 2
  {
    Put(flags, k, Int(SetBit(FlagOf(flags, k), bit)))
  }

  /** The key a re-encoded key is stored under. */
  function EscapedKey(k: Key): Key {
    match k
    case StrKey(b) => if WellFormed(b) then k else ArrayKey(Latin1ToUtf8(b))
    case IntKey(_) => k
  }

  predicate KeyNeedsEscape(k: Key) {
    k.StrKey? && !WellFormed(k.s)
  }

  predicate ValueNeedsEscape(v: Value) {
    v.Str? && !WellFormed(v.s)
  }

  /** `encodeNonUtf8ToUtf8`. A top-level ill-formed string is wrapped as
      `{"@scalar": <escaped>, "@utf8encoded": 2}`; an array is rebuilt entry by
      entry; the loop over any other value runs zero times. A well-formed
      string is kept, and an ill-formed one comes back from the decoding pass.
      `RoundTrip`, `EncodedIsWellFormed` and `EncodedIsData` state the rest. */
  function EncodeNonUtf8(d: Value): (r: Value)
    ensures d.Str? ==> (r == d <==> WellFormed(d.s))
    ensures d.Str? && !WellFormed(d.s) ==> DecodeNonUtf8(r) == d
    ensures r != d ==> r.Arr?
    decreases Size(d), 1
  {
    match d
    case Str(s) =>
      if WellFormed(s) then d
      else
        Latin1RoundTrip(s);
        Arr([(ScalarKey, Str(Latin1ToUtf8(s))), (Utf8EncodedKey, Int(ValueEncoded))])
    case Arr(es) =>
      var (data, flags) := EncodeEntries(es, [], []);
      if |flags| > 0 then Arr(Put(data, Utf8EncodedKey, Arr(flags))) else Arr(data)
    case _ => Arr([])
  }

  /** The loop of `encodeNonUtf8ToUtf8` over the remaining entries `es`, with the
      rebuilt array `data` and the flags `flags` so far. */
  function EncodeEntries(es: Entries, data: Entries, flags: Entries): (Entries, Entries)
    decreases EntriesSize(es), 0
  {
    if |es| == 0 then (data, flags)
    else
      EntriesSizeUnfold(es);
      var (k, v) := es[0];
      var v1 := if v.Arr? then EncodeNonUtf8(v) else v;
      EncodeEntries(es[1..], Put(data, EscapedKey(k), EscapeString(v1)), MarkEntry(flags, k, v1))
  }

  /** A value after the string step of the loop: an ill-formed string is re-encoded. */
  function EscapeString(v: Value): Value {
    if ValueNeedsEscape(v) then Str(Latin1ToUtf8(v.s)) else v
  }

  /** The flags after one entry of the loop: bit 1 for an escaped key, bit 2 for
      an escaped value, both recorded under the escaped key. */
  function MarkEntry(flags: Entries, k: Key, v: Value): Entries {
    var k2 := EscapedKey(k);
    var flags1 := if KeyNeedsEscape(k) then Mark(flags, k2, KeyEncoded) else flags;
    if ValueNeedsEscape(v) then Mark(flags1, k2, ValueEncoded) else flags1
  }

  /** `mb_convert_encoding($v, '8bit', 'UTF-8')` on a marked value. The file
      does not declare strict types, so a scalar or null is passed as its
      string form; an array is returned as it is (see README, "Left out"). */
  function ToLatin1(v: Value): (r: Value)
    ensures r.Str? <==> !v.Arr? && !v.Obj? && !v.Resource?
    ensures !r.Str? ==> r == v
  {
    match v
    case Arr(_) => v
    case Obj(_) => v
    case Resource(_) => v
    case _ => Str(Utf8ToLatin1(StringForm(v)))
  }

  /** A scalar under `@scalar` is decoded to its string form even when it was
      not a string: `{"@scalar": 5, "@utf8encoded": 2}` decodes to `"5"`. */
  lemma ScalarMarkerCoerced()
    ensures DecodeNonUtf8(Arr([(ScalarKey, Int(5)), (Utf8EncodedKey, Int(2))])) == Str([53])
  {
    assert Decimal(5) == [53];
    assert CharLength([53]) == 1;
    assert Utf8ToLatin1([53]) == [53] + Utf8ToLatin1([]);
  }

  /** `(string)$v` for a scalar or null: `"1"` and `""` for the booleans, the
      decimal digits of an integer, the float's own text. */
  function StringForm(v: Value): Bytes
    requires !v.Arr? && !v.Obj? && !v.Resource?
  {
    match v
    case Null => []
    case Bool(b) => if b then [49] else []
    case Int(n) => if n < 0 then [45] + Decimal(-n) else Decimal(n)
    case Float(t) => t
    case Str(s) => s
  }

  /** The original key of a key marked with bit 1. */
  function UnescapedKey(k: Key): Key {
    match k
    case StrKey(b) => ArrayKey(Utf8ToLatin1(b))
    case IntKey(_) => k
  }

  /** The flag recorded for `k` in the decoded `@utf8encoded` value, 0 when none. */
  function FlagIn(flags: Value, k: Key): int {
    match flags
    case Arr(fs) => if IsSet(fs, k) then FlagOf(fs, k) else 0
    case _ => 0
  }

  /** `decodeNonUtf8FromUtf8`: a scalar or null is returned as it is, an array
      with `@scalar` gives back the string under it, and any other array is
      rebuilt with its flagged keys and values converted back.
      `DecodeIdentity`, `RoundTrip` and `DecodedIsData` state the rest. */
  function DecodeNonUtf8(d: Value): (r: Value)
    ensures !d.Arr? ==> r == d
    ensures d.Arr? && IsSet(d.entries, ScalarKey) && Lookup(d.entries, ScalarKey).value.Str?
      ==> r == Str(Utf8ToLatin1(Lookup(d.entries, ScalarKey).value.s))
    ensures d.Arr? && !IsSet(d.entries, ScalarKey) ==> r.Arr?
    decreases Size(d), 1
  {
    match d
    case Arr(es) =>
      if IsSet(es, ScalarKey) then ToLatin1(Lookup(es, ScalarKey).value)
      else
        RemoveSize(es, Utf8EncodedKey);
        Arr(DecodeEntries(Unflagged(es), FlagsField(es), []))
    case _ => d
  }

  /** The `@utf8encoded` value of an array, or an empty array when it is not set. */
  function FlagsField(es: Entries): Value {
    if IsSet(es, Utf8EncodedKey) then Lookup(es, Utf8EncodedKey).value else Arr([])
  }

  /** The array the decoder loop walks: `@utf8encoded` is unset when it was set. */
  function Unflagged(es: Entries): Entries {
    if IsSet(es, Utf8EncodedKey) then Remove(es, Utf8EncodedKey) else es
  }

  /** The loop of `decodeNonUtf8FromUtf8` over the remaining entries `es`. */
  function DecodeEntries(es: Entries, flags: Value, acc: Entries): Entries
    decreases EntriesSize(es), 0
  {
    if |es| == 0 then acc
    else
      EntriesSizeUnfold(es);
      var (k, v) := es[0];
      var f := FlagIn(flags, k);
      DecodeEntries(es[1..], flags, Put(acc, DecodedKey(f, k), DecodedString(f, ReadBack(v))))
  }

  /** The key of an entry whose flag is `f`. */
  function DecodedKey(f: int, k: Key): Key {
    if HasBit(f, KeyEncoded) then UnescapedKey(k) else k
  }

  /** The value of an entry whose flag is `f`. */
  function DecodedString(f: int, v: Value): Value {
    if HasBit(f, ValueEncoded) then ToLatin1(v) else v
  }

  // ---------------------------------------------------------------------
  // What the pass computes, entry by entry

  /** The value an entry carries after the pass. */
  function EscapedValue(v: Value): Value {
    if v.Arr? then EncodeNonUtf8(v)
    else if ValueNeedsEscape(v) then Str(Latin1ToUtf8(v.s))
    else v
  }

  /** The flag the pass records for an entry; 0 means no flag. */
  function Bits(e: (Key, Value)): int {
    (if KeyNeedsEscape(e.0) then KeyEncoded else 0) + (if ValueNeedsEscape(e.1) then ValueEncoded else 0)
  }

  function SpecData(es: Entries): Entries {
    if |es| == 0 then [] else [(EscapedKey(es[0].0), EscapedValue(es[0].1))] + SpecData(es[1..])
  }

  /** The flag entry the pass records for one entry: none when nothing was escaped. */
  function FlagEntry(e: (Key, Value)): Entries {
    if Bits(e) != 0 then [(EscapedKey(e.0), Int(Bits(e)))] else []
  }

  function SpecFlags(es: Entries): Entries {
    if |es| == 0 then [] else FlagEntry(es[0]) + SpecFlags(es[1..])
  }

  predicate DistinctEscapedKeys(es: Entries) {
    forall i, j | 0 <= i < j < |es| :: EscapedKey(es[i].0) != EscapedKey(es[j].0)
  }

  /** Data the pass is exact on: JSON data whose arrays keep their keys apart
      after escaping and do not use the two reserved keys. */
  ghost predicate PassSafe(d: Value) {
    match d
    case Arr(es) =>
      && DistinctEscapedKeys(es)
      && ScalarKey !in Keys(es)
      && Utf8EncodedKey !in Keys(es)
      && forall i | 0 <= i < |es| :: PassSafe(es[i].1)
    case Obj(_) => false
    case Resource(_) => false
    case _ => true
  }

  /** Every string and every string key is well-formed UTF-8: the condition
      under which the JSON encoder does not fail with a UTF-8 error. */
  predicate AllWellFormed(d: Value) {
    match d
    case Str(s) => WellFormed(s)
    case Arr(es) => forall i | 0 <= i < |es| :: KeyWellFormed(es[i].0) && AllWellFormed(es[i].1)
    case _ => true
  }

  predicate KeyWellFormed(k: Key) {
    k.StrKey? ==> WellFormed(k.s)
  }

  /** Some array inside `d` has the key `k`. */
  ghost predicate HasKeyInside(d: Value, k: Key) {
    match d
    case Arr(es) => k in Keys(es) || exists i | 0 <= i < |es| :: HasKeyInside(es[i].1, k)
    case _ => false
  }

  // ---------------------------------------------------------------------
  // Lemmas

  lemma ReservedSpelling()
    ensures Utf8EncodedKey == StrKey(Ascii("@utf8encoded"))
    ensures ScalarKey == StrKey(Ascii("@scalar"))
  {
  }

  lemma ReservedAreAscii()
    ensures IsAscii(Utf8EncodedKey.s) && IsAscii(ScalarKey.s)
  {
  }

  /** An escaped key is a string key holding a byte of 0x80 or more. */
  lemma {:induction false} EscapedKeyShape(b: Bytes) returns (j: nat)
    requires !WellFormed(b)
    ensures EscapedKey(StrKey(b)) == StrKey(Latin1ToUtf8(b))
    ensures j < |Latin1ToUtf8(b)| && Latin1ToUtf8(b)[j] >= 0x80
  {
    var i := IllFormedHasHighByte(b);
    j := HighByteSurvivesEscape(b, i);
    HighByteKeepsStringKey(Latin1ToUtf8(b), j);
  }

  lemma EscapedKeyNotReserved(k: Key)
    requires k != ScalarKey && k != Utf8EncodedKey
    ensures EscapedKey(k) != ScalarKey && EscapedKey(k) != Utf8EncodedKey
  {
    if KeyNeedsEscape(k) {
      var j := EscapedKeyShape(k.s);
      ReservedAreAscii();
    }
  }

  /** Un-escaping a re-encoded key gives the original key back. */
  lemma UnescapeEscapedKey(k: Key)
    requires KeyNeedsEscape(k)
    ensures UnescapedKey(EscapedKey(k)) == k
  {
    var j := EscapedKeyShape(k.s);
    Latin1RoundTrip(k.s);
    var i := IllFormedHasHighByte(k.s);
    HighByteKeepsStringKey(k.s, i);
  }

  lemma PutLast(fl: Entries, k: Key, x: Value, y: Value)
    requires k !in Keys(fl)
    ensures Put(fl + [(k, x)], k, y) == fl + [(k, y)]
    decreases |fl|
  {
    if |fl| > 0 {
      assert (fl + [(k, x)])[1..] == fl[1..] + [(k, x)];
      PutLast(fl[1..], k, x, y);
    }
  }

  lemma {:induction false} SpecDataKeys(es: Entries, k: Key)
    requires forall i | 0 <= i < |es| :: EscapedKey(es[i].0) != k
    ensures k !in Keys(SpecData(es))
    ensures k !in Keys(SpecFlags(es))
  {
    if |es| > 0 {
      SpecDataKeys(es[1..], k);
      KeysAppend([(EscapedKey(es[0].0), EscapedValue(es[0].1))], SpecData(es[1..]));
      KeysAppend(FlagEntry(es[0]), SpecFlags(es[1..]));
    }
  }

  /** One entry of the encoder loop adds exactly the flag entry `FlagEntry`
      when the escaped key has no flag yet. */
  lemma MarkEntrySpec(flags: Entries, k: Key, v: Value)
    requires EscapedKey(k) !in Keys(flags)
    ensures MarkEntry(flags, k, v) == flags + FlagEntry((k, v))
  {
    var k2 := EscapedKey(k);
    if KeyNeedsEscape(k) {
      MarkFirst(flags, k2, KeyEncoded);
      if ValueNeedsEscape(v) {
        MarkSecond(flags, k2);
      }
    } else if ValueNeedsEscape(v) {
      MarkFirst(flags, k2, ValueEncoded);
    }
  }

  /** Marking a key with no flag yet appends its flag. */
  lemma MarkFirst(flags: Entries, k2: Key, bit: nat)
    requires k2 !in Keys(flags) && (bit == 1 || bit == 2)
    ensures Mark(flags, k2, bit) == flags + [(k2, Int(bit))]
  {
    PutAbsent(flags, k2, Int(bit));
  }

  /** Marking the value of a key just marked for its key sets both bits in place. */
  lemma MarkSecond(flags: Entries, k2: Key)
    requires k2 !in Keys(flags)
    ensures Mark(flags + [(k2, Int(KeyEncoded))], k2, ValueEncoded) == flags + [(k2, Int(3))]
  {
    var f1 := flags + [(k2, Int(KeyEncoded))];
    LookupAppend(flags, (k2, Int(KeyEncoded)), k2);
    assert FlagOf(f1, k2) == 1;
    assert SetBit(1, ValueEncoded) == 3 by {
      assert 1 / 2 == 0;
    }
    PutLast(flags, k2, Int(KeyEncoded), Int(3));
  }

  /** One step of the encoder loop, in terms of the entry's escaped value. */
  lemma EncodeEntriesUnfold(es: Entries, data: Entries, flags: Entries)
    requires |es| > 0
    ensures EncodeEntries(es, data, flags)
         == EncodeEntries(es[1..], Put(data, EscapedKey(es[0].0), EscapedValue(es[0].1)), MarkEntry(flags, es[0].0, es[0].1))
  {
    var (k, v) := es[0];
    var v1 := if v.Arr? then EncodeNonUtf8(v) else v;
    assert EscapeString(v1) == EscapedValue(v);
    assert MarkEntry(flags, k, v1) == MarkEntry(flags, k, v);
  }

  lemma DistinctTail(es: Entries)
    requires DistinctEscapedKeys(es) && |es| > 0
    ensures DistinctEscapedKeys(es[1..])
  {
    forall a, b | 0 <= a < b < |es[1..]| ensures EscapedKey(es[1..][a].0) != EscapedKey(es[1..][b].0) {
      assert es[1..][a] == es[a + 1] && es[1..][b] == es[b + 1];
    }
  }

  /** The loop of the encoder appends one entry per input entry, and one flag
      per entry that needed escaping. */
  lemma {:induction false} EncodeEntriesSpec(es: Entries, data: Entries, flags: Entries)
    requires DistinctEscapedKeys(es)
    requires forall i | 0 <= i < |es| :: EscapedKey(es[i].0) !in Keys(data) && EscapedKey(es[i].0) !in Keys(flags)
    ensures EncodeEntries(es, data, flags) == (data + SpecData(es), flags + SpecFlags(es))
    decreases |es|
  {
    if |es| > 0 {
      var k2 := EscapedKey(es[0].0);
      var v2 := EscapedValue(es[0].1);
      EncodeEntriesUnfold(es, data, flags);
      MarkEntrySpec(flags, es[0].0, es[0].1);
      PutAbsent(data, k2, v2);
      var data' := data + [(k2, v2)];
      var flags' := flags + FlagEntry(es[0]);
      KeysAppend(data, [(k2, v2)]);
      KeysAppend(flags, FlagEntry(es[0]));
      forall i | 0 <= i < |es[1..]|
        ensures EscapedKey(es[1..][i].0) !in Keys(data') && EscapedKey(es[1..][i].0) !in Keys(flags')
      {
        assert es[1..][i] == es[i + 1];
      }
      DistinctTail(es);
      EncodeEntriesSpec(es[1..], data', flags');
      assert SpecData(es) == [(k2, v2)] + SpecData(es[1..]);
      assert SpecFlags(es) == FlagEntry(es[0]) + SpecFlags(es[1..]);
      ConcatAssoc(data, [(k2, v2)], SpecData(es[1..]));
      ConcatAssoc(flags, FlagEntry(es[0]), SpecFlags(es[1..]));
    } else {
      assert data + SpecData(es) == data && flags + SpecFlags(es) == flags;
    }
  }

  /** The flag the decoder finds for an escaped key is the flag the encoder recorded. */
  lemma {:induction false} LookupSpecFlags(es: Entries, i: nat)
    requires DistinctEscapedKeys(es) && i < |es|
    ensures Lookup(SpecFlags(es), EscapedKey(es[i].0)) == if Bits(es[i]) != 0 then Some(Int(Bits(es[i]))) else None
    decreases |es|
  {
    var k := EscapedKey(es[i].0);
    var head := FlagEntry(es[0]);
    LookupConcat(head, SpecFlags(es[1..]), k);
    if i == 0 {
      forall j | 0 <= j < |es[1..]| ensures EscapedKey(es[1..][j].0) != k {
        assert es[1..][j] == es[j + 1];
      }
      SpecDataKeys(es[1..], k);
    } else {
      assert es[1..][i - 1] == es[i];
      DistinctTail(es);
      LookupSpecFlags(es[1..], i - 1);
      assert k !in Keys(head);
    }
  }

  lemma FlagInSpecFlags(es: Entries, i: nat)
    requires DistinctEscapedKeys(es) && i < |es|
    ensures FlagIn(Arr(SpecFlags(es)), EscapedKey(es[i].0)) == Bits(es[i])
  {
    LookupSpecFlags(es, i);
    FlagInFound(SpecFlags(es), EscapedKey(es[i].0), Bits(es[i]));
  }

  /** The decoder's flag for `k` is the integer recorded under `k`, 0 when none is. */
  lemma FlagInFound(fs: Entries, k: Key, n: int)
    requires Lookup(fs, k) == if n != 0 then Some(Int(n)) else None
    ensures FlagIn(Arr(fs), k) == n
  {
  }

  lemma BitsCases(e: (Key, Value))
    ensures 0 <= Bits(e) <= 3
    ensures HasBit(Bits(e), KeyEncoded) == KeyNeedsEscape(e.0)
    ensures HasBit(Bits(e), ValueEncoded) == ValueNeedsEscape(e.1)
  {
  }

  /** The value the decoder loop reads back from an escaped entry value. */
  function ReadBack(v: Value): Value
    decreases Size(v), 2
  {
    if v.Arr? then DecodeNonUtf8(v) else v
  }

  /** One escaped entry, read back under the flag the encoder recorded for it,
      is the original entry. */
  lemma DecodeEntryStep(k: Key, v: Value)
    requires !v.Arr? || ReadBack(EncodeNonUtf8(v)) == v
    ensures DecodedKey(Bits((k, v)), EscapedKey(k)) == k
    ensures DecodedString(Bits((k, v)), ReadBack(EscapedValue(v))) == v
  {
    BitsCases((k, v));
    if KeyNeedsEscape(k) {
      UnescapeEscapedKey(k);
    }
    if ValueNeedsEscape(v) {
      Latin1RoundTrip(v.s);
    }
  }

  lemma DecodeEntriesUnfold(es: Entries, flags: Value, acc: Entries)
    requires |es| > 0
    ensures DecodeEntries(es, flags, acc)
         == DecodeEntries(es[1..], flags, Put(acc, DecodedKey(FlagIn(flags, es[0].0), es[0].0), DecodedString(FlagIn(flags, es[0].0), ReadBack(es[0].1))))
  {
  }

  /** One step of the decoder loop over escaped entries restores the first entry. */
  lemma DecodeHead(orig: Entries, flags: Value, acc: Entries)
    requires |orig| > 0
    requires !orig[0].1.Arr? || ReadBack(EncodeNonUtf8(orig[0].1)) == orig[0].1
    requires FlagIn(flags, EscapedKey(orig[0].0)) == Bits(orig[0])
    requires orig[0].0 !in Keys(acc)
    ensures DecodeEntries(SpecData(orig), flags, acc) == DecodeEntries(SpecData(orig[1..]), flags, acc + [orig[0]])
  {
    var es := SpecData(orig);
    var (k, v) := orig[0];
    assert es[0] == (EscapedKey(k), EscapedValue(v));
    assert es[1..] == SpecData(orig[1..]);
    DecodeEntryStep(k, v);
    DecodeEntriesUnfold(es, flags, acc);
    PutAbsent(acc, k, v);
  }

  /** The loop of the decoder undoes the loop of the encoder. */
  lemma {:induction false} DecodeEntriesSpec(orig: Entries, flags: Value, acc: Entries)
    requires forall i | 0 <= i < |orig| :: PassSafe(orig[i].1)
    requires forall i | 0 <= i < |orig| :: FlagIn(flags, EscapedKey(orig[i].0)) == Bits(orig[i])
    requires forall i | 0 <= i < |orig| :: orig[i].0 !in Keys(acc)
    requires DistinctEscapedKeys(orig)
    ensures DecodeEntries(SpecData(orig), flags, acc) == acc + orig
    decreases EntriesSize(orig), 0
  {
    if |orig| > 0 {
      EntriesSizeUnfold(orig);
      var (k, v) := orig[0];
      if v.Arr? {
        RoundTrip(v);
      }
      DecodeHead(orig, flags, acc);
      DecodeTailReady(orig, flags, acc);
      DecodeEntriesSpec(orig[1..], flags, acc + [orig[0]]);
      AppendHead(acc, orig);
    } else {
      assert acc + orig == acc;
    }
  }

  /** Moving the head of `es` onto `acc` leaves the concatenation unchanged. */
  lemma AppendHead(acc: Entries, es: Entries)
    requires |es| > 0
    ensures acc + [es[0]] + es[1..] == acc + es
  {
    ConcatAssoc(acc, [es[0]], es[1..]);
    assert [es[0]] + es[1..] == es;
  }

  /** The requirements of `DecodeEntriesSpec` carry over to the tail once the
      head is appended to what was decoded. */
  lemma DecodeTailReady(orig: Entries, flags: Value, acc: Entries)
    requires |orig| > 0
    requires forall i | 0 <= i < |orig| :: PassSafe(orig[i].1)
    requires forall i | 0 <= i < |orig| :: FlagIn(flags, EscapedKey(orig[i].0)) == Bits(orig[i])
    requires forall i | 0 <= i < |orig| :: orig[i].0 !in Keys(acc)
    requires DistinctEscapedKeys(orig)
    ensures forall i | 0 <= i < |orig[1..]| :: PassSafe(orig[1..][i].1)
    ensures forall i | 0 <= i < |orig[1..]| :: FlagIn(flags, EscapedKey(orig[1..][i].0)) == Bits(orig[1..][i])
    ensures forall i | 0 <= i < |orig[1..]| :: orig[1..][i].0 !in Keys(acc + [orig[0]])
    ensures DistinctEscapedKeys(orig[1..])
  {
    var k := orig[0].0;
    KeysAppend(acc, [orig[0]]);
    forall i | 0 <= i < |orig[1..]|
      ensures orig[1..][i].0 !in Keys(acc + [orig[0]])
    {
      assert orig[1..][i] == orig[i + 1];
      assert EscapedKey(orig[i + 1].0) != EscapedKey(k);
    }
    DistinctTail(orig);
  }

  /** The escaped array with its `@utf8encoded` sibling, present only when some
      entry was escaped. */
  function Framed(data: Entries, flags: Entries): Entries {
    if |flags| > 0 then data + [(Utf8EncodedKey, Arr(flags))] else data
  }

  /** Escaped keys of an array that does not use the reserved keys do not use them either. */
  lemma SpecDataNotReserved(es: Entries)
    requires ScalarKey !in Keys(es) && Utf8EncodedKey !in Keys(es)
    ensures ScalarKey !in Keys(SpecData(es)) && Utf8EncodedKey !in Keys(SpecData(es))
  {
    forall i | 0 <= i < |es|
      ensures EscapedKey(es[i].0) != ScalarKey && EscapedKey(es[i].0) != Utf8EncodedKey
    {
      EscapedKeyNotReserved(es[i].0);
    }
    SpecDataKeys(es, ScalarKey);
    SpecDataKeys(es, Utf8EncodedKey);
  }

  /** The encoder on an array is its loop's output, framed. */
  lemma EncodeArrFrame(es: Entries, data: Entries, flags: Entries)
    requires EncodeEntries(es, [], []) == (data, flags)
    requires Utf8EncodedKey !in Keys(data)
    ensures EncodeNonUtf8(Arr(es)) == Arr(Framed(data, flags))
  {
    if |flags| > 0 {
      PutAbsent(data, Utf8EncodedKey, Arr(flags));
    }
  }

  lemma EncodeArr(es: Entries)
    requires DistinctEscapedKeys(es)
    requires ScalarKey !in Keys(es) && Utf8EncodedKey !in Keys(es)
    ensures EncodeNonUtf8(Arr(es)) == Arr(Framed(SpecData(es), SpecFlags(es)))
  {
    EncodeEntriesSpec(es, [], []);
    assert [] + SpecData(es) == SpecData(es) && [] + SpecFlags(es) == SpecFlags(es);
    SpecDataNotReserved(es);
    EncodeArrFrame(es, SpecData(es), SpecFlags(es));
  }

  /** The decoder finds no `@scalar` in a framed array, and splits it back into
      the escaped array and its flags. */
  lemma FramedFields(data: Entries, flags: Entries)
    requires ScalarKey !in Keys(data) && Utf8EncodedKey !in Keys(data)
    ensures !IsSet(Framed(data, flags), ScalarKey)
    ensures Unflagged(Framed(data, flags)) == data
    ensures FlagsField(Framed(data, flags)) == Arr(flags)
  {
    if |flags| > 0 {
      FlagsAppended(data, Arr(flags));
    }
  }

  lemma FlagsAppended(data: Entries, flags: Value)
    requires ScalarKey !in Keys(data) && Utf8EncodedKey !in Keys(data)
    requires flags.Arr?
    ensures !IsSet(data + [(Utf8EncodedKey, flags)], ScalarKey)
    ensures Unflagged(data + [(Utf8EncodedKey, flags)]) == data
    ensures FlagsField(data + [(Utf8EncodedKey, flags)]) == flags
  {
    var e := (Utf8EncodedKey, flags);
    LookupAppend(data, e, Utf8EncodedKey);
    LookupAppend(data, e, ScalarKey);
    RemoveLast(data, e);
  }

  lemma DecodeFramed(data: Entries, flags: Entries)
    requires ScalarKey !in Keys(data) && Utf8EncodedKey !in Keys(data)
    ensures DecodeNonUtf8(Arr(Framed(data, flags))) == Arr(DecodeEntries(data, Arr(flags), []))
  {
    var out := Framed(data, flags);
    FramedFields(data, flags);
    assert DecodeNonUtf8(Arr(out)) == Arr(DecodeEntries(Unflagged(out), FlagsField(out), []));
  }

  /** `decodeNonUtf8FromUtf8(encodeNonUtf8ToUtf8($d)) === $d` for every string,
      and for every array whose keys stay apart once escaped and which does not
      use the reserved keys. */
  lemma {:induction false} RoundTrip(d: Value)
    requires PassSafe(d)
    requires d.Str? || d.Arr?
    ensures DecodeNonUtf8(EncodeNonUtf8(d)) == d
    decreases Size(d), 1
  {
    match d
    case Str(s) =>
      if !WellFormed(s) {
        Latin1RoundTrip(s);
      }
    case Arr(es) =>
      EncodeArr(es);
      SpecDataNotReserved(es);
      DecodeFramed(SpecData(es), SpecFlags(es));
      forall i | 0 <= i < |es|
        ensures FlagIn(Arr(SpecFlags(es)), EscapedKey(es[i].0)) == Bits(es[i])
      {
        FlagInSpecFlags(es, i);
      }
      DecodeEntriesSpec(es, Arr(SpecFlags(es)), []);
      assert [] + es == es;
  }

  lemma RemoveLast(es: Entries, e: (Key, Value))
    requires e.0 !in Keys(es)
    ensures Remove(es + [e], e.0) == es
    decreases |es|
  {
    if |es| == 0 {
      assert ([e])[1..] == [];
    } else {
      assert (es + [e])[1..] == es[1..] + [e];
      RemoveLast(es[1..], e);
    }
  }

  // ---------------------------------------------------------------------
  // The pass inside `serialize` and `unserialize`

  /** What `serialize` hands to the second `json_encode`: the data itself when
      the first one succeeds, i.e. when every string and key is well-formed, and
      the escaped data otherwise. */
  function PrepareForJson(d: Value): Value {
    if AllWellFormed(d) then d else EncodeNonUtf8(d)
  }

  /** What `unserialize` hands to the object decoder: the decoded JSON, passed
      through the decoding pass when the JSON text mentions `@utf8encoded`. */
  function RestoreFromJson(d: Value, mentionsMarker: bool): Value {
    if mentionsMarker then DecodeNonUtf8(d) else d
  }

  /** The entries of the escaped array, in order. */
  lemma {:induction false} SpecDataAt(es: Entries, i: nat)
    requires i < |es|
    ensures |SpecData(es)| == |es|
    ensures SpecData(es)[i] == (EscapedKey(es[i].0), EscapedValue(es[i].1))
  {
    if i > 0 {
      assert es[1..][i - 1] == es[i];
      SpecDataAt(es[1..], i - 1);
    } else if |es| > 1 {
      SpecDataAt(es[1..], 0);
    }
  }

  /** An entry that needed escaping leaves a flag. */
  lemma {:induction false} SpecFlagsNonEmpty(es: Entries, i: nat)
    requires i < |es| && Bits(es[i]) != 0
    ensures |SpecFlags(es)| > 0
  {
    if i > 0 {
      assert es[1..][i - 1] == es[i];
      SpecFlagsNonEmpty(es[1..], i - 1);
    }
  }

  lemma EscapedKeyWellFormed(k: Key)
    ensures KeyWellFormed(EscapedKey(k))
  {
    if KeyNeedsEscape(k) {
      var j := EscapedKeyShape(k.s);
      Latin1ToUtf8WellFormed(k.s);
    }
  }

  lemma {:induction false} SpecFlagsWellFormed(es: Entries)
    ensures AllWellFormed(Arr(SpecFlags(es)))
  {
    if |es| > 0 {
      SpecFlagsWellFormed(es[1..]);
      EscapedKeyWellFormed(es[0].0);
      var head := FlagEntry(es[0]);
      var fs := SpecFlags(es);
      assert fs == head + SpecFlags(es[1..]);
      forall i | 0 <= i < |fs| ensures KeyWellFormed(fs[i].0) && AllWellFormed(fs[i].1) {
        if i >= |head| {
          assert fs[i] == SpecFlags(es[1..])[i - |head|];
        }
      }
    }
  }

  lemma ReservedWellFormed()
    ensures KeyWellFormed(ScalarKey) && KeyWellFormed(Utf8EncodedKey)
  {
    ReservedAreAscii();
    AsciiWellFormed(ScalarKey.s);
    AsciiWellFormed(Utf8EncodedKey.s);
  }

  lemma PairWellFormed(a: Bytes, k1: Key, k2: Key, n: int)
    requires WellFormed(a) && KeyWellFormed(k1) && KeyWellFormed(k2)
    ensures AllWellFormed(Arr([(k1, Str(a)), (k2, Int(n))]))
  {
  }

  lemma ScalarFrameWellFormed(s: Bytes)
    ensures AllWellFormed(Arr([(ScalarKey, Str(Latin1ToUtf8(s))), (Utf8EncodedKey, Int(ValueEncoded))]))
  {
    ReservedWellFormed();
    Latin1ToUtf8WellFormed(s);
    PairWellFormed(Latin1ToUtf8(s), ScalarKey, Utf8EncodedKey, ValueEncoded);
  }

  lemma FramedWellFormed(data: Entries, flags: Entries)
    requires AllWellFormed(Arr(data)) && AllWellFormed(Arr(flags))
    ensures AllWellFormed(Arr(Framed(data, flags)))
  {
    if |flags| > 0 {
      ReservedWellFormed();
      AppendWellFormed(data, Utf8EncodedKey, Arr(flags));
    }
  }

  lemma AppendWellFormed(data: Entries, k: Key, v: Value)
    requires AllWellFormed(Arr(data)) && KeyWellFormed(k) && AllWellFormed(v)
    ensures AllWellFormed(Arr(data + [(k, v)]))
  {
    var out := data + [(k, v)];
    forall j | 0 <= j < |out| ensures KeyWellFormed(out[j].0) && AllWellFormed(out[j].1) {
      if j < |data| {
        assert out[j] == data[j];
      }
    }
  }

  /** The escaped data has no ill-formed string or key left, so the second
      `json_encode` does not fail with a UTF-8 error. */
  lemma {:induction false} EncodedIsWellFormed(d: Value)
    requires PassSafe(d)
    ensures AllWellFormed(EncodeNonUtf8(d))
    decreases Size(d), 1
  {
    match d
    case Str(s) =>
      ScalarFrameWellFormed(s);
    case Arr(es) =>
      EncodeArr(es);
      SpecDataLength(es);
      var data := SpecData(es);
      forall j | 0 <= j < |data| ensures KeyWellFormed(data[j].0) && AllWellFormed(data[j].1) {
        SpecDataAt(es, 0);
        SpecDataAt(es, j);
        EscapedKeyWellFormed(es[j].0);
        EntryBelow(es, j);
        EscapedValueWellFormed(es[j].1);
      }
      SpecFlagsWellFormed(es);
      FramedWellFormed(data, SpecFlags(es));
    case _ =>
  }

  lemma {:induction false} EscapedValueWellFormed(v: Value)
    requires PassSafe(v)
    ensures AllWellFormed(EscapedValue(v))
    decreases Size(v), 2
  {
    if v.Arr? {
      EncodedIsWellFormed(v);
    } else if ValueNeedsEscape(v) {
      Latin1ToUtf8WellFormed(v.s);
    }
  }

  /** Data the pass is exact on is JSON data. */
  lemma {:induction false} PassSafeIsData(d: Value)
    requires PassSafe(d)
    ensures IsData(d)
    decreases d
  {
    if d.Arr? {
      forall i | 0 <= i < |d.entries| ensures IsData(d.entries[i].1) {
        PassSafeIsData(d.entries[i].1);
      }
    }
  }

  /** The flags array holds integers only. */
  lemma {:induction false} SpecFlagsData(es: Entries)
    ensures EntriesData(SpecFlags(es))
  {
    if |es| > 0 {
      SpecFlagsData(es[1..]);
      var head := FlagEntry(es[0]);
      var fs := SpecFlags(es);
      forall i | 0 <= i < |fs| ensures IsData(fs[i].1) {
        if i >= |head| {
          assert fs[i] == SpecFlags(es[1..])[i - |head|];
        }
      }
    }
  }

  /** The escaped data is JSON data again, so `unserialize` can take it. */
  lemma PreparedIsData(d: Value)
    requires PassSafe(d)
    ensures IsData(PrepareForJson(d))
  {
    PassSafeIsData(d);
    EncodedIsData(d);
  }

  lemma {:induction false} EncodedIsData(d: Value)
    requires PassSafe(d)
    ensures IsData(EncodeNonUtf8(d))
    decreases Size(d), 1
  {
    match d
    case Arr(es) =>
      EncodeArr(es);
      SpecDataLength(es);
      var data := SpecData(es);
      forall j | 0 <= j < |es| ensures SpecData(es)[j].1 == EscapedValue(es[j].1) && IsData(EscapedValue(es[j].1)) {
        SpecDataAt(es, j);
        EntryBelow(es, j);
        EscapedValueData(es[j].1);
      }
      SpecFlagsData(es);
      FramedData(data, SpecFlags(es));
    case _ =>
  }

  lemma {:induction false} SpecDataLength(es: Entries)
    ensures |SpecData(es)| == |es|
  {
    if |es| > 0 {
      SpecDataLength(es[1..]);
    }
  }

  lemma {:induction false} EscapedValueData(v: Value)
    requires PassSafe(v)
    ensures IsData(EscapedValue(v))
    decreases Size(v), 2
  {
    if v.Arr? {
      EncodedIsData(v);
    }
  }

  lemma FramedData(data: Entries, flags: Entries)
    requires EntriesData(data) && EntriesData(flags)
    ensures IsData(Arr(Framed(data, flags)))
  {
    var out := Framed(data, flags);
    forall j | 0 <= j < |out| ensures IsData(out[j].1) {
      if j < |data| {
        assert out[j] == data[j];
      }
    }
  }

  /** When some string or key is ill-formed, the escaped data carries an
      `@utf8encoded` key, so its JSON text mentions the marker. */
  lemma {:induction false} MarkerPresent(d: Value)
    requires PassSafe(d) && !AllWellFormed(d)
    ensures HasKeyInside(EncodeNonUtf8(d), Utf8EncodedKey)
    decreases Size(d)
  {
    match d
    case Str(s) =>
      var out := [(ScalarKey, Str(Latin1ToUtf8(s))), (Utf8EncodedKey, Int(ValueEncoded))];
      assert Keys(out)[1] == Utf8EncodedKey;
    case Arr(es) =>
      var i :| 0 <= i < |es| && !(KeyWellFormed(es[i].0) && AllWellFormed(es[i].1));
      if Bits(es[i]) != 0 {
        MarkerInFlags(es, i);
      } else {
        EntryBelow(es, i);
        MarkerPresent(es[i].1);
        MarkerInEntry(es, i);
      }
  }

  /** An escaped entry puts the flags array, under `@utf8encoded`, at the top level. */
  lemma MarkerInFlags(es: Entries, i: nat)
    requires PassSafe(Arr(es)) && i < |es| && Bits(es[i]) != 0
    ensures HasKeyInside(EncodeNonUtf8(Arr(es)), Utf8EncodedKey)
  {
    EncodeArr(es);
    SpecFlagsNonEmpty(es, i);
    KeysAppend(SpecData(es), [(Utf8EncodedKey, Arr(SpecFlags(es)))]);
  }

  /** A marker inside an entry's encoded value is inside the encoded array. */
  lemma MarkerInEntry(es: Entries, i: nat)
    requires PassSafe(Arr(es)) && i < |es| && Bits(es[i]) == 0
    requires HasKeyInside(EncodeNonUtf8(es[i].1), Utf8EncodedKey)
    ensures HasKeyInside(EncodeNonUtf8(Arr(es)), Utf8EncodedKey)
  {
    EncodeArr(es);
    SpecDataAt(es, i);
    var out := Framed(SpecData(es), SpecFlags(es));
    assert out[i] == SpecData(es)[i];
  }

  /** Decoding is the identity on data without re-encoded parts. */
  lemma {:induction false} DecodeIdentity(d: Value)
    requires PassSafe(d)
    ensures DecodeNonUtf8(d) == d
    decreases Size(d), 1
  {
    match d
    case Arr(es) =>
      assert !IsSet(es, ScalarKey) && !IsSet(es, Utf8EncodedKey);
      forall i | 0 <= i < |es| ensures FlagIn(Arr([]), es[i].0) == 0 {
      }
      DecodeEntriesIdentity(es, []);
      assert [] + es == es;
    case _ =>
  }

  /** With no flags, one step of the decoder loop keeps the entry as it is. */
  lemma DecodeIdentityHead(es: Entries, acc: Entries)
    requires |es| > 0 && es[0].0 !in Keys(acc)
    requires ReadBack(es[0].1) == es[0].1
    ensures DecodeEntries(es, Arr([]), acc) == DecodeEntries(es[1..], Arr([]), acc + [es[0]])
  {
    assert FlagIn(Arr([]), es[0].0) == 0;
    DecodeEntriesUnfold(es, Arr([]), acc);
    PutAbsent(acc, es[0].0, es[0].1);
  }

  lemma {:induction false} DecodeEntriesIdentity(es: Entries, acc: Entries)
    requires forall i | 0 <= i < |es| :: PassSafe(es[i].1) && es[i].0 !in Keys(acc)
    requires DistinctEscapedKeys(es)
    ensures DecodeEntries(es, Arr([]), acc) == acc + es
    decreases EntriesSize(es), 0
  {
    if |es| > 0 {
      EntriesSizeUnfold(es);
      var (k, v) := es[0];
      if v.Arr? {
        DecodeIdentity(v);
      }
      DecodeIdentityHead(es, acc);
      var acc' := acc + [(k, v)];
      IdentityTailReady(es, acc);
      DistinctTail(es);
      DecodeEntriesIdentity(es[1..], acc');
      ConcatAssoc(acc, [(k, v)], es[1..]);
      assert [(k, v)] + es[1..] == es;
    } else {
      assert acc + es == acc;
    }
  }

  /** The tail of an identity decode meets the loop's requirements once the
      head has been copied to the accumulator. */
  lemma IdentityTailReady(es: Entries, acc: Entries)
    requires |es| > 0
    requires forall i | 0 <= i < |es| :: PassSafe(es[i].1) && es[i].0 !in Keys(acc)
    requires DistinctEscapedKeys(es)
    ensures forall i | 0 <= i < |es[1..]| :: PassSafe(es[1..][i].1) && es[1..][i].0 !in Keys(acc + [es[0]])
  {
    var tail := es[1..];
    KeysAppend(acc, [es[0]]);
    forall i | 0 <= i < |tail| ensures PassSafe(tail[i].1) && tail[i].0 !in Keys(acc + [es[0]]) {
      var j: nat := i + 1;
      assert tail[i] == es[j];
      assert EscapedKey(es[j].0) != EscapedKey(es[0].0);
    }
  }

  /** `unserialize(serialize($d))` at the level of the binary-safety pass: the
      data comes back whether or not it needed escaping. The JSON text mentions
      `@utf8encoded` at least when the escaped data has that key. */
  lemma PipelineRoundTrip(d: Value, mentionsMarker: bool)
    requires PassSafe(d)
    requires HasKeyInside(PrepareForJson(d), Utf8EncodedKey) ==> mentionsMarker
    ensures RestoreFromJson(PrepareForJson(d), mentionsMarker) == d
  {
    if AllWellFormed(d) {
      if mentionsMarker {
        DecodeIdentity(d);
      }
    } else {
      MarkerPresent(d);
      RoundTrip(d);
    }
  }

  /** The decoding pass turns JSON data into JSON data. */
  lemma {:induction false} DecodedIsData(d: Value)
    requires IsData(d)
    ensures IsData(DecodeNonUtf8(d))
    ensures IsData(RestoreFromJson(d, true)) && IsData(RestoreFromJson(d, false))
    decreases Size(d), 1
  {
    match d
    case Arr(es) =>
      if IsSet(es, ScalarKey) {
        LookupData(es, ScalarKey);
      } else {
        RemoveSize(es, Utf8EncodedKey);
        RemoveData(es, Utf8EncodedKey);
        DecodeEntriesData(Unflagged(es), FlagsField(es), []);
      }
    case _ =>
  }

  lemma {:induction false} DecodeEntriesData(es: Entries, flags: Value, acc: Entries)
    requires EntriesData(es) && EntriesData(acc)
    ensures EntriesData(DecodeEntries(es, flags, acc))
    decreases EntriesSize(es), 0
  {
    if |es| > 0 {
      EntriesSizeUnfold(es);
      var (k, v) := es[0];
      var f := FlagIn(flags, k);
      if v.Arr? {
        DecodedIsData(v);
      }
      PutData(acc, DecodedKey(f, k), DecodedString(f, ReadBack(v)));
      DecodeEntriesData(es[1..], flags, Put(acc, DecodedKey(f, k), DecodedString(f, ReadBack(v))));
    }
  }
}
