# json-serializer object-graph codec, in Dafny

This project models zumba/json-serializer. It covers two parts:

- **The traversal engine.** It turns a PHP object graph into a JSON tree and back. It keeps an identity map, so shared objects and cycles survive as `{"@type": "@<n>"}` backreferences.
- **Two small registries around it.** One is the closure-serializer registry. The other is the undeclared-property policy setter.

The JSON text layer is outside the model. Both directions work on the JSON tree that `json_encode` receives and `json_decode` returns.

The model has these modules:

- **`Values`** holds the shared data model:
  - PHP values are `Null`, `Bool`, `Int`, `Float` (carried as its PHP string form), `Str` (bytes), ordered arrays (`Arr`), object references `Obj(id)` into a heap, and resources.
  - Arrays are ordered sequences of entries. Their keys are normalised as PHP does (`ArrayKey`).
  - A heap cell is an `Instance(cls, fields)` or a `Closure`.
- **`ByteStrings`** and **`Utf8`** hold byte strings, decimal indices, and RFC 3629 well-formedness. The byte-to-code-point re-encoding is what `mb_convert_encoding($s, 'UTF-8', '8bit')` does: each byte becomes the code point of the same value, U+0000 to U+00FF.
- **`BinarySafety`** is the pass `encodeNonUtf8ToUtf8` / `decodeNonUtf8FromUtf8`, with its `@utf8encoded` bit flags.
- **`FloatAdapter`** is the whole-number float adapter. It covers:
  - the `JsonSerializerFloatAdapter(<s>.0)` wrapping;
  - the `processEncodedValue` regular-expression rewrite, modelled on the JSON text;
  - the three guards: the main serializer's `ctype_digit` guard as written, the corrected one, and the older serializer's `strpos` guard.
- **`ClosureManager`** is `ClosureSerializerManager`.
- **`Engine`** is the main serializer `Zumba\JsonSerializer\JsonSerializer`. **`EngineProperties`** states what it promises call by call. **`EngineRoundTrip`** proves `unserialize(serialize($v))` on object graphs: each object is renamed to its first-visit index, and sharing and cycles are kept.
- **`Legacy`** is the older serializer `Zumba\Util\JsonSerializer`. **`LegacyProperties`** states its per-call promises. **`LegacyAgreement`** proves that both directions compute what the main serializer computes wherever the two do not differ, and derives the older serializer's round trip from that.

Things the model does not open are parameters of the configuration (`Engine.Config`, `Legacy.LegacyConfig`):

- Reflection becomes a table of class facts (`ClassInfo`): declared properties with defaults, `__sleep`, `__wakeup`, `SplDoublyLinkedList`.
- Closure libraries, custom serializers, `__wakeup`, and the native DateTime and `SplDoublyLinkedList` paths are opaque functions.

Where the code and its documentation disagree, the model follows the code, with one exception. The main serializer's float guard at `src/JsonSerializer/JsonSerializer.php` line 251 misses negative whole floats (see "## Findings"). The engine uses the corrected guard. `EngineProperties.FloatEncoding` states exactly which floats it handles differently from the code as written. The other disagreements:

- **Missing backreference index.** A backreference `@<n>` whose index was never registered decodes to null. The code reads `$this->objectMapping[$index]` without a check, so it does not report a dangling-reference error.
- **Unknown `@type`.** An `@type` that is not a string, or names no class, fails with `UnknownClass`.
- **The older serializer's unsupported-value guard** (`src/Util/JsonSerializer.php` line 116) only calls the thrower for values it never throws for. As a result:
  - a closure is walked like any other object and written as `{"@type": "Closure"}`;
  - a resource fails only because `serializationMap` has no entry for it.

## Model

| member | source | states |
|---|---|---|
| ByteStrings.DecimalValue | src/JsonSerializer/JsonSerializer.php:433-434 | reading back the digits of an index written after `@` gives that index |
| ByteStrings.CanonicalIsDecimal | src/JsonSerializer/JsonSerializer.php:433-434 | every canonical digit string is the rendering of its own value, so index rendering and reading are inverse |
| Values.HighByteKeepsStringKey | src/JsonSerializer/JsonSerializer.php:161-162 | a key holding a byte of 0x80 or more is never turned into an integer key |
| Utf8.Latin1ToUtf8WellFormed | src/JsonSerializer/JsonSerializer.php:144-146 | the byte-to-code-point re-encoding always yields well-formed UTF-8 |
| Utf8.Latin1RoundTrip | src/JsonSerializer/JsonSerializer.php:386 | converting a re-encoded string back to 8bit recovers every byte string exactly |
| Utf8.IllFormedHasHighByte | src/JsonSerializer/JsonSerializer.php:144 | a string that is not well-formed UTF-8 holds a byte of 0x80 or more |
| BinarySafety.EncodeNonUtf8 | src/JsonSerializer/JsonSerializer.php:141-183 | a well-formed string is kept, an ill-formed one is wrapped under `@scalar` and the decoding pass gives it back, and anything changed comes out as an array. `RoundTrip`, `EncodedIsWellFormed` and `EncodedIsData` carry the array case |
| BinarySafety.SetBit | src/JsonSerializer/JsonSerializer.php:163-164 | `|=` of one flag bit sets that bit and keeps the other |
| BinarySafety.MarkEntrySpec | src/JsonSerializer/JsonSerializer.php:161-172 | one entry adds exactly one flag entry under its escaped key (1, 2 or 3), or none when nothing was escaped |
| BinarySafety.EncodeEntriesSpec | src/JsonSerializer/JsonSerializer.php:154-176 | the encoder loop yields the escaped entries in order, and the flags of exactly the escaped entries |
| BinarySafety.LookupSpecFlags | src/JsonSerializer/JsonSerializer.php:163-171 | the flag recorded for an escaped key is bit 1 if the key was escaped plus bit 2 if the value was, absent when neither was |
| BinarySafety.DecodeEntriesSpec | src/JsonSerializer/JsonSerializer.php:398-415 | the decoder loop reverses exactly the flagged keys and values, giving back the original entries |
| BinarySafety.UnescapeEscapedKey | src/JsonSerializer/JsonSerializer.php:407 | a re-encoded key converts back to the original key |
| BinarySafety.EscapedKeyNotReserved | src/JsonSerializer/JsonSerializer.php:179 | escaping never produces `@scalar` or `@utf8encoded` from another key |
| BinarySafety.RoundTrip | src/JsonSerializer/JsonSerializer.php:141-183 | decoding the encoded form gives back every string and array whose escaped keys stay distinct and that does not use the reserved keys |
| BinarySafety.EncodedIsWellFormed | src/JsonSerializer/JsonSerializer.php:141-183 | after the pass every string and key is well-formed UTF-8, so the second `json_encode` cannot fail for UTF-8 |
| BinarySafety.MarkerPresent | src/JsonSerializer/JsonSerializer.php:178-180 | when anything was escaped, the output carries an `@utf8encoded` key, so the decoder's text test sees it |
| BinarySafety.ScalarMarkerCoerced | src/JsonSerializer/JsonSerializer.php:385-387 | without strict types a non-string under `@scalar` is decoded to its string form: `{"@scalar": 5, "@utf8encoded": 2}` gives `"5"` |
| BinarySafety.DecodeNonUtf8 | src/JsonSerializer/JsonSerializer.php:383-418 | a scalar or null is returned as it is, a string under `@scalar` is converted back to 8-bit bytes, and any other array stays an array. `RoundTrip`, `DecodeIdentity` and `DecodedIsData` carry the array case |
| BinarySafety.DecodeIdentity | src/JsonSerializer/JsonSerializer.php:383-418 | the decoding pass leaves unchanged all data that avoids the reserved keys and whose escaped keys stay distinct |
| BinarySafety.EncodedIsData | src/JsonSerializer/JsonSerializer.php:141-183 | the encoding pass yields JSON data |
| BinarySafety.DecodedIsData | src/JsonSerializer/JsonSerializer.php:383-418 | the decoding pass yields JSON data |
| BinarySafety.PipelineRoundTrip | src/JsonSerializer/JsonSerializer.php:213-215 | the pass that `serialize` applies when needed, undone when `unserialize` sees the marker, is the identity on pass-safe data |
| FloatAdapter.AdapterSpelling | src/JsonSerializer/JsonSerializer.php:19 | the adapter name is `JsonSerializerFloatAdapter` |
| FloatAdapter.AdaptFloat | src/JsonSerializer/JsonSerializer.php:251-255 | corrected guard: for any finite float the text can be read as, the float is wrapped exactly when zero fractions are not preserved and it has no fractional part, whatever its sign; otherwise it is unchanged |
| FloatAdapter.AdaptFloatAsWritten | src/JsonSerializer/JsonSerializer.php:251-255 | as written: for any finite float the text can be read as, the float is wrapped exactly when zero fractions are not preserved, it has no fractional part and it is not negative |
| FloatAdapter.AdaptFloatUtil | src/Util/JsonSerializer.php:363-372 | for any finite float the text can be read as, the float is wrapped exactly when zero fractions are not preserved and it has no fractional part |
| FloatAdapter.MainGuardsDiffer | src/JsonSerializer/JsonSerializer.php:251 | line 251 as written and the corrected guard choose differently exactly on a minus sign followed by digits only, when zero fractions are not preserved |
| FloatAdapter.Strip | src/JsonSerializer/JsonSerializer.php:191-197 | the rewrite never lengthens the text and leaves text without a double quote alone. `StripWrapped` states that it undoes the adapter, and `StripNoAdapter` that it keeps everything else |
| FloatAdapter.FindClose | src/JsonSerializer/JsonSerializer.php:194 | the lazy group ends at the first `)"` and never crosses a line break |
| FloatAdapter.StripPlain | src/JsonSerializer/JsonSerializer.php:191-197 | a stretch of JSON text without a double quote passes through the rewrite unchanged |
| FloatAdapter.StripNoAdapter | src/Util/JsonSerializer.php:182-189 | text in which the pattern never starts is left unchanged |
| FloatAdapter.StripWrapped | src/Util/JsonSerializer.php:185 | a quoted wrapped float is replaced by the float's text followed by `.0` |
| FloatAdapter.RenderHasNoCloser | src/JsonSerializer/JsonSerializer.php:254 | a float's string form holds no `)`, no line break and no quote, so the rewrite finds the wrapper's end |
| FloatAdapter.RenderShape | src/JsonSerializer/JsonSerializer.php:251 | a float's string form is an integer numeral exactly when it has no fraction, has a dot exactly when it has one, and is all digits exactly when it is also non-negative |
| FloatAdapter.UtilGuardIsWhole | src/Util/JsonSerializer.php:365 | the older serializer's no-dot guard agrees with the whole-number test on every finite float |
| FloatAdapter.MainGuardMissesNegativeWhole | src/JsonSerializer/JsonSerializer.php:251 | as written, `-17.0` is not wrapped and reaches the JSON text as the integer numeral `-17` |
| FloatAdapter.AdaptedFloatStaysFloat | src/JsonSerializer/JsonSerializer.php:251-254 | with the corrected guard, the number in the final text is the float's own text, plus `.0` when it was whole, and never an integer numeral |
| FloatAdapter.UtilAdaptedFloatStaysFloat | src/Util/JsonSerializer.php:363-372 | the older serializer never lets a float reach the text as an integer numeral |
| ClosureManager.AddSerializer | src/JsonSerializer/ClosureSerializer/ClosureSerializerManager.php:28-34 | the instance is stored under its class name, replacing any earlier instance of that class; every other class keeps its entry; the registry stays one instance per class |
| ClosureManager.StoreSpec | src/JsonSerializer/ClosureSerializer/ClosureSerializerManager.php:32 | after the assignment the name holds the new instance, other names are unchanged, and no entry is invented |
| ClosureManager.StoreValid | src/JsonSerializer/ClosureSerializer/ClosureSerializerManager.php:32 | the assignment keeps class names distinct and each entry under its own class |
| ClosureManager.GetSerializer | src/JsonSerializer/ClosureSerializer/ClosureSerializerManager.php:61-67 | an instance is returned exactly when one is registered under the name, and it is that registered instance |
| ClosureManager.FindSpec | src/JsonSerializer/ClosureSerializer/ClosureSerializerManager.php:63-64 | a lookup finds an entry exactly when the name is registered, and returns that entry's instance |
| ClosureManager.GetPreferredSerializer | src/JsonSerializer/ClosureSerializer/ClosureSerializerManager.php:41-53 | null exactly when nothing is registered; Opis when registered; else SuperClosure when registered; else the first registered instance |
| ClosureManager.PreferredIgnoresOrder | src/JsonSerializer/ClosureSerializer/ClosureSerializerManager.php:47-51 | when a preferred class is registered, the choice depends only on which instance each name holds |
| ClosureManager.SingleIsPreferred | src/JsonSerializer/ClosureSerializer/ClosureSerializerManager.php:41-53 | a single registered serializer is the preferred one, whatever its class |
| ClosureManager.FallbackIsFirstRegistered | src/JsonSerializer/ClosureSerializer/ClosureSerializerManager.php:52 | with no preferred class, the first registration is returned and a later one does not displace it |
| Engine.EngineSpelling | src/JsonSerializer/JsonSerializer.php:15-16 | the reserved keys are `@type` and `@closure`, and the class the main serializer restores natively is `DateTime` |
| Engine.SetUndeclaredPropertyMode | src/JsonSerializer/JsonSerializer.php:227-239 | values 1, 2 and 3 are accepted and select their mode with the rest of the configuration unchanged; anything else fails with `InvalidArgument` |
| Engine.IndexOf | src/JsonSerializer/JsonSerializer.php:285 | an attached object's index is the position it was attached at |
| Engine.Unique | src/JsonSerializer/JsonSerializer.php:325 | `array_unique` keeps exactly the same keys, each once, in the order of their first occurrence, which fixes the order of properties in the output |
| Engine.Properties | src/JsonSerializer/JsonSerializer.php:315-326 | with `__sleep`, its list for this instance; otherwise every declared and every instance property, each once, declared ones first. `Unique` gives the order within each group |
| Engine.Extract | src/JsonSerializer/JsonSerializer.php:336-349 | the extracted array has exactly the listed properties as keys |
| EngineProperties.FloatEncoding | src/JsonSerializer/JsonSerializer.php:251-255 | a float is encoded through the adapter without touching the identity map. The result differs from line 251 as written exactly for a negative whole float without zero-fraction support |
| Engine.SerializeData | src/JsonSerializer/JsonSerializer.php:248-274 | on success the identity map only grows, names distinct objects of the heap, and the output is JSON data with no object or resource left |
| Engine.SerializeEntries | src/JsonSerializer/JsonSerializer.php:262 | the mapped array has the same keys in the same order, and its values are JSON data |
| Engine.SerializeObject | src/JsonSerializer/JsonSerializer.php:282-306 | on success the identity map only grows and the object's encoding is JSON data |
| Engine.Serialize | src/JsonSerializer/JsonSerializer.php:101-119 | `serialize` fails exactly when the walk fails, and leaves the walk's output untouched when all of it is UTF-8 |
| Engine.Register | src/JsonSerializer/JsonSerializer.php:466 | a natively or custom-built object is registered at the next index: a later `@<n>` for that index resolves to exactly the returned object, and every earlier index still resolves as before |
| Engine.SetProperty | src/JsonSerializer/JsonSerializer.php:471 | setting one property changes only that instance, and only that property |
| Engine.UnserializeData | src/JsonSerializer/JsonSerializer.php:357-375 | on success the decoder only adds objects and mappings, and the result points into the heap |
| Engine.UnserializeEntries | src/JsonSerializer/JsonSerializer.php:374 | the mapped array has the same keys in the same order |
| Engine.UnserializeObject | src/JsonSerializer/JsonSerializer.php:427-489 | on success the decoder only adds objects and mappings, and the result points into the heap |
| Engine.Resolve | src/JsonSerializer/JsonSerializer.php:432-435 | a backreference yields a registered object or null |
| Engine.UnserializeInstance | src/JsonSerializer/JsonSerializer.php:453-488 | a user-defined object is the next heap cell and is what the branch returns |
| Engine.UnserializeProps | src/JsonSerializer/JsonSerializer.php:467-484 | the property loop touches no other existing object, keeps its instance's class, and only extends the heap and the mapping |
| Engine.Unserialize | src/JsonSerializer/JsonSerializer.php:205-218 | the decoded value points into the decoded heap |
| EngineProperties.ModeCodeAccepted | src/JsonSerializer/JsonSerializer.php:229-237 | each mode constant is accepted and selects exactly its mode |
| EngineProperties.RevisitIsBackref | src/JsonSerializer/JsonSerializer.php:284-286 | an attached object encodes as `{"@type": "@<index>"}` alone and the identity map is unchanged |
| EngineProperties.NewObjectTakesNextIndex | src/JsonSerializer/JsonSerializer.php:287-298 | a new object is attached at the next index before its properties are walked, and its encoding opens with `@type` set to its class |
| EngineProperties.SerializeStartsFresh | src/JsonSerializer/JsonSerializer.php:516-521 | `serialize` starts from an empty identity map: the first object met takes index 0 |
| EngineProperties.CustomEncoding | src/JsonSerializer/JsonSerializer.php:291-295 | a custom serializer replaces the property walk: `@type` stays first, a clashing custom `@type` is dropped, every other key is the custom array's, and the object still takes an index |
| EngineProperties.CustomEncodes | src/JsonSerializer/JsonSerializer.php:292-293 | without a clashing key, the encoding is the class entry followed by the custom array |
| EngineProperties.CustomDecoding | src/JsonSerializer/JsonSerializer.php:437-441 | a custom class decodes through its custom serializer on the array without `@type`, registered at the next index |
| EngineProperties.CustomRoundTrip | src/JsonSerializer/JsonSerializer.php:291-295 | decoding a custom-encoded object hands the custom decoder exactly the array the custom encoder produced |
| EngineProperties.EncodeRefusals | src/JsonSerializer/JsonSerializer.php:258-267 | a resource is refused, and so is a closure when no closure serializer was given |
| EngineProperties.ClosureRoundTrip | src/JsonSerializer/JsonSerializer.php:264-272 | a closure becomes `{"@closure": true, "value": <code>}` without an index, and decoding it hands the code back to the closure serializer |
| EngineProperties.ClosureNeedsBackend | src/JsonSerializer/JsonSerializer.php:367-370 | without a closure serializer, a truthy `@closure` array without `@type` is refused |
| Engine.BackrefIndex | src/JsonSerializer/JsonSerializer.php:433 | the key spelled after `@` is the integer index that was written |
| EngineProperties.BackrefResolves | src/JsonSerializer/JsonSerializer.php:432-435 | `@<n>` decodes to the object registered at `n`, or to null when there is none, and changes nothing |
| EngineProperties.UnserializeStartsFresh | src/JsonSerializer/JsonSerializer.php:207 | `unserialize` starts from an empty mapping: a lone backreference decodes to null |
| EngineProperties.UnknownClassRefused | src/JsonSerializer/JsonSerializer.php:443-445 | a name that is no backreference, no custom class and no class is refused, even when `@closure` is set as well |
| EngineProperties.DateTimeRegistered | src/JsonSerializer/JsonSerializer.php:447-451 | `DateTime` is restored natively from the array without `@type` and registered at the next index |
| EngineProperties.SplListEncoding | src/JsonSerializer/JsonSerializer.php:300-302 | a linked list is written as its class and its native serialization under `value`, and takes an index |
| EngineProperties.SplListRegistered | src/JsonSerializer/JsonSerializer.php:453-464 | a linked-list class is restored from `value` (null when absent) and registered at the next index |
| EngineProperties.SelfReferenceDecodes | src/JsonSerializer/JsonSerializer.php:466-471 | the instance is registered before its properties are decoded, so a property pointing back at it decodes to the instance itself |
| EngineProperties.WakeupRunsLast | src/JsonSerializer/JsonSerializer.php:485-487 | `__wakeup` runs on the instance the property loop left, and the object fails exactly when the loop does |
| EngineProperties.PropsRefuses | src/JsonSerializer/JsonSerializer.php:479-480 | in mode 3 an undeclared key stops the loop with `UndeclaredProperty` |
| EngineProperties.DecodePropsFails | src/JsonSerializer/JsonSerializer.php:471 | when the next property is kept and its value fails to decode, the loop fails |
| EngineProperties.IgnoreModeDropsUndeclared | src/JsonSerializer/JsonSerializer.php:477-478 | in mode 2, undeclared properties are dropped without being decoded: the state is unchanged |
| EngineProperties.IgnoreModeSkips | src/JsonSerializer/JsonSerializer.php:468-478 | in mode 2 the loop passes over an undeclared key and continues from the same state |
| EngineProperties.IgnoreModeKeepsDeclared | src/JsonSerializer/JsonSerializer.php:467-483 | in mode 2 the loop computes exactly what it computes on the declared entries alone, in their order |
| EngineProperties.IgnoreModeNeverSets | src/JsonSerializer/JsonSerializer.php:467-483 | in mode 2 a key the class does not declare never becomes a property of the instance |
| EngineProperties.ExceptionModeRefusesUndeclared | src/JsonSerializer/JsonSerializer.php:473-482 | in mode 3, any undeclared property anywhere in the array makes the object fail |
| EngineProperties.SetModeSetsAll | src/JsonSerializer/JsonSerializer.php:467-476 | in mode 1, every property of the array ends up on the object, declared or not |
| EngineProperties.PropsKeepKeys | src/JsonSerializer/JsonSerializer.php:467-484 | the property loop never removes a property |
| EngineRoundTrip.DataRoundTrip | src/JsonSerializer/JsonSerializer.php:248-489 | from matching states, encoding then decoding gives the value's renaming, and each object attached on the way is restored |
| EngineRoundTrip.ObjectGraphRoundTrip | src/JsonSerializer/JsonSerializer.php:248-489 | from fresh states, decoding the encoded tree gives the value with each object renamed to its first-visit index; one object is rebuilt per object reached, with the same class and renamed properties |
| EngineRoundTrip.SerializeRoundTrip | src/JsonSerializer/JsonSerializer.php:101-218 | the same through `serialize` and `unserialize` with the binary-safety pass included |
| EngineRoundTrip.ImageKeepsIdentity | src/JsonSerializer/JsonSerializer.php:284-287 | two references decode to the same object exactly when they referred to the same object |
| EngineRoundTrip.ImageIsObj | src/JsonSerializer/JsonSerializer.php:284-287 | a value decodes to the `j`-th object exactly when it referred to the `j`-th attached object |
| EngineRoundTrip.EdgePreserved | src/JsonSerializer/JsonSerializer.php:466-471 | property `k` of the `i`-th decoded object points at the `j`-th exactly when it did in the original, so cycles come back as cycles |
| Legacy.LegacySpelling | src/Util/JsonSerializer.php:48-54 | the DateTime family is `DateTime`, `DateTimeImmutable`, `DateTimeZone`, `DateInterval` and `DatePeriod`, in that order |
| Legacy.GetSerializer | src/Util/JsonSerializer.php:152-158 | a resource has no route, an array goes to `serializeArray`, a `DatePeriod` instance to `serializeDatePeriod`, and null and the other scalars to `serializeScalar`. `LegacyProperties.ResourceRefused` states the refusal that follows |
| Legacy.IsDateTimeFamilyObject | src/Util/JsonSerializer.php:271-280 | true exactly when the class is one of the five listed names or extends one |
| Legacy.SerializeScalar | src/Util/JsonSerializer.php:363-372 | everything but a float is returned unchanged |
| Legacy.SerializeData | src/Util/JsonSerializer.php:114-123 | on success the identity map only grows, names distinct objects, and the output is JSON data |
| Legacy.SerializeArray | src/Util/JsonSerializer.php:379-382 | keys are kept in order and the values are JSON data |
| Legacy.SerializeObject | src/Util/JsonSerializer.php:391-405 | on success the identity map only grows and the encoding is JSON data |
| Legacy.Serialize | src/Util/JsonSerializer.php:86-93 | `serialize` produces JSON exactly when the walk succeeds and every string and key of its output is well-formed UTF-8, because `json_encode` has no UTF-8 handling here; otherwise the walk's error, or `EncodeFailed` for ill-formed UTF-8 |
| Legacy.UnserializeData | src/Util/JsonSerializer.php:212-220 | on success the decoder only adds objects and mappings, and the result points into the heap |
| Legacy.UnserializeArray | src/Util/JsonSerializer.php:219 | the mapped array has the same keys in the same order |
| Legacy.UnserializeObject | src/Util/JsonSerializer.php:231-246 | on success the decoder only adds objects and mappings, and the result points into the heap |
| Legacy.UnserializeUserDefinedObject | src/Util/JsonSerializer.php:306-319 | the new object is the next heap cell and is what is returned |
| Legacy.SetProperties | src/Util/JsonSerializer.php:328-341 | the loop touches only its own instance and keeps its class |
| Legacy.Unserialize | src/Util/JsonSerializer.php:198-203 | the decoded value points into the decoded heap |
| LegacyProperties.StringNeedsUtf8 | src/Util/JsonSerializer.php:86-93 | a string is written as it is when it is well-formed UTF-8, and `serialize` produces no JSON otherwise |
| LegacyProperties.ScalarsUnchanged | src/Util/JsonSerializer.php:152-158 | null, booleans, integers and strings are routed to `serializeScalar` and come back unchanged |
| LegacyProperties.FloatAdapted | src/Util/JsonSerializer.php:363-372 | without zero-fraction support, a float with no dot becomes `JsonSerializerFloatAdapter(<s>.0)`; any other float is unchanged |
| LegacyProperties.ResourceRefused | src/Util/JsonSerializer.php:59-67 | a resource has no route and is refused |
| LegacyProperties.RevisitIsBackref | src/Util/JsonSerializer.php:394-396 | an attached object encodes as `{"@type": "@<index>"}` alone and the identity map is unchanged |
| LegacyProperties.NewObjectTakesNextIndex | src/Util/JsonSerializer.php:398-402 | a new object is attached at the next index before its properties are walked, and its encoding opens with its class |
| LegacyProperties.ClosureIsBareObject | src/Util/JsonSerializer.php:391-405 | a closure is walked like an object with no properties: `{"@type": "Closure"}`, taking an index |
| LegacyProperties.SerializeStartsFresh | src/Util/JsonSerializer.php:98-103 | the first object `serialize` meets takes index 0 |
| LegacyProperties.ScalarsPassThrough | src/Util/JsonSerializer.php:214-216 | scalars and null decode to themselves |
| LegacyProperties.BackrefResolves | src/Util/JsonSerializer.php:236-238 | `@<n>` decodes to the object registered at `n`, or null, and changes nothing |
| LegacyProperties.UnserializeStartsFresh | src/Util/JsonSerializer.php:198-203 | `unserialize` starts with an empty mapping: a lone backreference decodes to null |
| LegacyProperties.UnknownClassRefused | src/Util/JsonSerializer.php:240-242 | a name that is no backreference and no class is refused |
| LegacyProperties.DateTimeFamilyRegistered | src/Util/JsonSerializer.php:254-264 | a DateTime family class is restored natively from the array without `@type` and registered at the next index |
| LegacyProperties.SelfReferenceDecodes | src/Util/JsonSerializer.php:306-312 | the instance is registered before its properties are set, so a property pointing back at it decodes to the instance itself |
| LegacyProperties.WakeupRunsLast | src/Util/JsonSerializer.php:312-316 | `__wakeup` runs on the instance the property loop left, and the object fails exactly when the loop does |
| LegacyProperties.SetsEveryProperty | src/Util/JsonSerializer.php:328-341 | every property of the array ends up on the object, declared or not |
| LegacyProperties.SetKeepsKeys | src/Util/JsonSerializer.php:330-338 | the property loop never removes a property |
| LegacyAgreement.EncodeDataAgrees | src/Util/JsonSerializer.php:114-123 | on heaps without closures or linked lists, with zero fractions preserved, the older encoder computes exactly the tree and identity map of the main encoder configured without custom or closure serializers |
| LegacyAgreement.EncodeArrayAgrees | src/Util/JsonSerializer.php:379-382 | the same for arrays |
| LegacyAgreement.EncodeObjectAgrees | src/Util/JsonSerializer.php:391-405 | the same for objects |
| LegacyAgreement.DecodeDataAgrees | src/Util/JsonSerializer.php:212-220 | on data without a bare `@closure` marker, with no linked-list class and DateTime the only DateTime family class, the older decoder computes exactly what the main decoder does in mode 1 without custom serializers |
| LegacyAgreement.DecodeArrayAgrees | src/Util/JsonSerializer.php:219 | the same for arrays |
| LegacyAgreement.DecodeObjectAgrees | src/Util/JsonSerializer.php:231-246 | the same for objects |
| LegacyAgreement.DecodeInstanceAgrees | src/Util/JsonSerializer.php:306-319 | the same for user-defined objects |
| LegacyAgreement.DecodePropsAgrees | src/Util/JsonSerializer.php:328-341 | the older property loop is mode 1 of the main one |
| LegacyAgreement.EncodedDataMarkerFree | src/JsonSerializer/JsonSerializer.php:248-306 | the main encoder's output on plain graphs has no bare `@closure` marker |
| LegacyAgreement.LegacyRoundTrip | src/Util/JsonSerializer.php:86-203 | `unserialize(serialize($v))` of the older serializer rebuilds plain graphs whose encoding is well-formed UTF-8, up to renaming, with sharing and cycles kept |

## Left out

- The JSON text layer is left out: `json_encode`, `json_decode`, their options, the `JSON_ERROR_UTF8` retry and invalid-JSON errors. The model works on the JSON tree. "The text mentions `@utf8encoded`" is a boolean parameter of `Engine.Unserialize`. "`json_encode` fails on non-UTF-8" is the predicate `BinarySafety.AllWellFormed`.
- `mb_check_encoding` and `mb_convert_encoding` are modelled as RFC 3629 well-formedness and the byte-to-code-point map. This assumes the `8bit` charset maps byte `b` to U+00`b`. A scalar passed to `mb_convert_encoding` is first turned into its string form, since the file does not declare strict types.
- `BinarySafety.DecodeNonUtf8` differs from PHP on crafted input that the encoding pass never produces:
  - a flagged array value is returned unchanged, where `mb_convert_encoding` converts its values and keys recursively;
  - a flag that is not an integer counts as 0, where PHP's `&` converts a numeric string, float or boolean to an integer, and raises a `TypeError` for an array or a non-numeric string.
- Reflection, `newInstanceWithoutConstructor`, `setAccessible`, visibility and inherited private properties are left out. Class facts are a table, and a new instance starts from its declared defaults.
- `Engine.Properties`: static properties are left out. `ReflectionClass::getProperties()` also lists them, so PHP encodes the class's static value and `setValue` writes it back to the class. The model lists only instance properties; a name the instance lacks reads as null and is written into the instance. `__sleep` is modelled per instance, as a function of the instance's properties.
- Uninitialized typed properties are left out.
- DateTime restoration (patched native `serialize`/`unserialize`), `SplDoublyLinkedList::serialize`/`unserialize`, `__wakeup`, closure libraries and custom serializers are opaque functions of the configuration.
- PHP integer width and overflow are not modelled. Object indices are unbounded naturals.
- Float formatting is not modelled: a float is its PHP string form. Locale-dependent rendering and NaN or infinity rejection by `json_encode` are left out.
- Loose comparisons are left out:
  - `in_array` in the mode setter: the model takes an integer argument, as documented;
  - `class_exists` autoloading;
  - `$className[0]` on an empty string.
- A non-string `@type` fails with `UnknownClass`. For an integer, float or boolean this is what PHP does: `$className[0]` only warns, `class_exists` fails on the converted name, and line 444 of `src/JsonSerializer/JsonSerializer.php` throws `Unable to find class`. For an array `@type`, PHP raises a `TypeError` at `array_key_exists` instead.
- `Engine.Serialize`: only the case where the walk's output is all well-formed UTF-8 is stated exactly. Otherwise the output is the binary-safety pass applied to it; `EngineRoundTrip.SerializeRoundTrip` covers that case on data the pass is exact on.
- `BinarySafety.RoundTrip` assumes escaped keys stay distinct and avoid the two reserved keys. On a collision, line 175 of the main serializer overwrites an entry and the round trip fails.
- `EngineRoundTrip.ObjectGraphRoundTrip` covers plain graphs only:
  - mode 1 and zero-fraction support;
  - instances of existing classes that hold their declared properties and have no custom serializer, `__sleep`, `__wakeup`, DateTime or linked-list path;
  - arrays that do not use `@type` or `@closure` as keys;
  - no resources or closures.
  The per-call lemmas cover the other paths one by one.
- Enum support and `addClosureSerializer` appear only in the tests. The serializer shown holds a single closure serializer.
- The per-call closure serializer registry of the main class is `Engine.Config.closures`. `ClosureManager` is modelled on its own, because the engine shown does not consult it.
- `Legacy.SerializeData` excludes `DatePeriod` instances through `Legacy.LegacyReady`. `serializeDatePeriod` iterates a native period object, which is not modelled.
- `Legacy.SerializeData`: the unsupported-value guard at line 116 of `src/Util/JsonSerializer.php` never throws, so it is not modelled as a rejection. A resource fails because `serializationMap` has no entry for it; PHP raises an engine error there rather than `JsonSerializerException`.
- Decoding `{"@type": "Closure"}` with the older serializer builds an instance of class `Closure` when the configuration lists it. PHP's reflection would fail.
- `LegacyAgreement.EncodeDataAgrees` is stated with zero-fraction support. Without it the two serializers differ only in the float guard. The older `strpos` guard agrees with the engine's corrected guard on every finite float (`FloatAdapter.UtilGuardIsWhole`). It agrees with line 251 as written only on floats that are not negative whole numbers. On a negative whole float such as `-17.0` the older serializer wraps while the code as written does not; that is the "## Findings" row, and `FloatAdapter.MainGuardsDiffer` pins the difference.
- `Engine.SerializeData` uses the corrected float guard on purpose, as the "## Findings" row records. On a negative whole float without zero-fraction support it emits the wrapped string where line 251 as written emits the bare float. `EngineProperties.FloatEncoding` states that this is the only difference.
- `LegacyAgreement.DecodeDataAgrees` is stated for configurations where DateTime is the only DateTime family class. On other family classes the older serializer restores natively where the main one walks properties.

## Findings

| source | as written | input that shows it | evidently intended | confidence | as-written member | corrected member |
|---|---|---|---|---|---|---|
| src/JsonSerializer/JsonSerializer.php:251 | `ctype_digit((string)$value)` decides whether a float is whole | `-17.0`: its string form `-17` is not all digits, so it is encoded bare and reads back as the integer `-17` | wrap every float whose string form is an integer numeral, sign included, as the older serializer's `strpos` guard does | not executed | FloatAdapter.MainGuardMissesNegativeWhole | FloatAdapter.AdaptedFloatStaysFloat |
