/** Which refusal a document gets: the errors of the two document layers, tied to what is wrong with the bytes. */
module DocumentErrors {
  import opened Bytes
  import opened CborExamples
  import opened CborHeads
  import opened CborValues
  import opened LenientDecoder
  import opened LenientCompleteness
  import opened LenientRefusals
  import opened Results
  import RustDocument
  import Python = StrictDecoder
  import PythonCorrect = StrictCorrectness
  import PythonDocument = StrictDocument

  // ---------------------------------------------------------------- the document as a whole

  /** Too many bytes, none at all, or a first byte that no manifest value starts with. */
  lemma FirstByteRefused(input: bytes, limits: CborLimits)
    ensures var r := RustDocument.DecodeDocument(input, limits);
            && (|input| > limits.maxManifestBytes ==> r == Err(ResourceLimit))
            && (input == [] ==> r == Err(MalformedCbor))
            && (0 < |input| <= limits.maxManifestBytes ==>
                  && (input[0] in {0x5F, 0x7F, 0x9F, 0xBF} ==> r == Err(IndefiniteLength))
                  && (0x40 <= input[0] <= 0x5B || 0xC0 <= input[0] <= 0xDB ==> r == Err(UnsupportedCborType))
                  && (0xE0 <= input[0] <= 0xF3 || input[0] >= 0xF6 ==> r == Err(UnsupportedCborType)))
  {
    hide Enc, DecodeItems, DecodeEntries, TakeText, TakeHead, ValidUtf8;
  }

  /** A document that the decoder reads to its end, but with a head wider than necessary somewhere, is refused as not
      deterministic, whatever the head and wherever it stands. */
  lemma WideHeadRefused(input: bytes, limits: CborLimits)
    requires 0 < |input| <= limits.maxManifestBytes && DecodeValue(input, 0, limits, 0).Ok?
    requires DecodeValue(input, 0, limits, 0).value.next == |input| && !DecodeValue(input, 0, limits, 0).value.preferred
    ensures RustDocument.DecodeDocument(input, limits) == Err(NonDeterministicCbor)
    ensures CategoryOf(NonDeterministicCbor) == CatNonDeterministic
  {
    hide Enc, InProfile, DecodeValue;
    RustDocument.ReencodingDiffersExactlyWhenWide(input, limits);
  }

  // ---------------------------------------------------------------- keys

  /** Two entries one after the other, as a map of two would be written. */
  ghost function TwoEntryMap(a: Text, v: Value, b: Text, w: Value): bytes {
    [0xA2] + (EncodeText(a) + (Enc(v) + (EncodeText(b) + Enc(w))))
  }

  lemma TextKeyEquation(s: bytes, pos: nat, limits: CborLimits, seen: set<Text>, previous: Option<bytes>,
          key: Decoded<Text>)
    requires pos <= |s| && PeekType(s, pos) == Ok(StringItem) && TakeText(s, pos) == Ok(key)
    ensures DecodeKey(s, pos, limits, seen, previous) ==
            if |key.value| > limits.maxStringBytes then Err(ResourceLimit)
            else if key.value in seen then Err(DuplicateKey)
            else if previous.Some? && CompareEncodedKeys(previous.value, s[pos..key.next]) != Less then Err(MapKeyOrder)
            else Ok(key)
  {
    hide TakeText, PeekType, CompareEncodedKeys, ValidUtf8;
  }

  lemma KeyRefused(s: bytes, pos: nat, b: Text, limits: CborLimits, seen: set<Text>, previous: bytes)
    requires |b| <= limits.maxStringBytes && At(s, pos, EncodeText(b))
    requires b in seen || CompareEncodedKeys(previous, EncodeText(b)) != Less
    ensures pos <= |s|
    ensures DecodeKey(s, pos, limits, seen, Some(previous)) == Err(if b in seen then DuplicateKey else MapKeyOrder)
  {
    hide *;
    UsizeIsArgument(limits.maxStringBytes);
    TakesEncodedText(s, pos, b);
    AtMeans(s, pos, EncodeText(b));
    TextKeyEquation(s, pos, limits, seen, Some(previous), Decoded(b, pos + |EncodeText(b)|, true));
  }

  lemma EntryRead(s: bytes, pos: nat, n: nat, a: Text, v: Value, limits: CborLimits, depth: nat)
    requires n > 0 && |a| <= limits.maxStringBytes && InProfile(v, limits, depth)
    requires At(s, pos, EncodeText(a)) && At(s, pos + |EncodeText(a)|, Enc(v))
    ensures DecodeEntries(s, pos, n, limits, depth, map[], None, true)
         == DecodeEntries(s, pos + |EncodeText(a)| + |Enc(v)|, n - 1, limits, depth, map[a := v], Some(EncodeText(a)),
                          true)
  {
    hide *;
    UsizeIsArgument(limits.maxStringBytes);
    KeyDecodes(s, pos, a, limits, {}, None);
    ValueComplete(s, pos + |EncodeText(a)|, v, limits, depth);
    AtMeans(s, pos, EncodeText(a));
    AtMeans(s, pos + |EncodeText(a)|, Enc(v));
    EntriesEquation(s, pos, n, limits, depth, map[], None, true);
    var none: map<Text, Value> := map[];
    assert none.Keys == {};
    assert none[a := v] == map[a := v];
  }

  lemma RefusedEntry(s: bytes, pos: nat, n: nat, b: Text, limits: CborLimits, depth: nat, entries: map<Text, Value>,
          previous: bytes)
    requires n > 0 && pos <= |s| && DecodeKey(s, pos, limits, entries.Keys, Some(previous)).Err?
    ensures DecodeEntries(s, pos, n, limits, depth, entries, Some(previous), true)
         == Err(DecodeKey(s, pos, limits, entries.Keys, Some(previous)).error)
  {
    hide *;
    EntriesEquation(s, pos, n, limits, depth, entries, Some(previous), true);
  }

  lemma MapRefused(s: bytes, n: nat, limits: CborLimits, e: CborError)
    requires n <= limits.maxMapPairs && At(s, 0, EncodeHead(5, n))
    requires |EncodeHead(5, n)| <= |s|
    requires DecodeEntries(s, |EncodeHead(5, n)|, n, limits, 1, map[], None, true) == Err(e)
    ensures DecodeValue(s, 0, limits, 0) == Err(e)
  {
    hide *;
    UsizeIsArgument(n);
    PeekEncodedHead(s, 0, 5, n);
    MapEquation(s, 0, limits, 0);
  }

  lemma SecondKeyFails(a: Text, v: Value, b: Text, w: Value, limits: CborLimits)
    requires InProfile(v, limits, 1) && |a| <= limits.maxStringBytes && |b| <= limits.maxStringBytes
    requires 2 <= limits.maxMapPairs && !KeyLess(a, b)
    ensures DecodeValue(TwoEntryMap(a, v, b, w), 0, limits, 0) == Err(if a == b then DuplicateKey else MapKeyOrder)
  {
    hide *;
    var s := TwoEntryMap(a, v, b, w);
    var e := if a == b then DuplicateKey else MapKeyOrder;
    TwoEntriesAt(a, v, b, w);
    SecondKeyBad(a, b);
    ShortHead(5, 2);
    EntryRead(s, 1, 2, a, v, limits, 1);
    var pos := 1 + |EncodeText(a)| + |Enc(v)|;
    var one := map[a := v];
    assert one.Keys == {a};
    KeyRefused(s, pos, b, limits, one.Keys, EncodeText(a));
    RefusedEntry(s, pos, 1, b, limits, 1, one, EncodeText(a));
    MapRefused(s, 2, limits, e);
  }

  lemma KeyKind(s: bytes, pos: nat, limits: CborLimits)
    requires pos < |s|
    ensures var r := DecodeKey(s, pos, limits, {}, None);
            && (s[pos] == 0x7F ==> r == Err(IndefiniteLength))
            && (s[pos] == 0x38 || s[pos] == 0x39 || s[pos] == 0x3A || s[pos] == 0x3B ==>
                  r == Err(if pos + 1 < |s| then UnsupportedCborType else MalformedCbor))
            && (s[pos] < 0x38 || 0x3C <= s[pos] < 0x60 || s[pos] in {0x7C, 0x7D, 0x7E} || s[pos] >= 0x80 ==>
                  r == Err(UnsupportedCborType))
  {
    hide TakeText, CompareEncodedKeys, ValidUtf8;
  }

  lemma FirstEntryFails(s: bytes, pos: nat, n: nat, limits: CborLimits, depth: nat, e: CborError)
    requires n > 0 && pos <= |s| && DecodeKey(s, pos, limits, {}, None) == Err(e)
    ensures DecodeEntries(s, pos, n, limits, depth, map[], None, true) == Err(e)
  {
    hide *;
    var none: map<Text, Value> := map[];
    assert none.Keys == {};
    EntriesEquation(s, pos, n, limits, depth, none, None, true);
  }

  /** A first key that is no text string is refused as such; only a key of indefinite length has an error of its own. */
  lemma FirstKeyRefused(b: byte, rest: bytes, limits: CborLimits)
    requires |[0xA1, b] + rest| <= limits.maxManifestBytes && limits.maxMapPairs >= 1
    ensures var r := RustDocument.DecodeDocument([0xA1, b] + rest, limits);
            && (b == 0x7F ==> r == Err(IndefiniteLength))
            && (b < 0x38 || 0x3C <= b < 0x60 || b in {0x7C, 0x7D, 0x7E} || b >= 0x80 ==> r == Err(UnsupportedCborType))
            && (0x38 <= b <= 0x3B ==> r == Err(if rest == [] then MalformedCbor else UnsupportedCborType))
  {
    hide *;
    var s := [0xA1, b] + rest;
    ShortHead(5, 1);
    OneByteAt(s);
    KeyKind(s, 1, limits);
    var key := DecodeKey(s, 1, limits, {}, None);
    if key.Err? {
      FirstEntryFails(s, 1, 1, limits, 1, key.error);
      MapRefused(s, 1, limits, key.error);
      RefusedWhole(s, limits);
    }
  }

  lemma OneByteAt(s: bytes)
    requires s != []
    ensures At(s, 0, [s[0]])
  {
  }

  lemma DocumentRefused(input: bytes, limits: CborLimits, e: CborError)
    requires 0 < |input| <= limits.maxManifestBytes && DecodeValue(input, 0, limits, 0) == Err(e)
    ensures RustDocument.DecodeDocument(input, limits) == Err(e)
  {
    hide Enc, DecodeValue;
  }

  /** A second key equal to the first is a duplicate, and one before it is out of order: nothing else about the two
      entries matters. */
  lemma SecondKeyRefused(a: Text, v: Value, b: Text, w: Value, limits: CborLimits)
    requires InProfile(v, limits, 1) && |a| <= limits.maxStringBytes && |b| <= limits.maxStringBytes
    requires 2 <= limits.maxMapPairs && |TwoEntryMap(a, v, b, w)| <= limits.maxManifestBytes && !KeyLess(a, b)
    ensures RustDocument.DecodeDocument(TwoEntryMap(a, v, b, w), limits)
         == Err(if a == b then DuplicateKey else MapKeyOrder)
    ensures CategoryOf(DuplicateKey) == CategoryOf(MapKeyOrder) == CatNonDeterministic
  {
    Categories();
    hide *;
    TwoEntriesAt(a, v, b, w);
    SecondKeyFails(a, v, b, w, limits);
    DocumentRefused(TwoEntryMap(a, v, b, w), limits, if a == b then DuplicateKey else MapKeyOrder);
  }

  /** The public category of each error. */
  lemma Categories()
    ensures forall e :: CategoryOf(e) == CatMalformed <==> e in {MalformedCbor, TrailingData, EncodeFailure}
    ensures forall e :: CategoryOf(e) == CatNonDeterministic <==>
                        e in {NonDeterministicCbor, IndefiniteLength, DuplicateKey, MapKeyOrder}
    ensures forall e :: CategoryOf(e) == CatUnsupportedType <==> e in {UnsupportedCborType, IntegerOutOfRange}
    ensures forall e :: CategoryOf(e) == CatResourceLimit <==> e == ResourceLimit
    ensures forall e :: CategoryOf(e) == CatPolicyInvalid <==> e in {SchemaViolation, ManifestPolicy}
  {
  }

  lemma SecondKeyBad(a: Text, b: Text)
    requires !KeyLess(a, b)
    ensures CompareEncodedKeys(EncodeText(a), EncodeText(b)) != Less
  {
  }

  lemma TwoEntriesAt(a: Text, v: Value, b: Text, w: Value)
    ensures var s := TwoEntryMap(a, v, b, w);
            && At(s, 0, [0xA2]) && At(s, 1, EncodeText(a)) && At(s, 1 + |EncodeText(a)|, Enc(v))
            && At(s, 1 + |EncodeText(a)| + |Enc(v)|, EncodeText(b)) && s != []
            && 1 + |EncodeText(a)| + |Enc(v)| <= |s|
  {
    hide *;
    var s := TwoEntryMap(a, v, b, w);
    var r3 := EncodeText(b) + Enc(w);
    var r2 := Enc(v) + r3;
    var r1 := EncodeText(a) + r2;
    TwoEntryMapIs(a, v, b, w);
    RustDocument.WholeAt(s);
    AtConcat(s, 0, [0xA2], r1);
    AtConcat(s, 1, EncodeText(a), r2);
    AtConcat(s, 1 + |EncodeText(a)|, Enc(v), r3);
    AtConcat(s, 1 + |EncodeText(a)| + |Enc(v)|, EncodeText(b), Enc(w));
    AtMeans(s, 1 + |EncodeText(a)|, Enc(v));
    AtMeans(s, 0, [0xA2]);
  }

  lemma TwoEntryMapIs(a: Text, v: Value, b: Text, w: Value)
    ensures TwoEntryMap(a, v, b, w) == [0xA2] + (EncodeText(a) + (Enc(v) + (EncodeText(b) + Enc(w))))
  {
  }

  // ---------------------------------------------------------------- values outside the profile

  /** A first violation in a value: too deep, of a type that manifests do not have, an integer beyond 2^53 - 1, a text,
      an array or a map beyond its limit. */
  lemma ViolationOf(v: Value, limits: CborLimits, depth: nat)
    ensures var r := ProfileCheck(v, limits, depth);
            && (depth > limits.maxDepth ==> r == Err(ResourceLimit))
            && (depth <= limits.maxDepth ==>
                  && (v.Null? || v.Float? ==> r == Err(UnsupportedCborType))
                  && (v.Bool? ==> r == Ok(()))
                  && (v.Int? ==> r == if -9007199254740991 <= v.n <= 9007199254740991 then Ok(())
                                      else Err(IntegerOutOfRange))
                  && (v.String? ==> r == if |v.text| <= limits.maxStringBytes then Ok(()) else Err(ResourceLimit))
                  && (v.Array? && |v.items| > limits.maxArrayItems ==> r == Err(ResourceLimit))
                  && (v.Object? && |v.entries| > limits.maxMapPairs ==> r == Err(ResourceLimit)))
  {
    hide CheckItems, CheckEntries, ValidUtf8;
  }

  /** In an array the first item with a violation decides. */
  lemma {:induction false} FirstItemDecides(items: seq<Value>, i: nat, limits: CborLimits, depth: nat)
    requires i < |items| && ProfileCheck(items[i], limits, depth).Err?
    requires forall j :: 0 <= j < i ==> InProfile(items[j], limits, depth)
    ensures CheckItems(items, limits, depth) == Err(ProfileCheck(items[i], limits, depth).error)
  {
    hide ProfileCheck, InProfile;
    if i > 0 {
      ProfileCheckExactly(items[0], limits, depth);
      FirstItemDecides(items[1..], i - 1, limits, depth);
    }
  }

  lemma RefusedWhole(s: bytes, limits: CborLimits)
    requires 0 < |s| <= limits.maxManifestBytes
    ensures DecodeValue(s, 0, limits, 0).Err? ==>
              RustDocument.DecodeDocument(s, limits) == Err(DecodeValue(s, 0, limits, 0).error)
  {
    hide DecodeValue, Enc;
  }

  /** An integer beyond 2^53 - 1 and an array or a map that announces more than its limit are refused for that, whatever
      follows. */
  lemma TooLargeRefused(s: bytes, major: nat, n: nat, limits: CborLimits)
    requires n <= MAX_ARGUMENT && |s| <= limits.maxManifestBytes
    requires major in {0, 1, 4, 5} && At(s, 0, EncodeHead(major, n))
    ensures major == 0 && n > 9007199254740991 ==> RustDocument.DecodeDocument(s, limits) == Err(IntegerOutOfRange)
    ensures major == 1 && n >= 9007199254740991 ==> RustDocument.DecodeDocument(s, limits) == Err(IntegerOutOfRange)
    ensures major == 4 && n > limits.maxArrayItems ==> RustDocument.DecodeDocument(s, limits) == Err(ResourceLimit)
    ensures major == 5 && n > limits.maxMapPairs ==> RustDocument.DecodeDocument(s, limits) == Err(ResourceLimit)
  {
    hide *;
    TooLargeAt(s, 0, major, n, limits, 0);
    RefusedWhole(s, limits);
  }

  /** So is a text beyond its limit. */
  lemma LongTextRefused(t: Text, rest: bytes, limits: CborLimits)
    requires |EncodeText(t) + rest| <= limits.maxManifestBytes && |t| > limits.maxStringBytes
    ensures RustDocument.DecodeDocument(EncodeText(t) + rest, limits) == Err(ResourceLimit)
  {
    hide *;
    var s := EncodeText(t) + rest;
    UsizeIsArgument(limits.maxManifestBytes);
    RustDocument.WholeAt(s);
    AtConcat(s, 0, EncodeText(t), rest);
    LongTextAt(s, 0, t, limits, 0);
    RefusedWhole(s, limits);
  }

  // ---------------------------------------------------------------- the strict decoders

  /** The strict decoders on the first head: cut, reserved, indefinite or wider than necessary; then simple values
      other than the booleans and null, byte strings and tags where they are not allowed. */
  lemma StrictFirstHead(input: bytes, cfg: Python.Config)
    requires cfg.limits.Some? ==> |input| <= cfg.limits.value.maxManifestBytes
    ensures var r := PythonDocument.DecodeExact(input, cfg);
            && (input == [] ==> r == Err(CatMalformed))
            && (input != [] && input[0] < 0xE0 ==>
                  && (input[0] % 32 == 31 ==> r == Err(CatNonDeterministic))
                  && (28 <= input[0] % 32 <= 30 ==> r == Err(CatMalformed))
                  && (input[0] % 32 == 24 && |input| > 1 && input[1] < 24 ==> r == Err(CatNonDeterministic)))
            && (input != [] && input[0] >= 0xE0 && input[0] !in {0xF4, 0xF5, 0xF6} ==> r == Err(CatUnsupportedType))
            && (input != [] && input[0] == 0xF6 && !cfg.allowNull ==> r == Err(CatUnsupportedType))
  {
    hide Python.DecodeList, Python.DecodeDict, ValidUtf8;
    if |input| > 1 {
      OneByteNumber(input[1]);
      assert input[1..2] == [input[1]];
    }
  }

  lemma OneByteNumber(b: byte)
    ensures FromBigEndian([b]) == b
  {
    assert [b][..0] == [];
  }

  /** Two entries one after the other, as the strict decoders read them. */
  function TwoPairMap(a: Text, v: Python.Item, b: Text, w: Python.Item): bytes {
    [0xA2] + (EncodeText(a) + (Python.EncItem(v) + (EncodeText(b) + Python.EncItem(w))))
  }

  lemma TwoPairsAt(a: Text, v: Python.Item, b: Text, w: Python.Item)
    ensures var s := TwoPairMap(a, v, b, w);
            && At(s, 0, [0xA2]) && At(s, 1, EncodeText(a)) && At(s, 1 + |EncodeText(a)|, Python.EncItem(v))
            && At(s, 1 + |EncodeText(a)| + |Python.EncItem(v)|, EncodeText(b)) && s != []
            && 1 + |EncodeText(a)| + |Python.EncItem(v)| <= |s|
  {
    hide *;
    var s := TwoPairMap(a, v, b, w);
    var r3 := EncodeText(b) + Python.EncItem(w);
    var r2 := Python.EncItem(v) + r3;
    var r1 := EncodeText(a) + r2;
    TwoPairMapIs(a, v, b, w);
    RustDocument.WholeAt(s);
    AtConcat(s, 0, [0xA2], r1);
    AtConcat(s, 1, EncodeText(a), r2);
    AtConcat(s, 1 + |EncodeText(a)|, Python.EncItem(v), r3);
    AtConcat(s, 1 + |EncodeText(a)| + |Python.EncItem(v)|, EncodeText(b), Python.EncItem(w));
    AtMeans(s, 1 + |EncodeText(a)|, Python.EncItem(v));
    AtMeans(s, 0, [0xA2]);
  }

  lemma TwoPairMapIs(a: Text, v: Python.Item, b: Text, w: Python.Item)
    ensures TwoPairMap(a, v, b, w)
         == [0xA2] + (EncodeText(a) + (Python.EncItem(v) + (EncodeText(b) + Python.EncItem(w))))
  {
    hide Python.EncItem, EncodeText;
  }

  lemma FirstKeyAllowed(cfg: Python.Config, a: Text, encoded: bytes)
    ensures Python.CheckKey(cfg, Python.TextValue(a), encoded, [], None).Ok?
  {
  }

  lemma SecondKeyChecked(cfg: Python.Config, b: Text, encoded: bytes, acc: seq<Python.Pair>, previous: bytes)
    requires CompareEncodedKeys(previous, encoded) != Less
    ensures Python.CheckKey(cfg, Python.TextValue(b), encoded, acc, Some(previous)) == Err(CatNonDeterministic)
  {
  }

  lemma PairRead(s: bytes, pos: nat, n: nat, a: Text, v: Python.Item, cfg: Python.Config, depth: nat)
    requires n > 0 && pos <= |s| && PythonCorrect.Admissible(cfg, v, depth)
    requires PythonCorrect.Admissible(cfg, Python.TextValue(a), depth)
    requires At(s, pos, EncodeText(a)) && At(s, pos + |EncodeText(a)|, Python.EncItem(v))
    ensures pos + |EncodeText(a)| + |Python.EncItem(v)| <= |s|
    ensures Python.DecodeDict(s, pos, n, cfg, depth, [], None)
         == Python.DecodeDict(s, pos + |EncodeText(a)| + |Python.EncItem(v)|, n - 1, cfg, depth,
                              [Python.Pair(Python.TextValue(a), v)], Some(EncodeText(a)))
  {
    hide *;
    TextIs(a);
    PythonCorrect.ItemComplete(s, pos, Python.TextValue(a), cfg, depth);
    PythonCorrect.ItemComplete(s, pos + |EncodeText(a)|, v, cfg, depth);
    AtMeans(s, pos, EncodeText(a));
    AtMeans(s, pos + |EncodeText(a)|, Python.EncItem(v));
    FirstKeyAllowed(cfg, a, EncodeText(a));
    Python.DictEquation(s, pos, n, cfg, depth, [], None);
    var none: seq<Python.Pair> := [];
    assert none + [Python.Pair(Python.TextValue(a), v)] == [Python.Pair(Python.TextValue(a), v)];
  }

  lemma PairRefused(s: bytes, pos: nat, n: nat, b: Text, cfg: Python.Config, depth: nat, acc: seq<Python.Pair>,
          previous: bytes)
    requires n > 0 && pos <= |s| && PythonCorrect.Admissible(cfg, Python.TextValue(b), depth)
    requires At(s, pos, EncodeText(b)) && CompareEncodedKeys(previous, EncodeText(b)) != Less
    ensures Python.DecodeDict(s, pos, n, cfg, depth, acc, Some(previous)) == Err(CatNonDeterministic)
  {
    hide *;
    TextIs(b);
    PythonCorrect.ItemComplete(s, pos, Python.TextValue(b), cfg, depth);
    AtMeans(s, pos, EncodeText(b));
    SecondKeyChecked(cfg, b, EncodeText(b), acc, previous);
    Python.DictEquation(s, pos, n, cfg, depth, acc, Some(previous));
  }

  lemma DictRefused(s: bytes, n: nat, cfg: Python.Config, e: Category)
    requires n <= MAX_ARGUMENT && Python.DictOk(cfg, n) && At(s, 0, EncodeHead(5, n)) && |EncodeHead(5, n)| <= |s|
    requires Python.DecodeDict(s, |EncodeHead(5, n)|, n, cfg, 1, [], None) == Err(e)
    ensures Python.DecodeItem(s, 0, cfg, 0) == Err(e)
  {
    PythonCorrect.StrictHeadBack(s, 0, 5, n);
    hide Python.DecodeItem, Python.DecodeDict, Python.DecodeList, Python.DecodeInt, Python.DecodeString,
         Python.DecodeSimple, Python.Argument, EncodeHead, At;
    Python.ItemEquation(s, 0, cfg, 0);
  }

  /** For the strict decoders a second key that is equal to the first, or before it, is not deterministic. */
  lemma StrictSecondKeyRefused(a: Text, v: Python.Item, b: Text, w: Python.Item, cfg: Python.Config)
    requires PythonCorrect.Admissible(cfg, Python.TextValue(a), 1) && PythonCorrect.Admissible(cfg, v, 1)
    requires PythonCorrect.Admissible(cfg, Python.TextValue(b), 1) && Python.DictOk(cfg, 2) && !KeyLess(a, b)
    requires cfg.limits.Some? ==> |TwoPairMap(a, v, b, w)| <= cfg.limits.value.maxManifestBytes
    ensures PythonDocument.DecodeExact(TwoPairMap(a, v, b, w), cfg) == Err(CatNonDeterministic)
  {
    var s := TwoPairMap(a, v, b, w);
    hide Python.DecodeItem, Python.DecodeDict, PythonCorrect.Admissible, TwoPairMap, EncodeHead, EncodeText, KeyLess,
         Python.EncItem, At, CompareEncodedKeys, ValidUtf8, Python.DictOk;
    TwoPairsAt(a, v, b, w);
    SecondKeyBad(a, b);
    ShortHead(5, 2);
    PairRead(s, 1, 2, a, v, cfg, 1);
    PairRefused(s, 1 + |EncodeText(a)| + |Python.EncItem(v)|, 1, b, cfg, 1, [Python.Pair(Python.TextValue(a), v)],
                EncodeText(a));
    DictRefused(s, 2, cfg, CatNonDeterministic);
  }

  lemma FirstKeyChecked(cfg: Python.Config, key: Python.Item, encoded: bytes)
    requires key.ListValue? || key.DictValue? || (!cfg.anyHashableKey && (key.NoneItem? || key.TagValue?))
    ensures Python.CheckKey(cfg, key, encoded, [], None) == Err(CatUnsupportedType)
  {
  }

  lemma FirstPairFails(s: bytes, pos: nat, n: nat, key: Python.Item, cfg: Python.Config, depth: nat)
    requires n > 0 && pos <= |s| && PythonCorrect.Admissible(cfg, key, depth) && At(s, pos, Python.EncItem(key))
    requires key.ListValue? || key.DictValue? || (!cfg.anyHashableKey && (key.NoneItem? || key.TagValue?))
    ensures Python.DecodeDict(s, pos, n, cfg, depth, [], None) == Err(CatUnsupportedType)
  {
    hide *;
    PythonCorrect.ItemComplete(s, pos, key, cfg, depth);
    FirstKeyChecked(cfg, key, s[pos..pos + |Python.EncItem(key)|]) by { AtMeans(s, pos, Python.EncItem(key)); }
    AtMeans(s, pos, Python.EncItem(key));
    Python.DictEquation(s, pos, n, cfg, depth, [], None);
  }

  /** The strict decoders refuse a first key that is an array or a map; without hashable keys of every kind also one
      that is null or tagged, where those are allowed at all. */
  lemma StrictFirstKeyRefused(key: Python.Item, rest: bytes, cfg: Python.Config)
    requires PythonCorrect.Admissible(cfg, key, 1) && Python.DictOk(cfg, 1)
    requires key.ListValue? || key.DictValue? || (!cfg.anyHashableKey && (key.NoneItem? || key.TagValue?))
    requires cfg.limits.Some? ==> |[0xA1] + (Python.EncItem(key) + rest)| <= cfg.limits.value.maxManifestBytes
    ensures PythonDocument.DecodeExact([0xA1] + (Python.EncItem(key) + rest), cfg) == Err(CatUnsupportedType)
  {
    var s := [0xA1] + (Python.EncItem(key) + rest);
    hide Python.DecodeItem, Python.DecodeDict, PythonCorrect.Admissible, EncodeHead, Python.EncItem, At, Python.DictOk;
    ShortHead(5, 1);
    RustDocument.WholeAt(s);
    AtConcat(s, 0, [0xA1], Python.EncItem(key) + rest);
    AtConcat(s, 1, Python.EncItem(key), rest);
    FirstPairFails(s, 1, 1, key, cfg, 1);
    DictRefused(s, 1, cfg, CatUnsupportedType);
  }

  // ---------------------------------------------------------------- published refusals

  lemma EmptyWideMap(limits: CborLimits)
    ensures DecodeValue([0xB8, 0x00], 0, limits, 0) == Ok(Decoded(Object(map[]), 2, false))
  {
    hide DecodeItems, ValidUtf8, TakeText;
    var s: bytes := [0xB8, 0x00];
    OneByteNumber(0);
    assert s[1..2] == [0x00];
    var none: map<Text, Value> := map[];
    EntriesEquation(s, 2, 0, limits, 1, none, None, false);
    MapEquation(s, 0, limits, 0);
  }

  lemma TwiceA()
    ensures TwoEntryMap(Ascii("a"), Int(1), Ascii("a"), Int(2)) == [0xA2, 0x61, 0x61, 0x01, 0x61, 0x61, 0x02]
    ensures TwoPairMap(Ascii("a"), Python.IntValue(1), Ascii("a"), Python.IntValue(2))
         == [0xA2, 0x61, 0x61, 0x01, 0x61, 0x61, 0x02]
  {
    hide ValidUtf8, EncodeText;
    ABeforeB();
    SmallIntegers();
    IntegersAlike(1);
    IntegersAlike(2);
  }

  lemma SmallAdmissible(limits: CborLimits)
    requires limits.maxDepth >= 1 && limits.maxStringBytes >= 1
    ensures PythonCorrect.Admissible(Python.ManifestConfig(limits), Python.TextValue(Ascii("a")), 1)
    ensures PythonCorrect.Admissible(Python.ManifestConfig(limits), Python.IntValue(1), 1)
    ensures InProfile(Int(1), limits, 1) && |Ascii("a")| == 1
  {
    hide ValidUtf8;
  }

  /** The published documents that both layers must refuse: no bytes at all, an empty map with a wide head, and a map
      with one key twice. */
  lemma PublishedRefusals(limits: CborLimits)
    requires limits.maxManifestBytes >= 7 && limits.maxDepth >= 1 && limits.maxMapPairs >= 2
    requires limits.maxStringBytes >= 1
    ensures RustDocument.DecodeDocument([], limits) == Err(MalformedCbor)
    ensures RustDocument.DecodeDocument([0xB8, 0x00], limits) == Err(NonDeterministicCbor)
    ensures RustDocument.DecodeDocument([0xA2, 0x61, 0x61, 0x01, 0x61, 0x61, 0x02], limits) == Err(DuplicateKey)
    ensures var python := Python.ManifestConfig(limits);
            && PythonDocument.DecodeExact([], python) == Err(CatMalformed)
            && PythonDocument.DecodeExact([0xB8, 0x00], python) == Err(CatNonDeterministic)
            && PythonDocument.DecodeExact([0xA2, 0x61, 0x61, 0x01, 0x61, 0x61, 0x02], python)
                 == Err(CatNonDeterministic)
  {
    hide RustDocument.DecodeDocument, PythonDocument.DecodeExact, DecodeValue, InProfile, PythonCorrect.Admissible,
         TwoEntryMap, TwoPairMap, Ascii, KeyLess, ValidUtf8;
    var python := Python.ManifestConfig(limits);
    FirstByteRefused([], limits);
    StrictFirstHead([], python);
    EmptyWideMap(limits);
    WideHeadRefused([0xB8, 0x00], limits);
    StrictFirstHead([0xB8, 0x00], python);
    TwiceA();
    SmallAdmissible(limits);
    KeyNotLess(Ascii("a"));
    SecondKeyRefused(Ascii("a"), Int(1), Ascii("a"), Int(2), limits);
    StrictSecondKeyRefused(Ascii("a"), Python.IntValue(1), Ascii("a"), Python.IntValue(2), python);
  }

  lemma KeyNotLess(a: Text)
    ensures !KeyLess(a, a)
  {
    hide KeyLess, ValidUtf8;
    KeyOrderIsStrictTotal();
  }
}
