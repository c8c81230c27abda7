/** The Rust and the Python document layers accept the same byte strings and return the same values,
    although one re-encodes and the other never does. */
module Agreement {
  import opened Bytes
  import opened CborHeads
  import opened CborValues
  import opened Results
  import opened SortedSets
  import opened StrictDecoder
  import opened StrictCorrectness
  import opened StrictDocument
  import RustDocument

  // ---------------------------------------------------------------- from Python to Rust values

  /** The JSON value a Python manifest value stands for; the order of a dictionary is forgotten. */
  function ToValue(v: Item): Value
    requires ManifestItem(v)
    decreases v, 0
  {
    match v
    case BoolValue(b) => Bool(b)
    case IntValue(n) => Int(n)
    case TextValue(t) => String(t)
    case ListValue(items) => Array(seq(|items|, i requires 0 <= i < |items| => ToValue(items[i])))
    case DictValue(pairs) => Object(ToEntries(pairs))
  }

  predicate ManifestPairs(pairs: seq<Pair>) {
    forall i :: 0 <= i < |pairs| ==> pairs[i].key.TextValue? && ManifestItem(pairs[i].val)
  }

  function ToEntries(pairs: seq<Pair>): map<Text, Value>
    requires ManifestPairs(pairs)
    decreases pairs, 0
  {
    if pairs == [] then map[]
    else
      assert pairs[0].val < pairs[0];
      map[pairs[0].key.text := ToValue(pairs[0].val)] + ToEntries(pairs[1..])
  }

  function TextKeys(pairs: seq<Pair>): (ks: seq<Text>)
    requires ManifestPairs(pairs)
    ensures |ks| == |pairs| && forall i :: 0 <= i < |pairs| ==> ks[i] == pairs[i].key.text
  {
    seq(|pairs|, i requires 0 <= i < |pairs| => pairs[i].key.text)
  }

  /** `v` and `w` are the same manifest value within `limits`, with the same encoding. */
  ghost predicate Same(v: Item, w: Value, limits: CborLimits, depth: nat) {
    InProfile(w, limits, depth) && Enc(w) == EncItem(v)
  }

  lemma ScalarSame(v: Item, limits: CborLimits, depth: nat)
    requires Admissible(ManifestConfig(limits), v, depth) && ManifestItem(v) && !v.ListValue? && !v.DictValue?
    ensures Same(v, ToValue(v), limits, depth)
  {
  }

  /** An admissible text-keyed Python value is within the Rust profile and has the same encoding. */
  lemma {:induction false} ItemSame(v: Item, limits: CborLimits, depth: nat)
    requires Admissible(ManifestConfig(limits), v, depth) && ManifestItem(v)
    ensures Same(v, ToValue(v), limits, depth)
    decreases v, 1
  {
    match v
    case ListValue(items) =>
      ListParts(items, ManifestConfig(limits), depth);
      ListSame(items, limits, depth + 1);
      ListSameWhole(items, limits, depth);
    case DictValue(pairs) =>
      DictParts(pairs, ManifestConfig(limits), depth);
      PairsSame(pairs, limits, depth + 1, [], None);
      DictSameWhole(pairs, limits, depth);
    case _ =>
      ScalarSame(v, limits, depth);
  }

  ghost predicate AllSame(items: seq<Item>, limits: CborLimits, depth: nat)
    requires forall i :: 0 <= i < |items| ==> ManifestItem(items[i])
  {
    forall i :: 0 <= i < |items| ==> Same(items[i], ToValue(items[i]), limits, depth)
  }

  lemma {:induction false} ListSame(items: seq<Item>, limits: CborLimits, depth: nat)
    requires AdmissibleList(ManifestConfig(limits), items, depth)
    requires forall i :: 0 <= i < |items| ==> ManifestItem(items[i])
    ensures AllSame(items, limits, depth)
    decreases items, 0
  {
    hide Same, Admissible, ToValue, ManifestItem;
    if items != [] {
      ItemSame(items[0], limits, depth);
      ListSame(items[1..], limits, depth);
      assert forall i :: 1 <= i < |items| ==> items[i] == items[1..][i - 1];
    }
  }

  lemma {:induction false} ListEncodings(items: seq<Item>, values: seq<Value>)
    requires |values| == |items| && forall i :: 0 <= i < |items| ==> Enc(values[i]) == EncItem(items[i])
    ensures EncItems(values) == EncList(items)
  {
    hide Enc, EncItem;
    if items != [] {
      ListEncodings(items[1..], values[1..]);
    }
  }

  lemma ListSameWhole(items: seq<Item>, limits: CborLimits, depth: nat)
    requires Admissible(ManifestConfig(limits), ListValue(items), depth) && ManifestItem(ListValue(items))
    requires AllSame(items, limits, depth + 1)
    ensures Same(ListValue(items), ToValue(ListValue(items)), limits, depth)
  {
    hide AdmissibleList, EncItems, EncList;
    var values := ToValue(ListValue(items)).items;
    ListEncodings(items, values);
  }

  /** What reading the pairs of an admissible dictionary establishes. */
  ghost predicate PairsRead(pairs: seq<Pair>, limits: CborLimits, depth: nat)
    requires ManifestPairs(pairs)
  {
    && Ascending(KeyLess, TextKeys(pairs))
    && (forall i :: 0 <= i < |pairs| ==> |pairs[i].key.text| <= limits.maxStringBytes)
    && (forall i :: 0 <= i < |pairs| ==> Same(pairs[i].val, ToValue(pairs[i].val), limits, depth))
  }

  lemma {:induction false} PairsSame(pairs: seq<Pair>, limits: CborLimits, depth: nat, acc: seq<Pair>,
          previous: Option<bytes>)
    requires AdmissiblePairs(ManifestConfig(limits), acc, previous, pairs, depth) && ManifestPairs(pairs)
    ensures PairsRead(pairs, limits, depth)
    ensures previous.Some? && pairs != [] ==> CompareEncodedKeys(previous.value, EncodeText(pairs[0].key.text)) == Less
    decreases pairs, 0
  {
    hide Same, ToValue, ManifestItem, CompareEncodedKeys, EncodeText, Ascending;
    if pairs != [] {
      var p, rest := pairs[0], pairs[1..];
      assert p.val < p;
      ItemSame(p.val, limits, depth);
      PairsSame(rest, limits, depth, acc + [p], Some(EncItem(p.key)));
      assert EncItem(p.key) == EncodeText(p.key.text);
      AscendingKeys(p.key.text, TextKeys(rest));
      assert TextKeys(pairs) == [p.key.text] + TextKeys(rest);
      assert forall i :: 1 <= i < |pairs| ==> pairs[i] == rest[i - 1];
    } else {
      NothingAscends();
      assert TextKeys(pairs) == [];
    }
  }

  lemma NothingAscends()
    ensures Ascending(KeyLess, [])
  {
  }

  lemma {:induction false} EntryKeys(pairs: seq<Pair>)
    requires ManifestPairs(pairs)
    ensures ToEntries(pairs).Keys == Elements(TextKeys(pairs))
  {
    hide ToValue, ManifestItem, ValidUtf8;
    if pairs == [] {
      EmptyElements(TextKeys(pairs));
    } else {
      EntryKeys(pairs[1..]);
      assert TextKeys(pairs) == [pairs[0].key.text] + TextKeys(pairs[1..]);
      ElementsPrepend(pairs[0].key.text, TextKeys(pairs[1..]));
    }
  }

  /** The map built from pairs with distinct keys holds each of these pairs. */
  lemma {:induction false} EntryAt(pairs: seq<Pair>, i: nat)
    requires ManifestPairs(pairs) && Distinct(TextKeys(pairs)) && i < |pairs|
    ensures pairs[i].key.text in ToEntries(pairs)
    ensures ToEntries(pairs)[pairs[i].key.text] == ToValue(pairs[i].val)
  {
    hide ToValue, ManifestItem, ValidUtf8;
    var rest := pairs[1..];
    assert TextKeys(pairs)[1..] == TextKeys(rest);
    if i > 0 {
      EntryAt(rest, i - 1);
    } else {
      EntryKeys(rest);
      assert TextKeys(pairs)[0] !in Elements(TextKeys(rest));
    }
  }

  lemma {:induction false} PairEncodings(obj: Value, pairs: seq<Pair>)
    requires obj.Object? && ManifestPairs(pairs) && Elements(TextKeys(pairs)) <= obj.entries.Keys
    requires forall i :: 0 <= i < |pairs| ==>
               pairs[i].key.text in obj.entries && Enc(obj.entries[pairs[i].key.text]) == EncItem(pairs[i].val)
    ensures EncEntries(obj, TextKeys(pairs)) == EncInOrder(pairs)
  {
    hide Enc, ManifestItem, ValidUtf8, EncodeText;
    if pairs != [] {
      var rest := pairs[1..];
      assert TextKeys(pairs)[1..] == TextKeys(rest);
      assert Elements(TextKeys(rest)) <= Elements(TextKeys(pairs));
      assert forall i :: 0 <= i < |rest| ==> rest[i] == pairs[i + 1];
      PairEncodings(obj, rest);
      assert EncItem(pairs[0].key) == EncodeText(pairs[0].key.text);
    }
  }

  lemma AscendingIsDistinct(ks: seq<Text>)
    requires Ascending(KeyLess, ks)
    ensures Distinct(ks)
  {
    hide KeyLess, ValidUtf8;
    KeyOrderIsStrictTotal();
  }

  lemma DictSameWhole(pairs: seq<Pair>, limits: CborLimits, depth: nat)
    requires Admissible(ManifestConfig(limits), DictValue(pairs), depth) && ManifestPairs(pairs)
    requires ManifestItem(DictValue(pairs)) && PairsRead(pairs, limits, depth + 1)
    ensures Same(DictValue(pairs), ToValue(DictValue(pairs)), limits, depth)
  {
    hide Admissible, AdmissiblePairs, EncItem, Enc, EncInOrder, EncEntries, ManifestItem, KeyLess, InProfile, ValidUtf8,
         Ascending, Distinct, ToValue;
    DictParts(pairs, ManifestConfig(limits), depth);
    PairsAreManifest(pairs);
    var entries, ks := ToEntries(pairs), TextKeys(pairs);
    var obj := Object(entries);
    AscendingIsDistinct(ks);
    EntryKeys(pairs);
    forall i | 0 <= i < |pairs| ensures ks[i] in entries && entries[ks[i]] == ToValue(pairs[i].val) {
      EntryAt(pairs, i);
    }
    PairEncodings(obj, pairs);
    DistinctSize(ks);
    assert forall i :: 0 <= i < |pairs| ==> InProfile(entries[ks[i]], limits, depth + 1);
    ObjectFromKeys(obj, ks, limits, depth);
  }

  lemma ObjectFromKeys(obj: Value, ks: seq<Text>, limits: CborLimits, depth: nat)
    requires obj.Object? && Elements(ks) == obj.entries.Keys && |obj.entries| == |ks| && Ascending(KeyLess, ks)
    requires depth <= limits.maxDepth && |ks| <= limits.maxMapPairs
    requires forall i :: 0 <= i < |ks| ==>
               ks[i] in obj.entries && |ks[i]| <= limits.maxStringBytes
                 && InProfile(obj.entries[ks[i]], limits, depth + 1)
    ensures InProfile(obj, limits, depth)
    ensures Enc(obj) == EncodeHead(5, |ks|) + EncEntries(obj, ks)
  {
    assert InProfile(obj, limits, depth) by {
      forall k | k in obj.entries
        ensures |k| <= limits.maxStringBytes && InProfile(obj.entries[k], limits, depth + 1)
      {
        assert k in Elements(ks);
      }
    }
    hide InProfile, KeyLess, ValidUtf8, EncodeHead, EncEntries, Distinct;
    KeyOrderIsStrictTotal();
    AscendingIsUnique(KeyLess, ks, CanonicalKeys(obj.entries));
  }

  // ---------------------------------------------------------------- from Rust to Python values

  /** The Python value a document decodes to when it encodes the JSON value `v`. */
  ghost function FromValue(v: Value): Item
    decreases v, 1, 0
  {
    match v
    case Null | Float => NoneItem
    case Bool(b) => BoolValue(b)
    case Int(n) => IntValue(n)
    case String(t) => TextValue(t)
    case Array(items) => ListValue(FromItems(items))
    case Object(entries) => DictValue(FromEntries(v, CanonicalKeys(entries)))
  }

  ghost function FromItems(items: seq<Value>): (r: seq<Item>)
    ensures |r| == |items|
    decreases items, 0, 0
  {
    if items == [] then [] else [FromValue(items[0])] + FromItems(items[1..])
  }

  ghost function FromEntries(obj: Value, ks: seq<Text>): (r: seq<Pair>)
    requires obj.Object? && Elements(ks) <= obj.entries.Keys
    ensures |r| == |ks|
    decreases obj, 0, |ks|
  {
    if ks == [] then []
    else
      assert ks[0] in Elements(ks) && Elements(ks[1..]) <= Elements(ks);
      [Pair(TextValue(ks[0]), FromValue(obj.entries[ks[0]]))] + FromEntries(obj, ks[1..])
  }

  /** `v`, read by Python, is admissible, passes the manifest validation, and stands for `w`. */
  ghost predicate Represents(v: Item, w: Value, limits: CborLimits, depth: nat) {
    Admissible(ManifestConfig(limits), v, depth) && ManifestItem(v) && ToValue(v) == w
  }

  lemma {:induction false} ValueRepresented(v: Value, limits: CborLimits, depth: nat)
    requires InProfile(v, limits, depth)
    ensures Represents(FromValue(v), v, limits, depth)
    decreases v, 1, 0
  {
    match v
    case Array(items) =>
      ItemsRepresented(items, limits, depth + 1);
      ArrayRepresented(items, limits, depth);
    case Object(entries) =>
      ObjectRepresented(v, limits, depth);
    case _ =>
  }

  lemma {:induction false} ItemsRepresented(items: seq<Value>, limits: CborLimits, depth: nat)
    requires forall i :: 0 <= i < |items| ==> InProfile(items[i], limits, depth)
    ensures forall i :: 0 <= i < |items| ==> Represents(FromItems(items)[i], items[i], limits, depth)
    ensures AdmissibleList(ManifestConfig(limits), FromItems(items), depth)
    decreases items, 0, 0
  {
    hide InProfile, FromValue, Admissible, ManifestItem, ToValue;
    if items != [] {
      ValueRepresented(items[0], limits, depth);
      ItemsRepresented(items[1..], limits, depth);
      assert FromItems(items)[1..] == FromItems(items[1..]);
      assert forall i :: 1 <= i < |items| ==> items[i] == items[1..][i - 1];
    }
  }

  lemma ArrayRepresented(items: seq<Value>, limits: CborLimits, depth: nat)
    requires InProfile(Array(items), limits, depth)
    requires forall i :: 0 <= i < |items| ==> Represents(FromItems(items)[i], items[i], limits, depth + 1)
    requires AdmissibleList(ManifestConfig(limits), FromItems(items), depth + 1)
    ensures Represents(FromValue(Array(items)), Array(items), limits, depth)
  {
    hide AdmissibleList, FromItems;
    var v := FromValue(Array(items));
    assert ManifestItem(v);
    assert ToValue(v).items == items;
  }

  /** What the pairs made from the keys `ks` of `obj` amount to, after the pairs `acc`. */
  ghost predicate PairsOf(obj: Value, ks: seq<Text>, pairs: seq<Pair>, limits: CborLimits, depth: nat,
                          acc: seq<Pair>, previous: Option<bytes>)
    requires obj.Object?
  {
    && |pairs| == |ks|
    && AdmissiblePairs(ManifestConfig(limits), acc, previous, pairs, depth)
    && ManifestPairs(pairs)
    && forall i :: 0 <= i < |ks| ==>
         ks[i] in obj.entries && pairs[i].key.text == ks[i] && ToValue(pairs[i].val) == obj.entries[ks[i]]
  }

  ghost predicate Fresh(acc: seq<Pair>, ks: seq<Text>) {
    forall i, j :: 0 <= i < |acc| && 0 <= j < |ks| ==> acc[i].key.TextValue? && acc[i].key.text != ks[j]
  }

  ghost predicate Follows(previous: Option<bytes>, ks: seq<Text>) {
    previous.Some? && ks != [] ==> CompareEncodedKeys(previous.value, EncodeText(ks[0])) == Less
  }

  ghost predicate KeysReady(obj: Value, ks: seq<Text>, limits: CborLimits, depth: nat)
    requires obj.Object?
  {
    && Elements(ks) <= obj.entries.Keys && Ascending(KeyLess, ks) && (ks == [] || depth <= limits.maxDepth)
    && forall k :: k in obj.entries ==> |k| <= limits.maxStringBytes && InProfile(obj.entries[k], limits, depth)
  }

  lemma FirstReady(obj: Value, ks: seq<Text>, limits: CborLimits, depth: nat)
    requires obj.Object? && KeysReady(obj, ks, limits, depth) && ks != []
    ensures ks[0] in obj.entries && |ks[0]| <= limits.maxStringBytes && InProfile(obj.entries[ks[0]], limits, depth)
    ensures KeysReady(obj, ks[1..], limits, depth) && Follows(Some(EncodeText(ks[0])), ks[1..])
    ensures ks[0] !in ks[1..] && depth <= limits.maxDepth
    ensures Elements(ks) <= obj.entries.Keys && Elements(ks[1..]) <= obj.entries.Keys
  {
    hide InProfile, EncodeText, ValidUtf8;
    var rest := ks[1..];
    AscendingIsDistinct(ks);
    assert ks[0] in Elements(ks) && Elements(rest) <= Elements(ks);
    assert forall i, j :: 0 <= i < j < |rest| ==> rest[i] == ks[i + 1] && rest[j] == ks[j + 1];
    assert rest != [] ==> KeyLess(ks[0], ks[1]);
  }

  lemma FreshStep(acc: seq<Pair>, ks: seq<Text>, p: Pair)
    requires Fresh(acc, ks) && ks != [] && p.key == TextValue(ks[0]) && ks[0] !in ks[1..]
    ensures Fresh(acc + [p], ks[1..])
  {
    hide ValidUtf8;
  }

  lemma KeyFits(ks: seq<Text>, acc: seq<Pair>, previous: Option<bytes>, limits: CborLimits, depth: nat)
    requires ks != [] && Fresh(acc, ks) && Follows(previous, ks) && |ks[0]| <= limits.maxStringBytes
        && depth <= limits.maxDepth
    ensures EncItem(TextValue(ks[0])) == EncodeText(ks[0])
    ensures Admissible(ManifestConfig(limits), TextValue(ks[0]), depth)
    ensures CheckKey(ManifestConfig(limits), TextValue(ks[0]), EncodeText(ks[0]), acc, previous).Ok?
  {
    hide CompareEncodedKeys, EncodeText, ValidUtf8;
  }

  lemma PairsStep(obj: Value, ks: seq<Text>, p: Pair, pairs: seq<Pair>, limits: CborLimits, depth: nat,
                  acc: seq<Pair>, previous: Option<bytes>)
    requires obj.Object? && ks != [] && ks[0] in obj.entries && p.key == TextValue(ks[0])
    requires Represents(p.val, obj.entries[ks[0]], limits, depth)
    requires EncItem(p.key) == EncodeText(ks[0]) && Admissible(ManifestConfig(limits), p.key, depth)
    requires CheckKey(ManifestConfig(limits), p.key, EncodeText(ks[0]), acc, previous).Ok?
    requires PairsOf(obj, ks[1..], pairs, limits, depth, acc + [p], Some(EncodeText(ks[0])))
    ensures PairsOf(obj, ks, [p] + pairs, limits, depth, acc, previous)
  {
    hide Admissible, CheckKey, EncItem, EncodeText, ValidUtf8, ManifestItem, ToValue;
    var all := [p] + pairs;
    assert all[1..] == pairs;
    assert forall i :: 1 <= i < |all| ==> all[i] == pairs[i - 1] && ks[i] == ks[1..][i - 1];
  }

  lemma NoPairsOf(obj: Value, limits: CborLimits, depth: nat, acc: seq<Pair>, previous: Option<bytes>)
    requires obj.Object?
    ensures Elements([]) <= obj.entries.Keys && FromEntries(obj, []) == []
    ensures PairsOf(obj, [], [], limits, depth, acc, previous)
  {
    EmptyElements([]);
  }

  lemma FromEntriesStep(obj: Value, ks: seq<Text>)
    requires obj.Object? && Elements(ks) <= obj.entries.Keys && ks != []
    requires ks[0] in obj.entries && Elements(ks[1..]) <= obj.entries.Keys
    ensures FromEntries(obj, ks) == [Pair(TextValue(ks[0]), FromValue(obj.entries[ks[0]]))] + FromEntries(obj, ks[1..])
  {
    hide FromValue, ValidUtf8;
  }

  lemma {:induction false} EntriesRepresented(obj: Value, ks: seq<Text>, limits: CborLimits, depth: nat,
                                              acc: seq<Pair>, previous: Option<bytes>)
    requires obj.Object? && Elements(ks) <= obj.entries.Keys && KeysReady(obj, ks, limits, depth)
    requires Fresh(acc, ks) && Follows(previous, ks)
    ensures PairsOf(obj, ks, FromEntries(obj, ks), limits, depth, acc, previous)
    decreases obj, 0, |ks|
  {
    hide *;
    if ks == [] {
      NoPairsOf(obj, limits, depth, acc, previous);
    } else {
      FirstReady(obj, ks, limits, depth);
      var v := obj.entries[ks[0]];
      ValueRepresented(v, limits, depth);
      var p := Pair(TextValue(ks[0]), FromValue(v));
      FreshStep(acc, ks, p);
      EntriesRepresented(obj, ks[1..], limits, depth, acc + [p], Some(EncodeText(ks[0])));
      KeyFits(ks, acc, previous, limits, depth);
      FromEntriesStep(obj, ks);
      PairsStep(obj, ks, p, FromEntries(obj, ks[1..]), limits, depth, acc, previous);
    }
  }

  lemma ObjectReady(obj: Value, limits: CborLimits, depth: nat)
    requires obj.Object? && InProfile(obj, limits, depth)
    ensures var ks := CanonicalKeys(obj.entries);
            KeysReady(obj, ks, limits, depth + 1) && Fresh([], ks) && Follows(None, ks)
  {
    hide Ascending, KeyLess, EncodeText, ValidUtf8;
    var ks := CanonicalKeys(obj.entries);
    if ks != [] {
      assert ks[0] in Elements(ks);
      assert InProfile(obj.entries[ks[0]], limits, depth + 1);
    }
  }

  lemma DictMap(obj: Value, pairs: seq<Pair>, limits: CborLimits, depth: nat)
    requires obj.Object? && PairsOf(obj, CanonicalKeys(obj.entries), pairs, limits, depth, [], None)
    ensures ManifestPairs(pairs) && ToEntries(pairs) == obj.entries
  {
    hide AdmissiblePairs, ToValue, ToEntries, ManifestItem, ValidUtf8, Ascending;
    var ks := CanonicalKeys(obj.entries);
    assert TextKeys(pairs) == ks;
    EntryKeys(pairs);
    forall i | 0 <= i < |pairs| ensures ks[i] in ToEntries(pairs) && ToEntries(pairs)[ks[i]] == obj.entries[ks[i]] {
      EntryAt(pairs, i);
    }
    forall k | k in obj.entries ensures k in ToEntries(pairs) && ToEntries(pairs)[k] == obj.entries[k] {
      assert k in Elements(ks);
    }
  }

  lemma PairsAreManifest(pairs: seq<Pair>)
    requires ManifestPairs(pairs)
    ensures ManifestItem(DictValue(pairs)) && ToValue(DictValue(pairs)) == Object(ToEntries(pairs))
  {
    hide ToEntries;
  }

  lemma PairsMean(obj: Value, ks: seq<Text>, pairs: seq<Pair>, limits: CborLimits, depth: nat)
    requires obj.Object? && PairsOf(obj, ks, pairs, limits, depth, [], None)
    ensures |pairs| == |ks| && AdmissiblePairs(ManifestConfig(limits), [], None, pairs, depth)
  {
    hide AdmissiblePairs, ManifestItem, ToValue;
  }

  lemma DictRepresented(obj: Value, pairs: seq<Pair>, limits: CborLimits, depth: nat)
    requires obj.Object? && InProfile(obj, limits, depth)
    requires PairsOf(obj, CanonicalKeys(obj.entries), pairs, limits, depth + 1, [], None)
    ensures Represents(DictValue(pairs), obj, limits, depth)
  {
    hide AdmissiblePairs, ToEntries, Ascending, KeyLess, CanonicalKeys, EncItem, ValidUtf8;
    DictMap(obj, pairs, limits, depth + 1);
    CanonicalElements(obj);
    PairsAreManifest(pairs);
    PairsMean(obj, CanonicalKeys(obj.entries), pairs, limits, depth + 1);
    hide PairsOf;
  }

  lemma {:induction false} ObjectRepresented(obj: Value, limits: CborLimits, depth: nat)
    requires obj.Object? && InProfile(obj, limits, depth)
    ensures Represents(FromValue(obj), obj, limits, depth)
    decreases obj, 0, |obj.entries| + 1
  {
    hide *;
    ObjectReady(obj, limits, depth);
    CanonicalElements(obj);
    EntriesRepresented(obj, CanonicalKeys(obj.entries), limits, depth + 1, [], None);
    DictRepresented(obj, FromEntries(obj, CanonicalKeys(obj.entries)), limits, depth);
  }

  lemma CanonicalElements(obj: Value)
    requires obj.Object?
    ensures |CanonicalKeys(obj.entries)| == |obj.entries|
    ensures FromValue(obj) == DictValue(FromEntries(obj, CanonicalKeys(obj.entries)))
  {
  }

  // ---------------------------------------------------------------- the agreement

  lemma RepresentsMeans(v: Item, w: Value, limits: CborLimits, depth: nat)
    ensures Represents(v, w, limits, depth) <==>
            Admissible(ManifestConfig(limits), v, depth) && ManifestItem(v) && ToValue(v) == w
  {
  }

  lemma SameMeans(v: Item, w: Value, limits: CborLimits, depth: nat)
    ensures Same(v, w, limits, depth) <==> InProfile(w, limits, depth) && Enc(w) == EncItem(v)
  {
  }

  lemma ManifestDecodeMeans(input: bytes, limits: CborLimits, v: Item)
    ensures DecodeManifestItem(input, limits) == Ok(v) <==>
            DecodeExact(input, ManifestConfig(limits)) == Ok(v) && ManifestItem(v)
    ensures ManifestConfig(limits).limits == Some(limits)
  {
    hide DecodeExact;
  }

  /** Under one limit record the two document layers accept exactly the same inputs, and the values
      they return are the same JSON value. */
  lemma DocumentLayersAgree(input: bytes, limits: CborLimits)
    ensures RustDocument.DecodeDocument(input, limits).Ok? <==> DecodeManifestItem(input, limits).Ok?
    ensures DecodeManifestItem(input, limits).Ok? ==>
            && ManifestItem(DecodeManifestItem(input, limits).value)
            && RustDocument.DecodeDocument(input, limits) == Ok(ToValue(DecodeManifestItem(input, limits).value))
  {
    hide *;
    if DecodeManifestItem(input, limits).Ok? {
      var v := DecodeManifestItem(input, limits).value;
      ManifestDecodeMeans(input, limits, v);
      StrictDocument.AcceptsExactlyEncodings(input, ManifestConfig(limits), v);
      ItemSame(v, limits, 0);
      SameMeans(v, ToValue(v), limits, 0);
      RustDocument.AcceptsExactlyEncodings(input, limits, ToValue(v));
    }
    if RustDocument.DecodeDocument(input, limits).Ok? {
      var w := RustDocument.DecodeDocument(input, limits).value;
      RustDocument.AcceptsExactlyEncodings(input, limits, w);
      ValueRepresented(w, limits, 0);
      var v := FromValue(w);
      RepresentsMeans(v, w, limits, 0);
      ItemSame(v, limits, 0);
      SameMeans(v, w, limits, 0);
      ManifestDecodeMeans(input, limits, v);
      StrictDocument.AcceptsExactlyEncodings(input, ManifestConfig(limits), v);
    }
  }

  /** A proper prefix of a document that either layer accepts is malformed for both. */
  lemma PrefixMalformedForBoth(input: bytes, limits: CborLimits, k: nat)
    requires RustDocument.DecodeDocument(input, limits).Ok? || DecodeManifestItem(input, limits).Ok?
    requires k < |input|
    ensures DecodeManifestItem(input[..k], limits) == Err(CatMalformed)
    ensures var cut := RustDocument.DecodeDocument(input[..k], limits);
            cut.Err? && CategoryOf(cut.error) == CatMalformed
  {
    hide DecodeExact, RustDocument.DecodeDocument;
    DocumentLayersAgree(input, limits);
    StrictDocument.PrefixAndExtensionRejected(input, ManifestConfig(limits), k, [0]);
    RustDocument.PrefixAndExtensionRejected(input, limits, k, [0]);
  }
}
