/** Validated Python manifest values, their dictionaries filled in any order: encoding and profile are those of
    their JSON value, and both document layers read them back. */
module ManifestOrder {
  import opened Bytes
  import opened CborHeads
  import opened CborValues
  import opened Results
  import opened SortedSets
  import opened StrictDecoder
  import opened StrictCorrectness
  import opened StrictDocument
  import opened Agreement
  import opened InsertionOrder
  import RustDocument

  // ---------------------------------------------------------------- manifest values

  /** At every level the keys are different, as in every dictionary. */
  ghost predicate DistinctKeys(v: Item)
    decreases v
  {
    match v
    case ListValue(items) => forall i :: 0 <= i < |items| ==> DistinctKeys(items[i])
    case DictValue(pairs) => Apart(pairs) && forall i :: 0 <= i < |pairs| ==> DistinctVal(pairs[i])
    case _ => true
  }

  ghost predicate DistinctVal(p: Pair)
    decreases p
  {
    DistinctKeys(p.val)
  }

  lemma {:induction false} JoinInOrder(ps: seq<Pair>)
    ensures Join(EncPairs(ps)) == EncInOrder(ps)
  {
    hide EncPairs, EncItem;
    EncPairsStep(ps);
    if ps != [] {
      JoinInOrder(ps[1..]);
      assert EncPairs(ps)[1..] == EncPairs(ps[1..]);
    }
  }

  lemma {:induction false} NeighboursAscend(ks: seq<Text>)
    requires forall i :: 0 < i < |ks| ==> KeyLess(ks[i - 1], ks[i])
    ensures Ascending(KeyLess, ks)
  {
    hide KeyLess, ValidUtf8;
    if ks != [] {
      var rest := ks[1..];
      assert forall i :: 0 < i < |rest| ==> rest[i] == ks[i + 1];
      NeighboursAscend(rest);
      if rest != [] {
        FirstIsLeast(ks[0], rest);
      }
      AscendingPrepend(KeyLess, ks[0], rest);
      assert ks == [ks[0]] + rest;
    }
  }

  lemma {:induction false} FirstIsLeast(k: Text, ks: seq<Text>)
    requires ks != [] && KeyLess(k, ks[0]) && Ascending(KeyLess, ks)
    ensures forall j :: j in Elements(ks) ==> KeyLess(k, j)
  {
    hide KeyLess, ValidUtf8;
    KeyOrderIsStrictTotal();
    forall j | j in Elements(ks) ensures KeyLess(k, j) {
      var i :| 0 <= i < |ks| && ks[i] == j;
      if i > 0 {
        assert KeyLess(ks[0], ks[i]);
      }
    }
  }

  lemma {:induction false} SortedKeysAscend(pairs: seq<Pair>)
    requires ManifestPairs(pairs) && Apart(pairs) && InOrder(EncPairs(pairs))
    ensures Ascending(KeyLess, TextKeys(pairs)) && Distinct(TextKeys(pairs))
  {
    hide ManifestItem, CompareEncodedKeys, EncPairs, EncodeText, ValidUtf8, Ascending;
    var ks := TextKeys(pairs);
    forall i | 0 < i < |ks| ensures KeyLess(ks[i - 1], ks[i]) {
      EncPairAt(pairs, i - 1);
      EncPairAt(pairs, i);
      TextEncodings(ks[i - 1]);
      TextEncodings(ks[i]);
      CompareFlips(EncodeText(ks[i - 1]), EncodeText(ks[i]));
      if EncodeText(ks[i - 1]) == EncodeText(ks[i]) {
        SameText(ks[i - 1], ks[i]);
      }
    }
    NeighboursAscend(ks);
    AscendingIsDistinct(ks);
  }

  lemma TextEncodings(t: Text)
    ensures EncItem(TextValue(t)) == EncodeText(t)
  {
  }

  lemma SameText(a: bytes, b: bytes)
    requires EncodeText(a) == EncodeText(b)
    ensures a == b
  {
    hide *;
    LexTotal(a, b);
    if |a| == |b| {
      EncodeTextOrder(a, b);
      EncodeTextOrder(b, a);
      LexIrreflexive(EncodeText(a));
    } else if |a| < |b| {
      EncodeTextGrows(a, b);
    } else {
      EncodeTextGrows(b, a);
    }
  }

  lemma DistinctTexts(pairs: seq<Pair>)
    requires ManifestPairs(pairs) && Apart(pairs)
    ensures Distinct(TextKeys(pairs))
  {
    hide ManifestItem, ValidUtf8;
    var ks := TextKeys(pairs);
    forall i, j | 0 <= i < j < |ks| ensures ks[i] != ks[j] {
      assert !PyEqual(pairs[i].key, pairs[j].key);
    }
  }

  /** The map of a dictionary does not depend on the order of its pairs. */
  lemma SortedEntries(pairs: seq<Pair>)
    requires ManifestPairs(pairs) && Apart(pairs)
    ensures ManifestPairs(SortItems(pairs)) && Apart(SortItems(pairs))
    ensures ToEntries(SortItems(pairs)) == ToEntries(pairs)
  {
    hide ManifestItem, SortItems, PyEqual, ToEntries, ToValue, ValidUtf8, Apart, Distinct;
    var qs := SortItems(pairs);
    assert forall i :: 0 <= i < |qs| ==> qs[i] in pairs;
    SortKeepsApart(pairs);
    DistinctTexts(pairs);
    DistinctTexts(qs);
    EntryKeys(pairs);
    EntryKeys(qs);
    forall k | k in ToEntries(pairs) ensures k in ToEntries(qs) && ToEntries(qs)[k] == ToEntries(pairs)[k] {
      var i :| 0 <= i < |pairs| && pairs[i].key.text == k;
      EntryAt(pairs, i);
      assert pairs[i] in qs;
      var j :| 0 <= j < |qs| && qs[j] == pairs[i];
      EntryAt(qs, j);
    }
    forall k | k in ToEntries(qs) ensures k in ToEntries(pairs) {
      var j :| 0 <= j < |qs| && qs[j].key.text == k;
      var i :| 0 <= i < |pairs| && pairs[i] == qs[j];
      EntryAt(pairs, i);
    }
  }

  lemma ObjectOfKeys(obj: Value, ks: seq<Text>)
    requires obj.Object? && Elements(ks) == obj.entries.Keys && Ascending(KeyLess, ks) && Distinct(ks)
    ensures Enc(obj) == EncodeHead(5, |ks|) + EncEntries(obj, ks)
  {
    hide KeyLess, ValidUtf8, EncodeHead, EncEntries, Distinct, Ascending;
    KeyOrderIsStrictTotal();
    DistinctSize(ks);
    AscendingIsUnique(KeyLess, ks, CanonicalKeys(obj.entries));
  }

  lemma DictIsObject(pairs: seq<Pair>)
    requires ManifestPairs(pairs) && Apart(pairs)
    requires forall i :: 0 <= i < |pairs| ==> EncItem(pairs[i].val) == Enc(ToValue(pairs[i].val))
    ensures EncItem(DictValue(pairs)) == Enc(Object(ToEntries(pairs)))
  {
    hide ManifestItem, SortItems, PyEqual, ToEntries, ToValue, ValidUtf8, Apart, Distinct, Ascending, EncItem, Enc,
         EncInOrder, EncEntries, EncPairs, SortPairs, Join, EncodeHead, KeyLess, InOrder;
    var qs := SortItems(pairs);
    var obj := Object(ToEntries(pairs));
    SortedEntries(pairs);
    SortCommutes(pairs);
    SortOrders(EncPairs(pairs));
    SortedKeysAscend(qs);
    EntryKeys(qs);
    forall i | 0 <= i < |qs|
      ensures qs[i].key.text in obj.entries && Enc(obj.entries[qs[i].key.text]) == EncItem(qs[i].val)
    {
      EntryAt(qs, i);
      assert qs[i] in pairs;
      var j :| 0 <= j < |pairs| && pairs[j] == qs[i];
    }
    PairEncodings(obj, qs);
    ObjectOfKeys(obj, TextKeys(qs));
    DictEncoding(pairs);
    JoinInOrder(qs);
  }

  /** A validated Python value, its dictionaries filled in any order, has the encoding of its JSON value. */
  lemma {:induction false} ItemIsValue(v: Item)
    requires ManifestItem(v) && DistinctKeys(v)
    ensures EncItem(v) == Enc(ToValue(v))
    decreases v
  {
    match v
    case ListValue(items) =>
      hide EncList, EncItems, EncodeHead;
      var values := ToValue(v).items;
      forall i | 0 <= i < |items| ensures Enc(values[i]) == EncItem(items[i]) {
        ItemIsValue(items[i]);
      }
      ListEncodings(items, values);
    case DictValue(pairs) =>
      hide EncPairs, EncEntries, SortPairs, Apart, CanonicalKeys;
      forall i | 0 <= i < |pairs| ensures EncItem(pairs[i].val) == Enc(ToValue(pairs[i].val)) {
        assert pairs[i].val < pairs[i];
        assert DistinctVal(pairs[i]);
        ItemIsValue(pairs[i].val);
      }
      DictIsObject(pairs);
    case _ =>
  }

  lemma PairProfile(p: Pair, limits: CborLimits, depth: nat)
    requires p.key.TextValue?
    requires ManifestItem(p.val)
    requires Encodable(ManifestConfig(limits), p.val, depth) <==> InProfile(ToValue(p.val), limits, depth)
    ensures EncodablePair(ManifestConfig(limits), p, depth) <==>
            |p.key.text| <= limits.maxStringBytes && InProfile(ToValue(p.val), limits, depth)
  {
    hide ManifestItem, ToValue, ValidUtf8;
  }

  lemma DictEncodable(pairs: seq<Pair>, limits: CborLimits, depth: nat)
    requires Apart(pairs)
    ensures Encodable(ManifestConfig(limits), DictValue(pairs), depth) <==>
            && depth <= limits.maxDepth && |pairs| <= limits.maxMapPairs
            && forall i :: 0 <= i < |pairs| ==> EncodablePair(ManifestConfig(limits), pairs[i], depth + 1)
  {
    hide EncodablePair, Apart;
  }

  lemma ObjectProfile(entries: map<Text, Value>, limits: CborLimits, depth: nat)
    ensures InProfile(Object(entries), limits, depth) <==>
            && depth <= limits.maxDepth && |entries| <= limits.maxMapPairs
            && forall k :: k in entries ==> |k| <= limits.maxStringBytes && InProfile(entries[k], limits, depth + 1)
  {
    hide ValidUtf8;
  }

  lemma DictProfile(pairs: seq<Pair>, limits: CborLimits, depth: nat)
    requires ManifestPairs(pairs) && Apart(pairs)
    requires forall i :: 0 <= i < |pairs| ==>
      (Encodable(ManifestConfig(limits), pairs[i].val, depth + 1) <==>
        InProfile(ToValue(pairs[i].val), limits, depth + 1))
    ensures Encodable(ManifestConfig(limits), DictValue(pairs), depth) <==>
        InProfile(Object(ToEntries(pairs)), limits, depth)
  {
    hide ManifestItem, ToEntries, ToValue, ValidUtf8, Apart, Distinct, Encodable, EncodablePair, InProfile;
    var entries, ks := ToEntries(pairs), TextKeys(pairs);
    DistinctTexts(pairs);
    EntryKeys(pairs);
    DistinctSize(ks);
    forall i | 0 <= i < |pairs|
      ensures ks[i] in entries && entries[ks[i]] == ToValue(pairs[i].val)
      ensures EncodablePair(ManifestConfig(limits), pairs[i], depth + 1) <==>
              |ks[i]| <= limits.maxStringBytes && InProfile(entries[ks[i]], limits, depth + 1)
    {
      EntryAt(pairs, i);
      PairProfile(pairs[i], limits, depth + 1);
    }
    forall k | k in entries ensures exists i :: 0 <= i < |ks| && ks[i] == k {
      assert k in Elements(ks);
    }
    DictEncodable(pairs, limits, depth);
    ObjectProfile(entries, limits, depth);
  }

  lemma ListProfile(items: seq<Item>, limits: CborLimits, depth: nat)
    requires ManifestItem(ListValue(items))
    requires forall i :: 0 <= i < |items| ==>
      (Encodable(ManifestConfig(limits), items[i], depth + 1) <==> InProfile(ToValue(items[i]), limits, depth + 1))
    ensures Encodable(ManifestConfig(limits), ListValue(items), depth)
       <==> InProfile(ToValue(ListValue(items)), limits, depth)
  {
    var values := ToValue(ListValue(items)).items;
    forall i | 0 <= i < |items|
      ensures Encodable(ManifestConfig(limits), items[i], depth + 1) <==> InProfile(values[i], limits, depth + 1)
    {
      assert values[i] == ToValue(items[i]);
    }
    if InProfile(Array(values), limits, depth) {
      assert forall i :: 0 <= i < |items| ==> InProfile(values[i], limits, depth + 1);
      assert forall i :: 0 <= i < |items| ==> Encodable(ManifestConfig(limits), items[i], depth + 1);
    }
  }

  lemma ScalarProfile(v: Item, limits: CborLimits, depth: nat)
    requires ManifestItem(v) && !v.ListValue? && !v.DictValue?
    ensures Encodable(ManifestConfig(limits), v, depth) <==> InProfile(ToValue(v), limits, depth)
  {
  }

  /** Apart from the order of its dictionaries a validated Python value can be read back exactly when its
      JSON value is within the Rust profile. */
  lemma {:induction false} EncodableExactly(v: Item, limits: CborLimits, depth: nat)
    requires ManifestItem(v) && DistinctKeys(v)
    ensures Encodable(ManifestConfig(limits), v, depth) <==> InProfile(ToValue(v), limits, depth)
    decreases v
  {
    hide Encodable, InProfile, Apart;
    match v
    case ListValue(items) =>
      forall i | 0 <= i < |items|
        ensures Encodable(ManifestConfig(limits), items[i], depth + 1) <==>
            InProfile(ToValue(items[i]), limits, depth + 1)
      {
        EncodableExactly(items[i], limits, depth + 1);
      }
      ListProfile(items, limits, depth);
    case DictValue(pairs) =>
      forall i | 0 <= i < |pairs|
        ensures Encodable(ManifestConfig(limits), pairs[i].val, depth + 1)
           <==> InProfile(ToValue(pairs[i].val), limits, depth + 1)
      {
        assert pairs[i].val < pairs[i];
        assert DistinctVal(pairs[i]);
        EncodableExactly(pairs[i].val, limits, depth + 1);
      }
      DictProfile(pairs, limits, depth);
    case _ => ScalarProfile(v, limits, depth);
  }

  /** A validated Python value within the profile is decoded from its encoding by both document layers: in
      Python as an equal value, in Rust as its JSON value. */
  lemma ManifestValueDecodes(v: Item, limits: CborLimits)
    requires ManifestItem(v) && DistinctKeys(v)
    requires InProfile(ToValue(v), limits, 0) && |EncItem(v)| <= limits.maxManifestBytes
    ensures DecodeManifestItem(EncItem(v), limits) == Ok(Normal(v)) && PySame(v, Normal(v))
    ensures RustDocument.DecodeDocument(EncItem(v), limits) == Ok(ToValue(v))
  {
    hide *;
    ItemIsValue(v);
    EncodableExactly(v, limits, 0);
    ManifestLimits(limits);
    EncodingDecodes(v, ManifestConfig(limits));
    RustDocument.AcceptsExactlyEncodings(EncItem(v), limits, ToValue(v));
    DocumentLayersAgree(EncItem(v), limits);
    ManifestDecodeMeans(EncItem(v), limits, DecodeManifestItem(EncItem(v), limits).value);
  }

  lemma ManifestLimits(limits: CborLimits)
    ensures ManifestConfig(limits).limits == Some(limits)
  {
  }
}
