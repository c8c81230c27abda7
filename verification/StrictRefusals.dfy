/** What the reference decoder says to the encoding of a value outside the profile, and that both document layers
    answer alike to whatever was encoded. */
module StrictRefusals {
  import opened Bytes
  import opened CborHeads
  import opened CborValues
  import opened LenientRefusals
  import opened Results
  import opened SortedSets
  import opened StrictCorrectness
  import opened StrictDecoder
  import opened StrictDocument
  import Lenient = LenientDecoder
  import Completeness = LenientCompleteness
  import Agreement
  import RustDocument

  // ---------------------------------------------------------------- values within the profile

  /** A value within the profile is read, and the decoder stops at its end. */
  lemma ProfileRead(s: bytes, pos: nat, v: Value, limits: CborLimits, depth: nat)
    requires InProfile(v, limits, depth) && At(s, pos, Enc(v))
    ensures pos <= |s| && DecodeItem(s, pos, ManifestConfig(limits), depth).Ok?
    ensures DecodeItem(s, pos, ManifestConfig(limits), depth).value.next == pos + |Enc(v)|
  {
    hide *;
    var item := Agreement.FromValue(v);
    Agreement.ValueRepresented(v, limits, depth);
    Agreement.RepresentsMeans(item, v, limits, depth);
    Agreement.ItemSame(item, limits, depth);
    Agreement.SameMeans(item, v, limits, depth);
    Stands(s, pos, v);
    ItemComplete(s, pos, item, ManifestConfig(limits), depth);
  }

  // ---------------------------------------------------------------- one head

  lemma TooDeep(s: bytes, pos: nat, limits: CborLimits, depth: nat)
    requires pos <= |s| && depth > limits.maxDepth
    ensures DecodeItem(s, pos, ManifestConfig(limits), depth) == Err(CatResourceLimit)
  {
    hide DecodeInt, DecodeString, DecodeSimple, DecodeList, DecodeDict, Argument;
  }

  lemma Limited(limits: CborLimits, n: int, depth: nat)
    ensures var cfg := ManifestConfig(limits);
            && (DepthOk(cfg, depth) <==> depth <= limits.maxDepth)
            && (IntOk(cfg, n) <==> SafeInteger(n))
            && (n >= 0 ==>
                  && (ListOk(cfg, n) <==> n <= limits.maxArrayItems)
                  && (DictOk(cfg, n) <==> n <= limits.maxMapPairs)
                  && (StringOk(cfg, n) <==> n <= limits.maxStringBytes))
  {
  }

  lemma LargeIntegerAt(s: bytes, pos: nat, n: int, limits: CborLimits, depth: nat)
    requires depth <= limits.maxDepth && -1 - MAX_ARGUMENT <= n <= MAX_ARGUMENT && !SafeInteger(n)
    requires At(s, pos, if n >= 0 then EncodeHead(0, n) else EncodeHead(1, -1 - n))
    ensures pos <= |s| && DecodeItem(s, pos, ManifestConfig(limits), depth) == Err(CatUnsupportedType)
  {
    hide DecodeItem, Argument, EncodeHead, At, SafeInteger, IntOk, DepthOk;
    StrictHeadBack(s, pos, if n >= 0 then 0 else 1, if n >= 0 then n else -1 - n);
    Limited(limits, n, depth);
    ItemEquation(s, pos, ManifestConfig(limits), depth);
  }

  lemma LongTextAt(s: bytes, pos: nat, t: Text, limits: CborLimits, depth: nat)
    requires depth <= limits.maxDepth && |t| <= MAX_ARGUMENT
    requires At(s, pos, EncodeText(t)) && |t| > limits.maxStringBytes
    ensures pos <= |s| && DecodeItem(s, pos, ManifestConfig(limits), depth) == Err(CatResourceLimit)
  {
    hide DecodeItem, Argument, EncodeHead, At, StringOk, DepthOk, ValidUtf8;
    AtConcat(s, pos, EncodeHead(3, |t|), t);
    StrictHeadBack(s, pos, 3, |t|);
    Limited(limits, |t|, depth);
    ItemEquation(s, pos, ManifestConfig(limits), depth);
  }

  lemma ContainerAt(s: bytes, pos: nat, major: nat, n: nat, limits: CborLimits, depth: nat)
    requires depth <= limits.maxDepth && n <= MAX_ARGUMENT && 4 <= major <= 5
    requires At(s, pos, EncodeHead(major, n)) && pos + |EncodeHead(major, n)| <= |s|
    ensures DecodeItem(s, pos, ManifestConfig(limits), depth)
         == Container(s, Head(major, n, pos + |EncodeHead(major, n)|), ManifestConfig(limits), depth)
  {
    hide *;
    StrictHeadBack(s, pos, major, n);
    Limited(limits, n, depth);
    ItemEquation(s, pos, ManifestConfig(limits), depth);
  }

  lemma ContainerFails(s: bytes, h: Head, limits: CborLimits, depth: nat)
    requires h.next <= |s| && 4 <= h.major <= 5
    ensures var cfg := ManifestConfig(limits);
            var r := Container(s, h, cfg, depth);
            && (h.major == 4 && h.arg > limits.maxArrayItems ==> r == Err(CatResourceLimit))
            && (h.major == 5 && h.arg > limits.maxMapPairs ==> r == Err(CatResourceLimit))
            && (h.major == 4 && h.arg <= limits.maxArrayItems ==>
                  var items := DecodeList(s, h.next, h.arg, cfg, depth + 1, []);
                  items.Err? ==> r == Err(items.error))
            && (h.major == 5 && h.arg <= limits.maxMapPairs ==>
                  var pairs := DecodeDict(s, h.next, h.arg, cfg, depth + 1, [], None);
                  pairs.Err? ==> r == Err(pairs.error))
  {
    hide DecodeList, DecodeDict, ListOk, DictOk;
    Limited(limits, h.arg, depth);
  }

  // ---------------------------------------------------------------- any depth

  lemma Categories()
    ensures CategoryOf(ResourceLimit) == CatResourceLimit && CategoryOf(IntegerOutOfRange) == CatUnsupportedType
  {
  }

  /** Wherever the encoding of a value outside the profile stands, the reference decoder fails with the category of
      the first violation in it, whatever follows. */
  lemma {:induction false} ItemRefused(s: bytes, pos: nat, v: Value, limits: CborLimits, depth: nat, e: CborError)
    requires Encodable(v) && At(s, pos, Enc(v)) && Violation(v, limits, depth) == Some(e)
    ensures pos <= |s| && DecodeItem(s, pos, ManifestConfig(limits), depth) == Err(CategoryOf(e))
    decreases v, 1, 0
  {
    hide *;
    Stands(s, pos, v);
    Categories();
    if depth > limits.maxDepth {
      TooDeep(s, pos, limits, depth);
      DeepViolation(v, limits, depth);
    } else if v.Array? {
      ListRefused(s, pos, v, limits, depth, e);
    } else if v.Object? {
      DictRefused(s, pos, v, limits, depth, e);
    } else {
      ScalarViolation(v, limits, depth);
      if v.Int? {
        LargeIntegerAt(s, pos, v.n, limits, depth);
      } else {
        LongTextAt(s, pos, v.text, limits, depth);
      }
    }
  }

  lemma {:induction false} ListRefused(s: bytes, pos: nat, v: Value, limits: CborLimits, depth: nat, e: CborError)
    requires v.Array? && depth <= limits.maxDepth
    requires Encodable(v) && At(s, pos, Enc(v)) && Violation(v, limits, depth) == Some(e)
    ensures pos <= |s| && DecodeItem(s, pos, ManifestConfig(limits), depth) == Err(CategoryOf(e))
    decreases v, 0, 0
  {
    hide *;
    var n := |v.items|;
    var h := EncodeHead(4, n);
    Categories();
    ArrayShape(v.items);
    TooManyIs(v, limits, depth);
    AtConcat(s, pos, h, EncItems(v.items));
    AtMeans(s, pos, h);
    ContainerAt(s, pos, 4, n, limits, depth);
    ContainerFails(s, Head(4, n, pos + |h|), limits, depth);
    if n <= limits.maxArrayItems {
      ItemsViolation(v.items, limits, depth);
      ItemsRefused(s, pos + |h|, v.items, limits, depth + 1, [], e);
    }
  }

  lemma {:induction false} DictRefused(s: bytes, pos: nat, v: Value, limits: CborLimits, depth: nat, e: CborError)
    requires v.Object? && depth <= limits.maxDepth
    requires Encodable(v) && At(s, pos, Enc(v)) && Violation(v, limits, depth) == Some(e)
    ensures pos <= |s| && DecodeItem(s, pos, ManifestConfig(limits), depth) == Err(CategoryOf(e))
    decreases v, 0, |v.entries| + 1
  {
    hide *;
    var n := |v.entries|;
    var h := EncodeHead(5, n);
    Categories();
    ObjectShape(v.entries);
    TooManyIs(v, limits, depth);
    AtConcat(s, pos, h, Completeness.RestEncoding(v, 0));
    AtMeans(s, pos, h);
    ContainerAt(s, pos, 5, n, limits, depth);
    ContainerFails(s, Head(5, n, pos + |h|), limits, depth);
    if n <= limits.maxMapPairs {
      EntriesViolation(v, limits, depth);
      NoneRead(v);
      PairsRefused(s, pos + |h|, v, 0, limits, depth + 1, [], e);
    }
  }

  lemma {:induction false} ItemsRefused(s: bytes, pos: nat, items: seq<Value>, limits: CborLimits, depth: nat,
                                        acc: seq<Item>, e: CborError)
    requires (forall i :: 0 <= i < |items| ==> Encodable(items[i])) && At(s, pos, EncItems(items))
    requires FirstOfItems(items, limits, depth) == Some(e)
    ensures pos <= |s| && DecodeList(s, pos, |items|, ManifestConfig(limits), depth, acc) == Err(CategoryOf(e))
    decreases items, 0, 0
  {
    hide DecodeItem, InProfile, Enc, Violation, Encodable, ValidUtf8, ManifestConfig;
    var v, rest := items[0], items[1..];
    AtConcat(s, pos, Enc(v), EncItems(rest));
    if Violation(v, limits, depth) == None {
      ViolationExactly(v, limits, depth);
      ProfileRead(s, pos, v, limits, depth);
      var read := DecodeItem(s, pos, ManifestConfig(limits), depth).value;
      ItemsRefused(s, pos + |Enc(v)|, rest, limits, depth, acc + [read.value], e);
    } else {
      ItemRefused(s, pos, v, limits, depth, e);
    }
  }

  /** The pairs that were read so far hold the first keys of `obj`. */
  ghost predicate KeysRead(obj: Value, i: nat, acc: seq<Pair>)
    requires obj.Object? && i <= |obj.entries|
  {
    |acc| == i && forall j :: 0 <= j < i ==> acc[j].key == TextValue(CanonicalKeys(obj.entries)[j])
  }

  lemma NoneRead(obj: Value)
    requires obj.Object?
    ensures KeysRead(obj, 0, []) && Completeness.LastKey(obj, 0) == None
  {
  }

  lemma OneMoreRead(obj: Value, i: nat, acc: seq<Pair>, v: Item)
    requires obj.Object? && i < |obj.entries| && KeysRead(obj, i, acc)
    ensures KeysRead(obj, i + 1, acc + [Pair(TextValue(KeyAt(obj, i)), v)])
  {
    hide CanonicalKeys;
    KeyAtIs(obj, i);
  }

  lemma KeyAccepted(obj: Value, i: nat, acc: seq<Pair>, limits: CborLimits)
    requires obj.Object? && i < |obj.entries| && KeysRead(obj, i, acc)
    ensures CheckKey(ManifestConfig(limits), TextValue(KeyAt(obj, i)), EncodeText(KeyAt(obj, i)), acc,
                     Completeness.LastKey(obj, i)).Ok?
  {
    hide CompareEncodedKeys, EncodeText, Ascending, ValidUtf8, Elements;
    KeyAtIs(obj, i);
    Completeness.LastKeyLess(obj, i);
    var ks := CanonicalKeys(obj.entries);
    assert forall j :: 0 <= j < i ==> ks[j] != ks[i];
    assert forall j :: 0 <= j < i ==> !PyEqual(acc[j].key, TextValue(ks[i]));
  }

  /** A key of the map, within its limit and not too deep, is read. */
  lemma KeyRead(s: bytes, pos: nat, k: Text, limits: CborLimits, depth: nat)
    requires depth <= limits.maxDepth && |k| <= limits.maxStringBytes && At(s, pos, EncodeText(k))
    ensures pos <= |s|
    ensures DecodeItem(s, pos, ManifestConfig(limits), depth) == Ok(Read(TextValue(k), pos + |EncodeText(k)|))
  {
    UsizeIsArgument(limits.maxStringBytes);
    hide DecodeItem, EncodeText, ValidUtf8, At, EncodeHead;
    assert Admissible(ManifestConfig(limits), TextValue(k), depth);
    assert EncItem(TextValue(k)) == EncodeText(k);
    AtMeans(s, pos, EncodeText(k));
    ItemComplete(s, pos, TextValue(k), ManifestConfig(limits), depth);
  }

  lemma {:induction false} PairsRefused(s: bytes, pos: nat, obj: Value, i: nat, limits: CborLimits, depth: nat,
                                        acc: seq<Pair>, e: CborError)
    requires obj.Object? && i <= |obj.entries| && At(s, pos, Completeness.RestEncoding(obj, i))
    requires forall k :: k in obj.entries ==> |k| <= MAX_ARGUMENT && Encodable(obj.entries[k])
    requires FirstOfEntries(obj, i, limits, depth) == Some(e) && KeysRead(obj, i, acc)
    ensures pos <= |s|
    ensures DecodeDict(s, pos, |obj.entries| - i, ManifestConfig(limits), depth, acc, Completeness.LastKey(obj, i))
         == Err(CategoryOf(e))
    decreases obj, 0, |obj.entries| - i
  {
    hide *;
    EntryViolation(obj, i, limits, depth);
    EntryStands(s, pos, obj, i);
    Categories();
    var cfg, k := ManifestConfig(limits), KeyAt(obj, i);
    var mid, v := pos + |EncodeText(k)|, obj.entries[k];
    DictEquation(s, pos, |obj.entries| - i, cfg, depth, acc, Completeness.LastKey(obj, i));
    if depth > limits.maxDepth {
      TooDeep(s, pos, limits, depth);
      DeepViolation(v, limits, depth);
    } else if |k| > limits.maxStringBytes {
      LongTextAt(s, pos, k, limits, depth);
    } else {
      KeyRead(s, pos, k, limits, depth);
      KeyAccepted(obj, i, acc, limits);
      if Violation(v, limits, depth).Some? {
        ItemRefused(s, mid, v, limits, depth, e);
      } else {
        ViolationExactly(v, limits, depth);
        ProfileRead(s, mid, v, limits, depth);
        var read := DecodeItem(s, mid, cfg, depth).value;
        OneMoreRead(obj, i, acc, read.value);
        KeyAtIs(obj, i);
        Completeness.LastKeyStep(obj, i);
        PairsRefused(s, mid + |Enc(v)|, obj, i + 1, limits, depth, acc + [Pair(TextValue(k), read.value)], e);
      }
    }
  }

  // ---------------------------------------------------------------- documents

  /** The two layers on a document that holds one item to its end, or fails. */
  lemma DocumentOutcomes(s: bytes, limits: CborLimits)
    requires s != []
    ensures |s| > limits.maxManifestBytes ==>
              && RustDocument.DecodeDocument(s, limits) == Err(ResourceLimit)
              && DecodeManifestItem(s, limits) == Err(CatResourceLimit)
    ensures |s| <= limits.maxManifestBytes && Lenient.DecodeValue(s, 0, limits, 0).Err? ==>
              RustDocument.DecodeDocument(s, limits) == Err(Lenient.DecodeValue(s, 0, limits, 0).error)
    ensures |s| <= limits.maxManifestBytes && DecodeItem(s, 0, ManifestConfig(limits), 0).Err? ==>
              DecodeManifestItem(s, limits) == Err(DecodeItem(s, 0, ManifestConfig(limits), 0).error)
  {
    hide Lenient.DecodeValue, DecodeItem, Enc;
  }

  lemma EncodableHasBytes(v: Value)
    requires Encodable(v)
    ensures Enc(v) != []
  {
    hide EncItems, EncEntries;
  }

  /** Whatever value was encoded, the two document layers answer alike. Within the limit on the document both return
      a value within the profile, and both refuse one outside it: Rust with the first violation in the order of the
      encoding, Python with the category of that violation. */
  lemma BothAnswerAlike(v: Value, limits: CborLimits)
    requires Encodable(v)
    ensures var rust := RustDocument.DecodeDocument(Enc(v), limits);
            var python := DecodeManifestItem(Enc(v), limits);
            var violation := Violation(v, limits, 0);
            && (|Enc(v)| > limits.maxManifestBytes ==> rust == Err(ResourceLimit) && python == Err(CatResourceLimit))
            && (|Enc(v)| <= limits.maxManifestBytes && violation.Some? ==>
                  rust == Err(violation.value) && python == Err(CategoryOf(violation.value)))
            && (|Enc(v)| <= limits.maxManifestBytes && violation.None? ==>
                  rust == Ok(v) && python.Ok? && ManifestItem(python.value) && Agreement.ToValue(python.value) == v)
  {
    hide *;
    var s := Enc(v);
    EncodableHasBytes(v);
    RustDocument.WholeAt(s);
    DocumentOutcomes(s, limits);
    if Violation(v, limits, 0).Some? {
      ValueRefused(s, 0, v, limits, 0, Violation(v, limits, 0).value);
      ItemRefused(s, 0, v, limits, 0, Violation(v, limits, 0).value);
    } else if |s| <= limits.maxManifestBytes {
      ViolationExactly(v, limits, 0);
      RustDocument.AcceptsExactlyEncodings(s, limits, v);
      Agreement.DocumentLayersAgree(s, limits);
    }
  }
}
