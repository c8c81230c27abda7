/** Every encoding within limits decodes back to its value, and a decode that succeeded reports
    truncation of the same input as malformed. */
module LenientCompleteness {
  import opened Bytes
  import opened CborHeads
  import opened CborValues
  import opened LenientDecoder
  import opened Results
  import opened SortedSets

  // ---------------------------------------------------------------- encodings decode

  lemma PeekEncodedHead(s: bytes, pos: nat, major: nat, arg: nat)
    requires 3 <= major <= 5 && arg <= MAX_ARGUMENT && At(s, pos, EncodeHead(major, arg))
    ensures PeekType(s, pos) == Ok(if major == 3 then StringItem else if major == 4 then ArrayItem else MapItem)
    ensures TakeHead(s, pos) == Ok(Head(major, arg, pos + |EncodeHead(major, arg)|))
    ensures Preferred(pos, Head(major, arg, pos + |EncodeHead(major, arg)|))
  {
    ReadsEncodedHead(s, pos, major, arg);
    assert s[pos] == s[pos..pos + |EncodeHead(major, arg)|][0];
  }

  lemma TakesEncodedText(s: bytes, pos: nat, t: Text)
    requires |t| <= MAX_ARGUMENT && At(s, pos, EncodeText(t))
    ensures PeekType(s, pos) == Ok(StringItem)
    ensures TakeText(s, pos) == Ok(Decoded(t, pos + |EncodeText(t)|, true))
  {
    var h := EncodeHead(3, |t|);
    AtConcat(s, pos, h, t);
    PeekEncodedHead(s, pos, 3, |t|);
    assert s[pos + |h|..pos + |h| + |t|] == t;
    hide PeekType, EncodeHead, ValidUtf8, ReadHead, Preferred;
  }

  lemma ScalarDecodes(s: bytes, pos: nat, v: Value, limits: CborLimits, depth: nat)
    requires InProfile(v, limits, depth) && At(s, pos, Enc(v)) && !v.Array? && !v.Object?
    ensures DecodeValue(s, pos, limits, depth) == Ok(Decoded(v, pos + |Enc(v)|, true))
  {
    hide DecodeValue, At, PeekType, ValidUtf8, Enc;
    match v
    case Bool(b) => BoolDecodes(s, pos, b, limits, depth);
    case Int(n) => IntDecodes(s, pos, n, limits, depth);
    case String(t) => StringDecodes(s, pos, t, limits, depth);
  }

  lemma BoolDecodes(s: bytes, pos: nat, b: bool, limits: CborLimits, depth: nat)
    requires depth <= limits.maxDepth && At(s, pos, Enc(Bool(b)))
    ensures DecodeValue(s, pos, limits, depth) == Ok(Decoded(Bool(b), pos + |Enc(Bool(b))|, true))
  {
    hide DecodeItems, DecodeEntries, ValidUtf8, TakeText, TakeHead;
    assert s[pos] == s[pos..pos + 1][0];
  }

  lemma IntDecodes(s: bytes, pos: nat, n: int, limits: CborLimits, depth: nat)
    requires depth <= limits.maxDepth && SafeInteger(n) && At(s, pos, Enc(Int(n)))
    ensures DecodeValue(s, pos, limits, depth) == Ok(Decoded(Int(n), pos + |Enc(Int(n))|, true))
  {
    hide DecodeItems, DecodeEntries, ValidUtf8, TakeText, ReadHead, PeekType, EncodeHead;
    IntegerPeeks(s, pos, if n >= 0 then 0 else 1, if n >= 0 then n else -1 - n);
  }

  lemma StringDecodes(s: bytes, pos: nat, t: Text, limits: CborLimits, depth: nat)
    requires depth <= limits.maxDepth && |t| <= limits.maxStringBytes && At(s, pos, Enc(String(t)))
    ensures DecodeValue(s, pos, limits, depth) == Ok(Decoded(String(t), pos + |Enc(String(t))|, true))
  {
    hide DecodeItems, DecodeEntries, ValidUtf8, TakeText, EncodeText, PeekType;
    TakesEncodedText(s, pos, t);
  }

  lemma IntegerPeeks(s: bytes, pos: nat, major: nat, arg: nat)
    requires major <= 1 && arg <= MAX_SAFE_INTEGER && At(s, pos, EncodeHead(major, arg))
    ensures PeekType(s, pos) == Ok(if major == 0 then UnsignedItem else NegativeItem)
    ensures TakeHead(s, pos) == Ok(Head(major, arg, pos + |EncodeHead(major, arg)|))
  {
    var h := EncodeHead(major, arg);
    ReadsEncodedHead(s, pos, major, arg);
    hide ReadHead;
    assert s[pos] == s[pos..pos + |h|][0];
    if |h| > 1 {
      assert s[pos + 1] == s[pos..pos + |h|][1];
      if |h| == 9 {
        Pow256Values();
        assert Pow256(8) == 256 * Pow256(7);
        LeadingByte(arg, 8);
      }
    }
  }

  lemma {:induction false} LeadingByte(n: nat, w: nat)
    requires w > 0 && n < 0x80 * Pow256(w - 1)
    ensures BigEndian(n, w)[0] < 0x80
  {
    if w > 1 {
      LeadingByte(n / 256, w - 1);
    }
  }

  lemma ArrayDecodes(s: bytes, pos: nat, n: nat, limits: CborLimits, depth: nat, items: Decoded<seq<Value>>)
    requires depth <= limits.maxDepth && n <= limits.maxArrayItems && At(s, pos, EncodeHead(4, n))
    requires DecodeItems(s, pos + |EncodeHead(4, n)|, n, limits, depth + 1, [], true) == Ok(items)
    ensures DecodeValue(s, pos, limits, depth) == Ok(Decoded(Array(items.value), items.next, items.preferred))
  {
    hide *;
    UsizeIsArgument(n);
    AtMeans(s, pos, EncodeHead(4, n));
    PeekEncodedHead(s, pos, 4, n);
    ArrayEquation(s, pos, limits, depth);
  }

  lemma MapDecodes(s: bytes, pos: nat, n: nat, limits: CborLimits, depth: nat, entries: Decoded<map<Text, Value>>)
    requires depth <= limits.maxDepth && n <= limits.maxMapPairs && At(s, pos, EncodeHead(5, n))
    requires DecodeEntries(s, pos + |EncodeHead(5, n)|, n, limits, depth + 1, map[], None, true) == Ok(entries)
    ensures DecodeValue(s, pos, limits, depth) == Ok(Decoded(Object(entries.value), entries.next, entries.preferred))
  {
    hide *;
    UsizeIsArgument(n);
    AtMeans(s, pos, EncodeHead(5, n));
    PeekEncodedHead(s, pos, 5, n);
    MapEquation(s, pos, limits, depth);
  }

  lemma ArrayParts(items: seq<Value>, limits: CborLimits, depth: nat)
    requires InProfile(Array(items), limits, depth)
    ensures depth <= limits.maxDepth && |items| <= limits.maxArrayItems
    ensures forall i :: 0 <= i < |items| ==> InProfile(items[i], limits, depth + 1)
    ensures Enc(Array(items)) == EncodeHead(4, |items|) + EncItems(items)
  {
  }

  lemma ObjectParts(entries: map<Text, Value>, limits: CborLimits, depth: nat)
    requires InProfile(Object(entries), limits, depth)
    ensures depth <= limits.maxDepth && |entries| <= limits.maxMapPairs
    ensures EntriesInProfile(Object(entries), limits, depth + 1)
    ensures Enc(Object(entries)) == EncodeHead(5, |entries|) + RestEncoding(Object(entries), 0)
    ensures LastKey(Object(entries), 0) == None
  {
    FirstEntriesEnds(Object(entries));
  }

  /** Wherever the encoding of a value within the profile stands, the decoder reads that value and
      stops at its end, whatever follows. */
  lemma {:induction false} ValueComplete(s: bytes, pos: nat, v: Value, limits: CborLimits, depth: nat)
    requires InProfile(v, limits, depth) && At(s, pos, Enc(v))
    ensures DecodeValue(s, pos, limits, depth) == Ok(Decoded(v, pos + |Enc(v)|, true))
    decreases v, 1, 0
  {
    hide *;
    match v
    case Array(items) =>
      var h := EncodeHead(4, |items|);
      ArrayParts(items, limits, depth);
      AtConcat(s, pos, h, EncItems(items));
      ItemsComplete(s, pos + |h|, items, limits, depth + 1, [], true);
      assert [] + items == items;
      ArrayDecodes(s, pos, |items|, limits, depth, Decoded(items, pos + |Enc(v)|, true));
    case Object(entries) =>
      var h := EncodeHead(5, |entries|);
      ObjectParts(entries, limits, depth);
      AtConcat(s, pos, h, RestEncoding(v, 0));
      FirstEntriesEnds(v);
      EntriesComplete(s, pos + |h|, v, 0, limits, depth + 1, true);
      MapDecodes(s, pos, |entries|, limits, depth, Decoded(entries, pos + |Enc(v)|, true));
    case _ =>
      ScalarDecodes(s, pos, v, limits, depth);
  }

  lemma {:induction false} ItemsComplete(s: bytes, pos: nat, items: seq<Value>, limits: CborLimits, depth: nat,
                                         acc: seq<Value>, preferred: bool)
    requires forall i :: 0 <= i < |items| ==> InProfile(items[i], limits, depth)
    requires At(s, pos, EncItems(items))
    ensures DecodeItems(s, pos, |items|, limits, depth, acc, preferred)
         == Ok(Decoded(acc + items, pos + |EncItems(items)|, preferred))
    decreases items, 0, 0
  {
    hide DecodeValue, InProfile, Enc, ValidUtf8;
    if items == [] {
      assert acc + items == acc;
    } else {
      var v, rest := items[0], items[1..];
      AtConcat(s, pos, Enc(v), EncItems(rest));
      ValueComplete(s, pos, v, limits, depth);
      ItemsComplete(s, pos + |Enc(v)|, rest, limits, depth, acc + [v], preferred);
      assert items == [v] + rest;
      ConcatAssociative(acc, [v], rest);
    }
  }

  ghost predicate EntriesInProfile(obj: Value, limits: CborLimits, depth: nat)
    requires obj.Object?
  {
    forall k :: k in obj.entries ==> |k| <= limits.maxStringBytes && InProfile(obj.entries[k], limits, depth)
  }

  ghost function Restrict(entries: map<Text, Value>, ks: seq<Text>): map<Text, Value> {
    map k | k in entries && k in ks :: entries[k]
  }

  lemma RestrictSnoc(entries: map<Text, Value>, ks: seq<Text>, k: Text)
    requires k in entries && k !in ks
    ensures k !in Restrict(entries, ks)
    ensures Restrict(entries, ks + [k]) == Restrict(entries, ks)[k := entries[k]]
  {
    hide ValidUtf8;
  }

  /** The entries of the first `i` keys of `obj` in deterministic order. */
  ghost function FirstEntries(obj: Value, i: nat): map<Text, Value>
    requires obj.Object? && i <= |obj.entries|
  {
    Restrict(obj.entries, CanonicalKeys(obj.entries)[..i])
  }

  ghost function LastKey(obj: Value, i: nat): Option<bytes>
    requires obj.Object? && i <= |obj.entries|
  {
    if i == 0 then None else Some(EncodeText(CanonicalKeys(obj.entries)[i - 1]))
  }

  ghost function RestEncoding(obj: Value, i: nat): bytes
    requires obj.Object? && i <= |obj.entries|
  {
    var ks := CanonicalKeys(obj.entries);
    assert forall k :: k in Elements(ks[i..]) ==> k in Elements(ks);
    EncEntries(obj, ks[i..])
  }

  lemma RestEncodingStep(obj: Value, i: nat)
    requires obj.Object? && i < |obj.entries|
    ensures var k := CanonicalKeys(obj.entries)[i];
            k in obj.entries && RestEncoding(obj, i) == (EncodeText(k) + Enc(obj.entries[k])) + RestEncoding(obj, i + 1)
  {
    hide Enc, EncodeText, Ascending, Distinct;
    var ks := CanonicalKeys(obj.entries);
    assert ks[i..] == [ks[i]] + ks[i + 1..];
    assert ks[i..][1..] == ks[i + 1..];
    assert ks[i] in Elements(ks);
    assert ks[i..][0] == ks[i];
  }

  lemma FirstEntriesStep(obj: Value, i: nat)
    requires obj.Object? && i < |obj.entries|
    ensures var k := CanonicalKeys(obj.entries)[i];
            && k in obj.entries && k !in FirstEntries(obj, i)
            && FirstEntries(obj, i + 1) == FirstEntries(obj, i)[k := obj.entries[k]]
  {
    var ks := CanonicalKeys(obj.entries);
    assert ks[i] in Elements(ks);
    hide Ascending, ValidUtf8, CanonicalKeys, Elements, Restrict;
    assert ks[..i + 1] == ks[..i] + [ks[i]];
    RestrictSnoc(obj.entries, ks[..i], ks[i]);
  }

  lemma LastKeyLess(obj: Value, i: nat)
    requires obj.Object? && i < |obj.entries|
    ensures LastKey(obj, i).Some? ==>
            CompareEncodedKeys(LastKey(obj, i).value, EncodeText(CanonicalKeys(obj.entries)[i])) == Less
  {
    var ks := CanonicalKeys(obj.entries);
    assert i > 0 ==> KeyLess(ks[i - 1], ks[i]);
  }

  lemma FirstEntriesEnds(obj: Value)
    requires obj.Object?
    ensures FirstEntries(obj, 0) == map[] && FirstEntries(obj, |obj.entries|) == obj.entries
    ensures RestEncoding(obj, |obj.entries|) == []
        && RestEncoding(obj, 0) == EncEntries(obj, CanonicalKeys(obj.entries))
  {
    hide Enc, Ascending, Distinct, ValidUtf8;
    var ks := CanonicalKeys(obj.entries);
    assert ks[..|ks|] == ks && ks[0..] == ks;
    assert forall k :: k in obj.entries ==> k in Elements(ks);
  }

  lemma {:induction false} EntriesComplete(s: bytes, pos: nat, obj: Value, i: nat, limits: CborLimits, depth: nat,
                                           preferred: bool)
    requires obj.Object? && i <= |obj.entries| && EntriesInProfile(obj, limits, depth)
    requires At(s, pos, RestEncoding(obj, i))
    ensures DecodeEntries(s, pos, |obj.entries| - i, limits, depth, FirstEntries(obj, i), LastKey(obj, i), preferred)
         == Ok(Decoded(obj.entries, pos + |RestEncoding(obj, i)|, preferred))
    decreases obj, 0, |obj.entries| - i
  {
    hide *;
    if i == |obj.entries| {
      FirstEntriesEnds(obj);
      AtMeans(s, pos, RestEncoding(obj, i));
      EntriesEquation(s, pos, 0, limits, depth, FirstEntries(obj, i), LastKey(obj, i), preferred);
    } else {
      var k := CanonicalKeys(obj.entries)[i];
      RestEncodingStep(obj, i);
      FirstEntriesStep(obj, i);
      EntryInProfile(obj, k, limits, depth);
      var v := obj.entries[k];
      AtConcat(s, pos, EncodeText(k) + Enc(v), RestEncoding(obj, i + 1));
      AtConcat(s, pos, EncodeText(k), Enc(v));
      var mid := pos + |EncodeText(k)|;
      LastKeyLess(obj, i);
      KeyDecodes(s, pos, k, limits, FirstEntries(obj, i).Keys, LastKey(obj, i));
      ValueComplete(s, mid, v, limits, depth);
      assert s[pos..mid] == EncodeText(k) by { AtMeans(s, pos, EncodeText(k)); }
      EntriesEquation(s, pos, |obj.entries| - i, limits, depth, FirstEntries(obj, i), LastKey(obj, i), preferred);
      LastKeyStep(obj, i);
      EntriesComplete(s, mid + |Enc(v)|, obj, i + 1, limits, depth, preferred);
    }
  }

  lemma LastKeyStep(obj: Value, i: nat)
    requires obj.Object? && i < |obj.entries|
    ensures LastKey(obj, i + 1) == Some(EncodeText(CanonicalKeys(obj.entries)[i]))
  {
  }

  lemma EntryInProfile(obj: Value, k: Text, limits: CborLimits, depth: nat)
    requires obj.Object? && EntriesInProfile(obj, limits, depth) && k in obj.entries
    ensures |k| <= limits.maxStringBytes && InProfile(obj.entries[k], limits, depth)
  {
  }

  lemma KeyDecodes(s: bytes, pos: nat, k: Text, limits: CborLimits, seen: set<Text>, previous: Option<bytes>)
    requires At(s, pos, EncodeText(k)) && |k| <= limits.maxStringBytes && k !in seen
    requires previous.Some? ==> CompareEncodedKeys(previous.value, EncodeText(k)) == Less
    ensures DecodeKey(s, pos, limits, seen, previous) == Ok(Decoded(k, pos + |EncodeText(k)|, true))
  {
    TakesEncodedText(s, pos, k);
  }

  // ---------------------------------------------------------------- truncation

  /** The outcome on the first `k` bytes of an input that decoded to `d`. */
  function Cut<T>(d: Decoded<T>, k: nat): Result<Decoded<T>, CborError> {
    if d.next <= k then Ok(d) else Err(MalformedCbor)
  }

  lemma PeekTruncated(s: bytes, pos: nat, k: nat)
    requires pos <= k <= |s| && PeekType(s, pos).Ok?
    ensures PeekType(s[..k], pos) == PeekType(s, pos) || PeekType(s[..k], pos) == Err(EndOfInput)
    ensures pos < k && (s[pos] < 0x38 || s[pos] > 0x3B) ==> PeekType(s[..k], pos) == PeekType(s, pos)
    ensures pos + 2 <= k ==> PeekType(s[..k], pos) == PeekType(s, pos)
  {
  }

  lemma TextTruncated(s: bytes, pos: nat, k: nat)
    requires pos <= k <= |s| && TakeText(s, pos).Ok?
    ensures TakeText(s[..k], pos) == Cut(TakeText(s, pos).value, k)
  {
    ReadHeadTruncated(s, pos, k);
    hide ReadHead, ValidUtf8, Preferred;
    var h := ReadHead(s, pos).value;
    if h.next + h.arg <= k {
      assert s[..k][h.next..h.next + h.arg] == s[h.next..h.next + h.arg];
    }
  }

  lemma KeyTruncated(s: bytes, pos: nat, k: nat, limits: CborLimits, seen: set<Text>, previous: Option<bytes>)
    requires pos <= k <= |s| && DecodeKey(s, pos, limits, seen, previous).Ok?
    ensures DecodeKey(s[..k], pos, limits, seen, previous) == Cut(DecodeKey(s, pos, limits, seen, previous).value, k)
  {
    PeekTruncated(s, pos, k);
    TextTruncated(s, pos, k);
    hide TakeText, CompareEncodedKeys, ValidUtf8;
    var key := DecodeKey(s, pos, limits, seen, previous).value;
    if key.next <= k {
      assert s[..k][pos..key.next] == s[pos..key.next];
    }
  }

  lemma ScalarTruncated(s: bytes, pos: nat, k: nat, limits: CborLimits, depth: nat)
    requires pos <= k <= |s| && DecodeValue(s, pos, limits, depth).Ok?
    requires PeekType(s, pos) != Ok(ArrayItem) && PeekType(s, pos) != Ok(MapItem)
    ensures DecodeValue(s[..k], pos, limits, depth) == Cut(DecodeValue(s, pos, limits, depth).value, k)
  {
    PeekTruncated(s, pos, k);
    hide DecodeItems, DecodeEntries, ValidUtf8;
    match PeekType(s, pos).value
    case StringItem =>
      TextTruncated(s, pos, k);
    case BoolItem =>
    case _ =>
      ReadHeadTruncated(s, pos, k);
  }

  lemma HeadCut(s: bytes, pos: nat, k: nat)
    requires pos < |s| && pos <= k <= |s| && TakeHead(s, pos).Ok? && !(0x38 <= s[pos] <= 0x3B)
    requires PeekType(s, pos).Ok?
    ensures TakeHead(s, pos).value.next <= k ==>
            PeekType(s[..k], pos) == PeekType(s, pos) && TakeHead(s[..k], pos) == TakeHead(s, pos)
    ensures TakeHead(s, pos).value.next > k ==>
            || PeekType(s[..k], pos) == Err(EndOfInput)
            || (PeekType(s[..k], pos) == PeekType(s, pos) && TakeHead(s[..k], pos) == Err(MalformedCbor))
  {
    PeekTruncated(s, pos, k);
    ReadHeadTruncated(s, pos, k);
    hide ReadHead;
  }

  lemma CutShort(s: bytes, pos: nat, limits: CborLimits, depth: nat)
    requires pos <= |s| && depth <= limits.maxDepth
    ensures PeekType(s, pos).Err? ==> DecodeValue(s, pos, limits, depth) == Err(MalformedCbor)
    ensures DecodeValue(s, pos, limits, depth).Ok? && PeekType(s, pos) == Ok(ArrayItem) ==> s[pos] >= 0x80
    ensures DecodeValue(s, pos, limits, depth).Ok? && PeekType(s, pos) == Ok(MapItem) ==> s[pos] >= 0x80
    ensures DecodeValue(s, pos, limits, depth).Ok? ==> PeekType(s, pos).Ok?
  {
    hide DecodeItems, DecodeEntries, ValidUtf8, TakeText, TakeHead;
  }

  /** An input cut inside an accepted value is reported as malformed; cut later, the value is
      decoded as before. */
  lemma {:induction false} ValueTruncated(s: bytes, pos: nat, k: nat, limits: CborLimits, depth: nat)
    requires pos <= k <= |s| && DecodeValue(s, pos, limits, depth).Ok?
    ensures DecodeValue(s[..k], pos, limits, depth) == Cut(DecodeValue(s, pos, limits, depth).value, k)
    decreases |s| - pos, 1, 0
  {
    hide *;
    AcceptedShallow(s, pos, limits, depth);
    CutShort(s, pos, limits, depth);
    match PeekType(s, pos).value
    case ArrayItem => ArrayTruncated(s, pos, k, limits, depth);
    case MapItem => MapTruncated(s, pos, k, limits, depth);
    case _ => ScalarTruncated(s, pos, k, limits, depth);
  }

  lemma CutMeans<T>(d: Decoded<T>, k: nat)
    ensures Cut(d, k) == if d.next <= k then Ok(d) else Err(MalformedCbor)
  {
  }

  lemma {:induction false} ArrayTruncated(s: bytes, pos: nat, k: nat, limits: CborLimits, depth: nat)
    requires pos <= k <= |s| && depth <= limits.maxDepth && DecodeValue(s, pos, limits, depth).Ok?
    requires PeekType(s, pos) == Ok(ArrayItem)
    ensures DecodeValue(s[..k], pos, limits, depth) == Cut(DecodeValue(s, pos, limits, depth).value, k)
    decreases |s| - pos, 0, 0
  {
    hide *;
    var d := DecodeValue(s, pos, limits, depth).value;
    ArrayEquation(s, pos, limits, depth);
    CutShort(s, pos, limits, depth);
    CutShort(s[..k], pos, limits, depth);
    CutMeans(d, k);
    HeadCut(s, pos, k);
    if PeekType(s[..k], pos).Ok? {
      ArrayEquation(s[..k], pos, limits, depth);
      var h := TakeHead(s, pos).value;
      if h.next <= k {
        ItemsTruncated(s, h.next, h.arg, k, limits, depth + 1, [], Preferred(pos, h));
        CutMeans(DecodeItems(s, h.next, h.arg, limits, depth + 1, [], Preferred(pos, h)).value, k);
      }
    }
  }

  lemma {:induction false} MapTruncated(s: bytes, pos: nat, k: nat, limits: CborLimits, depth: nat)
    requires pos <= k <= |s| && depth <= limits.maxDepth && DecodeValue(s, pos, limits, depth).Ok?
    requires PeekType(s, pos) == Ok(MapItem)
    ensures DecodeValue(s[..k], pos, limits, depth) == Cut(DecodeValue(s, pos, limits, depth).value, k)
    decreases |s| - pos, 0, 0
  {
    hide *;
    var d := DecodeValue(s, pos, limits, depth).value;
    MapEquation(s, pos, limits, depth);
    CutShort(s, pos, limits, depth);
    CutShort(s[..k], pos, limits, depth);
    CutMeans(d, k);
    HeadCut(s, pos, k);
    if PeekType(s[..k], pos).Ok? {
      MapEquation(s[..k], pos, limits, depth);
      var h := TakeHead(s, pos).value;
      if h.next <= k {
        EntriesTruncated(s, h.next, h.arg, k, limits, depth + 1, map[], None, Preferred(pos, h));
        CutMeans(DecodeEntries(s, h.next, h.arg, limits, depth + 1, map[], None, Preferred(pos, h)).value, k);
      }
    }
  }

  lemma {:induction false} ItemsTruncated(s: bytes, pos: nat, n: nat, k: nat, limits: CborLimits, depth: nat,
                                          acc: seq<Value>, preferred: bool)
    requires pos <= k <= |s| && DecodeItems(s, pos, n, limits, depth, acc, preferred).Ok?
    ensures DecodeItems(s[..k], pos, n, limits, depth, acc, preferred)
         == Cut(DecodeItems(s, pos, n, limits, depth, acc, preferred).value, k)
    decreases |s| - pos, 2, n
  {
    hide DecodeValue, ValidUtf8;
    if n > 0 {
      var v := DecodeValue(s, pos, limits, depth).value;
      ValueTruncated(s, pos, k, limits, depth);
      if v.next <= k {
        ItemsTruncated(s, v.next, n - 1, k, limits, depth, acc + [v.value], preferred && v.preferred);
      }
    }
  }

  lemma {:induction false} EntriesTruncated(s: bytes, pos: nat, n: nat, k: nat, limits: CborLimits, depth: nat,
                                            entries: map<Text, Value>, previous: Option<bytes>, preferred: bool)
    requires pos <= k <= |s| && DecodeEntries(s, pos, n, limits, depth, entries, previous, preferred).Ok?
    ensures DecodeEntries(s[..k], pos, n, limits, depth, entries, previous, preferred)
         == Cut(DecodeEntries(s, pos, n, limits, depth, entries, previous, preferred).value, k)
    decreases |s| - pos, 2, n
  {
    hide DecodeKey, DecodeValue, ValidUtf8;
    if n > 0 {
      var key := DecodeKey(s, pos, limits, entries.Keys, previous).value;
      KeyTruncated(s, pos, k, limits, entries.Keys, previous);
      if key.next <= k {
        assert s[..k][pos..key.next] == s[pos..key.next];
        var v := DecodeValue(s, key.next, limits, depth).value;
        ValueTruncated(s, key.next, k, limits, depth);
        if v.next <= k {
          EntriesTruncated(s, v.next, n - 1, k, limits, depth, entries[key.value := v.value],
                           Some(s[pos..key.next]), preferred && key.preferred && v.preferred);
        }
      }
    }
  }
}
