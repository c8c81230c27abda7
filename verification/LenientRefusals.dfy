/** What the lenient decoder says to the encoding of a value outside the profile: the violation that stands first in
    the encoding, however deep it lies. */
module LenientRefusals {
  import opened Bytes
  import opened CborHeads
  import opened CborValues
  import opened LenientCompleteness
  import opened LenientDecoder
  import opened Results
  import opened SortedSets

  // ---------------------------------------------------------------- the first violation

  /** The heads of the encoding have arguments of at most 64 bits, and nothing is null or a floating-point number. */
  ghost predicate Encodable(v: Value) {
    match v
    case Null | Float => false
    case Bool(_) => true
    case Int(n) => -1 - MAX_ARGUMENT <= n <= MAX_ARGUMENT
    case String(t) => |t| <= MAX_ARGUMENT
    case Array(items) => |items| <= MAX_ARGUMENT && forall i :: 0 <= i < |items| ==> Encodable(items[i])
    case Object(entries) =>
      && |entries| <= MAX_ARGUMENT
      && forall k :: k in entries ==> |k| <= MAX_ARGUMENT && Encodable(entries[k])
  }

  /** The first violation of the profile in the order of the encoding, where maps are walked in deterministic key
      order. */
  ghost function Violation(v: Value, limits: CborLimits, depth: nat): Option<CborError>
    decreases v, 1
  {
    if depth > limits.maxDepth then Some(ResourceLimit)
    else
      match v
      case Null | Float => Some(UnsupportedCborType)
      case Bool(_) => None
      case Int(n) => if SafeInteger(n) then None else Some(IntegerOutOfRange)
      case String(t) => if |t| > limits.maxStringBytes then Some(ResourceLimit) else None
      case Array(items) =>
        if |items| > limits.maxArrayItems then Some(ResourceLimit) else FirstOfItems(items, limits, depth + 1)
      case Object(entries) =>
        if |entries| > limits.maxMapPairs then Some(ResourceLimit) else FirstOfEntries(v, 0, limits, depth + 1)
  }

  ghost function FirstOfItems(items: seq<Value>, limits: CborLimits, depth: nat): Option<CborError>
    decreases items, 0
  {
    if items == [] then None
    else
      match Violation(items[0], limits, depth)
      case Some(e) => Some(e)
      case None => FirstOfItems(items[1..], limits, depth)
  }

  ghost function KeyAt(obj: Value, i: nat): (k: Text)
    requires obj.Object? && i < |obj.entries|
    ensures k in obj.entries
  {
    var ks := CanonicalKeys(obj.entries);
    assert ks[i] in Elements(ks);
    ks[i]
  }

  ghost function FirstOfEntries(obj: Value, i: nat, limits: CborLimits, depth: nat): Option<CborError>
    requires obj.Object? && i <= |obj.entries|
    decreases obj, 0, |obj.entries| - i
  {
    if i == |obj.entries| then None
    else if |KeyAt(obj, i)| > limits.maxStringBytes then Some(ResourceLimit)
    else
      match Violation(obj.entries[KeyAt(obj, i)], limits, depth)
      case Some(e) => Some(e)
      case None => FirstOfEntries(obj, i + 1, limits, depth)
  }

  lemma EveryKeyStands(obj: Value, k: Text) returns (i: nat)
    requires obj.Object? && k in obj.entries
    ensures i < |obj.entries| && KeyAt(obj, i) == k
  {
    hide Ascending, Distinct, ValidUtf8;
    var ks := CanonicalKeys(obj.entries);
    assert k in Elements(ks);
    i :| 0 <= i < |ks| && ks[i] == k;
  }

  /** There is one exactly when the value is outside the profile. */
  lemma {:induction false} ViolationExactly(v: Value, limits: CborLimits, depth: nat)
    ensures Violation(v, limits, depth) == None <==> InProfile(v, limits, depth)
    decreases v, 1
  {
    hide FirstOfItems, FirstOfEntries, CanonicalKeys, ValidUtf8;
    match v
    case Array(items) => NoItemExactly(items, limits, depth + 1);
    case Object(entries) =>
      NoEntryExactly(v, 0, limits, depth + 1);
      if FirstOfEntries(v, 0, limits, depth + 1) == None {
        forall k | k in entries ensures |k| <= limits.maxStringBytes && InProfile(entries[k], limits, depth + 1) {
          var i := EveryKeyStands(v, k);
        }
      }
    case _ =>
  }

  lemma {:induction false} NoItemExactly(items: seq<Value>, limits: CborLimits, depth: nat)
    ensures FirstOfItems(items, limits, depth) == None <==>
            forall i :: 0 <= i < |items| ==> InProfile(items[i], limits, depth)
    decreases items, 0
  {
    hide InProfile, Violation;
    if items != [] {
      ViolationExactly(items[0], limits, depth);
      NoItemExactly(items[1..], limits, depth);
      assert forall i :: 1 <= i < |items| ==> items[i] == items[1..][i - 1];
      assert forall i :: 0 <= i < |items[1..]| ==> items[1..][i] == items[i + 1];
    }
  }

  lemma {:induction false} NoEntryExactly(obj: Value, i: nat, limits: CborLimits, depth: nat)
    requires obj.Object? && i <= |obj.entries|
    ensures FirstOfEntries(obj, i, limits, depth) == None <==>
            forall j :: i <= j < |obj.entries| ==>
              |KeyAt(obj, j)| <= limits.maxStringBytes && InProfile(obj.entries[KeyAt(obj, j)], limits, depth)
    decreases obj, 0, |obj.entries| - i
  {
    hide InProfile, Violation, KeyAt, ValidUtf8;
    if i < |obj.entries| {
      ViolationExactly(obj.entries[KeyAt(obj, i)], limits, depth);
      NoEntryExactly(obj, i + 1, limits, depth);
    }
  }

  // ---------------------------------------------------------------- one head

  lemma HeadStands(s: bytes, pos: nat, major: nat, n: nat)
    requires major in {0, 1, 4, 5} && n <= MAX_ARGUMENT && At(s, pos, EncodeHead(major, n))
    ensures pos < |s| && ReadHead(s, pos) == Ok(Head(major, n, pos + |EncodeHead(major, n)|))
    ensures s[pos] / 32 == major && s[pos] % 32 <= 27 && (s[pos] % 32 >= 24 ==> pos + 2 <= |s|)
  {
    ReadsEncodedHead(s, pos, major, n);
    assert s[pos] == s[pos..pos + |EncodeHead(major, n)|][0];
    hide ReadHead, BigEndian;
  }

  lemma KindOfHead(s: bytes, pos: nat, major: nat)
    requires major in {0, 1, 4, 5} && pos < |s|
    requires s[pos] / 32 == major && s[pos] % 32 <= 27 && (s[pos] % 32 >= 24 ==> pos + 2 <= |s|)
    ensures major == 0 ==> PeekType(s, pos) == Ok(UnsignedItem)
    ensures major == 1 ==> PeekType(s, pos) in {Ok(NegativeItem), Ok(OversizedNegative)}
    ensures major == 4 ==> PeekType(s, pos) == Ok(ArrayItem)
    ensures major == 5 ==> PeekType(s, pos) == Ok(MapItem)
  {
  }

  lemma RefusedByHead(s: bytes, pos: nat, limits: CborLimits, depth: nat, h: Head)
    requires pos < |s| && depth <= limits.maxDepth && ReadHead(s, pos) == Ok(h)
    ensures PeekType(s, pos) == Ok(OversizedNegative) ==> DecodeValue(s, pos, limits, depth) == Err(IntegerOutOfRange)
    ensures PeekType(s, pos) == Ok(UnsignedItem) && h.arg > 9007199254740991 ==>
              DecodeValue(s, pos, limits, depth) == Err(IntegerOutOfRange)
    ensures PeekType(s, pos) == Ok(NegativeItem) && h.arg >= 9007199254740991 ==>
              DecodeValue(s, pos, limits, depth) == Err(IntegerOutOfRange)
    ensures PeekType(s, pos) == Ok(ArrayItem) && h.arg > limits.maxArrayItems ==>
              DecodeValue(s, pos, limits, depth) == Err(ResourceLimit)
    ensures PeekType(s, pos) == Ok(MapItem) && h.arg > limits.maxMapPairs ==>
              DecodeValue(s, pos, limits, depth) == Err(ResourceLimit)
  {
    hide PeekType, Preferred, ReadHead, DecodeItems, DecodeEntries, TakeText;
  }

  /** An integer beyond 2^53 - 1 and an array or a map that announces more than its limit are refused where they
      stand, whatever follows. */
  lemma TooLargeAt(s: bytes, pos: nat, major: nat, n: nat, limits: CborLimits, depth: nat)
    requires depth <= limits.maxDepth && n <= MAX_ARGUMENT
    requires major in {0, 1, 4, 5} && At(s, pos, EncodeHead(major, n))
    ensures pos < |s|
    ensures major == 0 && n > 9007199254740991 ==> DecodeValue(s, pos, limits, depth) == Err(IntegerOutOfRange)
    ensures major == 1 && n >= 9007199254740991 ==> DecodeValue(s, pos, limits, depth) == Err(IntegerOutOfRange)
    ensures major == 4 && n > limits.maxArrayItems ==> DecodeValue(s, pos, limits, depth) == Err(ResourceLimit)
    ensures major == 5 && n > limits.maxMapPairs ==> DecodeValue(s, pos, limits, depth) == Err(ResourceLimit)
  {
    hide *;
    HeadStands(s, pos, major, n);
    KindOfHead(s, pos, major);
    RefusedByHead(s, pos, limits, depth, Head(major, n, pos + |EncodeHead(major, n)|));
  }

  lemma LongTextAt(s: bytes, pos: nat, t: Text, limits: CborLimits, depth: nat)
    requires depth <= limits.maxDepth && |t| <= MAX_ARGUMENT
    requires At(s, pos, EncodeText(t)) && |t| > limits.maxStringBytes
    ensures pos <= |s| && DecodeValue(s, pos, limits, depth) == Err(ResourceLimit)
  {
    TakesEncodedText(s, pos, t);
    hide DecodeItems, DecodeEntries, TakeText, TakeHead, PeekType, EncodeText, ValidUtf8;
  }

  lemma LongKeyAt(s: bytes, pos: nat, k: Text, limits: CborLimits, seen: set<Text>, previous: Option<bytes>)
    requires |k| <= MAX_ARGUMENT && At(s, pos, EncodeText(k)) && |k| > limits.maxStringBytes
    ensures pos <= |s| && DecodeKey(s, pos, limits, seen, previous) == Err(ResourceLimit)
  {
    TakesEncodedText(s, pos, k);
    hide TakeText, PeekType, EncodeText, CompareEncodedKeys, ValidUtf8;
  }

  lemma TooDeep(s: bytes, pos: nat, limits: CborLimits, depth: nat)
    requires pos <= |s| && depth > limits.maxDepth
    ensures DecodeValue(s, pos, limits, depth) == Err(ResourceLimit)
  {
  }

  // ---------------------------------------------------------------- any depth

  lemma Stands(s: bytes, pos: nat, v: Value)
    requires At(s, pos, Enc(v))
    ensures pos <= |s|
  {
    hide Enc;
  }

  lemma ItemsViolation(items: seq<Value>, limits: CborLimits, depth: nat)
    requires depth <= limits.maxDepth && |items| <= limits.maxArrayItems
    ensures Violation(Array(items), limits, depth) == FirstOfItems(items, limits, depth + 1)
  {
    hide FirstOfItems;
  }

  lemma EntriesViolation(obj: Value, limits: CborLimits, depth: nat)
    requires obj.Object? && depth <= limits.maxDepth && |obj.entries| <= limits.maxMapPairs
    ensures Violation(obj, limits, depth) == FirstOfEntries(obj, 0, limits, depth + 1)
  {
    hide FirstOfEntries;
  }

  lemma ScalarViolation(v: Value, limits: CborLimits, depth: nat)
    requires depth <= limits.maxDepth && Encodable(v) && Violation(v, limits, depth).Some? && !v.Array? && !v.Object?
    ensures v.Int? || v.String?
    ensures v.Int? ==> !SafeInteger(v.n) && Violation(v, limits, depth) == Some(IntegerOutOfRange)
    ensures v.Int? ==> Enc(v) == if v.n >= 0 then EncodeHead(0, v.n) else EncodeHead(1, -1 - v.n)
    ensures v.Int? ==> -1 - MAX_ARGUMENT <= v.n <= MAX_ARGUMENT
    ensures v.String? ==> |v.text| > limits.maxStringBytes && Violation(v, limits, depth) == Some(ResourceLimit)
    ensures v.String? ==> Enc(v) == EncodeText(v.text) && |v.text| <= MAX_ARGUMENT
  {
    hide ValidUtf8, EncodeHead, EncodeText;
  }

  lemma ArrayShape(items: seq<Value>)
    requires Encodable(Array(items))
    ensures |items| <= MAX_ARGUMENT && forall i :: 0 <= i < |items| ==> Encodable(items[i])
    ensures Enc(Array(items)) == EncodeHead(4, |items|) + EncItems(items)
  {
  }

  lemma ObjectShape(entries: map<Text, Value>)
    requires Encodable(Object(entries))
    ensures |entries| <= MAX_ARGUMENT && forall k :: k in entries ==> |k| <= MAX_ARGUMENT && Encodable(entries[k])
    ensures Enc(Object(entries)) == EncodeHead(5, |entries|) + RestEncoding(Object(entries), 0)
    ensures FirstEntries(Object(entries), 0) == map[] && LastKey(Object(entries), 0) == None
  {
    FirstEntriesEnds(Object(entries));
  }

  lemma TooManyIs(v: Value, limits: CborLimits, depth: nat)
    requires depth <= limits.maxDepth
    ensures v.Array? && |v.items| > limits.maxArrayItems ==> Violation(v, limits, depth) == Some(ResourceLimit)
    ensures v.Object? && |v.entries| > limits.maxMapPairs ==> Violation(v, limits, depth) == Some(ResourceLimit)
  {
  }

  lemma DeepViolation(v: Value, limits: CborLimits, depth: nat)
    requires depth > limits.maxDepth
    ensures Violation(v, limits, depth) == Some(ResourceLimit)
  {
  }

  lemma ArrayFails(s: bytes, pos: nat, n: nat, limits: CborLimits, depth: nat, e: CborError)
    requires depth <= limits.maxDepth && n <= limits.maxArrayItems && At(s, pos, EncodeHead(4, n))
    requires pos + |EncodeHead(4, n)| <= |s|
    requires DecodeItems(s, pos + |EncodeHead(4, n)|, n, limits, depth + 1, [], true) == Err(e)
    ensures DecodeValue(s, pos, limits, depth) == Err(e)
  {
    hide *;
    UsizeIsArgument(n);
    PeekEncodedHead(s, pos, 4, n);
    ArrayEquation(s, pos, limits, depth);
  }

  lemma MapFails(s: bytes, pos: nat, n: nat, limits: CborLimits, depth: nat, e: CborError)
    requires depth <= limits.maxDepth && n <= limits.maxMapPairs && At(s, pos, EncodeHead(5, n))
    requires pos + |EncodeHead(5, n)| <= |s|
    requires DecodeEntries(s, pos + |EncodeHead(5, n)|, n, limits, depth + 1, map[], None, true) == Err(e)
    ensures DecodeValue(s, pos, limits, depth) == Err(e)
  {
    hide *;
    UsizeIsArgument(n);
    PeekEncodedHead(s, pos, 5, n);
    MapEquation(s, pos, limits, depth);
  }

  /** Wherever the encoding of a value outside the profile stands, the decoder fails with the first violation in it,
      whatever follows. */
  lemma {:induction false} ValueRefused(s: bytes, pos: nat, v: Value, limits: CborLimits, depth: nat, e: CborError)
    requires Encodable(v) && At(s, pos, Enc(v)) && Violation(v, limits, depth) == Some(e)
    ensures pos <= |s| && DecodeValue(s, pos, limits, depth) == Err(e)
    decreases v, 1, 0
  {
    hide *;
    Stands(s, pos, v);
    if depth > limits.maxDepth {
      TooDeep(s, pos, limits, depth);
      DeepViolation(v, limits, depth);
    } else if v.Array? {
      ArrayRefused(s, pos, v, limits, depth, e);
    } else if v.Object? {
      ObjectRefused(s, pos, v, limits, depth, e);
    } else {
      ScalarRefused(s, pos, v, limits, depth, e);
    }
  }

  lemma {:induction false} ArrayRefused(s: bytes, pos: nat, v: Value, limits: CborLimits, depth: nat, e: CborError)
    requires v.Array? && depth <= limits.maxDepth
    requires Encodable(v) && At(s, pos, Enc(v)) && Violation(v, limits, depth) == Some(e)
    ensures pos <= |s| && DecodeValue(s, pos, limits, depth) == Err(e)
    decreases v, 0, 0
  {
    hide *;
    var n := |v.items|;
    var h := EncodeHead(4, n);
    ArrayShape(v.items);
    TooManyIs(v, limits, depth);
    AtConcat(s, pos, h, EncItems(v.items));
    TooLargeAt(s, pos, 4, n, limits, depth);
    if n <= limits.maxArrayItems {
      ItemsViolation(v.items, limits, depth);
      AtMeans(s, pos, h);
      ItemsRefused(s, pos + |h|, v.items, limits, depth + 1, [], true, e);
      ArrayFails(s, pos, n, limits, depth, e);
    }
  }

  lemma {:induction false} ObjectRefused(s: bytes, pos: nat, v: Value, limits: CborLimits, depth: nat, e: CborError)
    requires v.Object? && depth <= limits.maxDepth
    requires Encodable(v) && At(s, pos, Enc(v)) && Violation(v, limits, depth) == Some(e)
    ensures pos <= |s| && DecodeValue(s, pos, limits, depth) == Err(e)
    decreases v, 0, |v.entries| + 1
  {
    hide *;
    var n := |v.entries|;
    var h := EncodeHead(5, n);
    ObjectShape(v.entries);
    TooManyIs(v, limits, depth);
    AtConcat(s, pos, h, RestEncoding(v, 0));
    TooLargeAt(s, pos, 5, n, limits, depth);
    if n <= limits.maxMapPairs {
      EntriesViolation(v, limits, depth);
      AtMeans(s, pos, h);
      EntriesRefused(s, pos + |h|, v, 0, limits, depth + 1, true, e);
      MapFails(s, pos, n, limits, depth, e);
    }
  }

  lemma ScalarRefused(s: bytes, pos: nat, v: Value, limits: CborLimits, depth: nat, e: CborError)
    requires depth <= limits.maxDepth && Encodable(v) && At(s, pos, Enc(v)) && Violation(v, limits, depth) == Some(e)
    requires !v.Array? && !v.Object?
    ensures pos <= |s| && DecodeValue(s, pos, limits, depth) == Err(e)
  {
    hide Encodable, Enc, Violation, DecodeValue, At, EncodeHead, EncodeText, ValidUtf8;
    ScalarViolation(v, limits, depth);
    if v.Int? {
      TooLargeAt(s, pos, if v.n >= 0 then 0 else 1, if v.n >= 0 then v.n else -1 - v.n, limits, depth);
    } else {
      LongTextAt(s, pos, v.text, limits, depth);
    }
  }

  lemma {:induction false} ItemsRefused(s: bytes, pos: nat, items: seq<Value>, limits: CborLimits, depth: nat,
                                        acc: seq<Value>, preferred: bool, e: CborError)
    requires (forall i :: 0 <= i < |items| ==> Encodable(items[i])) && At(s, pos, EncItems(items))
    requires FirstOfItems(items, limits, depth) == Some(e)
    ensures pos <= |s| && DecodeItems(s, pos, |items|, limits, depth, acc, preferred) == Err(e)
    decreases items, 0, 0
  {
    hide DecodeValue, InProfile, Enc, Violation, Encodable, ValidUtf8;
    var v, rest := items[0], items[1..];
    AtConcat(s, pos, Enc(v), EncItems(rest));
    if Violation(v, limits, depth) == None {
      ViolationExactly(v, limits, depth);
      ValueComplete(s, pos, v, limits, depth);
      ItemsRefused(s, pos + |Enc(v)|, rest, limits, depth, acc + [v], preferred, e);
    } else {
      ValueRefused(s, pos, v, limits, depth, e);
    }
  }

  lemma EntryViolation(obj: Value, i: nat, limits: CborLimits, depth: nat)
    requires obj.Object? && i <= |obj.entries|
    ensures FirstOfEntries(obj, i, limits, depth) ==
            if i == |obj.entries| then None
            else if |KeyAt(obj, i)| > limits.maxStringBytes then Some(ResourceLimit)
            else if Violation(obj.entries[KeyAt(obj, i)], limits, depth).Some? then
              Violation(obj.entries[KeyAt(obj, i)], limits, depth)
            else FirstOfEntries(obj, i + 1, limits, depth)
  {
    hide Violation, KeyAt, ValidUtf8;
  }

  lemma KeyAtIs(obj: Value, i: nat)
    requires obj.Object? && i < |obj.entries|
    ensures KeyAt(obj, i) == CanonicalKeys(obj.entries)[i]
  {
  }

  /** One entry in front of the others, in the terms of the walk over the keys. */
  lemma EntryStands(s: bytes, pos: nat, obj: Value, i: nat)
    requires obj.Object? && i < |obj.entries| && At(s, pos, RestEncoding(obj, i))
    ensures var k := KeyAt(obj, i);
            var mid := pos + |EncodeText(k)|;
            && At(s, pos, EncodeText(k)) && mid <= |s| && s[pos..mid] == EncodeText(k)
            && At(s, mid, Enc(obj.entries[k])) && mid + |Enc(obj.entries[k])| <= |s|
            && At(s, mid + |Enc(obj.entries[k])|, RestEncoding(obj, i + 1))
  {
    hide *;
    KeyAtIs(obj, i);
    RestEncodingStep(obj, i);
    var k := KeyAt(obj, i);
    AtConcat(s, pos, EncodeText(k) + Enc(obj.entries[k]), RestEncoding(obj, i + 1));
    AtConcat(s, pos, EncodeText(k), Enc(obj.entries[k]));
    AtMeans(s, pos, EncodeText(k));
    AtMeans(s, pos + |EncodeText(k)|, Enc(obj.entries[k]));
  }

  lemma {:induction false} EntriesRefused(s: bytes, pos: nat, obj: Value, i: nat, limits: CborLimits, depth: nat,
                                          preferred: bool, e: CborError)
    requires obj.Object? && i <= |obj.entries| && At(s, pos, RestEncoding(obj, i))
    requires forall k :: k in obj.entries ==> |k| <= MAX_ARGUMENT && Encodable(obj.entries[k])
    requires FirstOfEntries(obj, i, limits, depth) == Some(e)
    ensures pos <= |s|
    ensures DecodeEntries(s, pos, |obj.entries| - i, limits, depth, FirstEntries(obj, i), LastKey(obj, i), preferred)
         == Err(e)
    decreases obj, 0, |obj.entries| - i
  {
    hide *;
    EntryViolation(obj, i, limits, depth);
    EntryStands(s, pos, obj, i);
    KeyAtIs(obj, i);
    var k := KeyAt(obj, i);
    var mid, v := pos + |EncodeText(k)|, obj.entries[k];
    EntriesEquation(s, pos, |obj.entries| - i, limits, depth, FirstEntries(obj, i), LastKey(obj, i), preferred);
    if |k| > limits.maxStringBytes {
      LongKeyAt(s, pos, k, limits, FirstEntries(obj, i).Keys, LastKey(obj, i));
    } else {
      FirstEntriesStep(obj, i);
      LastKeyLess(obj, i);
      KeyDecodes(s, pos, k, limits, FirstEntries(obj, i).Keys, LastKey(obj, i));
      if Violation(v, limits, depth).Some? {
        ValueRefused(s, mid, v, limits, depth, e);
      } else {
        ViolationExactly(v, limits, depth);
        ValueComplete(s, mid, v, limits, depth);
        LastKeyStep(obj, i);
        EntriesRefused(s, mid + |Enc(v)|, obj, i + 1, limits, depth, preferred, e);
      }
    }
  }
}
