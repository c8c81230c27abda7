/** The Rust codec as it runs: a cursor that moves over the input, an encoder that appends to a
    buffer, and the loops of cbor.rs over both. */
module RustCbor {
  import opened Bytes
  import opened CborHeads
  import opened CborValues
  import opened Results
  import opened SortedSets
  import Spec = LenientDecoder

  type Decoded<+T> = Spec.Decoded<T>

  /** `r` and the cursor position `pos` are what the specification `spec` says. */
  ghost predicate Meets<T(!new)>(spec: Result<Decoded<T>, CborError>, r: Result<T, CborError>, pos: nat) {
    match spec
    case Ok(d) => r == Ok(d.value) && pos == d.next
    case Err(e) => r == Err(e)
  }

  /** The `minicbor` cursor. A failed read leaves the position unspecified. */
  class Decoder {
    const input: bytes
    var pos: nat

    ghost predicate Valid()
      reads this
    {
      pos <= |input|
    }

    constructor (input: bytes)
      ensures Valid() && this.input == input && pos == 0
    {
      this.input := input;
      pos := 0;
    }

    /** The class of the next item, left in place. */
    method Datatype() returns (r: Result<Spec.ItemType, CborError>)
      requires Valid()
      ensures match Spec.PeekType(input, pos)
              case Ok(t) => r == Ok(t)
              case Err(_) => r == Err(MalformedCbor)
    {
      var t := Spec.PeekType(input, pos);
      r := if t.Ok? then Ok(t.value) else Err(MalformedCbor);
    }

    /** `u64`, `i64`, `array` and `map` all read one head, of any width. At the shortest head of an argument
        that argument is read, and the cursor stands behind the head. */
    method Argument() returns (r: Result<nat, CborError>)
      requires Valid()
      modifies this
      ensures Valid()
      ensures match Spec.TakeHead(input, old(pos))
              case Ok(h) => r == Ok(h.arg) && pos == h.next
              case Err(e) => r == Err(e)
      ensures forall major: nat, n: nat ::
                major < 8 && n <= MAX_ARGUMENT && At(input, old(pos), EncodeHead(major, n)) ==>
                r == Ok(n) && pos == old(pos) + |EncodeHead(major, n)|
    {
      hide At, EncodeHead;
      ShortestHeadRead(input, pos);
      if pos == |input| {
        return Err(MalformedCbor);
      }
      ghost var start := pos;
      var info := input[pos] % 32;
      pos := pos + 1;
      if info < 24 {
        return Ok(info);
      }
      if info > 27 || pos + ArgumentWidth(info) > |input| {
        return Err(MalformedCbor);
      }
      var value: nat := 0;
      for i := 0 to ArgumentWidth(info)
        invariant pos == start + 1 + i && value == FromBigEndian(input[start + 1..start + 1 + i])
      {
        assert input[start + 1..start + 2 + i][..i] == input[start + 1..start + 1 + i];
        value := 256 * value + input[pos];
        pos := pos + 1;
      }
      return Ok(value);
    }

    method Str() returns (r: Result<Text, CborError>)
      requires Valid()
      modifies this
      ensures Valid() && Meets(Spec.TakeText(input, old(pos)), r, pos)
    {
      var length :- Argument();
      if pos + length > |input| {
        return Err(MalformedCbor);
      }
      var raw := input[pos..pos + length];
      pos := pos + length;
      if !ValidUtf8(raw) {
        return Err(MalformedCbor);
      }
      return Ok(raw);
    }

    method Bool() returns (r: Result<bool, CborError>)
      requires Valid() && Spec.PeekType(input, pos) == Ok(Spec.BoolItem)
      modifies this
      ensures Valid() && pos == old(pos) + 1 && r == Ok(input[old(pos)] == 0xF5)
    {
      r := Ok(input[pos] == 0xF5);
      pos := pos + 1;
    }
  }

  lemma ShortestHeadRead(s: bytes, pos: nat)
    requires pos <= |s|
    ensures forall major: nat, n: nat :: major < 8 && n <= MAX_ARGUMENT && At(s, pos, EncodeHead(major, n)) ==>
              Spec.TakeHead(s, pos) == Ok(Head(major, n, pos + |EncodeHead(major, n)|))
  {
    hide At, EncodeHead, ReadHead;
    forall major: nat, n: nat | major < 8 && n <= MAX_ARGUMENT && At(s, pos, EncodeHead(major, n))
      ensures Spec.TakeHead(s, pos) == Ok(Head(major, n, pos + |EncodeHead(major, n)|))
    {
      ReadsEncodedHead(s, pos, major, n);
    }
  }

  method DecodeValue(decoder: Decoder, limits: CborLimits, depth: nat) returns (r: Result<Value, CborError>)
    requires decoder.Valid()
    modifies decoder
    ensures decoder.Valid()
    ensures Meets(Spec.DecodeValue(decoder.input, old(decoder.pos), limits, depth), r, decoder.pos)
    decreases |decoder.input| - decoder.pos, 1
  {
    if depth > limits.maxDepth {
      return Err(ResourceLimit);
    }
    var dataType :- decoder.Datatype();
    match dataType
    case BoolItem =>
      var b :- decoder.Bool();
      return Ok(Bool(b));
    case UnsignedItem =>
      var value :- decoder.Argument();
      if value > MAX_SAFE_INTEGER {
        return Err(IntegerOutOfRange);
      }
      return Ok(Int(value));
    case NegativeItem =>
      var argument :- decoder.Argument();
      var value: int := -1 - (argument as int);
      if -value > MAX_SAFE_INTEGER {
        return Err(IntegerOutOfRange);
      }
      return Ok(Int(value));
    case OversizedNegative =>
      return Err(IntegerOutOfRange);
    case StringItem =>
      var text :- decoder.Str();
      if |text| > limits.maxStringBytes {
        return Err(ResourceLimit);
      }
      return Ok(String(text));
    case ArrayItem =>
      r := DecodeArray(decoder, limits, depth);
    case MapItem =>
      r := DecodeMap(decoder, limits, depth);
    case IndefiniteItem =>
      return Err(IndefiniteLength);
    case BytesItem =>
      return Err(UnsupportedCborType);
    case OtherItem =>
      return Err(UnsupportedCborType);
  }

  method DecodeArray(decoder: Decoder, limits: CborLimits, depth: nat) returns (r: Result<Value, CborError>)
    requires decoder.Valid() && depth <= limits.maxDepth
    requires Spec.PeekType(decoder.input, decoder.pos) == Ok(Spec.ArrayItem)
    modifies decoder
    ensures decoder.Valid()
    ensures Meets(Spec.DecodeValue(decoder.input, old(decoder.pos), limits, depth), r, decoder.pos)
    decreases |decoder.input| - decoder.pos, 0
  {
    hide Spec.DecodeValue, Spec.DecodeItems, Spec.PeekType, Spec.TakeHead, ValidUtf8, Preferred;
    Spec.ArrayEquation(decoder.input, decoder.pos, limits, depth);
    ghost var head := Spec.TakeHead(decoder.input, decoder.pos);
    var length :- decoder.Argument();
    if length > limits.maxArrayItems {
      return Err(ResourceLimit);
    }
    var items: seq<Value> := [];
    ghost var preferred := Preferred(old(decoder.pos), head.value);
    ghost var spec := Spec.DecodeItems(decoder.input, head.value.next, length, limits, depth + 1, [], preferred);
    for i := 0 to length
      invariant decoder.Valid() && head.value.next <= decoder.pos
      invariant spec == Spec.DecodeItems(decoder.input, decoder.pos, length - i, limits, depth + 1, items, preferred)
    {
      Spec.ItemsEquation(decoder.input, decoder.pos, length - i, limits, depth + 1, items, preferred);
      ghost var itemSpec := Spec.DecodeValue(decoder.input, decoder.pos, limits, depth + 1);
      var item :- DecodeValue(decoder, limits, depth + 1);
      items := items + [item];
      preferred := preferred && itemSpec.value.preferred;
    }
    Spec.ItemsEquation(decoder.input, decoder.pos, 0, limits, depth + 1, items, preferred);
    return Ok(Array(items));
  }

  method DecodeMap(decoder: Decoder, limits: CborLimits, depth: nat) returns (r: Result<Value, CborError>)
    requires decoder.Valid() && depth <= limits.maxDepth
    requires Spec.PeekType(decoder.input, decoder.pos) == Ok(Spec.MapItem)
    modifies decoder
    ensures decoder.Valid()
    ensures Meets(Spec.DecodeValue(decoder.input, old(decoder.pos), limits, depth), r, decoder.pos)
    decreases |decoder.input| - decoder.pos, 0
  {
    hide Spec.DecodeValue, Spec.DecodeEntries, Spec.DecodeKey, Spec.PeekType, Spec.TakeHead, ValidUtf8, Preferred;
    Spec.MapEquation(decoder.input, decoder.pos, limits, depth);
    ghost var head := Spec.TakeHead(decoder.input, decoder.pos);
    var length :- decoder.Argument();
    if length > limits.maxMapPairs {
      return Err(ResourceLimit);
    }
    var entries: map<Text, Value> := map[];
    var seen: set<Text> := {};
    var previous: Option<bytes> := None;
    ghost var preferred := Preferred(old(decoder.pos), head.value);
    ghost var spec := Spec.DecodeEntries(
      decoder.input, head.value.next, length, limits, depth + 1, map[], None, preferred);
    for i := 0 to length
      invariant decoder.Valid() && head.value.next <= decoder.pos && seen == entries.Keys
      invariant spec == Spec.DecodeEntries(decoder.input, decoder.pos, length - i, limits, depth + 1,
                                           entries, previous, preferred)
    {
      Spec.EntriesEquation(decoder.input, decoder.pos, length - i, limits, depth + 1, entries, previous, preferred);
      var start := decoder.pos;
      ghost var keySpec := Spec.DecodeKey(decoder.input, start, limits, entries.Keys, previous);
      var key :- DecodeKey(decoder, limits, seen, previous);
      seen := seen + {key};
      previous := Some(decoder.input[start..decoder.pos]);
      ghost var valueSpec := Spec.DecodeValue(decoder.input, decoder.pos, limits, depth + 1);
      var value :- DecodeValue(decoder, limits, depth + 1);
      entries := entries[key := value];
      preferred := preferred && keySpec.value.preferred && valueSpec.value.preferred;
    }
    Spec.EntriesEquation(decoder.input, decoder.pos, 0, limits, depth + 1, entries, previous, preferred);
    return Ok(Object(entries));
  }

  /** The part of the map loop that reads and checks one key. */
  method DecodeKey(decoder: Decoder, limits: CborLimits, seen: set<Text>, previous: Option<bytes>)
    returns (r: Result<Text, CborError>)
    requires decoder.Valid()
    modifies decoder
    ensures decoder.Valid()
    ensures Meets(Spec.DecodeKey(decoder.input, old(decoder.pos), limits, seen, previous), r, decoder.pos)
  {
    var keyType :- decoder.Datatype();
    if keyType == Spec.IndefiniteItem && decoder.input[decoder.pos] == 0x7F {
      return Err(IndefiniteLength);
    }
    if keyType != Spec.StringItem {
      return Err(UnsupportedCborType);
    }
    var start := decoder.pos;
    var key :- decoder.Str();
    if |key| > limits.maxStringBytes {
      return Err(ResourceLimit);
    }
    if key in seen {
      return Err(DuplicateKey);
    }
    var keyBytes := decoder.input[start..decoder.pos];
    if previous.Some? && CompareEncodedKeys(previous.value, keyBytes) != Less {
      return Err(MapKeyOrder);
    }
    return Ok(key);
  }

  // ---------------------------------------------------------------- encoding

  /** The `minicbor` encoder: every call appends to `output`. */
  class Encoder {
    var output: bytes

    constructor ()
      ensures output == []
    {
      output := [];
    }

    method PutHead(major: nat, argument: nat)
      requires major < 8
      modifies this
      ensures output == old(output) + EncodeHead(major, argument)
    {
      output := output + EncodeHead(major, argument);
    }

    method PutBool(b: bool)
      modifies this
      ensures output == old(output) + Enc(Bool(b))
    {
      output := output + [if b then 0xF5 else 0xF4];
    }

    method PutInt(n: int)
      modifies this
      ensures output == old(output) + Enc(Int(n))
    {
      if n >= 0 {
        PutHead(0, n);
      } else {
        PutHead(1, -1 - n);
      }
    }

    method PutBytes(raw: bytes)
      modifies this
      ensures output == old(output) + (EncodeHead(2, |raw|) + raw)
    {
      output := output + EncodeHead(2, |raw|) + raw;
      ConcatAssociative(old(output), EncodeHead(2, |raw|), raw);
    }

    method PutStr(t: Text)
      modifies this
      ensures output == old(output) + EncodeText(t)
    {
      output := output + EncodeHead(3, |t|) + t;
      ConcatAssociative(old(output), EncodeHead(3, |t|), t);
    }
  }

  predicate ProfileError(e: CborError) {
    e == ResourceLimit || e == UnsupportedCborType || e == IntegerOutOfRange
  }

  /** `validate_value_profile`. */
  method ValidateValueProfile(value: Value, limits: CborLimits, depth: nat) returns (r: Result<(), CborError>)
    ensures r == ProfileCheck(value, limits, depth)
    ensures r.Ok? <==> InProfile(value, limits, depth)
    decreases value, 1
  {
    hide InProfile, ValidUtf8, SortedKeys, CheckItems, CheckEntries;
    ProfileCheckExactly(value, limits, depth);
    if depth > limits.maxDepth {
      return Err(ResourceLimit);
    }
    match value
    case Null | Float =>
      return Err(UnsupportedCborType);
    case Bool(_) =>
      return Ok(());
    case Int(n) =>
      return if SafeInteger(n) then Ok(()) else Err(IntegerOutOfRange);
    case String(text) =>
      return if |text| > limits.maxStringBytes then Err(ResourceLimit) else Ok(());
    case Array(items) =>
      if |items| > limits.maxArrayItems {
        return Err(ResourceLimit);
      }
      r := ValidateItems(items, limits, depth + 1);
    case Object(entries) =>
      if |entries| > limits.maxMapPairs {
        return Err(ResourceLimit);
      }
      r := ValidateEntries(value, limits, depth + 1);
  }

  /** Its loop over the items of an array. */
  method ValidateItems(items: seq<Value>, limits: CborLimits, depth: nat) returns (r: Result<(), CborError>)
    ensures r == CheckItems(items, limits, depth)
    decreases items, 0
  {
    hide InProfile, ProfileCheck;
    for i := 0 to |items|
      invariant CheckItems(items, limits, depth) == CheckItems(items[i..], limits, depth)
    {
      assert items[i..][1..] == items[i + 1..];
      var _ :- ValidateValueProfile(items[i], limits, depth);
    }
    return Ok(());
  }

  /** Its loop over the entries of a map. */
  method ValidateEntries(value: Value, limits: CborLimits, depth: nat) returns (r: Result<(), CborError>)
    requires value.Object?
    ensures forall k :: k in SortedKeys(value.entries.Keys) ==> k in value.entries
    ensures r == CheckEntries(value, SortedKeys(value.entries.Keys), limits, depth)
    decreases value, 0
  {
    hide InProfile, ProfileCheck, ValidUtf8, SortedKeys;
    KeysListed(value.entries.Keys);
    var keys := SortedKeys(value.entries.Keys);
    for i := 0 to |keys|
      invariant CheckEntries(value, keys, limits, depth) == CheckEntries(value, keys[i..], limits, depth)
    {
      assert keys[i..][1..] == keys[i + 1..] && keys[i] in keys;
      if |keys[i]| > limits.maxStringBytes {
        return Err(ResourceLimit);
      }
      var _ :- ValidateValueProfile(value.entries[keys[i]], limits, depth);
    }
    return Ok(());
  }

  /** What `ordered` holds for one entry of a map. */
  datatype Entry = Entry(encoded: bytes, key: Text, item: Value)

  function KeysOf(es: seq<Entry>): (ks: seq<Text>)
    ensures |ks| == |es| && forall i :: 0 <= i < |es| ==> ks[i] == es[i].key
  {
    seq(|es|, i requires 0 <= i < |es| => es[i].key)
  }

  ghost predicate EntryOf(entries: map<Text, Value>, e: Entry) {
    e.key in entries && e.item == entries[e.key] && e.encoded == EncodeText(e.key)
  }

  ghost predicate EntriesOf(entries: map<Text, Value>, es: seq<Entry>) {
    && Distinct(KeysOf(es)) && Elements(KeysOf(es)) <= entries.Keys
    && forall i :: 0 <= i < |es| ==> EntryOf(entries, es[i])
  }

  lemma InsertAscending(ks: seq<Text>, i: nat, k: Text)
    requires i <= |ks| && Ascending(KeyLess, ks) && k !in ks
    requires forall j :: 0 <= j < i ==> KeyLess(ks[j], k)
    requires i < |ks| ==> !KeyLess(ks[i], k)
    ensures Ascending(KeyLess, ks[..i] + [k] + ks[i..])
  {
    hide KeyLess, ValidUtf8;
    KeyOrderIsStrictTotal();
    var r := ks[..i] + [k] + ks[i..];
    forall j | i <= j < |ks| ensures KeyLess(k, ks[j]) {
      assert j > i ==> KeyLess(ks[i], ks[j]);
    }
    assert forall j :: 0 <= j < |r| ==> r[j] == if j < i then ks[j] else if j == i then k else ks[j - 1];
  }

  lemma InsertElements(ks: seq<bytes>, i: nat, k: bytes)
    requires i <= |ks|
    ensures Elements(ks[..i] + [k] + ks[i..]) == Elements(ks) + {k}
    ensures Distinct(ks) && k !in ks ==> Distinct(ks[..i] + [k] + ks[i..])
  {
    hide *;
    assert ks == ks[..i] + ks[i..];
    ElementsConcat(ks[..i], ks[i..]);
    ElementsConcat(ks[..i] + [k], ks[i..]);
    ElementsConcat(ks[..i], [k]);
    ElementsOne(k);
    if Distinct(ks) && k !in ks {
      InsertDistinct(ks, i, k);
    }
  }

  lemma ElementsOne(k: bytes)
    ensures Elements([k]) == {k}
  {
  }

  lemma InsertDistinct(ks: seq<bytes>, i: nat, k: bytes)
    requires i <= |ks| && Distinct(ks) && k !in ks
    ensures Distinct(ks[..i] + [k] + ks[i..])
  {
    var r := ks[..i] + [k] + ks[i..];
    assert forall j :: 0 <= j < |r| ==> r[j] == if j < i then ks[j] else if j == i then k else ks[j - 1];
  }

  /** `ordered.sort_by` with `compare_encoded_keys`, as an insertion sort: the entries that were
      pushed, in deterministic order. */
  method SortEntries(ghost entries: map<Text, Value>, ordered: seq<Entry>) returns (sorted: seq<Entry>)
    requires EntriesOf(entries, ordered)
    ensures EntriesOf(entries, sorted) && Ascending(KeyLess, KeysOf(sorted))
    ensures Elements(KeysOf(sorted)) == Elements(KeysOf(ordered))
  {
    sorted := [];
    EmptyElements(KeysOf(sorted));
    for n := 0 to |ordered|
      invariant EntriesOf(entries, sorted) && Ascending(KeyLess, KeysOf(sorted))
      invariant Elements(KeysOf(sorted)) == Elements(KeysOf(ordered)[..n])
    {
      assert KeysOf(ordered)[..n + 1] == KeysOf(ordered)[..n] + [ordered[n].key];
      ElementsConcat(KeysOf(ordered)[..n], [ordered[n].key]);
      NotAmong(KeysOf(ordered), n, KeysOf(sorted));
      sorted := InsertEntry(entries, sorted, ordered[n]);
      assert Elements([ordered[n].key]) == {ordered[n].key};
    }
    assert KeysOf(ordered)[..|ordered|] == KeysOf(ordered);
  }

  lemma NotAmong(ks: seq<bytes>, n: nat, others: seq<bytes>)
    requires n < |ks| && Distinct(ks) && Elements(others) == Elements(ks[..n])
    ensures ks[n] !in others
  {
    assert ks[n] !in ks[..n];
    assert ks[n] !in Elements(others);
  }

  method InsertEntry(ghost entries: map<Text, Value>, sorted: seq<Entry>, e: Entry) returns (r: seq<Entry>)
    requires EntriesOf(entries, sorted) && Ascending(KeyLess, KeysOf(sorted))
    requires EntryOf(entries, e) && e.key !in KeysOf(sorted)
    ensures EntriesOf(entries, r) && Ascending(KeyLess, KeysOf(r))
    ensures Elements(KeysOf(r)) == Elements(KeysOf(sorted)) + {e.key}
  {
    hide Ascending, Distinct, EncodeText, ValidUtf8, CompareEncodedKeys;
    var i := 0;
    while i < |sorted| && CompareEncodedKeys(sorted[i].encoded, e.encoded) == Less
      invariant i <= |sorted|
      invariant forall j :: 0 <= j < i ==> KeyLess(sorted[j].key, e.key)
    {
      i := i + 1;
    }
    r := sorted[..i] + [e] + sorted[i..];
    var ks := KeysOf(sorted);
    assert KeysOf(r) == ks[..i] + [e.key] + ks[i..];
    InsertAscending(ks, i, e.key);
    InsertElements(ks, i, e.key);
  }

  /** The buffer gains the deterministic encoding when the value is within the profile, and the call
      fails otherwise; the order in which a map is walked does not matter. */
  method EncodeValue(value: Value, encoder: Encoder, limits: CborLimits, depth: nat) returns (r: Result<(), CborError>)
    modifies encoder
    ensures r.Ok? <==> InProfile(value, limits, depth)
    ensures r.Ok? ==> encoder.output == old(encoder.output) + Enc(value)
    ensures r.Err? ==> ProfileError(r.error)
    decreases value, 1, 0
  {
    if depth > limits.maxDepth {
      return Err(ResourceLimit);
    }
    match value
    case Null | Float =>
      return Err(UnsupportedCborType);
    case Bool(b) =>
      encoder.PutBool(b);
      return Ok(());
    case Int(n) =>
      if !SafeInteger(n) {
        return Err(IntegerOutOfRange);
      }
      encoder.PutInt(n);
      return Ok(());
    case String(text) =>
      if |text| > limits.maxStringBytes {
        return Err(ResourceLimit);
      }
      encoder.PutStr(text);
      return Ok(());
    case Array(items) =>
      r := EncodeArray(value, encoder, limits, depth);
    case Object(entries) =>
      r := EncodeObject(value, encoder, limits, depth);
  }

  method EncodeArray(value: Value, encoder: Encoder, limits: CborLimits, depth: nat) returns (r: Result<(), CborError>)
    requires value.Array? && depth <= limits.maxDepth
    modifies encoder
    ensures r.Ok? <==> InProfile(value, limits, depth)
    ensures r.Ok? ==> encoder.output == old(encoder.output) + Enc(value)
    ensures r.Err? ==> ProfileError(r.error)
    decreases value, 0, 0
  {
    var items := value.items;
    if |items| > limits.maxArrayItems {
      return Err(ResourceLimit);
    }
    encoder.PutHead(4, |items|);
    ghost var start := encoder.output;
    for i := 0 to |items|
      invariant encoder.output == start + EncItems(items[..i])
      invariant forall j :: 0 <= j < i ==> InProfile(items[j], limits, depth + 1)
    {
      ghost var before := encoder.output;
      var _ :- EncodeValue(value.items[i], encoder, limits, depth + 1);
      ArrayGrows(start, items, i, encoder.output, before);
    }
    assert items[..|items|] == items;
    ConcatAssociative(old(encoder.output), EncodeHead(4, |items|), EncItems(items));
    return Ok(());
  }

  lemma ArrayGrows(start: bytes, items: seq<Value>, i: nat, after: bytes, before: bytes)
    requires i < |items| && before == start + EncItems(items[..i]) && after == before + Enc(items[i])
    ensures after == start + EncItems(items[..i + 1])
  {
    hide Enc;
    assert items[..i + 1] == items[..i] + [items[i]];
    EncItemsConcat(items[..i], [items[i]]);
    assert EncItems([items[i]]) == Enc(items[i]);
    ConcatAssociative(start, EncItems(items[..i]), Enc(items[i]));
  }

  method EncodeObject(value: Value, encoder: Encoder, limits: CborLimits, depth: nat) returns (r: Result<(), CborError>)
    requires value.Object? && depth <= limits.maxDepth
    modifies encoder
    ensures r.Ok? <==> InProfile(value, limits, depth)
    ensures r.Ok? ==> encoder.output == old(encoder.output) + Enc(value)
    ensures r.Err? ==> ProfileError(r.error)
    decreases value, 0, 1
  {
    hide Enc, InProfile, ValidUtf8, CanonicalKeys, EntriesOf, Ascending, EncEntries;
    ObjectMeans(value, limits, depth);
    if |value.entries| > limits.maxMapPairs {
      return Err(ResourceLimit);
    }
    var ordered :- CollectEntries(value.entries, limits);
    ordered := SortEntries(value.entries, ordered);
    encoder.PutHead(5, |ordered|);
    var _ :- WriteEntries(value, encoder, limits, depth, ordered);
    CanonicalOrder(value.entries, ordered);
    ConcatAssociative(old(encoder.output), EncodeHead(5, |value.entries|),
      EncEntries(value, CanonicalKeys(value.entries)));
    return Ok(());
  }

  lemma ObjectMeans(obj: Value, limits: CborLimits, depth: nat)
    requires obj.Object? && depth <= limits.maxDepth
    ensures InProfile(obj, limits, depth) <==>
            && |obj.entries| <= limits.maxMapPairs
            && (forall k :: k in obj.entries ==> |k| <= limits.maxStringBytes)
            && (forall k :: k in obj.entries ==> InProfile(obj.entries[k], limits, depth + 1))
    ensures Enc(obj) == EncodeHead(5, |obj.entries|) + EncEntries(obj, CanonicalKeys(obj.entries))
  {
  }

  /** The second loop of the map branch. */
  method WriteEntries(value: Value, encoder: Encoder, limits: CborLimits, depth: nat, ordered: seq<Entry>)
    returns (r: Result<(), CborError>)
    requires value.Object? && EntriesOf(value.entries, ordered) && Ascending(KeyLess, KeysOf(ordered))
    requires Elements(KeysOf(ordered)) == value.entries.Keys
    modifies encoder
    ensures r.Ok? <==> forall k :: k in value.entries ==> InProfile(value.entries[k], limits, depth + 1)
    ensures r.Ok? ==> encoder.output == old(encoder.output) + EncEntries(value, CanonicalKeys(value.entries))
    ensures r.Err? ==> ProfileError(r.error)
    decreases value, 0, 0
  {
    hide Enc, InProfile, ValidUtf8, CanonicalKeys, Ascending, EncEntries, EncodeText, Distinct, KeysOf;
    CanonicalOrder(value.entries, ordered);
    ghost var ks := CanonicalKeys(value.entries);
    FirstKeys(value, 0);
    for i := 0 to |ordered|
      invariant Elements(ks[..i]) <= value.entries.Keys
      invariant encoder.output == old(encoder.output) + EncEntries(value, ks[..i])
      invariant forall j :: 0 <= j < i ==>
          ordered[j].key in value.entries && InProfile(value.entries[ordered[j].key], limits, depth + 1)
    {
      ghost var before := encoder.output;
      assert EntryOf(value.entries, ordered[i]) && ordered[i].key == ks[i];
      encoder.PutStr(ordered[i].key);
      var _ :- EncodeValue(value.entries[ordered[i].key], encoder, limits, depth + 1);
      ObjectGrows(old(encoder.output), value, i, encoder.output, before);
    }
    FirstKeys(value, |ordered|);
    AllInProfile(value, ordered, limits, depth + 1);
    return Ok(());
  }

  /** The first loop of the map branch: every key with its encoding, in the order of the walk. */
  method CollectEntries(entries: map<Text, Value>, limits: CborLimits) returns (r: Result<seq<Entry>, CborError>)
    ensures r.Ok? <==> forall k :: k in entries ==> |k| <= limits.maxStringBytes
    ensures r.Ok? ==> EntriesOf(entries, r.value) && Elements(KeysOf(r.value)) == entries.Keys
    ensures r.Err? ==> r.error == ResourceLimit
  {
    hide EncodeText, ValidUtf8;
    var ordered: seq<Entry> := [];
    var rest := entries.Keys;
    EmptyElements(KeysOf(ordered));
    while rest != {}
      invariant rest <= entries.Keys && EntriesOf(entries, ordered)
      invariant Elements(KeysOf(ordered)) == entries.Keys - rest
      invariant forall k :: k in entries && k !in rest ==> |k| <= limits.maxStringBytes
      decreases |rest|
    {
      var key :| key in rest;
      if |key| > limits.maxStringBytes {
        return Err(ResourceLimit);
      }
      PushEntry(entries, ordered, key);
      ordered := ordered + [Entry(EncodeText(key), key, entries[key])];
      rest := rest - {key};
    }
    return Ok(ordered);
  }

  lemma PushEntry(entries: map<Text, Value>, ordered: seq<Entry>, k: Text)
    requires EntriesOf(entries, ordered) && k in entries && k !in Elements(KeysOf(ordered))
    ensures EntriesOf(entries, ordered + [Entry(EncodeText(k), k, entries[k])])
    ensures Elements(KeysOf(ordered + [Entry(EncodeText(k), k, entries[k])])) == Elements(KeysOf(ordered)) + {k}
  {
    hide EncodeText, ValidUtf8;
    var ks := KeysOf(ordered);
    InsertElements(ks, |ks|, k);
    assert KeysOf(ordered + [Entry(EncodeText(k), k, entries[k])]) == ks[..|ks|] + [k] + ks[|ks|..];
  }

  lemma CanonicalOrder(entries: map<Text, Value>, ordered: seq<Entry>)
    requires EntriesOf(entries, ordered) && Ascending(KeyLess, KeysOf(ordered))
    requires Elements(KeysOf(ordered)) == entries.Keys
    ensures |ordered| == |entries|
    ensures forall i :: 0 <= i < |ordered| ==> ordered[i].key == CanonicalKeys(entries)[i]
  {
    hide KeyLess, ValidUtf8, Distinct;
    KeyOrderIsStrictTotal();
    AscendingIsUnique(KeyLess, KeysOf(ordered), CanonicalKeys(entries));
  }

  lemma FirstKeys(obj: Value, i: nat)
    requires obj.Object? && i <= |obj.entries|
    ensures var ks := CanonicalKeys(obj.entries);
            && Elements(ks[..i]) <= obj.entries.Keys
            && (i == 0 ==> EncEntries(obj, ks[..i]) == [])
            && (i == |obj.entries| ==> ks[..i] == ks)
            && (i < |obj.entries| ==> ks[i] in obj.entries)
  {
    hide Ascending, Distinct, ValidUtf8, KeyLess;
    var ks := CanonicalKeys(obj.entries);
    assert forall k :: k in Elements(ks[..i]) ==> k in Elements(ks);
    assert i < |ks| ==> ks[i] in Elements(ks);
  }

  lemma AllInProfile(obj: Value, ordered: seq<Entry>, limits: CborLimits, depth: nat)
    requires obj.Object? && Elements(KeysOf(ordered)) == obj.entries.Keys
    requires forall i :: 0 <= i < |ordered| ==>
               ordered[i].key in obj.entries && InProfile(obj.entries[ordered[i].key], limits, depth)
    ensures forall k :: k in obj.entries ==> InProfile(obj.entries[k], limits, depth)
  {
    hide InProfile, ValidUtf8;
    forall k | k in obj.entries ensures InProfile(obj.entries[k], limits, depth) {
      assert k in Elements(KeysOf(ordered));
      var i :| 0 <= i < |ordered| && KeysOf(ordered)[i] == k;
      assert ordered[i].key == k;
    }
  }

  lemma ObjectGrows(start: bytes, obj: Value, i: nat, after: bytes, before: bytes)
    requires obj.Object? && i < |obj.entries|
    requires (FirstKeys(obj, i); before == start + EncEntries(obj, CanonicalKeys(obj.entries)[..i]))
    requires (FirstKeys(obj, i);
              var k := CanonicalKeys(obj.entries)[i]; after == before + EncodeText(k) + Enc(obj.entries[k]))
    ensures Elements(CanonicalKeys(obj.entries)[..i + 1]) <= obj.entries.Keys
    ensures after == start + EncEntries(obj, CanonicalKeys(obj.entries)[..i + 1])
  {
    hide Enc, EncodeText, ValidUtf8, Ascending, Distinct, KeyLess, CanonicalKeys;
    FirstKeys(obj, i);
    FirstKeys(obj, i + 1);
    var ks := CanonicalKeys(obj.entries);
    var k := ks[i];
    assert ks[..i + 1] == ks[..i] + [k];
    assert Elements([k]) <= obj.entries.Keys;
    EncEntriesConcat(obj, ks[..i], [k]);
    assert EncEntries(obj, [k]) == EncodeText(k) + Enc(obj.entries[k]) + [];
    assert EncEntries(obj, [k]) == EncodeText(k) + Enc(obj.entries[k]);
    ConcatAssociative(before, EncodeText(k), Enc(obj.entries[k]));
    ConcatAssociative(start, EncEntries(obj, ks[..i]), EncodeText(k) + Enc(obj.entries[k]));
  }
}
