/** The function that `decode_value`, `decode_array` and `decode_map` of cbor.rs compute: it accepts
    every head width and checks only the order and uniqueness of map keys as written. */
module LenientDecoder {
  import opened Bytes
  import opened CborHeads
  import opened CborValues
  import opened Results

  /** A value, where it ends, and whether every head read for it was in preferred form. The last
      is a record of the input that the code does not compute. */
  datatype Decoded<+T> = Decoded(value: T, next: nat, preferred: bool)

  /** The classes into which `Decoder::datatype` sorts the next item. */
  datatype ItemType =
    | UnsignedItem | NegativeItem | OversizedNegative | BytesItem | StringItem | ArrayItem | MapItem
    | BoolItem | IndefiniteItem | OtherItem

  /** Looks at the next item without consuming it. For a negative integer of explicit width the
      first argument byte is inspected too, so it must be present. */
  function PeekType(s: bytes, pos: nat): (r: Result<ItemType, HeadError>)
    requires pos <= |s|
    ensures r.Ok? ==> pos < |s|
  {
    if pos == |s| then Err(EndOfInput)
    else
      var b := s[pos];
      if b <= 0x1B then Ok(UnsignedItem)
      else if 0x20 <= b <= 0x37 then Ok(NegativeItem)
      else if 0x38 <= b <= 0x3B then
        if pos + 1 == |s| then Err(EndOfInput)
        else if b == 0x3B && s[pos + 1] >= 0x80 then Ok(OversizedNegative)
        else Ok(NegativeItem)
      else if 0x40 <= b <= 0x5B then Ok(BytesItem)
      else if 0x60 <= b <= 0x7B then Ok(StringItem)
      else if 0x80 <= b <= 0x9B then Ok(ArrayItem)
      else if 0xA0 <= b <= 0xBB then Ok(MapItem)
      else if b == 0xF4 || b == 0xF5 then Ok(BoolItem)
      else if b == 0x5F || b == 0x7F || b == 0x9F || b == 0xBF then Ok(IndefiniteItem)
      else Ok(OtherItem)
  }

  /** A head whose failure is reported as malformed input. */
  function TakeHead(s: bytes, pos: nat): (r: Result<Head, CborError>)
    requires pos <= |s|
    ensures r.Ok? ==> pos < r.value.next <= |s| && r.value.major < 8
  {
    match ReadHead(s, pos)
    case Ok(h) => Ok(h)
    case Err(_) => Err(MalformedCbor)
  }

  /** `Decoder::str`: the announced bytes must be present and valid UTF-8. */
  function TakeText(s: bytes, pos: nat): (r: Result<Decoded<Text>, CborError>)
    requires pos <= |s|
    ensures r.Ok? ==> pos < r.value.next <= |s|
  {
    var h :- TakeHead(s, pos);
    if h.next + h.arg > |s| then Err(MalformedCbor)
    else
      var raw := s[h.next..h.next + h.arg];
      if ValidUtf8(raw) then Ok(Decoded(raw, h.next + h.arg, Preferred(pos, h))) else Err(MalformedCbor)
  }

  function DecodeValue(s: bytes, pos: nat, limits: CborLimits, depth: nat): (r: Result<Decoded<Value>, CborError>)
    requires pos <= |s|
    ensures r.Ok? ==> pos < r.value.next <= |s|
    decreases |s| - pos, 0
  {
    if depth > limits.maxDepth then Err(ResourceLimit)
    else
      match PeekType(s, pos)
      case Err(_) => Err(MalformedCbor)
      case Ok(BoolItem) => Ok(Decoded(Bool(s[pos] == 0xF5), pos + 1, true))
      case Ok(UnsignedItem) =>
        var h :- TakeHead(s, pos);
        if h.arg > MAX_SAFE_INTEGER then Err(IntegerOutOfRange)
        else Ok(Decoded(Int(h.arg), h.next, Preferred(pos, h)))
      case Ok(NegativeItem) =>
        var h :- TakeHead(s, pos);
        if h.arg + 1 > MAX_SAFE_INTEGER then Err(IntegerOutOfRange)
        else Ok(Decoded(Int(-1 - h.arg), h.next, Preferred(pos, h)))
      case Ok(OversizedNegative) => Err(IntegerOutOfRange)
      case Ok(StringItem) =>
        var t :- TakeText(s, pos);
        if |t.value| > limits.maxStringBytes then Err(ResourceLimit)
        else Ok(Decoded(String(t.value), t.next, t.preferred))
      case Ok(ArrayItem) =>
        var h :- TakeHead(s, pos);
        if h.arg > limits.maxArrayItems then Err(ResourceLimit)
        else
          var items :- DecodeItems(s, h.next, h.arg, limits, depth + 1, [], Preferred(pos, h));
          Ok(Decoded(Array(items.value), items.next, items.preferred))
      case Ok(MapItem) =>
        var h :- TakeHead(s, pos);
        if h.arg > limits.maxMapPairs then Err(ResourceLimit)
        else
          var entries :- DecodeEntries(s, h.next, h.arg, limits, depth + 1, map[], None, Preferred(pos, h));
          Ok(Decoded(Object(entries.value), entries.next, entries.preferred))
      case Ok(IndefiniteItem) => Err(IndefiniteLength)
      case Ok(BytesItem) | Ok(OtherItem) => Err(UnsupportedCborType)
  }

  /** The `n` items still to be read, after those in `acc`. */
  function DecodeItems(s: bytes, pos: nat, n: nat, limits: CborLimits, depth: nat, acc: seq<Value>, preferred: bool)
    : (r: Result<Decoded<seq<Value>>, CborError>)
    requires pos <= |s|
    ensures r.Ok? ==> pos <= r.value.next <= |s|
    decreases |s| - pos, n + 1
  {
    if n == 0 then Ok(Decoded(acc, pos, preferred))
    else
      var v :- DecodeValue(s, pos, limits, depth);
      DecodeItems(s, v.next, n - 1, limits, depth, acc + [v.value], preferred && v.preferred)
  }

  /** One map key: a definite text string within limits, new, and after the previous key. */
  function DecodeKey(s: bytes, pos: nat, limits: CborLimits, seen: set<Text>, previous: Option<bytes>)
    : (r: Result<Decoded<Text>, CborError>)
    requires pos <= |s|
    ensures r.Ok? ==> pos < r.value.next <= |s|
  {
    match PeekType(s, pos)
    case Err(_) => Err(MalformedCbor)
    case Ok(IndefiniteItem) => if s[pos] == 0x7F then Err(IndefiniteLength) else Err(UnsupportedCborType)
    case Ok(StringItem) =>
      var key :- TakeText(s, pos);
      if |key.value| > limits.maxStringBytes then Err(ResourceLimit)
      else if key.value in seen then Err(DuplicateKey)
      else if previous.Some? && CompareEncodedKeys(previous.value, s[pos..key.next]) != Less then Err(MapKeyOrder)
      else Ok(key)
    case Ok(_) => Err(UnsupportedCborType)
  }

  /** The `n` pairs still to be read, after those in `entries`; `previous` holds the last key as written. */
  function DecodeEntries(s: bytes, pos: nat, n: nat, limits: CborLimits, depth: nat,
                         entries: map<Text, Value>, previous: Option<bytes>, preferred: bool)
    : (r: Result<Decoded<map<Text, Value>>, CborError>)
    requires pos <= |s|
    ensures r.Ok? ==> pos <= r.value.next <= |s|
    decreases |s| - pos, n + 1
  {
    if n == 0 then Ok(Decoded(entries, pos, preferred))
    else
      var key :- DecodeKey(s, pos, limits, entries.Keys, previous);
      var v :- DecodeValue(s, key.next, limits, depth);
      DecodeEntries(s, v.next, n - 1, limits, depth, entries[key.value := v.value], Some(s[pos..key.next]),
                    preferred && key.preferred && v.preferred)
  }

  // ---------------------------------------------------------------- defining equations

  /** `DecodeValue` on an array, whatever the outcome. */
  lemma ArrayEquation(s: bytes, pos: nat, limits: CborLimits, depth: nat)
    requires pos <= |s| && depth <= limits.maxDepth && PeekType(s, pos) == Ok(ArrayItem)
    ensures DecodeValue(s, pos, limits, depth)
         == match TakeHead(s, pos)
            case Err(e) => Err(e)
            case Ok(h) =>
              if h.arg > limits.maxArrayItems then Err(ResourceLimit)
              else match DecodeItems(s, h.next, h.arg, limits, depth + 1, [], Preferred(pos, h))
                   case Ok(items) => Ok(Decoded(Array(items.value), items.next, items.preferred))
                   case Err(e) => Err(e)
  {
    hide DecodeItems, DecodeEntries, TakeHead, TakeText, Preferred, PeekType, ValidUtf8;
  }

  /** `DecodeValue` on a map, whatever the outcome. */
  lemma MapEquation(s: bytes, pos: nat, limits: CborLimits, depth: nat)
    requires pos <= |s| && depth <= limits.maxDepth && PeekType(s, pos) == Ok(MapItem)
    ensures DecodeValue(s, pos, limits, depth)
         == match TakeHead(s, pos)
            case Err(e) => Err(e)
            case Ok(h) =>
              if h.arg > limits.maxMapPairs then Err(ResourceLimit)
              else match DecodeEntries(s, h.next, h.arg, limits, depth + 1, map[], None, Preferred(pos, h))
                   case Ok(entries) => Ok(Decoded(Object(entries.value), entries.next, entries.preferred))
                   case Err(e) => Err(e)
  {
    hide DecodeItems, DecodeEntries, TakeHead, TakeText, Preferred, PeekType, ValidUtf8;
  }

  /** One turn of the array loop, whatever the outcome. */
  lemma ItemsEquation(s: bytes, pos: nat, n: nat, limits: CborLimits, depth: nat, acc: seq<Value>, preferred: bool)
    requires pos <= |s|
    ensures DecodeItems(s, pos, n, limits, depth, acc, preferred)
         == if n == 0 then Ok(Decoded(acc, pos, preferred))
            else match DecodeValue(s, pos, limits, depth)
                 case Err(e) => Err(e)
                 case Ok(v) =>
                   DecodeItems(s, v.next, n - 1, limits, depth, acc + [v.value], preferred && v.preferred)
  {
    hide DecodeValue, ValidUtf8;
  }

  /** One turn of the map loop, whatever the outcome. */
  lemma EntriesEquation(s: bytes, pos: nat, n: nat, limits: CborLimits, depth: nat,
                        entries: map<Text, Value>, previous: Option<bytes>, preferred: bool)
    requires pos <= |s|
    ensures DecodeEntries(s, pos, n, limits, depth, entries, previous, preferred)
         == if n == 0 then Ok(Decoded(entries, pos, preferred))
            else match DecodeKey(s, pos, limits, entries.Keys, previous)
                 case Err(e) => Err(e)
                 case Ok(key) =>
                   match DecodeValue(s, key.next, limits, depth)
                   case Err(e) => Err(e)
                   case Ok(v) =>
                     DecodeEntries(s, v.next, n - 1, limits, depth, entries[key.value := v.value],
                                   Some(s[pos..key.next]), preferred && key.preferred && v.preferred)
  {
    hide DecodeKey, DecodeValue, ValidUtf8;
  }

  lemma AcceptedShallow(s: bytes, pos: nat, limits: CborLimits, depth: nat)
    requires pos <= |s| && DecodeValue(s, pos, limits, depth).Ok?
    ensures depth <= limits.maxDepth && PeekType(s, pos).Ok?
  {
    hide DecodeItems, DecodeEntries, ValidUtf8, TakeText, TakeHead;
  }
}
