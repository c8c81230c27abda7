/** The data model of the manifest codec: `serde_json` values, the resource limits, the error
    categories, the profile a value must meet, and its deterministic encoding. */
module CborValues {
  import opened Bytes
  import opened CborHeads
  import opened Results
  import opened SortedSets

  const MAX_SAFE_INTEGER: int := 9_007_199_254_740_991

  /** `serde_json::Value`. `Float` stands for every number that is neither a u64 nor an i64. */
  datatype Value =
    | Null
    | Bool(b: bool)
    | Int(n: int)
    | Float
    | String(text: Text)
    | Array(items: seq<Value>)
    | Object(entries: map<Text, Value>)

  datatype CborLimits = CborLimits(
    maxManifestBytes: usize, maxDepth: usize, maxMapPairs: usize, maxArrayItems: usize, maxStringBytes: usize)

  datatype CborError =
    | MalformedCbor
    | TrailingData
    | NonDeterministicCbor
    | IndefiniteLength
    | UnsupportedCborType
    | IntegerOutOfRange
    | DuplicateKey
    | MapKeyOrder
    | ResourceLimit
    | SchemaViolation
    | ManifestPolicy
    | EncodeFailure

  datatype Category =
    | CatMalformed
    | CatNonDeterministic
    | CatUnsupportedType
    | CatResourceLimit
    | CatPolicyInvalid

  function CategoryOf(e: CborError): Category {
    match e
    case MalformedCbor | TrailingData | EncodeFailure => CatMalformed
    case NonDeterministicCbor | IndefiniteLength | DuplicateKey | MapKeyOrder => CatNonDeterministic
    case UnsupportedCborType | IntegerOutOfRange => CatUnsupportedType
    case ResourceLimit => CatResourceLimit
    case SchemaViolation | ManifestPolicy => CatPolicyInvalid
  }

  predicate SafeInteger(n: int) {
    -MAX_SAFE_INTEGER <= n <= MAX_SAFE_INTEGER
  }

  /** What `validate_value_profile` accepts, whatever order a map is walked in. */
  predicate InProfile(v: Value, limits: CborLimits, depth: nat) {
    && depth <= limits.maxDepth
    && match v
       case Null | Float => false
       case Bool(_) => true
       case Int(n) => SafeInteger(n)
       case String(t) => |t| <= limits.maxStringBytes
       case Array(items) =>
         && |items| <= limits.maxArrayItems
         && forall i :: 0 <= i < |items| ==> InProfile(items[i], limits, depth + 1)
       case Object(entries) =>
         && |entries| <= limits.maxMapPairs
         && forall k :: k in entries ==>
              |k| <= limits.maxStringBytes && InProfile(entries[k], limits, depth + 1)
  }

  /** `validate_value_profile`: the first violation found, a map being walked in the order of its keys. */
  function ProfileCheck(v: Value, limits: CborLimits, depth: nat): Result<(), CborError>
    decreases v, 1
  {
    if depth > limits.maxDepth then Err(ResourceLimit)
    else
      match v
      case Null | Float => Err(UnsupportedCborType)
      case Bool(_) => Ok(())
      case Int(n) => if SafeInteger(n) then Ok(()) else Err(IntegerOutOfRange)
      case String(t) => if |t| > limits.maxStringBytes then Err(ResourceLimit) else Ok(())
      case Array(items) =>
        if |items| > limits.maxArrayItems then Err(ResourceLimit) else CheckItems(items, limits, depth + 1)
      case Object(entries) =>
        if |entries| > limits.maxMapPairs then Err(ResourceLimit)
        else
          KeysListed(entries.Keys);
          CheckEntries(v, SortedKeys(entries.Keys), limits, depth + 1)
  }

  function CheckItems(items: seq<Value>, limits: CborLimits, depth: nat): Result<(), CborError>
    decreases items, 0
  {
    if items == [] then Ok(())
    else
      var _ :- ProfileCheck(items[0], limits, depth);
      CheckItems(items[1..], limits, depth)
  }

  function CheckEntries(obj: Value, ks: seq<Text>, limits: CborLimits, depth: nat): Result<(), CborError>
    requires obj.Object? && forall k :: k in ks ==> k in obj.entries
    decreases obj, 0, |ks|
  {
    if ks == [] then Ok(())
    else if |ks[0]| > limits.maxStringBytes then Err(ResourceLimit)
    else
      var _ :- ProfileCheck(obj.entries[ks[0]], limits, depth);
      CheckEntries(obj, ks[1..], limits, depth)
  }

  lemma KeysListed(keys: set<Text>)
    ensures forall k :: k in SortedKeys(keys) <==> k in keys
  {
    hide ValidUtf8, SortedKeys;
    assert forall k :: k in SortedKeys(keys) <==> k in Elements(SortedKeys(keys));
  }

  lemma {:induction false} ObjectChecked(entries: map<Text, Value>, limits: CborLimits, depth: nat)
    requires forall k :: k in SortedKeys(entries.Keys) ==> k in entries
    requires CheckEntries(Object(entries), SortedKeys(entries.Keys), limits, depth + 1).Ok? <==>
               forall k :: k in entries ==> |k| <= limits.maxStringBytes && InProfile(entries[k], limits, depth + 1)
    ensures ProfileCheck(Object(entries), limits, depth).Ok? <==> InProfile(Object(entries), limits, depth)
  {
    hide SortedKeys, CheckEntries, ValidUtf8;
  }

  /** There is a violation exactly when the value is outside the profile. */
  lemma {:induction false} ProfileCheckExactly(v: Value, limits: CborLimits, depth: nat)
    ensures ProfileCheck(v, limits, depth).Ok? <==> InProfile(v, limits, depth)
    decreases v, 1
  {
    hide SortedKeys, CheckItems, CheckEntries, ValidUtf8;
    match v
    case Array(items) =>
      CheckItemsExactly(items, limits, depth + 1);
    case Object(entries) =>
      hide *;
      KeysListed(entries.Keys);
      CheckEntriesExactly(v, SortedKeys(entries.Keys), limits, depth + 1);
      ObjectChecked(entries, limits, depth);
    case _ =>
  }

  lemma {:induction false} CheckItemsExactly(items: seq<Value>, limits: CborLimits, depth: nat)
    ensures CheckItems(items, limits, depth).Ok? <==>
              forall i :: 0 <= i < |items| ==> InProfile(items[i], limits, depth)
    decreases items, 0
  {
    hide InProfile, ProfileCheck;
    if items != [] {
      ProfileCheckExactly(items[0], limits, depth);
      CheckItemsExactly(items[1..], limits, depth);
      assert forall i :: 1 <= i < |items| ==> items[i] == items[1..][i - 1];
      assert forall i :: 0 <= i < |items[1..]| ==> items[1..][i] == items[i + 1];
    }
  }

  lemma {:induction false} CheckEntriesExactly(obj: Value, ks: seq<Text>, limits: CborLimits, depth: nat)
    requires obj.Object? && forall k :: k in ks ==> k in obj.entries
    ensures CheckEntries(obj, ks, limits, depth).Ok? <==>
              forall k :: k in ks ==> |k| <= limits.maxStringBytes && InProfile(obj.entries[k], limits, depth)
    decreases obj, 0, |ks|
  {
    hide InProfile, ProfileCheck, ValidUtf8;
    if ks != [] {
      ProfileCheckExactly(obj.entries[ks[0]], limits, depth);
      CheckEntriesExactly(obj, ks[1..], limits, depth);
      assert ks == [ks[0]] + ks[1..];
    }
  }

  /** The keys of a map in deterministic order. */
  ghost function CanonicalKeys(entries: map<Text, Value>): (ks: seq<Text>)
    ensures Elements(ks) == entries.Keys && |ks| == |entries|
    ensures Ascending(KeyLess, ks) && Distinct(ks)
  {
    KeyOrderIsStrictTotal();
    SortedIsAscending(KeyLess, entries.Keys);
    var ks := Sorted(KeyLess, entries.Keys);
    assert forall i :: 0 <= i < |ks| ==> ks[i] in Elements(ks);
    ks
  }

  /** The deterministic encoding of a value; `Null` and `Float` have none. */
  ghost function Enc(v: Value): bytes
    decreases v, 0
  {
    match v
    case Null | Float => []
    case Bool(b) => [if b then 0xF5 else 0xF4]
    case Int(n) => if n >= 0 then EncodeHead(0, n) else EncodeHead(1, -1 - n)
    case String(t) => EncodeText(t)
    case Array(items) => EncodeHead(4, |items|) + EncItems(items)
    case Object(entries) => EncodeHead(5, |entries|) + EncEntries(v, CanonicalKeys(entries))
  }

  ghost function EncItems(items: seq<Value>): bytes
    decreases items, 0
  {
    if items == [] then [] else Enc(items[0]) + EncItems(items[1..])
  }

  /** The entries of `obj` under the keys `ks`, in the order of `ks`. */
  ghost function EncEntries(obj: Value, ks: seq<Text>): bytes
    requires obj.Object? && Elements(ks) <= obj.entries.Keys
    decreases obj, 0, |ks|
  {
    if ks == [] then []
    else
      assert ks[0] in Elements(ks) && Elements(ks[1..]) <= Elements(ks);
      EncodeText(ks[0]) + Enc(obj.entries[ks[0]]) + EncEntries(obj, ks[1..])
  }

  lemma {:induction false} EncItemsConcat(a: seq<Value>, b: seq<Value>)
    ensures EncItems(a + b) == EncItems(a) + EncItems(b)
  {
    if a == [] {
      assert a + b == b;
    } else {
      assert (a + b)[1..] == a[1..] + b;
      EncItemsConcat(a[1..], b);
    }
  }

  lemma {:induction false} EncEntriesConcat(obj: Value, a: seq<Text>, b: seq<Text>)
    requires obj.Object? && Elements(a) <= obj.entries.Keys && Elements(b) <= obj.entries.Keys
    ensures Elements(a + b) <= obj.entries.Keys
    ensures EncEntries(obj, a + b) == EncEntries(obj, a) + EncEntries(obj, b)
  {
    ElementsConcat(a, b);
    if a == [] {
      assert a + b == b;
    } else {
      assert (a + b)[1..] == a[1..] + b;
      assert Elements(a[1..]) <= Elements(a);
      EncEntriesConcat(obj, a[1..], b);
    }
  }
}
