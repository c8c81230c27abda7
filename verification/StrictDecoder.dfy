/** The strict one-pass decoder of canonical.py and its twin in the vector generator, with the
    generator's encoder. Both refuse wide heads while reading and never look back. */
module StrictDecoder {
  import opened Bytes
  import opened CborHeads
  import opened CborValues
  import opened Results

  /** A decoded Python value. A `dict` is the list of its items in insertion order. */
  datatype Item =
    | NoneItem
    | BoolValue(b: bool)
    | IntValue(n: int)
    | BytesValue(raw: bytes)
    | TextValue(text: Text)
    | ListValue(items: seq<Item>)
    | DictValue(pairs: seq<Pair>)
    | TagValue(tag: nat, inner: Item)

  datatype Pair = Pair(key: Item, val: Item)

  /** What distinguishes the strict decoders: the reference decoder has limits, a safe integer range
      and the three `allow_` switches; the generator's has none of these and takes any hashable key. */
  datatype Config = Config(
    limits: Option<CborLimits>, allowBytes: bool, allowTags: bool, allowNull: bool, anyHashableKey: bool)

  const GENERATOR: Config := Config(None, true, true, true, true)

  function ManifestConfig(limits: CborLimits): Config {
    Config(Some(limits), false, false, false, false)
  }

  datatype Read<+T> = Read(value: T, next: nat)

  // ---------------------------------------------------------------- Python values

  /** Python `==` on values that can be dictionary keys: `True == 1` and `False == 0`. */
  predicate PyEqual(a: Item, b: Item) {
    match (a, b)
    case (TagValue(t, x), TagValue(u, y)) => t == u && PyEqual(x, y)
    case (BoolValue(x), IntValue(n)) => n == if x then 1 else 0
    case (IntValue(n), BoolValue(x)) => n == if x then 1 else 0
    case _ => a == b
  }

  predicate Hashable(a: Item) {
    match a
    case ListValue(_) | DictValue(_) => false
    case TagValue(_, x) => Hashable(x)
    case _ => true
  }

  predicate KeyAllowed(cfg: Config, key: Item) {
    if cfg.anyHashableKey then Hashable(key)
    else key.TextValue? || key.IntValue? || key.BoolValue? || key.BytesValue?
  }

  predicate HasKey(pairs: seq<Pair>, key: Item) {
    exists i :: 0 <= i < |pairs| && PyEqual(pairs[i].key, key)
  }

  predicate DepthOk(cfg: Config, depth: nat) {
    cfg.limits.Some? ==> depth <= cfg.limits.value.maxDepth
  }

  predicate IntOk(cfg: Config, n: int) {
    cfg.limits.Some? ==> SafeInteger(n)
  }

  predicate StringOk(cfg: Config, n: nat) {
    cfg.limits.Some? ==> n <= cfg.limits.value.maxStringBytes
  }

  predicate ListOk(cfg: Config, n: nat) {
    cfg.limits.Some? ==> n <= cfg.limits.value.maxArrayItems
  }

  predicate DictOk(cfg: Config, n: nat) {
    cfg.limits.Some? ==> n <= cfg.limits.value.maxMapPairs
  }

  // ---------------------------------------------------------------- decoding

  /** The least argument that needs additional information `info`. */
  function Minimum(info: nat): nat {
    if info == 24 then 24 else if info == 25 then 0x100 else if info == 26 then 0x1_0000 else 0x1_0000_0000
  }

  /** `_argument`: any width that a narrower one could have served is refused. */
  function Argument(s: bytes, pos: nat): (r: Result<Head, Category>)
    requires pos < |s|
    ensures r.Ok? ==> pos < r.value.next <= |s| && r.value.major == s[pos] / 32 < 8
  {
    match ReadHead(s, pos)
    case Err(IndefiniteInfo) => Err(CatNonDeterministic)
    case Err(_) => Err(CatMalformed)
    case Ok(h) => if s[pos] % 32 >= 24 && h.arg < Minimum(s[pos] % 32) then Err(CatNonDeterministic) else Ok(h)
  }

  function DecodeString(s: bytes, pos: nat, cfg: Config): (r: Result<Read<Item>, Category>)
    requires pos < |s|
    ensures r.Ok? ==> pos < r.value.next <= |s|
  {
    var h :- Argument(s, pos);
    var next := h.next + h.arg;
    if !StringOk(cfg, h.arg) then Err(CatResourceLimit)
    else if next > |s| then Err(CatMalformed)
    else
      var raw := s[h.next..next];
      if h.major == 2 then if cfg.allowBytes then Ok(Read(BytesValue(raw), next)) else Err(CatUnsupportedType)
      else if ValidUtf8(raw) then Ok(Read(TextValue(raw), next))
      else Err(CatMalformed)
  }

  function DecodeInt(s: bytes, pos: nat, cfg: Config): (r: Result<Read<Item>, Category>)
    requires pos < |s|
    ensures r.Ok? ==> pos < r.value.next <= |s|
  {
    var h :- Argument(s, pos);
    var n := if h.major == 0 then h.arg else -1 - h.arg;
    if IntOk(cfg, n) then Ok(Read(IntValue(n), h.next)) else Err(CatUnsupportedType)
  }

  function DecodeSimple(s: bytes, pos: nat, cfg: Config): (r: Result<Read<Item>, Category>)
    requires pos < |s|
    ensures r.Ok? ==> pos < r.value.next <= |s|
  {
    var info := s[pos] % 32;
    if info == 20 then Ok(Read(BoolValue(false), pos + 1))
    else if info == 21 then Ok(Read(BoolValue(true), pos + 1))
    else if info == 22 && cfg.allowNull then Ok(Read(NoneItem, pos + 1))
    else Err(CatUnsupportedType)
  }

  function DecodeItem(s: bytes, pos: nat, cfg: Config, depth: nat): (r: Result<Read<Item>, Category>)
    requires pos <= |s|
    ensures r.Ok? ==> pos < r.value.next <= |s|
    decreases |s| - pos, 0, 0
  {
    if !DepthOk(cfg, depth) then Err(CatResourceLimit)
    else if pos == |s| then Err(CatMalformed)
    else
      var major := s[pos] / 32;
      if major <= 1 then DecodeInt(s, pos, cfg)
      else if major <= 3 then DecodeString(s, pos, cfg)
      else if major == 7 then DecodeSimple(s, pos, cfg)
      else
        var h :- Argument(s, pos);
        if major == 4 then
          if !ListOk(cfg, h.arg) then Err(CatResourceLimit)
          else
            var items :- DecodeList(s, h.next, h.arg, cfg, depth + 1, []);
            Ok(Read(ListValue(items.value), items.next))
        else if major == 5 then
          if !DictOk(cfg, h.arg) then Err(CatResourceLimit)
          else
            var pairs :- DecodeDict(s, h.next, h.arg, cfg, depth + 1, [], None);
            Ok(Read(DictValue(pairs.value), pairs.next))
        else if !cfg.allowTags then Err(CatUnsupportedType)
        else
          var inner :- DecodeItem(s, h.next, cfg, depth + 1);
          Ok(Read(TagValue(h.arg, inner.value), inner.next))
  }

  function DecodeList(s: bytes, pos: nat, n: nat, cfg: Config, depth: nat, acc: seq<Item>)
    : (r: Result<Read<seq<Item>>, Category>)
    requires pos <= |s|
    ensures r.Ok? ==> pos <= r.value.next <= |s|
    decreases |s| - pos, 1, n
  {
    if n == 0 then Ok(Read(acc, pos))
    else
      var v :- DecodeItem(s, pos, cfg, depth);
      DecodeList(s, v.next, n - 1, cfg, depth, acc + [v.value])
  }

  /** The checks on a key that was just read: its type, its place after `previous`, its novelty. */
  function CheckKey(cfg: Config, key: Item, encoded: bytes, acc: seq<Pair>, previous: Option<bytes>)
    : Result<(), Category>
  {
    if !KeyAllowed(cfg, key) then Err(CatUnsupportedType)
    else if previous.Some? && CompareEncodedKeys(previous.value, encoded) != Less then Err(CatNonDeterministic)
    else if HasKey(acc, key) then Err(CatNonDeterministic)
    else Ok(())
  }

  function DecodeDict(s: bytes, pos: nat, n: nat, cfg: Config, depth: nat, acc: seq<Pair>, previous: Option<bytes>)
    : (r: Result<Read<seq<Pair>>, Category>)
    requires pos <= |s|
    ensures r.Ok? ==> pos <= r.value.next <= |s|
    decreases |s| - pos, 1, n
  {
    if n == 0 then Ok(Read(acc, pos))
    else
      var key :- DecodeItem(s, pos, cfg, depth);
      var encoded := s[pos..key.next];
      var _ :- CheckKey(cfg, key.value, encoded, acc, previous);
      var v :- DecodeItem(s, key.next, cfg, depth);
      DecodeDict(s, v.next, n - 1, cfg, depth, acc + [Pair(key.value, v.value)], Some(encoded))
  }

  // ---------------------------------------------------------------- encoding

  /** `cbor_encode` of the generator. A dictionary is encoded pair by pair, sorted, and joined. */
  function EncItem(v: Item): (e: bytes)
    ensures |e| >= 1
    decreases v, 0
  {
    match v
    case NoneItem => [0xF6]
    case BoolValue(b) => [if b then 0xF5 else 0xF4]
    case IntValue(n) => if n >= 0 then EncodeHead(0, n) else EncodeHead(1, -1 - n)
    case BytesValue(raw) => EncodeHead(2, |raw|) + raw
    case TextValue(t) => EncodeText(t)
    case ListValue(items) => EncodeHead(4, |items|) + EncList(items)
    case DictValue(pairs) => EncodeHead(5, |pairs|) + Join(SortPairs(EncPairs(pairs)))
    case TagValue(tag, inner) => EncodeHead(6, tag) + EncItem(inner)
  }

  function EncList(items: seq<Item>): bytes
    decreases items, 0
  {
    if items == [] then [] else EncItem(items[0]) + EncList(items[1..])
  }

  /** An encoded key and its encoded value. */
  datatype EncodedPair = EncodedPair(key: bytes, val: bytes)

  function EncPairs(pairs: seq<Pair>): (r: seq<EncodedPair>)
    ensures |r| == |pairs|
    decreases pairs, 0
  {
    if pairs == [] then []
    else
      assert pairs[0].key < pairs[0] && pairs[0].val < pairs[0];
      [EncodedPair(EncItem(pairs[0].key), EncItem(pairs[0].val))] + EncPairs(pairs[1..])
  }

  /** Stable insertion, as `list.sort` with the key `(len(key_bytes), key_bytes)`. */
  function InsertPair(p: EncodedPair, ps: seq<EncodedPair>): seq<EncodedPair> {
    if ps == [] || CompareEncodedKeys(p.key, ps[0].key) != Greater then [p] + ps
    else [ps[0]] + InsertPair(p, ps[1..])
  }

  function SortPairs(ps: seq<EncodedPair>): seq<EncodedPair> {
    if ps == [] then [] else InsertPair(ps[0], SortPairs(ps[1..]))
  }

  function Join(ps: seq<EncodedPair>): bytes {
    if ps == [] then [] else ps[0].key + ps[0].val + Join(ps[1..])
  }

  // ---------------------------------------------------------------- defining equations

  /** What `DecodeItem` makes of a head that announces an array, a map or a tag. */
  function Container(s: bytes, h: Head, cfg: Config, depth: nat): Result<Read<Item>, Category>
    requires h.next <= |s| && 4 <= h.major <= 6
  {
    if h.major == 4 then
      if !ListOk(cfg, h.arg) then Err(CatResourceLimit)
      else
        match DecodeList(s, h.next, h.arg, cfg, depth + 1, [])
        case Err(e) => Err(e)
        case Ok(items) => Ok(Read(ListValue(items.value), items.next))
    else if h.major == 5 then
      if !DictOk(cfg, h.arg) then Err(CatResourceLimit)
      else
        match DecodeDict(s, h.next, h.arg, cfg, depth + 1, [], None)
        case Err(e) => Err(e)
        case Ok(pairs) => Ok(Read(DictValue(pairs.value), pairs.next))
    else if !cfg.allowTags then Err(CatUnsupportedType)
    else
      match DecodeItem(s, h.next, cfg, depth + 1)
      case Err(e) => Err(e)
      case Ok(inner) => Ok(Read(TagValue(h.arg, inner.value), inner.next))
  }

  /** `DecodeItem` by major type, whatever the outcome. */
  lemma ItemEquation(s: bytes, pos: nat, cfg: Config, depth: nat)
    requires pos < |s| && DepthOk(cfg, depth)
    ensures s[pos] / 32 <= 1 ==> DecodeItem(s, pos, cfg, depth) == DecodeInt(s, pos, cfg)
    ensures 2 <= s[pos] / 32 <= 3 ==> DecodeItem(s, pos, cfg, depth) == DecodeString(s, pos, cfg)
    ensures s[pos] / 32 == 7 ==> DecodeItem(s, pos, cfg, depth) == DecodeSimple(s, pos, cfg)
    ensures 4 <= s[pos] / 32 <= 6 && Argument(s, pos).Err? ==>
              DecodeItem(s, pos, cfg, depth) == Err(Argument(s, pos).error)
    ensures 4 <= s[pos] / 32 <= 6 && Argument(s, pos).Ok? ==>
              DecodeItem(s, pos, cfg, depth) == Container(s, Argument(s, pos).value, cfg, depth)
  {
    hide DecodeInt, DecodeString, DecodeSimple, DecodeList, DecodeDict, Argument, ListOk, DictOk;
  }

  lemma ContainerEquation(s: bytes, h: Head, cfg: Config, depth: nat)
    requires h.next <= |s| && 4 <= h.major <= 6 && Container(s, h, cfg, depth).Ok?
    ensures var r := Container(s, h, cfg, depth).value;
            && (h.major == 4 ==>
                  && ListOk(cfg, h.arg) && DecodeList(s, h.next, h.arg, cfg, depth + 1, []).Ok?
                  && var items := DecodeList(s, h.next, h.arg, cfg, depth + 1, []).value;
                  r == Read(ListValue(items.value), items.next))
            && (h.major == 5 ==>
                  && DictOk(cfg, h.arg) && DecodeDict(s, h.next, h.arg, cfg, depth + 1, [], None).Ok?
                  && var pairs := DecodeDict(s, h.next, h.arg, cfg, depth + 1, [], None).value;
                  r == Read(DictValue(pairs.value), pairs.next))
            && (h.major == 6 ==>
                  && cfg.allowTags && DecodeItem(s, h.next, cfg, depth + 1).Ok?
                  && var inner := DecodeItem(s, h.next, cfg, depth + 1).value;
                  r == Read(TagValue(h.arg, inner.value), inner.next))
  {
    hide DecodeItem, DecodeList, DecodeDict, ListOk, DictOk;
  }

  lemma AcceptedShallow(s: bytes, pos: nat, cfg: Config, depth: nat)
    requires pos <= |s| && DecodeItem(s, pos, cfg, depth).Ok?
    ensures pos < |s| && DepthOk(cfg, depth)
    ensures 4 <= s[pos] / 32 <= 6 ==> Argument(s, pos).Ok?
  {
    hide DecodeInt, DecodeString, DecodeSimple, DecodeList, DecodeDict, Argument, ListOk, DictOk;
  }

  /** One turn of the array comprehension, whatever the outcome. */
  lemma ListEquation(s: bytes, pos: nat, n: nat, cfg: Config, depth: nat, acc: seq<Item>)
    requires pos <= |s|
    ensures DecodeList(s, pos, n, cfg, depth, acc)
         == if n == 0 then Ok(Read(acc, pos))
            else match DecodeItem(s, pos, cfg, depth)
                 case Err(e) => Err(e)
                 case Ok(v) => DecodeList(s, v.next, n - 1, cfg, depth, acc + [v.value])
  {
    hide DecodeItem;
  }

  /** One turn of the map loop, whatever the outcome. */
  lemma DictEquation(s: bytes, pos: nat, n: nat, cfg: Config, depth: nat, acc: seq<Pair>, previous: Option<bytes>)
    requires pos <= |s|
    ensures DecodeDict(s, pos, n, cfg, depth, acc, previous)
         == if n == 0 then Ok(Read(acc, pos))
            else match DecodeItem(s, pos, cfg, depth)
                 case Err(e) => Err(e)
                 case Ok(key) =>
                   match CheckKey(cfg, key.value, s[pos..key.next], acc, previous)
                   case Err(e) => Err(e)
                   case Ok(_) =>
                     match DecodeItem(s, key.next, cfg, depth)
                     case Err(e) => Err(e)
                     case Ok(v) =>
                       DecodeDict(s, v.next, n - 1, cfg, depth,
                                  acc + [Pair(key.value, v.value)], Some(s[pos..key.next]))
  {
    hide DecodeItem, CheckKey;
  }
}
