/** The strict decoder as it runs: an object whose offset moves over the data, and the loops that
    fill a list or a dictionary. */
module StrictCbor {
  import opened Bytes
  import opened CborHeads
  import opened CborValues
  import opened Results
  import Spec = StrictDecoder
  import StrictDocument

  type Item = Spec.Item
  type Config = Spec.Config

  /** `r` and the offset are what the specification `spec` says. */
  ghost predicate Meets<T(!new)>(spec: Result<Spec.Read<T>, Category>, r: Result<T, Category>, offset: nat) {
    match spec
    case Ok(d) => r == Ok(d.value) && offset == d.next
    case Err(e) => r == Err(e)
  }

  class CborDecoder {
    const data: bytes
    const cfg: Config
    var offset: nat

    ghost predicate Valid()
      reads this
    {
      offset <= |data|
    }

    constructor (data: bytes, cfg: Config)
      ensures Valid() && this.data == data && this.cfg == cfg && offset == 0
    {
      this.data := data;
      this.cfg := cfg;
      offset := 0;
    }

    /** The next `count` bytes, all of them or none. */
    method Take(count: nat) returns (r: Result<bytes, Category>)
      requires Valid()
      modifies this
      ensures Valid()
      ensures if old(offset) + count <= |data|
              then r == Ok(data[old(offset)..old(offset) + count]) && offset == old(offset) + count
              else r == Err(CatMalformed) && offset == old(offset)
    {
      var end := offset + count;
      if end > |data| {
        return Err(CatMalformed);
      }
      r := Ok(data[offset..end]);
      offset := end;
    }

    /** The argument after an initial byte that has just been taken. */
    method Argument(initial: byte) returns (r: Result<nat, Category>)
      requires Valid() && offset > 0 && data[offset - 1] == initial
      modifies this
      ensures Valid()
      ensures match Spec.Argument(data, old(offset) - 1)
              case Ok(h) => r == Ok(h.arg) && offset == h.next
              case Err(e) => r == Err(e)
    {
      var additional := initial % 32;
      if additional < 24 {
        return Ok(additional);
      }
      if additional == 31 {
        return Err(CatNonDeterministic);
      }
      if additional > 27 {
        return Err(CatMalformed);
      }
      var raw :- Take(ArgumentWidth(additional));
      var value := FromBigEndian(raw);
      if value < Spec.Minimum(additional) {
        return Err(CatNonDeterministic);
      }
      return Ok(value);
    }

    method DecodeItem(depth: nat) returns (r: Result<Item, Category>)
      requires Valid()
      modifies this
      ensures Valid() && Meets(Spec.DecodeItem(data, old(offset), cfg, depth), r, offset)
      decreases |data| - offset, 1
    {
      hide Spec.DecodeItem, Spec.DecodeList, Spec.DecodeDict, Spec.Argument, ValidUtf8;
      if !Spec.DepthOk(cfg, depth) {
        TooDeep(data, offset, cfg, depth);
        return Err(CatResourceLimit);
      }
      if offset >= |data| {
        Exhausted(data, offset, cfg, depth);
        return Err(CatMalformed);
      }
      Spec.ItemEquation(data, offset, cfg, depth);
      var start := offset;
      var initial := data[offset];
      offset := offset + 1;
      var major, additional := initial / 32, initial % 32;
      if major <= 1 {
        var value :- Argument(initial);
        var number: int := if major == 0 then value else -1 - (value as int);
        if !Spec.IntOk(cfg, number) {
          return Err(CatUnsupportedType);
        }
        return Ok(Spec.IntValue(number));
      }
      if major <= 3 {
        var length :- Argument(initial);
        if !Spec.StringOk(cfg, length) {
          return Err(CatResourceLimit);
        }
        var raw :- Take(length);
        if major == 2 {
          return if cfg.allowBytes then Ok(Spec.BytesValue(raw)) else Err(CatUnsupportedType);
        }
        if !ValidUtf8(raw) {
          return Err(CatMalformed);
        }
        return Ok(Spec.TextValue(raw));
      }
      if major == 7 {
        if additional == 20 {
          return Ok(Spec.BoolValue(false));
        }
        if additional == 21 {
          return Ok(Spec.BoolValue(true));
        }
        if additional == 22 && cfg.allowNull {
          return Ok(Spec.NoneItem);
        }
        return Err(CatUnsupportedType);
      }
      ghost var head := Spec.Argument(data, start);
      var length :- Argument(initial);
      if major == 4 {
        if !Spec.ListOk(cfg, length) {
          return Err(CatResourceLimit);
        }
        var items :- DecodeList(length, depth + 1);
        return Ok(Spec.ListValue(items));
      }
      if major == 5 {
        if !Spec.DictOk(cfg, length) {
          return Err(CatResourceLimit);
        }
        var pairs :- DecodeDict(length, depth + 1);
        return Ok(Spec.DictValue(pairs));
      }
      if !cfg.allowTags {
        return Err(CatUnsupportedType);
      }
      var inner :- DecodeItem(depth + 1);
      return Ok(Spec.TagValue(length, inner));
    }

    method DecodeList(length: nat, depth: nat) returns (r: Result<seq<Item>, Category>)
      requires Valid()
      modifies this
      ensures Valid() && Meets(Spec.DecodeList(data, old(offset), length, cfg, depth, []), r, offset)
      decreases |data| - offset, 2, length
    {
      hide Spec.DecodeItem, Spec.DecodeList;
      var items: seq<Item> := [];
      ghost var spec := Spec.DecodeList(data, offset, length, cfg, depth, []);
      for i := 0 to length
        invariant Valid() && old(offset) <= offset
        invariant spec == Spec.DecodeList(data, offset, length - i, cfg, depth, items)
      {
        Spec.ListEquation(data, offset, length - i, cfg, depth, items);
        var item :- DecodeItem(depth);
        items := items + [item];
      }
      Spec.ListEquation(data, offset, 0, cfg, depth, items);
      return Ok(items);
    }

    method DecodeDict(length: nat, depth: nat) returns (r: Result<seq<Spec.Pair>, Category>)
      requires Valid()
      modifies this
      ensures Valid() && Meets(Spec.DecodeDict(data, old(offset), length, cfg, depth, [], None), r, offset)
      decreases |data| - offset, 2, length
    {
      hide Spec.DecodeItem, Spec.DecodeDict, CompareEncodedKeys;
      var result: seq<Spec.Pair> := [];
      var previous: Option<bytes> := None;
      ghost var spec := Spec.DecodeDict(data, offset, length, cfg, depth, [], None);
      for i := 0 to length
        invariant Valid() && old(offset) <= offset
        invariant spec == Spec.DecodeDict(data, offset, length - i, cfg, depth, result, previous)
      {
        Spec.DictEquation(data, offset, length - i, cfg, depth, result, previous);
        var start := offset;
        var key :- DecodeItem(depth);
        var encoded := data[start..offset];
        if !Spec.KeyAllowed(cfg, key) {
          return Err(CatUnsupportedType);
        }
        if previous.Some? && CompareEncodedKeys(previous.value, encoded) != Less {
          return Err(CatNonDeterministic);
        }
        previous := Some(encoded);
        if Spec.HasKey(result, key) {
          return Err(CatNonDeterministic);
        }
        var value :- DecodeItem(depth);
        result := result + [Spec.Pair(key, value)];
      }
      Spec.DictEquation(data, offset, 0, cfg, depth, result, previous);
      return Ok(result);
    }
  }

  lemma TooDeep(s: bytes, pos: nat, cfg: Config, depth: nat)
    requires pos <= |s| && !Spec.DepthOk(cfg, depth)
    ensures Spec.DecodeItem(s, pos, cfg, depth) == Err(CatResourceLimit)
  {
  }

  lemma Exhausted(s: bytes, pos: nat, cfg: Config, depth: nat)
    requires pos == |s| && Spec.DepthOk(cfg, depth)
    ensures Spec.DecodeItem(s, pos, cfg, depth) == Err(CatMalformed)
  {
  }

  /** `_decode_cbor_document`. */
  method DecodeDocument(data: bytes, cfg: Config) returns (r: Result<Item, Category>)
    ensures r == StrictDocument.DecodeExact(data, cfg)
  {
    if cfg.limits.Some? && |data| > cfg.limits.value.maxManifestBytes {
      return Err(CatResourceLimit);
    }
    var decoder := new CborDecoder(data, cfg);
    var value :- decoder.DecodeItem(0);
    if decoder.offset != |data| {
      return Err(CatMalformed);
    }
    return Ok(value);
  }
}
