/** The strict decoder accepts exactly the encoder's output, although it never re-encodes. */
module StrictCorrectness {
  import opened Bytes
  import opened CborHeads
  import opened Results
  import opened StrictDecoder

  // ---------------------------------------------------------------- admissible values

  /** The values the decoder can return: within the limits and switches of `cfg`, with the keys of
      every dictionary inserted in deterministic order and pairwise unequal in Python's sense. */
  ghost predicate Admissible(cfg: Config, v: Item, depth: nat)
    decreases v, 0
  {
    && DepthOk(cfg, depth)
    && match v
       case NoneItem => cfg.allowNull
       case BoolValue(_) => true
       case IntValue(n) => IntOk(cfg, n) && -1 - MAX_ARGUMENT <= n <= MAX_ARGUMENT
       case BytesValue(raw) => cfg.allowBytes && StringOk(cfg, |raw|) && |raw| <= MAX_ARGUMENT
       case TextValue(t) => StringOk(cfg, |t|) && |t| <= MAX_ARGUMENT
       case ListValue(items) => ListOk(cfg, |items|) && |items| <= MAX_ARGUMENT && AdmissibleList(cfg, items, depth + 1)
       case DictValue(pairs) =>
         DictOk(cfg, |pairs|) && |pairs| <= MAX_ARGUMENT && AdmissiblePairs(cfg, [], None, pairs, depth + 1)
       case TagValue(tag, inner) => cfg.allowTags && tag <= MAX_ARGUMENT && Admissible(cfg, inner, depth + 1)
  }

  ghost predicate AdmissibleList(cfg: Config, items: seq<Item>, depth: nat)
    decreases items, 0
  {
    items == [] || (Admissible(cfg, items[0], depth) && AdmissibleList(cfg, items[1..], depth))
  }

  /** `pairs` can follow the pairs `acc`, the last key of which was encoded as `previous`. */
  ghost predicate AdmissiblePairs(cfg: Config, acc: seq<Pair>, previous: Option<bytes>, pairs: seq<Pair>, depth: nat)
    decreases pairs, 0
  {
    pairs == [] ||
    (assert pairs[0].key < pairs[0] && pairs[0].val < pairs[0];
     && Admissible(cfg, pairs[0].key, depth)
     && CheckKey(cfg, pairs[0].key, EncItem(pairs[0].key), acc, previous).Ok?
     && Admissible(cfg, pairs[0].val, depth)
     && AdmissiblePairs(cfg, acc + [pairs[0]], Some(EncItem(pairs[0].key)), pairs[1..], depth))
  }

  /** The pairs in insertion order, as they stand on the wire. */
  function EncInOrder(pairs: seq<Pair>): bytes {
    if pairs == [] then [] else (EncItem(pairs[0].key) + EncItem(pairs[0].val)) + EncInOrder(pairs[1..])
  }

  /** Sorting pairs that are already in order changes nothing. */
  lemma {:induction false} SortedAlready(cfg: Config, acc: seq<Pair>, previous: Option<bytes>, pairs: seq<Pair>,
          depth: nat)
    requires AdmissiblePairs(cfg, acc, previous, pairs, depth)
    ensures SortPairs(EncPairs(pairs)) == EncPairs(pairs)
    ensures Join(EncPairs(pairs)) == EncInOrder(pairs)
    ensures previous.Some? && pairs != [] ==> CompareEncodedKeys(previous.value, EncPairs(pairs)[0].key) == Less
    decreases pairs
  {
    hide Admissible, EncItem, CompareEncodedKeys;
    if pairs != [] {
      SortedAlready(cfg, acc + [pairs[0]], Some(EncItem(pairs[0].key)), pairs[1..], depth);
      assert EncPairs(pairs)[1..] == EncPairs(pairs[1..]);
    }
  }

  lemma EncDict(cfg: Config, pairs: seq<Pair>, depth: nat)
    requires AdmissiblePairs(cfg, [], None, pairs, depth)
    ensures EncItem(DictValue(pairs)) == EncodeHead(5, |pairs|) + EncInOrder(pairs)
  {
    hide AdmissiblePairs, EncPairs, EncodeHead, Join, SortPairs, EncInOrder;
    SortedAlready(cfg, [], None, pairs, depth);
  }

  // ---------------------------------------------------------------- heads

  lemma StrictHead(s: bytes, pos: nat)
    requires pos < |s| && Argument(s, pos).Ok?
    ensures var h := Argument(s, pos).value;
            h.arg <= MAX_ARGUMENT && s[pos..h.next] == EncodeHead(h.major, h.arg)
  {
    ReadHeadLength(s, pos);
  }

  lemma StrictHeadBack(s: bytes, pos: nat, major: nat, arg: nat)
    requires major < 8 && arg <= MAX_ARGUMENT && At(s, pos, EncodeHead(major, arg))
    ensures pos < |s| && s[pos] / 32 == major
    ensures Argument(s, pos) == Ok(Head(major, arg, pos + |EncodeHead(major, arg)|))
  {
    ReadsEncodedHead(s, pos, major, arg);
    var h := EncodeHead(major, arg);
    assert s[pos] == s[pos..pos + |h|][0] == h[0];
    hide ReadHead, BigEndian;
  }

  lemma Joined(s: bytes, pos: nat, mid: nat, next: nat, a: bytes, b: bytes)
    requires pos <= mid <= next <= |s| && s[pos..mid] == a && s[mid..next] == b
    ensures s[pos..next] == a + b
  {
  }

  // ---------------------------------------------------------------- soundness

  ghost predicate Returned(s: bytes, pos: nat, cfg: Config, depth: nat, r: Read<Item>)
    requires pos <= r.next <= |s|
  {
    Admissible(cfg, r.value, depth) && s[pos..r.next] == EncItem(r.value)
  }

  lemma ScalarSound(s: bytes, pos: nat, cfg: Config, depth: nat)
    requires pos < |s| && DepthOk(cfg, depth)
    ensures DecodeInt(s, pos, cfg).Ok? && s[pos] / 32 <= 1 ==>
        Returned(s, pos, cfg, depth, DecodeInt(s, pos, cfg).value)
    ensures DecodeSimple(s, pos, cfg).Ok? && s[pos] / 32 == 7 ==>
        Returned(s, pos, cfg, depth, DecodeSimple(s, pos, cfg).value)
  {
    hide Argument, EncodeHead;
    if Argument(s, pos).Ok? {
      StrictHead(s, pos);
    }
    assert s[pos..pos + 1] == [s[pos]];
  }

  lemma StringSound(s: bytes, pos: nat, cfg: Config, depth: nat)
    requires pos < |s| && DepthOk(cfg, depth) && 2 <= s[pos] / 32 <= 3 && DecodeString(s, pos, cfg).Ok?
    ensures Returned(s, pos, cfg, depth, DecodeString(s, pos, cfg).value)
  {
    hide Argument, EncodeHead, ValidUtf8;
    StrictHead(s, pos);
    var h := Argument(s, pos).value;
    Joined(s, pos, h.next, h.next + h.arg, EncodeHead(h.major, h.arg), s[h.next..h.next + h.arg]);
  }

  /** Whatever is accepted is admissible and stands on the wire exactly as the encoder writes it. */
  lemma {:induction false} ItemSound(s: bytes, pos: nat, cfg: Config, depth: nat)
    requires pos <= |s| && DecodeItem(s, pos, cfg, depth).Ok?
    ensures Returned(s, pos, cfg, depth, DecodeItem(s, pos, cfg, depth).value)
    decreases |s| - pos, 0, 0
  {
    hide *;
    AcceptedShallow(s, pos, cfg, depth);
    ItemEquation(s, pos, cfg, depth);
    var r := DecodeItem(s, pos, cfg, depth).value;
    var major := s[pos] / 32;
    if major <= 1 || major == 7 {
      ScalarSound(s, pos, cfg, depth);
    } else if major <= 3 {
      StringSound(s, pos, cfg, depth);
    } else {
      StrictHead(s, pos);
      var h := Argument(s, pos).value;
      ContainerEquation(s, h, cfg, depth);
      if major == 4 {
        var items := ListSound(s, h.next, h.arg, cfg, depth + 1, []);
        ReturnedList(s, pos, h, cfg, depth, items, r);
      } else if major == 5 {
        var pairs := DictSound(s, h.next, h.arg, cfg, depth + 1, [], None);
        ReturnedDict(s, pos, h, cfg, depth, pairs, r);
      } else {
        ItemSound(s, h.next, cfg, depth + 1);
        ReturnedTag(s, pos, h, cfg, depth, DecodeItem(s, h.next, cfg, depth + 1).value, r);
      }
    }
  }

  lemma ReturnedList(s: bytes, pos: nat, h: Head, cfg: Config, depth: nat, items: seq<Item>, r: Read<Item>)
    requires pos <= h.next <= r.next <= |s| && DepthOk(cfg, depth) && ListOk(cfg, h.arg) && h.arg <= MAX_ARGUMENT
    requires |items| == h.arg && r.value == ListValue([] + items) && AdmissibleList(cfg, items, depth + 1)
    requires s[pos..h.next] == EncodeHead(4, h.arg) && s[h.next..r.next] == EncList(items)
    ensures Returned(s, pos, cfg, depth, r)
  {
    hide EncodeHead, EncList, AdmissibleList;
    assert [] + items == items;
    Joined(s, pos, h.next, r.next, EncodeHead(4, h.arg), EncList(items));
  }

  lemma ReturnedDict(s: bytes, pos: nat, h: Head, cfg: Config, depth: nat, pairs: seq<Pair>, r: Read<Item>)
    requires pos <= h.next <= r.next <= |s| && DepthOk(cfg, depth) && DictOk(cfg, h.arg) && h.arg <= MAX_ARGUMENT
    requires |pairs| == h.arg && r.value == DictValue([] + pairs) && AdmissiblePairs(cfg, [], None, pairs, depth + 1)
    requires s[pos..h.next] == EncodeHead(5, h.arg) && s[h.next..r.next] == EncInOrder(pairs)
    ensures Returned(s, pos, cfg, depth, r)
  {
    hide EncodeHead, EncItem, EncInOrder, AdmissiblePairs;
    assert [] + pairs == pairs;
    Joined(s, pos, h.next, r.next, EncodeHead(5, h.arg), EncInOrder(pairs));
    EncDict(cfg, pairs, depth + 1);
  }

  lemma ReturnedTag(s: bytes, pos: nat, h: Head, cfg: Config, depth: nat, inner: Read<Item>, r: Read<Item>)
    requires pos <= h.next <= r.next == inner.next <= |s| && DepthOk(cfg, depth) && cfg.allowTags
        && h.arg <= MAX_ARGUMENT
    requires r.value == TagValue(h.arg, inner.value) && Returned(s, h.next, cfg, depth + 1, inner)
    requires s[pos..h.next] == EncodeHead(6, h.arg)
    ensures Returned(s, pos, cfg, depth, r)
  {
    hide EncodeHead;
    Joined(s, pos, h.next, r.next, EncodeHead(6, h.arg), EncItem(inner.value));
  }

  lemma {:induction false} ListSound(s: bytes, pos: nat, n: nat, cfg: Config, depth: nat, acc: seq<Item>)
    returns (items: seq<Item>)
    requires pos <= |s| && DecodeList(s, pos, n, cfg, depth, acc).Ok?
    ensures var r := DecodeList(s, pos, n, cfg, depth, acc).value;
            && r.value == acc + items && |items| == n && AdmissibleList(cfg, items, depth)
            && s[pos..r.next] == EncList(items)
    decreases |s| - pos, 1, n
  {
    hide *;
    ListEquation(s, pos, n, cfg, depth, acc);
    if n == 0 {
      items := [];
      NoItems(cfg, depth);
    } else {
      ItemSound(s, pos, cfg, depth);
      var v := DecodeItem(s, pos, cfg, depth).value;
      var rest := ListSound(s, v.next, n - 1, cfg, depth, acc + [v.value]);
      items := [v.value] + rest;
      ConcatAssociative(acc, [v.value], rest);
      OneMoreItem(s, pos, v, DecodeList(s, pos, n, cfg, depth, acc).value.next, cfg, depth, rest);
    }
  }

  lemma NoItems(cfg: Config, depth: nat)
    ensures AdmissibleList(cfg, [], depth) && EncList([]) == []
  {
  }

  lemma OneMoreItem(s: bytes, pos: nat, v: Read<Item>, next: nat, cfg: Config, depth: nat, rest: seq<Item>)
    requires pos <= v.next <= next <= |s| && Returned(s, pos, cfg, depth, v)
    requires AdmissibleList(cfg, rest, depth) && s[v.next..next] == EncList(rest)
    ensures AdmissibleList(cfg, [v.value] + rest, depth) && s[pos..next] == EncList([v.value] + rest)
  {
    hide Admissible, EncItem;
    assert ([v.value] + rest)[1..] == rest;
    Joined(s, pos, v.next, next, EncItem(v.value), EncList(rest));
  }

  lemma {:induction false} DictSound(s: bytes, pos: nat, n: nat, cfg: Config, depth: nat,
                                     acc: seq<Pair>, previous: Option<bytes>)
    returns (pairs: seq<Pair>)
    requires pos <= |s| && DecodeDict(s, pos, n, cfg, depth, acc, previous).Ok?
    ensures var r := DecodeDict(s, pos, n, cfg, depth, acc, previous).value;
            && r.value == acc + pairs && |pairs| == n && AdmissiblePairs(cfg, acc, previous, pairs, depth)
            && s[pos..r.next] == EncInOrder(pairs)
    decreases |s| - pos, 1, n
  {
    hide *;
    DictEquation(s, pos, n, cfg, depth, acc, previous);
    if n == 0 {
      pairs := [];
      NoPairs(cfg, acc, previous, depth);
    } else {
      ItemSound(s, pos, cfg, depth);
      var key := DecodeItem(s, pos, cfg, depth).value;
      ItemSound(s, key.next, cfg, depth);
      var v := DecodeItem(s, key.next, cfg, depth).value;
      var p := Pair(key.value, v.value);
      var rest := DictSound(s, v.next, n - 1, cfg, depth, acc + [p], Some(s[pos..key.next]));
      pairs := [p] + rest;
      ConcatAssociative(acc, [p], rest);
      OneMorePair(s, pos, key, v, DecodeDict(s, pos, n, cfg, depth, acc, previous).value.next, cfg, depth,
                  acc, previous, rest);
    }
  }

  lemma NoPairs(cfg: Config, acc: seq<Pair>, previous: Option<bytes>, depth: nat)
    ensures AdmissiblePairs(cfg, acc, previous, [], depth) && EncInOrder([]) == []
  {
  }

  lemma OneMorePair(s: bytes, pos: nat, key: Read<Item>, v: Read<Item>, next: nat, cfg: Config, depth: nat,
                    acc: seq<Pair>, previous: Option<bytes>, rest: seq<Pair>)
    requires pos <= key.next <= v.next <= next <= |s|
    requires Returned(s, pos, cfg, depth, key) && Returned(s, key.next, cfg, depth, v)
    requires CheckKey(cfg, key.value, s[pos..key.next], acc, previous).Ok?
    requires AdmissiblePairs(cfg, acc + [Pair(key.value, v.value)], Some(s[pos..key.next]), rest, depth)
    requires s[v.next..next] == EncInOrder(rest)
    ensures AdmissiblePairs(cfg, acc, previous, [Pair(key.value, v.value)] + rest, depth)
    ensures s[pos..next] == EncInOrder([Pair(key.value, v.value)] + rest)
  {
    hide Admissible, EncItem, CheckKey;
    var pairs := [Pair(key.value, v.value)] + rest;
    assert pairs[1..] == rest;
    Joined(s, pos, key.next, v.next, EncItem(key.value), EncItem(v.value));
    Joined(s, pos, v.next, next, EncItem(key.value) + EncItem(v.value), EncInOrder(rest));
  }

  // ---------------------------------------------------------------- completeness

  lemma ScalarComplete(s: bytes, pos: nat, v: Item, cfg: Config, depth: nat)
    requires Admissible(cfg, v, depth) && At(s, pos, EncItem(v)) && (v.NoneItem? || v.BoolValue? || v.IntValue?)
    ensures DecodeItem(s, pos, cfg, depth) == Ok(Read(v, pos + |EncItem(v)|))
  {
    assert s[pos] == s[pos..pos + |EncItem(v)|][0];
    if v.IntValue? {
      StrictHeadBack(s, pos, if v.n >= 0 then 0 else 1, if v.n >= 0 then v.n else -1 - v.n);
    }
    hide DecodeList, DecodeDict, Argument, EncodeHead;
    ItemEquation(s, pos, cfg, depth);
  }

  lemma StringComplete(s: bytes, pos: nat, v: Item, cfg: Config, depth: nat)
    requires Admissible(cfg, v, depth) && At(s, pos, EncItem(v)) && (v.BytesValue? || v.TextValue?)
    ensures DecodeItem(s, pos, cfg, depth) == Ok(Read(v, pos + |EncItem(v)|))
  {
    hide DecodeItem, DecodeList, DecodeDict, Argument, EncodeHead, ValidUtf8;
    var major, raw: bytes := if v.BytesValue? then 2 else 3, if v.BytesValue? then v.raw else v.text;
    var h := EncodeHead(major, |raw|);
    AtConcat(s, pos, h, raw);
    StrictHeadBack(s, pos, major, |raw|);
    ItemEquation(s, pos, cfg, depth);
  }

  lemma ListParts(items: seq<Item>, cfg: Config, depth: nat)
    requires Admissible(cfg, ListValue(items), depth)
    ensures DepthOk(cfg, depth) && ListOk(cfg, |items|) && |items| <= MAX_ARGUMENT
    ensures AdmissibleList(cfg, items, depth + 1)
    ensures EncItem(ListValue(items)) == EncodeHead(4, |items|) + EncList(items)
  {
  }

  lemma DictParts(pairs: seq<Pair>, cfg: Config, depth: nat)
    requires Admissible(cfg, DictValue(pairs), depth)
    ensures DepthOk(cfg, depth) && DictOk(cfg, |pairs|) && |pairs| <= MAX_ARGUMENT
    ensures AdmissiblePairs(cfg, [], None, pairs, depth + 1)
    ensures EncItem(DictValue(pairs)) == EncodeHead(5, |pairs|) + EncInOrder(pairs)
  {
    hide AdmissiblePairs, EncItem;
    EncDict(cfg, pairs, depth + 1);
  }

  lemma TagParts(tag: nat, inner: Item, cfg: Config, depth: nat)
    requires Admissible(cfg, TagValue(tag, inner), depth)
    ensures DepthOk(cfg, depth) && cfg.allowTags && tag <= MAX_ARGUMENT && Admissible(cfg, inner, depth + 1)
    ensures EncItem(TagValue(tag, inner)) == EncodeHead(6, tag) + EncItem(inner)
  {
  }

  lemma ContainerComplete(s: bytes, pos: nat, cfg: Config, depth: nat, major: nat, arg: nat, body: bytes, v: Item)
    requires 4 <= major <= 6 && arg <= MAX_ARGUMENT && DepthOk(cfg, depth)
    requires At(s, pos, EncodeHead(major, arg) + body)
    requires var next := pos + |EncodeHead(major, arg)|;
             && next <= |s|
             && Container(s, Head(major, arg, next), cfg, depth) == Ok(Read(v, next + |body|))
    ensures DecodeItem(s, pos, cfg, depth) == Ok(Read(v, pos + |EncodeHead(major, arg) + body|))
  {
    hide *;
    AtConcat(s, pos, EncodeHead(major, arg), body);
    StrictHeadBack(s, pos, major, arg);
    ItemEquation(s, pos, cfg, depth);
  }

  lemma ContainerOf(s: bytes, h: Head, cfg: Config, depth: nat)
    requires h.next <= |s| && 4 <= h.major <= 6
    ensures h.major == 4 && ListOk(cfg, h.arg) && DecodeList(s, h.next, h.arg, cfg, depth + 1, []).Ok? ==>
              var items := DecodeList(s, h.next, h.arg, cfg, depth + 1, []).value;
              Container(s, h, cfg, depth) == Ok(Read(ListValue(items.value), items.next))
    ensures h.major == 5 && DictOk(cfg, h.arg) && DecodeDict(s, h.next, h.arg, cfg, depth + 1, [], None).Ok? ==>
              var pairs := DecodeDict(s, h.next, h.arg, cfg, depth + 1, [], None).value;
              Container(s, h, cfg, depth) == Ok(Read(DictValue(pairs.value), pairs.next))
    ensures h.major == 6 && cfg.allowTags && DecodeItem(s, h.next, cfg, depth + 1).Ok? ==>
              var inner := DecodeItem(s, h.next, cfg, depth + 1).value;
              Container(s, h, cfg, depth) == Ok(Read(TagValue(h.arg, inner.value), inner.next))
  {
    hide DecodeItem, DecodeList, DecodeDict, ListOk, DictOk;
  }

  lemma HeadFits(s: bytes, pos: nat, h: bytes, body: bytes)
    requires At(s, pos, h + body)
    ensures pos + |h| <= |s| && At(s, pos + |h|, body)
  {
    AtConcat(s, pos, h, body);
  }

  /** Wherever the encoding of an admissible value stands, the decoder reads that value and stops at
      its end, whatever follows. */
  lemma {:induction false} ItemComplete(s: bytes, pos: nat, v: Item, cfg: Config, depth: nat)
    requires Admissible(cfg, v, depth) && At(s, pos, EncItem(v))
    ensures DecodeItem(s, pos, cfg, depth) == Ok(Read(v, pos + |EncItem(v)|))
    decreases v, 1
  {
    hide *;
    match v
    case ListValue(items) =>
      ListParts(items, cfg, depth);
      var h, body := EncodeHead(4, |items|), EncList(items);
      HeadFits(s, pos, h, body);
      ListComplete(s, pos + |h|, items, cfg, depth + 1, []);
      assert [] + items == items;
      ContainerOf(s, Head(4, |items|, pos + |h|), cfg, depth);
      ContainerComplete(s, pos, cfg, depth, 4, |items|, body, v);
    case DictValue(pairs) =>
      DictParts(pairs, cfg, depth);
      var h, body := EncodeHead(5, |pairs|), EncInOrder(pairs);
      HeadFits(s, pos, h, body);
      DictComplete(s, pos + |h|, pairs, cfg, depth + 1, [], None);
      assert [] + pairs == pairs;
      ContainerOf(s, Head(5, |pairs|, pos + |h|), cfg, depth);
      ContainerComplete(s, pos, cfg, depth, 5, |pairs|, body, v);
    case TagValue(tag, inner) =>
      TagParts(tag, inner, cfg, depth);
      var h, body := EncodeHead(6, tag), EncItem(inner);
      HeadFits(s, pos, h, body);
      ItemComplete(s, pos + |h|, inner, cfg, depth + 1);
      ContainerOf(s, Head(6, tag, pos + |h|), cfg, depth);
      ContainerComplete(s, pos, cfg, depth, 6, tag, body, v);
    case BytesValue(_) => StringComplete(s, pos, v, cfg, depth);
    case TextValue(_) => StringComplete(s, pos, v, cfg, depth);
    case _ => ScalarComplete(s, pos, v, cfg, depth);
  }

  lemma {:induction false} ListComplete(s: bytes, pos: nat, items: seq<Item>, cfg: Config, depth: nat, acc: seq<Item>)
    requires AdmissibleList(cfg, items, depth) && At(s, pos, EncList(items))
    ensures DecodeList(s, pos, |items|, cfg, depth, acc) == Ok(Read(acc + items, pos + |EncList(items)|))
    decreases items, 0
  {
    hide Admissible, EncItem, DecodeItem;
    if items == [] {
      assert acc + items == acc;
    } else {
      var v, rest := items[0], items[1..];
      AtConcat(s, pos, EncItem(v), EncList(rest));
      ItemComplete(s, pos, v, cfg, depth);
      ListComplete(s, pos + |EncItem(v)|, rest, cfg, depth, acc + [v]);
      assert items == [v] + rest;
      ConcatAssociative(acc, [v], rest);
    }
  }

  lemma FirstPair(cfg: Config, acc: seq<Pair>, previous: Option<bytes>, pairs: seq<Pair>, depth: nat)
    requires AdmissiblePairs(cfg, acc, previous, pairs, depth) && pairs != []
    ensures Admissible(cfg, pairs[0].key, depth) && Admissible(cfg, pairs[0].val, depth)
    ensures CheckKey(cfg, pairs[0].key, EncItem(pairs[0].key), acc, previous).Ok?
    ensures AdmissiblePairs(cfg, acc + [pairs[0]], Some(EncItem(pairs[0].key)), pairs[1..], depth)
    ensures EncInOrder(pairs) == (EncItem(pairs[0].key) + EncItem(pairs[0].val)) + EncInOrder(pairs[1..])
  {
    hide Admissible, EncItem, CheckKey;
  }

  lemma NoPairLeft(s: bytes, pos: nat, cfg: Config, depth: nat, acc: seq<Pair>, previous: Option<bytes>)
    requires pos <= |s|
    ensures DecodeDict(s, pos, 0, cfg, depth, acc, previous) == Ok(Read(acc, pos)) && EncInOrder([]) == []
  {
  }

  lemma {:induction false} DictComplete(s: bytes, pos: nat, pairs: seq<Pair>, cfg: Config, depth: nat,
                                        acc: seq<Pair>, previous: Option<bytes>)
    requires AdmissiblePairs(cfg, acc, previous, pairs, depth) && At(s, pos, EncInOrder(pairs))
    ensures DecodeDict(s, pos, |pairs|, cfg, depth, acc, previous) == Ok(Read(acc + pairs, pos + |EncInOrder(pairs)|))
    decreases pairs, 0
  {
    hide *;
    AtMeans(s, pos, EncInOrder(pairs));
    if pairs == [] {
      NoPairLeft(s, pos, cfg, depth, acc, previous);
      assert acc + pairs == acc;
    } else {
      var p, rest := pairs[0], pairs[1..];
      assert p.key < p && p.val < p;
      var k, v := EncItem(p.key), EncItem(p.val);
      FirstPair(cfg, acc, previous, pairs, depth);
      AtConcat(s, pos, k + v, EncInOrder(rest));
      AtConcat(s, pos, k, v);
      AtMeans(s, pos, k);
      AtMeans(s, pos + |k|, v);
      ItemComplete(s, pos, p.key, cfg, depth);
      ItemComplete(s, pos + |k|, p.val, cfg, depth);
      DictComplete(s, pos + |k| + |v|, rest, cfg, depth, acc + [p], Some(k));
      DictEquation(s, pos, |pairs|, cfg, depth, acc, previous);
      assert p == Pair(p.key, p.val) && pairs == [p] + rest;
      ConcatAssociative(acc, [p], rest);
    }
  }
}
