/** Whatever the lenient decoder accepts is within the profile, and its re-encoding tells exactly
    whether the input was written with preferred heads only. */
module LenientSoundness {
  import opened Bytes
  import opened CborHeads
  import opened CborValues
  import opened LenientDecoder
  import opened Results
  import opened SortedSets

  /** What `d` says about the bytes it was read from, when `e` is the encoding of what was read. */
  ghost predicate Faithful(s: bytes, pos: nat, next: nat, preferred: bool, e: bytes)
    requires pos <= next <= |s|
  {
    && |e| <= next - pos
    && (preferred ==> s[pos..next] == e)
    && (!preferred ==> |e| < next - pos)
  }

  lemma FaithfulConcat(s: bytes, pos: nat, mid: nat, next: nat, p: bool, q: bool, a: bytes, b: bytes)
    requires pos <= mid <= next <= |s|
    requires Faithful(s, pos, mid, p, a) && Faithful(s, mid, next, q, b)
    ensures Faithful(s, pos, next, p && q, a + b)
  {
    assert s[pos..next] == s[pos..mid] + s[mid..next];
  }

  lemma TextFaithful(s: bytes, pos: nat)
    requires pos <= |s| && TakeText(s, pos).Ok?
    requires s[pos] / 32 == 3
    ensures var t := TakeText(s, pos).value; Faithful(s, pos, t.next, t.preferred, EncodeText(t.value))
  {
    ReadHeadLength(s, pos);
    var h := ReadHead(s, pos).value;
    FaithfulConcat(s, pos, h.next, h.next + h.arg, Preferred(pos, h), true, EncodeHead(3, h.arg),
                   s[h.next..h.next + h.arg]);
  }

  ghost predicate KeysAfter(previous: Option<bytes>, ks: seq<Text>) {
    previous.Some? && ks != [] ==> CompareEncodedKeys(previous.value, EncodeText(ks[0])) == Less
  }

  /** Adding `ks` in turn to `entries` gives `final`, every new entry being within the profile. */
  ghost predicate Extends(entries: map<Text, Value>, ks: seq<Text>, final: map<Text, Value>,
                          limits: CborLimits, depth: nat) {
    && Distinct(ks) && Elements(ks) !! entries.Keys
    && final.Keys == entries.Keys + Elements(ks)
    && (forall k :: k in entries ==> final[k] == entries[k])
    && (forall k :: k in Elements(ks) ==> |k| <= limits.maxStringBytes && InProfile(final[k], limits, depth))
  }

  lemma ExtendsStep(entries: map<Text, Value>, k: Text, v: Value, rest: seq<Text>, final: map<Text, Value>,
                    limits: CborLimits, depth: nat)
    requires k !in entries && Extends(entries[k := v], rest, final, limits, depth)
    requires |k| <= limits.maxStringBytes && InProfile(v, limits, depth)
    ensures Extends(entries, [k] + rest, final, limits, depth) && final[k] == v
  {
    hide InProfile, ValidUtf8;
    ElementsPrepend(k, rest);
  }

  /** A decoded value is within the profile; its encoding is the bytes read when every head was in
      preferred form and strictly shorter otherwise. */
  lemma {:induction false} ValueSound(s: bytes, pos: nat, limits: CborLimits, depth: nat)
    requires pos <= |s| && DecodeValue(s, pos, limits, depth).Ok?
    ensures var d := DecodeValue(s, pos, limits, depth).value;
            InProfile(d.value, limits, depth) && Faithful(s, pos, d.next, d.preferred, Enc(d.value))
    decreases |s| - pos, 1, 0
  {
    match PeekType(s, pos).value
    case ArrayItem => ArraySound(s, pos, limits, depth);
    case MapItem => MapSound(s, pos, limits, depth);
    case _ => ScalarSound(s, pos, limits, depth);
  }

  lemma BoolSound(s: bytes, pos: nat, limits: CborLimits, depth: nat)
    requires pos <= |s| && DecodeValue(s, pos, limits, depth).Ok? && PeekType(s, pos) == Ok(BoolItem)
    ensures var d := DecodeValue(s, pos, limits, depth).value;
            InProfile(d.value, limits, depth) && Faithful(s, pos, d.next, d.preferred, Enc(d.value))
  {
    hide DecodeItems, DecodeEntries, ValidUtf8, TakeText, TakeHead;
    OneByte(s, pos);
  }

  lemma StringSound(s: bytes, pos: nat, limits: CborLimits, depth: nat)
    requires pos <= |s| && DecodeValue(s, pos, limits, depth).Ok? && PeekType(s, pos) == Ok(StringItem)
    ensures var d := DecodeValue(s, pos, limits, depth).value;
            InProfile(d.value, limits, depth) && Faithful(s, pos, d.next, d.preferred, Enc(d.value))
  {
    hide DecodeItems, DecodeEntries, ValidUtf8, TakeText, TakeHead, Faithful;
    ItemMajor(s, pos);
    TextFaithful(s, pos);
  }

  lemma NumberSound(s: bytes, pos: nat, limits: CborLimits, depth: nat)
    requires pos <= |s| && DecodeValue(s, pos, limits, depth).Ok?
        && PeekType(s, pos) in [Ok(UnsignedItem), Ok(NegativeItem)]
    ensures var d := DecodeValue(s, pos, limits, depth).value;
            InProfile(d.value, limits, depth) && Faithful(s, pos, d.next, d.preferred, Enc(d.value))
  {
    hide DecodeItems, DecodeEntries, ValidUtf8, TakeText, ReadHead, Faithful, EncodeHead, Preferred;
    HeadFaithful(s, pos);
    ItemMajor(s, pos);
  }

  lemma ScalarTypes(s: bytes, pos: nat, limits: CborLimits, depth: nat)
    requires pos <= |s| && DecodeValue(s, pos, limits, depth).Ok?
    ensures PeekType(s, pos) in
              [Ok(BoolItem), Ok(StringItem), Ok(UnsignedItem), Ok(NegativeItem), Ok(ArrayItem), Ok(MapItem)]
  {
    hide DecodeItems, DecodeEntries, ValidUtf8, TakeText, TakeHead, PeekType;
  }

  lemma ScalarSound(s: bytes, pos: nat, limits: CborLimits, depth: nat)
    requires pos <= |s| && DecodeValue(s, pos, limits, depth).Ok?
    requires PeekType(s, pos) != Ok(ArrayItem) && PeekType(s, pos) != Ok(MapItem)
    ensures var d := DecodeValue(s, pos, limits, depth).value;
            InProfile(d.value, limits, depth) && Faithful(s, pos, d.next, d.preferred, Enc(d.value))
  {
    hide *;
    ScalarTypes(s, pos, limits, depth);
    if PeekType(s, pos) == Ok(BoolItem) {
      BoolSound(s, pos, limits, depth);
    } else if PeekType(s, pos) == Ok(StringItem) {
      StringSound(s, pos, limits, depth);
    } else {
      NumberSound(s, pos, limits, depth);
    }
  }

  lemma OneByte(s: bytes, pos: nat)
    requires pos < |s|
    ensures s[pos..pos + 1] == [s[pos]]
  {
  }

  lemma ItemMajor(s: bytes, pos: nat)
    requires pos <= |s|
    ensures PeekType(s, pos) == Ok(UnsignedItem) ==> s[pos] / 32 == 0
    ensures PeekType(s, pos) == Ok(NegativeItem) ==> s[pos] / 32 == 1
    ensures PeekType(s, pos) == Ok(StringItem) ==> s[pos] / 32 == 3
    ensures PeekType(s, pos) == Ok(ArrayItem) ==> s[pos] / 32 == 4
    ensures PeekType(s, pos) == Ok(MapItem) ==> s[pos] / 32 == 5
  {
  }

  lemma {:induction false} ArraySound(s: bytes, pos: nat, limits: CborLimits, depth: nat)
    requires pos < |s| && DecodeValue(s, pos, limits, depth).Ok? && PeekType(s, pos) == Ok(ArrayItem)
    ensures var d := DecodeValue(s, pos, limits, depth).value;
            InProfile(d.value, limits, depth) && Faithful(s, pos, d.next, d.preferred, Enc(d.value))
    decreases |s| - pos, 0, 0
  {
    AcceptedShallow(s, pos, limits, depth);
    ArrayEquation(s, pos, limits, depth);
    ItemMajor(s, pos);
    HeadFaithful(s, pos);
    var h := ReadHead(s, pos).value;
    hide DecodeValue, DecodeItems, Faithful, PeekType, EncodeHead, Preferred, EncItems;
    var d := DecodeValue(s, pos, limits, depth).value;
    var items, q := ItemsSound(s, h.next, h.arg, limits, depth + 1, [], Preferred(pos, h));
    assert d.value == Array(items);
    FaithfulConcat(s, pos, h.next, d.next, Preferred(pos, h), q, EncodeHead(4, h.arg), EncItems(items));
  }

  lemma {:induction false} MapSound(s: bytes, pos: nat, limits: CborLimits, depth: nat)
    requires pos < |s| && DecodeValue(s, pos, limits, depth).Ok? && PeekType(s, pos) == Ok(MapItem)
    ensures var d := DecodeValue(s, pos, limits, depth).value;
            InProfile(d.value, limits, depth) && Faithful(s, pos, d.next, d.preferred, Enc(d.value))
    decreases |s| - pos, 0, 0
  {
    AcceptedShallow(s, pos, limits, depth);
    MapEquation(s, pos, limits, depth);
    ItemMajor(s, pos);
    HeadFaithful(s, pos);
    var h := ReadHead(s, pos).value;
    hide DecodeValue, DecodeEntries, Faithful, PeekType, EncodeHead, Preferred, EncEntries, Enc, InProfile;
    var d := DecodeValue(s, pos, limits, depth).value;
    var ks, q := EntriesSound(s, h.next, h.arg, limits, depth + 1, map[], None, Preferred(pos, h));
    ObjectInProfile(d.value.entries, ks, limits, depth);
    ObjectFaithful(s, pos, h.next, d.next, Preferred(pos, h), q, d.value.entries, ks);
  }

  lemma ObjectInProfile(entries: map<Text, Value>, ks: seq<Text>, limits: CborLimits, depth: nat)
    requires Extends(map[], ks, entries, limits, depth + 1)
    requires |ks| <= limits.maxMapPairs && depth <= limits.maxDepth
    ensures InProfile(Object(entries), limits, depth) && |entries| == |ks|
    ensures Elements(ks) == entries.Keys && Distinct(ks)
  {
    DistinctSize(ks);
    assert entries.Keys == Elements(ks);
  }

  lemma ObjectFaithful(s: bytes, pos: nat, mid: nat, next: nat, p: bool, q: bool, entries: map<Text, Value>,
          ks: seq<Text>)
    requires pos <= mid <= next <= |s| && Distinct(ks) && Elements(ks) == entries.Keys
    requires Faithful(s, pos, mid, p, EncodeHead(5, |entries|))
    requires Faithful(s, mid, next, q, EncEntries(Object(entries), ks))
    requires q ==> Ascending(KeyLess, ks)
    ensures Faithful(s, pos, next, p && q, Enc(Object(entries)))
  {
    hide Faithful, EncEntries, Ascending, Distinct, EncodeHead;
    EntriesCanonical(s, mid, next, q, entries, ks);
    FaithfulConcat(s, pos, mid, next, p, q, EncodeHead(5, |entries|),
                   EncEntries(Object(entries), CanonicalKeys(entries)));
  }

  lemma HeadFaithful(s: bytes, pos: nat)
    requires pos <= |s| && ReadHead(s, pos).Ok?
    ensures var h := ReadHead(s, pos).value;
            Faithful(s, pos, h.next, Preferred(pos, h), EncodeHead(h.major, h.arg))
  {
    ReadHeadLength(s, pos);
  }

  /** Entries read in the order `ks` are as faithful to the deterministic order of the same keys. */
  lemma EntriesCanonical(s: bytes, pos: nat, next: nat, q: bool, entries: map<Text, Value>, ks: seq<Text>)
    requires pos <= next <= |s| && Distinct(ks) && Elements(ks) == entries.Keys
    requires Faithful(s, pos, next, q, EncEntries(Object(entries), ks))
    requires q ==> Ascending(KeyLess, ks)
    ensures Faithful(s, pos, next, q, EncEntries(Object(entries), CanonicalKeys(entries)))
  {
    hide EncEntries, KeyLess, Distinct;
    var canonical := CanonicalKeys(entries);
    if q {
      KeyOrderIsStrictTotal();
      AscendingIsUnique(KeyLess, ks, canonical);
    } else {
      PermutationLength(Object(entries), ks, canonical);
    }
  }

  lemma {:induction false} ItemsSound(s: bytes, pos: nat, n: nat, limits: CborLimits, depth: nat,
                                      acc: seq<Value>, preferred: bool)
    returns (items: seq<Value>, q: bool)
    requires pos <= |s| && DecodeItems(s, pos, n, limits, depth, acc, preferred).Ok?
    ensures var d := DecodeItems(s, pos, n, limits, depth, acc, preferred).value;
            && d.value == acc + items && |items| == n && d.preferred == (preferred && q)
            && (forall i :: 0 <= i < n ==> InProfile(items[i], limits, depth))
            && Faithful(s, pos, d.next, q, EncItems(items))
    decreases |s| - pos, 2, n
  {
    if n == 0 {
      items, q := [], true;
    } else {
      hide DecodeValue, Faithful, InProfile, Enc, ValidUtf8;
      ValueSound(s, pos, limits, depth);
      var v := DecodeValue(s, pos, limits, depth).value;
      var rest, r := ItemsSound(s, v.next, n - 1, limits, depth, acc + [v.value], preferred && v.preferred);
      items, q := [v.value] + rest, v.preferred && r;
      var d := DecodeItems(s, pos, n, limits, depth, acc, preferred).value;
      FaithfulConcat(s, pos, v.next, d.next, v.preferred, r, Enc(v.value), EncItems(rest));
      assert items[1..] == rest;
      ConcatAssociative(acc, [v.value], rest);
    }
  }

  /** What reading the keys `ks` from `pos` to `next` on top of `entries` has established. */
  ghost predicate EntriesRead(s: bytes, pos: nat, next: nat, limits: CborLimits, depth: nat,
                              entries: map<Text, Value>, previous: Option<bytes>,
                              final: map<Text, Value>, ks: seq<Text>, q: bool) {
    && pos <= next <= |s|
    && Extends(entries, ks, final, limits, depth)
    && Faithful(s, pos, next, q, EncEntries(Object(final), ks))
    && (q ==> Ascending(KeyLess, ks) && KeysAfter(previous, ks))
  }

  lemma {:induction false} EntriesSound(s: bytes, pos: nat, n: nat, limits: CborLimits, depth: nat,
                                        entries: map<Text, Value>, previous: Option<bytes>, preferred: bool)
    returns (ks: seq<Text>, q: bool)
    requires pos <= |s| && DecodeEntries(s, pos, n, limits, depth, entries, previous, preferred).Ok?
    ensures var d := DecodeEntries(s, pos, n, limits, depth, entries, previous, preferred).value;
            && |ks| == n && d.preferred == (preferred && q)
            && EntriesRead(s, pos, d.next, limits, depth, entries, previous, d.value, ks, q)
    decreases |s| - pos, 2, n
  {
    hide *;
    EntriesEquation(s, pos, n, limits, depth, entries, previous, preferred);
    if n == 0 {
      ks, q := [], true;
      NothingRead(s, pos, limits, depth, entries, previous);
    } else {
      KeySound(s, pos, limits, entries.Keys, previous);
      var key := DecodeKey(s, pos, limits, entries.Keys, previous).value;
      ValueSound(s, key.next, limits, depth);
      var v := DecodeValue(s, key.next, limits, depth).value;
      var rest, r := EntriesSound(s, v.next, n - 1, limits, depth, entries[key.value := v.value],
                                  Some(s[pos..key.next]), preferred && key.preferred && v.preferred);
      ks, q := [key.value] + rest, key.preferred && v.preferred && r;
      var d := DecodeEntries(s, pos, n, limits, depth, entries, previous, preferred).value;
      EntriesReadStep(s, pos, key, v, d.next, limits, depth, entries, previous, d.value, rest, r);
    }
  }

  lemma NothingRead(s: bytes, pos: nat, limits: CborLimits, depth: nat, entries: map<Text, Value>,
          previous: Option<bytes>)
    requires pos <= |s|
    ensures EntriesRead(s, pos, pos, limits, depth, entries, previous, entries, [], true)
  {
    EmptyElements([]);
  }

  lemma EntriesReadStep(s: bytes, pos: nat, key: Decoded<Text>, v: Decoded<Value>, next: nat,
                        limits: CborLimits, depth: nat, entries: map<Text, Value>, previous: Option<bytes>,
                        final: map<Text, Value>, rest: seq<Text>, r: bool)
    requires pos <= key.next <= v.next <= |s| && KeyRead(s, pos, limits, entries.Keys, previous, key)
    requires InProfile(v.value, limits, depth) && Faithful(s, key.next, v.next, v.preferred, Enc(v.value))
    requires EntriesRead(s, v.next, next, limits, depth, entries[key.value := v.value], Some(s[pos..key.next]),
                         final, rest, r)
    ensures EntriesRead(s, pos, next, limits, depth, entries, previous, final, [key.value] + rest,
                        key.preferred && v.preferred && r)
  {
    hide InProfile, Faithful, Enc, EncodeText, ValidUtf8, Ascending, CompareEncodedKeys, KeyLess;
    ExtendsStep(entries, key.value, v.value, rest, final, limits, depth);
    ElementsPrepend(key.value, rest);
    EntryFaithful(s, pos, key, v, next, r, Object(final), rest);
    if key.preferred && r {
      AscendingKeys(key.value, rest);
    }
  }

  lemma EntryFaithful(s: bytes, pos: nat, key: Decoded<Text>, v: Decoded<Value>, next: nat, r: bool,
                      obj: Value, rest: seq<Text>)
    requires pos <= key.next <= v.next <= next <= |s|
    requires obj.Object? && Elements([key.value] + rest) <= obj.entries.Keys
    requires key.value in obj.entries && obj.entries[key.value] == v.value && Elements(rest) <= obj.entries.Keys
    requires Faithful(s, pos, key.next, key.preferred, EncodeText(key.value))
    requires Faithful(s, key.next, v.next, v.preferred, Enc(v.value))
    requires Faithful(s, v.next, next, r, EncEntries(obj, rest))
    ensures Faithful(s, pos, next, key.preferred && v.preferred && r, EncEntries(obj, [key.value] + rest))
  {
    hide Faithful, Enc, EncodeText, ValidUtf8;
    var ks := [key.value] + rest;
    assert ks[1..] == rest;
    FaithfulConcat(s, pos, key.next, v.next, key.preferred, v.preferred, EncodeText(key.value), Enc(v.value));
    FaithfulConcat(s, pos, v.next, next, key.preferred && v.preferred, r,
                   EncodeText(key.value) + Enc(v.value), EncEntries(obj, rest));
  }

  /** The key just read is new, within limits, and after the previous one when in preferred form. */
  ghost predicate KeyRead(s: bytes, pos: nat, limits: CborLimits, seen: set<Text>, previous: Option<bytes>,
                          key: Decoded<Text>)
    requires pos <= key.next <= |s|
  {
    && key.value !in seen && |key.value| <= limits.maxStringBytes
    && Faithful(s, pos, key.next, key.preferred, EncodeText(key.value))
    && (key.preferred ==> KeysAfter(previous, [key.value]) && s[pos..key.next] == EncodeText(key.value))
  }

  lemma KeySound(s: bytes, pos: nat, limits: CborLimits, seen: set<Text>, previous: Option<bytes>)
    requires pos <= |s| && DecodeKey(s, pos, limits, seen, previous).Ok?
    ensures KeyRead(s, pos, limits, seen, previous, DecodeKey(s, pos, limits, seen, previous).value)
  {
    TextFaithful(s, pos);
  }

  /** The size of a map's encoding does not depend on the order of its entries. */
  lemma {:induction false} PermutationLength(obj: Value, a: seq<Text>, b: seq<Text>)
    requires obj.Object? && Elements(a) == Elements(b) <= obj.entries.Keys
    requires Distinct(a) && Distinct(b)
    ensures |EncEntries(obj, a)| == |EncEntries(obj, b)|
    decreases |a|
  {
    EmptyElements(a);
    EmptyElements(b);
    if a != [] {
      hide Enc, EncodeText, ValidUtf8;
      assert a[0] in Elements(b);
      var i :| 0 <= i < |b| && b[i] == a[0];
      ElementsRemove(a, 0);
      ElementsRemove(b, i);
      assert a[..0] + a[1..] == a[1..];
      PermutationLength(obj, a[1..], b[..i] + b[i + 1..]);
      MoveToFrontLength(obj, b, i);
    }
  }

  lemma MoveToFrontLength(obj: Value, ks: seq<Text>, i: nat)
    requires i < |ks| && obj.Object? && Elements(ks) <= obj.entries.Keys && Distinct(ks)
    ensures Elements(ks[..i] + ks[i + 1..]) <= obj.entries.Keys && ks[i] in obj.entries
    ensures |EncEntries(obj, ks)|
         == |EncodeText(ks[i])| + |Enc(obj.entries[ks[i]])| + |EncEntries(obj, ks[..i] + ks[i + 1..])|
  {
    hide Enc, EncodeText, ValidUtf8, Distinct;
    ElementsRemove(ks, i);
    var before, at, after := ks[..i], [ks[i]], ks[i + 1..];
    assert ks == before + (at + after);
    ElementsConcat(before, at + after);
    ElementsConcat(before, after);
    ElementsPrepend(ks[i], after);
    EncEntriesConcat(obj, before, at + after);
    EncEntriesConcat(obj, before, after);
    assert (at + after)[1..] == after;
  }
}
