/** The examples of RFC 8949 appendix A within the manifest profile, for both encoders; by the theorems on accepted
    documents the decoders read them back. */
module CborExamples {
  import opened Bytes
  import opened CborHeads
  import opened CborValues
  import opened SortedSets
  import opened StrictDecoder

  // ---------------------------------------------------------------- heads

  lemma ShortHead(major: nat, arg: nat)
    requires major < 8 && arg < 24
    ensures EncodeHead(major, arg) == [32 * major + arg]
  {
  }

  lemma OneByteHead(major: nat, arg: nat)
    requires major < 8 && 24 <= arg < 0x100
    ensures EncodeHead(major, arg) == [32 * major + 24, arg]
  {
    hide BigEndian;
    NoDigits();
    NextDigit(0, 0, arg);
  }

  lemma TwoByteHead(major: nat, a: byte, b: byte)
    requires major < 8 && a > 0
    ensures EncodeHead(major, 0x100 * a + b) == [32 * major + 25, a, b]
  {
    hide BigEndian;
    NoDigits();
    NextDigit(0, 0, a);
    NextDigit(a, 1, b);
  }

  lemma FourByteHead(major: nat, a: byte, b: byte, c: byte, d: byte)
    requires major < 8 && (a > 0 || b > 0)
    ensures EncodeHead(major, 0x100_0000 * a + 0x1_0000 * b + 0x100 * c + d) == [32 * major + 26, a, b, c, d]
  {
    hide BigEndian;
    NoDigits();
    NextDigit(0, 0, a);
    NextDigit(a, 1, b);
    NextDigit(0x100 * a + b, 2, c);
    NextDigit(0x1_0000 * a + 0x100 * b + c, 3, d);
  }

  lemma Trillion()
    ensures EncodeHead(0, 1000000000000) == [0x1B, 0x00, 0x00, 0x00, 0xE8, 0xD4, 0xA5, 0x10, 0x00]
  {
    hide BigEndian;
    NoDigits();
    NextDigit(0, 0, 0);
    NextDigit(0, 1, 0);
    NextDigit(0, 2, 0);
    NextDigit(0, 3, 0xE8);
    NextDigit(0xE8, 4, 0xD4);
    NextDigit(0xE8D4, 5, 0xA5);
    NextDigit(0xE8D4A5, 6, 0x10);
    NextDigit(0xE8D4A510, 7, 0x00);
  }

  /** The integers of the appendix, as arguments of major types 0 and 1. */
  lemma IntegerHeads()
    ensures EncodeHead(0, 0) == [0x00] && EncodeHead(0, 1) == [0x01] && EncodeHead(0, 10) == [0x0A]
    ensures EncodeHead(0, 23) == [0x17] && EncodeHead(0, 24) == [0x18, 0x18] && EncodeHead(0, 25) == [0x18, 0x19]
    ensures EncodeHead(0, 100) == [0x18, 0x64] && EncodeHead(0, 1000) == [0x19, 0x03, 0xE8]
    ensures EncodeHead(0, 1000000) == [0x1A, 0x00, 0x0F, 0x42, 0x40]
    ensures EncodeHead(0, 1000000000000) == [0x1B, 0x00, 0x00, 0x00, 0xE8, 0xD4, 0xA5, 0x10, 0x00]
    ensures EncodeHead(1, 0) == [0x20] && EncodeHead(1, 9) == [0x29] && EncodeHead(1, 99) == [0x38, 0x63]
    ensures EncodeHead(1, 999) == [0x39, 0x03, 0xE7]
  {
    hide EncodeHead;
    ShortHead(0, 0);
    ShortHead(0, 1);
    ShortHead(0, 10);
    ShortHead(0, 23);
    OneByteHead(0, 24);
    OneByteHead(0, 25);
    OneByteHead(0, 100);
    TwoByteHead(0, 0x03, 0xE8);
    FourByteHead(0, 0x00, 0x0F, 0x42, 0x40);
    Trillion();
    ShortHead(1, 0);
    ShortHead(1, 9);
    OneByteHead(1, 99);
    TwoByteHead(1, 0x03, 0xE7);
  }

  // ---------------------------------------------------------------- simple values, integers and text

  lemma SimpleExamples()
    ensures Enc(Bool(false)) == [0xF4] && Enc(Bool(true)) == [0xF5]
    ensures EncItem(BoolValue(false)) == [0xF4] && EncItem(BoolValue(true)) == [0xF5] && EncItem(NoneItem) == [0xF6]
  {
  }

  lemma IntegerExamples()
    ensures Enc(Int(0)) == [0x00] && Enc(Int(1)) == [0x01] && Enc(Int(10)) == [0x0A] && Enc(Int(23)) == [0x17]
    ensures Enc(Int(24)) == [0x18, 0x18] && Enc(Int(25)) == [0x18, 0x19] && Enc(Int(100)) == [0x18, 0x64]
    ensures Enc(Int(1000)) == [0x19, 0x03, 0xE8] && Enc(Int(1000000)) == [0x1A, 0x00, 0x0F, 0x42, 0x40]
    ensures Enc(Int(1000000000000)) == [0x1B, 0x00, 0x00, 0x00, 0xE8, 0xD4, 0xA5, 0x10, 0x00]
    ensures Enc(Int(-1)) == [0x20] && Enc(Int(-10)) == [0x29] && Enc(Int(-100)) == [0x38, 0x63]
    ensures Enc(Int(-1000)) == [0x39, 0x03, 0xE7]
  {
    hide EncodeHead;
    IntegerHeads();
  }

  lemma IntegersAlike(n: int)
    ensures EncItem(IntValue(n)) == Enc(Int(n))
  {
    hide EncodeHead;
  }

  lemma ShortText(t: Text)
    requires |t| < 24
    ensures EncodeText(t) == [0x60 + |t|] + t
  {
    hide EncodeHead, ValidUtf8;
    ShortHead(3, |t|);
  }

  lemma TextIs(t: Text)
    ensures Enc(String(t)) == EncodeText(t) && EncItem(TextValue(t)) == EncodeText(t)
  {
    hide EncodeText, ValidUtf8;
  }

  lemma AsciiBytes()
    ensures Ascii("") == [] && Ascii("a") == [0x61] && Ascii("IETF") == [0x49, 0x45, 0x54, 0x46]
    ensures Ascii("\"\\") == [0x22, 0x5C]
  {
    hide ValidUtf8;
  }

  lemma TextExamples()
    ensures Enc(String(Ascii(""))) == [0x60] && Enc(String(Ascii("a"))) == [0x61, 0x61]
    ensures Enc(String(Ascii("IETF"))) == [0x64, 0x49, 0x45, 0x54, 0x46]
    ensures Enc(String(Ascii("\"\\"))) == [0x62, 0x22, 0x5C]
  {
    hide *;
    AsciiBytes();
    TextIs(Ascii(""));
    TextIs(Ascii("a"));
    TextIs(Ascii("IETF"));
    TextIs(Ascii("\"\\"));
    ShortText(Ascii(""));
    ShortText(Ascii("a"));
    ShortText(Ascii("IETF"));
    ShortText(Ascii("\"\\"));
  }

  /** A byte string and a tagged value, which only the Python encoder has. */
  lemma BytesAndTagExamples()
    ensures EncItem(BytesValue([0x01, 0x02, 0x03, 0x04])) == [0x44, 0x01, 0x02, 0x03, 0x04]
    ensures EncItem(TagValue(1, IntValue(1363896240))) == [0xC1, 0x1A, 0x51, 0x4B, 0x67, 0xB0]
  {
    hide EncodeHead;
    ShortHead(2, 4);
    ShortHead(6, 1);
    FourByteHead(0, 0x51, 0x4B, 0x67, 0xB0);
  }

  // ---------------------------------------------------------------- arrays and maps

  lemma ItemsCons(v: Value, others: seq<Value>)
    ensures EncItems([v] + others) == Enc(v) + EncItems(others)
  {
    hide Enc;
    assert ([v] + others)[1..] == others;
  }

  lemma NoItems()
    ensures EncItems([]) == []
  {
  }

  lemma ArrayIs(items: seq<Value>)
    ensures Enc(Array(items)) == EncodeHead(4, |items|) + EncItems(items)
  {
    hide EncodeHead, EncItems;
  }

  lemma TwoItems(v: Value, w: Value)
    ensures Enc(Array([v, w])) == [0x82] + Enc(v) + Enc(w)
  {
    hide *;
    ArrayIs([v, w]);
    ShortHead(4, 2);
    assert [v, w] == [v] + [w] && [w] == [w] + [];
    ItemsCons(v, [w]);
    ItemsCons(w, []);
    NoItems();
  }

  lemma ThreeItems(u: Value, v: Value, w: Value)
    ensures Enc(Array([u, v, w])) == [0x83] + Enc(u) + Enc(v) + Enc(w)
  {
    hide *;
    ArrayIs([u, v, w]);
    ShortHead(4, 3);
    assert [u, v, w] == [u] + ([v] + [w]) && [w] == [w] + [];
    ItemsCons(u, [v] + [w]);
    ItemsCons(v, [w]);
    ItemsCons(w, []);
    NoItems();
  }

  lemma SmallIntegers()
    ensures Enc(Int(1)) == [0x01] && Enc(Int(2)) == [0x02] && Enc(Int(3)) == [0x03] && Enc(Int(4)) == [0x04]
    ensures Enc(Int(5)) == [0x05]
  {
  }

  /** `[]`, `[1, 2, 3]` and `[1, [2, 3], [4, 5]]`. */
  lemma ArrayExamples()
    ensures Enc(Array([])) == [0x80]
    ensures Enc(Array([Int(1), Int(2), Int(3)])) == [0x83, 0x01, 0x02, 0x03]
    ensures Enc(Array([Int(1), Array([Int(2), Int(3)]), Array([Int(4), Int(5)])]))
         == [0x83, 0x01, 0x82, 0x02, 0x03, 0x82, 0x04, 0x05]
  {
    hide *;
    ArrayIs([]);
    ShortHead(4, 0);
    NoItems();
    SmallIntegers();
    ThreeItems(Int(1), Int(2), Int(3));
    TwoItems(Int(2), Int(3));
    TwoItems(Int(4), Int(5));
    ThreeItems(Int(1), Array([Int(2), Int(3)]), Array([Int(4), Int(5)]));
  }

  /** `{}` and `{"a": 1, "b": [2, 3]}`, filled in the other order. */
  lemma MapExamples()
    ensures Enc(Object(map[])) == [0xA0]
    ensures Enc(Object(map[Ascii("b") := Array([Int(2), Int(3)]), Ascii("a") := Int(1)]))
         == [0xA2, 0x61, 0x61, 0x01, 0x61, 0x62, 0x82, 0x02, 0x03]
  {
    EmptyMap();
    ABeforeB();
    hide *;
    TwoEntries(Ascii("a"), Int(1), Ascii("b"), Array([Int(2), Int(3)]));
    TwoItems(Int(2), Int(3));
    SmallIntegers();
  }

  lemma ABeforeB()
    ensures KeyLess(Ascii("a"), Ascii("b"))
    ensures EncodeText(Ascii("a")) == [0x61, 0x61] && EncodeText(Ascii("b")) == [0x61, 0x62]
  {
    hide ValidUtf8;
    ShortText(Ascii("a"));
    ShortText(Ascii("b"));
    KeyLessByLength(Ascii("a"), Ascii("b"));
    assert Ascii("a") == [0x61] && Ascii("b") == [0x62];
  }

  lemma EmptyMap()
    ensures Enc(Object(map[])) == [0xA0]
  {
    var none: map<Text, Value> := map[];
    EmptyElements([]);
    assert Elements([]) == none.Keys;
    ObjectIs(none, []);
    ShortHead(5, 0);
    hide EncodeHead, ValidUtf8;
  }

  /** A listing of the keys in deterministic order is the one the encoding follows. */
  lemma ObjectIs(entries: map<Text, Value>, ks: seq<Text>)
    requires Elements(ks) == entries.Keys && Ascending(KeyLess, ks)
    ensures Enc(Object(entries)) == EncodeHead(5, |ks|) + EncEntries(Object(entries), ks)
  {
    hide EncodeHead, KeyLess, ValidUtf8;
    KeyOrderIsStrictTotal();
    AscendingIsUnique(KeyLess, ks, CanonicalKeys(entries));
    assert Enc(Object(entries))
        == EncodeHead(5, |entries|) + EncEntries(Object(entries), CanonicalKeys(entries));
  }

  lemma EntriesCons(obj: Value, k: Text, others: seq<Text>)
    requires obj.Object? && Elements([k] + others) <= obj.entries.Keys
    ensures k in obj.entries && Elements(others) <= obj.entries.Keys
    ensures EncEntries(obj, [k] + others) == EncodeText(k) + (Enc(obj.entries[k]) + EncEntries(obj, others))
  {
    hide Enc, EncodeText, ValidUtf8;
    assert ([k] + others)[0] == k && ([k] + others)[1..] == others;
    assert k in Elements([k] + others) && Elements(others) <= Elements([k] + others);
    ConcatAssociative(EncodeText(k), Enc(obj.entries[k]), EncEntries(obj, others));
  }

  lemma NoEntries(obj: Value)
    requires obj.Object?
    ensures Elements([]) <= obj.entries.Keys && EncEntries(obj, []) == []
  {
  }

  /** Two keys in deterministic order. */
  lemma TwoKeys(j: Text, k: Text)
    requires KeyLess(j, k)
    ensures Ascending(KeyLess, [j, k]) && Elements([j, k]) == {j, k}
  {
    hide KeyLess, ValidUtf8;
  }

  /** An object with two entries, in whatever order it was filled. */
  lemma TwoEntries(j: Text, v: Value, k: Text, w: Value)
    requires KeyLess(j, k)
    ensures j != k
    ensures Enc(Object(map[k := w, j := v])) == [0xA2] + (EncodeText(j) + (Enc(v) + (EncodeText(k) + Enc(w))))
  {
    KeyLessByLength(j, k);
    LexIrreflexive(j);
    hide *;
    var entries: map<Text, Value> := map[k := w, j := v];
    TwoKeys(j, k);
    ObjectIs(entries, [j, k]);
    ShortHead(5, 2);
    var obj := Object(entries);
    assert [j, k] == [j] + [k] && [k] == [k] + [];
    EntriesCons(obj, j, [k]);
    EntriesCons(obj, k, []);
    NoEntries(obj);
    assert Enc(w) + [] == Enc(w);
  }
}
