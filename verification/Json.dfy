/** The canonical JSON text of canonical.py: which values have one, and what it is. */
module Json {
  import opened Bytes
  import opened CborValues
  import opened Results
  import opened SortedSets

  // ---------------------------------------------------------------- printing

  /** What `_validate` accepts. */
  predicate Printable(v: Value) {
    match v
    case Null | Bool(_) | String(_) => true
    case Int(n) => SafeInteger(n)
    case Float => false
    case Array(items) => forall i :: 0 <= i < |items| ==> Printable(items[i])
    case Object(entries) => forall k :: k in entries ==> Printable(entries[k])
  }

  /** A backslash before a quotation mark, a backslash or the letter n, r, t, b or f, and `\u00` with two
      hexadecimal digits for the other control characters. */
  function EscapeByte(c: byte): (s: bytes) {
    if c == 0x22 || c == 0x5C then [0x5C, c]
    else if c == 0x0A then [0x5C, 0x6E]
    else if c == 0x0D then [0x5C, 0x72]
    else if c == 0x09 then [0x5C, 0x74]
    else if c == 0x08 then [0x5C, 0x62]
    else if c == 0x0C then [0x5C, 0x66]
    else if c < 0x20 then [0x5C, 0x75, 0x30, 0x30, HexDigit(c / 16), HexDigit(c % 16)]
    else [c]
  }

  function Escape(s: bytes): bytes {
    if s == [] then [] else EscapeByte(s[0]) + Escape(s[1..])
  }

  function Quote(s: bytes): bytes {
    [0x22] + (Escape(s) + [0x22])
  }

  function PrintInt(n: int): bytes {
    if n < 0 then [0x2D] + Decimal(-n) else Decimal(n)
  }

  /** `json.dumps` with sorted keys, no white space and no ASCII escaping. `Float` has no rendering here
      because `_validate` refuses it. */
  function Print(v: Value): bytes
    decreases v, 0
  {
    match v
    case Null => Ascii("null")
    case Bool(b) => if b then Ascii("true") else Ascii("false")
    case Int(n) => PrintInt(n)
    case Float => []
    case String(t) => Quote(t)
    case Array(items) =>
      [0x5B] + (if items == [] then [0x5D] else Print(items[0]) + PrintItems(items[1..]))
    case Object(entries) =>
      var ks := SortedKeys(entries.Keys);
      [0x7B] + (if ks == [] then [0x7D] else PrintEntry(v, ks[0]) + PrintEntries(v, ks[1..]))
  }

  /** The elements after the first, each behind its comma, and the closing bracket. */
  function PrintItems(items: seq<Value>): bytes
    decreases items, 0
  {
    if items == [] then [0x5D] else [0x2C] + (Print(items[0]) + PrintItems(items[1..]))
  }

  function PrintEntry(obj: Value, k: Text): bytes
    requires obj.Object? && k in obj.entries
    decreases obj, 0, 0
  {
    Quote(k) + ([0x3A] + Print(obj.entries[k]))
  }

  function PrintEntries(obj: Value, ks: seq<Text>): bytes
    requires obj.Object? && forall k :: k in ks ==> k in obj.entries
    decreases obj, 0, 1 + |ks|
  {
    if ks == [] then [0x7D] else [0x2C] + (PrintEntry(obj, ks[0]) + PrintEntries(obj, ks[1..]))
  }

  /** `canonicalize`. */
  function Canonicalize(v: Value): Option<bytes> {
    if Printable(v) then Some(Print(v)) else None
  }

  /** Which values have a canonical text: all but floating-point numbers and integers beyond 2^53 - 1, at any depth. */
  lemma PrintableShapes(v: Value)
    ensures Canonicalize(v).Some? <==> Printable(v)
    ensures v.Float? ==> !Printable(v)
    ensures v.Null? || v.Bool? || v.String? ==> Printable(v)
    ensures v.Int? ==> (Printable(v) <==> -9007199254740991 <= v.n <= 9007199254740991)
    ensures v.Array? ==> (Printable(v) <==> forall i :: 0 <= i < |v.items| ==> Printable(v.items[i]))
    ensures v.Object? ==> (Printable(v) <==> forall k :: k in v.entries ==> Printable(v.entries[k]))
  {
    hide Print, ValidUtf8;
  }

  // ---------------------------------------------------------------- integers

  /** The number of an integer literal of RFC 8259 section 6, for which there is no negative zero here. */
  function ReadInt(s: bytes): Option<int> {
    if s == [] then None
    else if s[0] == 0x2D then if Numeral(s[1..]) && s[1] != 0x30 then Some(-FromDecimal(s[1..])) else None
    else if Numeral(s) then Some(FromDecimal(s))
    else None
  }

  /** The literals are exactly the printed integers, each read as the integer it was printed from. */
  lemma ReadsPrintedInt(s: bytes, n: int)
    ensures ReadInt(s) == Some(n) <==> s == PrintInt(n)
  {
    hide Decimal, FromDecimal;
    if s == PrintInt(n) {
      if n < 0 {
        DecimalReads(-n);
        assert s[1..] == Decimal(-n);
      } else {
        DecimalReads(n);
      }
    }
    if ReadInt(s) == Some(n) {
      if s[0] == 0x2D {
        NumeralIsDecimal(s[1..]);
        NotZero(s[1..]);
        assert s == [0x2D] + s[1..];
      } else {
        NumeralIsDecimal(s);
      }
    }
  }

  // ---------------------------------------------------------------- the parts of a text

  /** What can follow a value: nothing, a comma, a closing bracket or the end of a line. */
  predicate Follows(s: bytes) {
    s == [] || s[0] in [0x2C, 0x5D, 0x7D, 0x0A]
  }

  lemma SameLength(a: bytes, b: bytes, s: bytes, t: bytes)
    requires a + s == b + t && |a| == |b|
    ensures a == b && s == t
  {
    assert a == (a + s)[..|a|] && b == (b + t)[..|b|];
    assert s == (a + s)[|a|..] && t == (b + t)[|b|..];
  }

  lemma QuoteParts(a: bytes, s: bytes)
    ensures Quote(a) + s == [0x22] + (Escape(a) + ([0x22] + s))
  {
    hide Escape;
    ConcatAssociative([0x22], Escape(a) + [0x22], s);
    ConcatAssociative(Escape(a), [0x22], s);
  }

  lemma ArrayText(items: seq<Value>, s: bytes)
    ensures Print(Array(items)) + s ==
            [0x5B] + (if items == [] then [0x5D] + s else Print(items[0]) + (PrintItems(items[1..]) + s))
  {
    var body := if items == [] then [0x5D] else Print(items[0]) + PrintItems(items[1..]);
    assert Print(Array(items)) == [0x5B] + body;
    hide *;
    ConcatAssociative([0x5B], body, s);
    if items != [] {
      ConcatAssociative(Print(items[0]), PrintItems(items[1..]), s);
    }
  }

  lemma ItemsText(items: seq<Value>, s: bytes)
    ensures PrintItems(items) + s ==
            if items == [] then [0x5D] + s else [0x2C] + (Print(items[0]) + (PrintItems(items[1..]) + s))
    ensures Follows(PrintItems(items) + s) && |PrintItems(items) + s| > 0
  {
    hide Print;
    if items != [] {
      ConcatAssociative([0x2C], Print(items[0]) + PrintItems(items[1..]), s);
      ConcatAssociative(Print(items[0]), PrintItems(items[1..]), s);
    }
  }

  lemma ObjectText(obj: Value, ks: seq<Text>, s: bytes)
    requires obj.Object? && ks == SortedKeys(obj.entries.Keys)
    ensures forall k :: k in ks ==> k in obj.entries
    ensures Print(obj) + s ==
            [0x7B] + (if ks == [] then [0x7D] + s else PrintEntry(obj, ks[0]) + (PrintEntries(obj, ks[1..]) + s))
  {
    ElementsIn(ks);
    var body := if ks == [] then [0x7D] else PrintEntry(obj, ks[0]) + PrintEntries(obj, ks[1..]);
    assert Print(obj) == [0x7B] + body;
    hide *;
    ConcatAssociative([0x7B], body, s);
    if ks != [] {
      ConcatAssociative(PrintEntry(obj, ks[0]), PrintEntries(obj, ks[1..]), s);
    }
  }

  lemma ElementsIn(ks: seq<Text>)
    ensures forall k :: k in ks <==> k in Elements(ks)
  {
  }

  lemma EntryText(obj: Value, k: Text, s: bytes)
    requires obj.Object? && k in obj.entries
    ensures PrintEntry(obj, k) + s == Quote(k) + ([0x3A] + (Print(obj.entries[k]) + s))
  {
    hide Print, Quote, ValidUtf8;
    ConcatAssociative(Quote(k), [0x3A] + Print(obj.entries[k]), s);
    ConcatAssociative([0x3A], Print(obj.entries[k]), s);
  }

  lemma EntriesText(obj: Value, ks: seq<Text>, s: bytes)
    requires obj.Object? && forall k :: k in ks ==> k in obj.entries
    ensures PrintEntries(obj, ks) + s ==
            if ks == [] then [0x7D] + s else [0x2C] + (PrintEntry(obj, ks[0]) + (PrintEntries(obj, ks[1..]) + s))
    ensures Follows(PrintEntries(obj, ks) + s) && |PrintEntries(obj, ks) + s| > 0
  {
    hide PrintEntry, ValidUtf8;
    if ks != [] {
      ConcatAssociative([0x2C], PrintEntry(obj, ks[0]) + PrintEntries(obj, ks[1..]), s);
      ConcatAssociative(PrintEntry(obj, ks[0]), PrintEntries(obj, ks[1..]), s);
    }
  }

  lemma PrintableParts(v: Value)
    requires Printable(v)
    ensures !v.Float?
    ensures v.Array? ==> forall i :: 0 <= i < |v.items| ==> Printable(v.items[i])
    ensures v.Object? ==> forall k :: k in v.entries ==> Printable(v.entries[k])
  {
  }

  /** The canonical text of an object starts with an opening brace. */
  lemma ObjectStarts(v: Value)
    requires v.Object?
    ensures Print(v) != [] && Print(v)[0] == 0x7B
  {
    hide SortedKeys, PrintEntries, PrintEntry;
  }

  // ---------------------------------------------------------------- one line

  /** No control character, and so no line break. */
  predicate Plain(s: bytes) {
    forall i :: 0 <= i < |s| ==> s[i] >= 0x20
  }

  lemma PlainConcat(a: bytes, b: bytes)
    requires Plain(a) && Plain(b)
    ensures Plain(a + b)
  {
  }

  lemma {:induction false} EscapedIsPlain(s: bytes)
    ensures Plain(Escape(s))
  {
    if s != [] {
      EscapedByteIsPlain(s[0]);
      EscapedIsPlain(s[1..]);
      hide EscapeByte, Plain;
      PlainConcat(EscapeByte(s[0]), Escape(s[1..]));
    }
  }

  lemma EscapedByteIsPlain(c: byte)
    ensures Plain(EscapeByte(c))
  {
  }

  lemma QuotedIsPlain(s: bytes)
    ensures Plain(Quote(s))
  {
    EscapedIsPlain(s);
    hide Escape;
  }

  lemma ScalarIsPlain(v: Value)
    requires !v.Array? && !v.Object?
    ensures Plain(Print(v))
  {
    hide Escape, Quote, Decimal, ValidUtf8;
    if v.String? {
      QuotedIsPlain(v.text);
    }
  }

  /** A canonical text is one line. */
  lemma {:induction false} PrintedIsPlain(v: Value)
    ensures Plain(Print(v))
    decreases v, 1
  {
    hide *;
    match v
    case Array(items) =>
      NothingPlain();
      ArrayText(items, []);
      assert Print(v) + [] == Print(v);
      if items != [] {
        PrintedIsPlain(items[0]);
        ItemsArePlain(items[1..]);
        assert PrintItems(items[1..]) + [] == PrintItems(items[1..]);
        PlainConcat(Print(items[0]), PrintItems(items[1..]));
        PlainConcat([0x5B], Print(items[0]) + PrintItems(items[1..]));
      } else {
        PlainConcat([0x5B], [0x5D]);
        assert [0x5D] + [] == [0x5D];
      }
    case Object(entries) =>
      ObjectIsPlain(v, SortedKeys(entries.Keys));
    case Null =>
      ScalarIsPlain(v);
    case Bool(_) =>
      ScalarIsPlain(v);
    case Int(_) =>
      ScalarIsPlain(v);
    case Float =>
      ScalarIsPlain(v);
    case String(_) =>
      ScalarIsPlain(v);
  }

  lemma NothingPlain()
    ensures Plain([0x5B]) && Plain([0x5D]) && Plain([0x7B]) && Plain([0x7D]) && Plain([0x2C]) && Plain([0x3A])
  {
  }

  lemma {:induction false} ItemsArePlain(items: seq<Value>)
    ensures Plain(PrintItems(items))
    decreases items, 0
  {
    hide *;
    NothingPlain();
    ItemsText(items, []);
    assert PrintItems(items) + [] == PrintItems(items);
    if items != [] {
      PrintedIsPlain(items[0]);
      ItemsArePlain(items[1..]);
      assert PrintItems(items[1..]) + [] == PrintItems(items[1..]);
      PlainConcat(Print(items[0]), PrintItems(items[1..]));
      PlainConcat([0x2C], Print(items[0]) + PrintItems(items[1..]));
    } else {
      assert [0x5D] + [] == [0x5D];
    }
  }

  lemma {:induction false} EntryIsPlain(obj: Value, k: Text)
    requires obj.Object? && k in obj.entries
    ensures Plain(PrintEntry(obj, k))
    decreases obj, 0, 0
  {
    hide *;
    NothingPlain();
    EntryText(obj, k, []);
    assert PrintEntry(obj, k) + [] == PrintEntry(obj, k);
    var v := obj.entries[k];
    assert Print(v) + [] == Print(v);
    PrintedIsPlain(v);
    QuotedIsPlain(k);
    PlainConcat([0x3A], Print(v));
    PlainConcat(Quote(k), [0x3A] + Print(v));
  }

  lemma {:induction false} EntriesArePlain(obj: Value, ks: seq<Text>)
    requires obj.Object? && forall k :: k in ks ==> k in obj.entries
    ensures Plain(PrintEntries(obj, ks))
    decreases obj, 0, 1 + |ks|
  {
    hide *;
    NothingPlain();
    EntriesText(obj, ks, []);
    assert PrintEntries(obj, ks) + [] == PrintEntries(obj, ks);
    if ks != [] {
      EntryIsPlain(obj, ks[0]);
      EntriesArePlain(obj, ks[1..]);
      assert PrintEntries(obj, ks[1..]) + [] == PrintEntries(obj, ks[1..]);
      PlainConcat(PrintEntry(obj, ks[0]), PrintEntries(obj, ks[1..]));
      PlainConcat([0x2C], PrintEntry(obj, ks[0]) + PrintEntries(obj, ks[1..]));
    } else {
      assert [0x7D] + [] == [0x7D];
    }
  }

  lemma {:induction false} ObjectIsPlain(obj: Value, ks: seq<Text>)
    requires obj.Object? && ks == SortedKeys(obj.entries.Keys)
    ensures Plain(Print(obj))
    decreases obj, 0, 2 + |ks|
  {
    hide *;
    NothingPlain();
    ObjectText(obj, ks, []);
    assert Print(obj) + [] == Print(obj);
    if ks != [] {
      EntryIsPlain(obj, ks[0]);
      EntriesArePlain(obj, ks[1..]);
      assert PrintEntries(obj, ks[1..]) + [] == PrintEntries(obj, ks[1..]);
      PlainConcat(PrintEntry(obj, ks[0]), PrintEntries(obj, ks[1..]));
      PlainConcat([0x7B], PrintEntry(obj, ks[0]) + PrintEntries(obj, ks[1..]));
    } else {
      PlainConcat([0x7B], [0x7D]);
      assert [0x7D] + [] == [0x7D];
    }
  }
}
