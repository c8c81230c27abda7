/** A reader for JSON texts by the grammar of RFC 8259, and that it reads back what the printer writes. It reads no
    white space, no number with a fraction or an exponent, and no `\u` escape from 0x80 on: canonical texts have
    none of these. */
module JsonReader {
  import opened Bytes
  import opened CborValues
  import opened Results
  import opened SortedSets
  import opened Json

  /** What was read from the front of a text, and what is left of it. */
  datatype Token<+T> = Token(value: T, rest: bytes)

  // ---------------------------------------------------------------- strings (RFC 8259 section 7)

  function HexadecimalValue(c: byte): Option<nat> {
    if 0x30 <= c <= 0x39 then Some(c - 0x30)
    else if 0x41 <= c <= 0x46 then Some(c - 0x41 + 10)
    else if 0x61 <= c <= 0x66 then Some(c - 0x61 + 10)
    else None
  }

  /** Four hexadecimal digits that stand for a character below 0x80. */
  function ReadCode(s: bytes): (r: Option<Token<byte>>)
    ensures r.Some? ==> |r.value.rest| < |s|
  {
    if |s| < 4 then None
    else
      match (HexadecimalValue(s[0]), HexadecimalValue(s[1]), HexadecimalValue(s[2]), HexadecimalValue(s[3]))
      case (Some(a), Some(b), Some(c), Some(d)) =>
        var n := 0x1000 * a + 0x100 * b + 0x10 * c + d;
        if n < 0x80 then Some(Token(n, s[4..])) else None
      case _ => None
  }

  /** What follows a backslash. */
  function ReadEscape(s: bytes): (r: Option<Token<byte>>)
    ensures r.Some? ==> |r.value.rest| < |s|
  {
    if s == [] then None
    else if s[0] == '\"' as int then Some(Token(0x22, s[1..]))
    else if s[0] == '\\' as int then Some(Token(0x5C, s[1..]))
    else if s[0] == '/' as int then Some(Token(0x2F, s[1..]))
    else if s[0] == 'b' as int then Some(Token(0x08, s[1..]))
    else if s[0] == 'f' as int then Some(Token(0x0C, s[1..]))
    else if s[0] == 'n' as int then Some(Token(0x0A, s[1..]))
    else if s[0] == 'r' as int then Some(Token(0x0D, s[1..]))
    else if s[0] == 't' as int then Some(Token(0x09, s[1..]))
    else if s[0] == 'u' as int then ReadCode(s[1..])
    else None
  }

  /** The characters up to the closing quotation mark. */
  function ReadChars(s: bytes): (r: Option<Token<bytes>>)
    ensures r.Some? ==> |r.value.rest| < |s|
    decreases |s|
  {
    if s == [] then None
    else if s[0] == '\"' as int then Some(Token([], s[1..]))
    else if s[0] == '\\' as int then
      match ReadEscape(s[1..])
      case None => None
      case Some(first) => AfterChar(first.value, ReadChars(first.rest))
    else if s[0] < 0x20 then None
    else AfterChar(s[0], ReadChars(s[1..]))
  }

  function AfterChar(c: byte, others: Option<Token<bytes>>): Option<Token<bytes>> {
    match others
    case None => None
    case Some(t) => Some(Token([c] + t.value, t.rest))
  }

  function ReadText(s: bytes): (r: Option<Token<Text>>)
    ensures r.Some? ==> |r.value.rest| < |s|
  {
    match ReadChars(s)
    case None => None
    case Some(t) => if ValidUtf8(t.value) then Some(Token(t.value, t.rest)) else None
  }

  // ---------------------------------------------------------------- numbers (section 6)

  /** How many digits a text starts with. */
  function DigitRun(s: bytes): (n: nat)
    ensures n <= |s|
  {
    if s == [] || !Digit(s[0]) then 0 else 1 + DigitRun(s[1..])
  }

  /** The longest literal that a text starts with. */
  function ReadNumber(s: bytes): (r: Option<Token<Value>>)
    requires s != []
    ensures r.Some? ==> |r.value.rest| < |s|
  {
    var n := if s[0] == '-' as int then 1 + DigitRun(s[1..]) else DigitRun(s);
    match ReadInt(s[..n])
    case None => None
    case Some(i) =>
      if n < |s| && (s[n] == '.' as int || s[n] == 'e' as int || s[n] == 'E' as int) then None
      else Some(Token(Int(i), s[n..]))
  }

  // ---------------------------------------------------------------- values (sections 3 to 5)

  function ReadWord(s: bytes, word: bytes, v: Value): (r: Option<Token<Value>>)
    requires word != []
    ensures r.Some? ==> |r.value.rest| < |s|
  {
    if word <= s then Some(Token(v, s[|word|..])) else None
  }

  datatype Member = Member(name: Text, value: Value)

  /** The object with the given members; of two with one name the last one stays. */
  function Collected(members: seq<Member>): map<Text, Value> {
    if members == [] then map[] else map[members[0].name := members[0].value] + Collected(members[1..])
  }

  function ReadValue(s: bytes): (r: Option<Token<Value>>)
    ensures r.Some? ==> |r.value.rest| < |s|
    decreases |s|, 1
  {
    if s == [] then None
    else if s[0] == 'n' as int then ReadWord(s, [0x6E, 0x75, 0x6C, 0x6C], Null)
    else if s[0] == 't' as int then ReadWord(s, [0x74, 0x72, 0x75, 0x65], Bool(true))
    else if s[0] == 'f' as int then ReadWord(s, [0x66, 0x61, 0x6C, 0x73, 0x65], Bool(false))
    else if s[0] == '\"' as int then
      match ReadText(s[1..])
      case None => None
      case Some(t) => Some(Token(String(t.value), t.rest))
    else if s[0] == '[' as int then
      match ReadArray(s[1..])
      case None => None
      case Some(t) => Some(Token(Array(t.value), t.rest))
    else if s[0] == '{' as int then
      match ReadObject(s[1..])
      case None => None
      case Some(t) => Some(Token(Object(Collected(t.value)), t.rest))
    else ReadNumber(s)
  }

  /** What follows an opening bracket. */
  function ReadArray(s: bytes): (r: Option<Token<seq<Value>>>)
    ensures r.Some? ==> |r.value.rest| < |s|
    decreases |s|, 2
  {
    if s != [] && s[0] == ']' as int then Some(Token([], s[1..]))
    else
      match ReadValue(s)
      case None => None
      case Some(first) => Before(first.value, ReadItems(first.rest))
  }

  function Before<T>(first: T, others: Option<Token<seq<T>>>): Option<Token<seq<T>>> {
    match others
    case None => None
    case Some(t) => Some(Token([first] + t.value, t.rest))
  }

  /** The items after the first, each behind a comma, and the closing bracket. */
  function ReadItems(s: bytes): (r: Option<Token<seq<Value>>>)
    ensures r.Some? ==> |r.value.rest| < |s|
    decreases |s|, 0
  {
    if s == [] then None
    else if s[0] == ']' as int then Some(Token([], s[1..]))
    else if s[0] == ',' as int then
      match ReadValue(s[1..])
      case None => None
      case Some(first) => Before(first.value, ReadItems(first.rest))
    else None
  }

  /** What follows an opening brace. */
  function ReadObject(s: bytes): (r: Option<Token<seq<Member>>>)
    ensures r.Some? ==> |r.value.rest| < |s|
    decreases |s|, 2
  {
    if s != [] && s[0] == '}' as int then Some(Token([], s[1..]))
    else
      match ReadMember(s)
      case None => None
      case Some(first) => Before(first.value, ReadMembers(first.rest))
  }

  function ReadMembers(s: bytes): (r: Option<Token<seq<Member>>>)
    ensures r.Some? ==> |r.value.rest| < |s|
    decreases |s|, 0
  {
    if s == [] then None
    else if s[0] == '}' as int then Some(Token([], s[1..]))
    else if s[0] == ',' as int then
      match ReadMember(s[1..])
      case None => None
      case Some(first) => Before(first.value, ReadMembers(first.rest))
    else None
  }

  /** A string, a colon and a value. */
  function ReadMember(s: bytes): (r: Option<Token<Member>>)
    ensures r.Some? ==> |r.value.rest| < |s|
    decreases |s|, 0
  {
    if s == [] || s[0] != '\"' as int then None
    else
      match ReadText(s[1..])
      case None => None
      case Some(name) =>
        if name.rest == [] || name.rest[0] != ':' as int then None
        else
          match ReadValue(name.rest[1..])
          case None => None
          case Some(v) => Some(Token(Member(name.value, v.value), v.rest))
  }

  /** The value of a whole text. */
  function ReadJson(s: bytes): Option<Value> {
    match ReadValue(s)
    case None => None
    case Some(t) => if t.rest == [] then Some(t.value) else None
  }

  // ---------------------------------------------------------------- strings and numbers read back

  lemma HexDigitIsRead(n: nat)
    requires n < 16
    ensures HexadecimalValue(HexDigit(n)) == Some(n)
  {
  }

  lemma CodeIsRead(c: byte, s: bytes)
    requires c < 0x20
    ensures ReadCode([0x30, 0x30, HexDigit(c / 16), HexDigit(c % 16)] + s) == Some(Token(c, s))
  {
    hide HexDigit, HexadecimalValue;
    var t := [0x30, 0x30, HexDigit(c / 16), HexDigit(c % 16)] + s;
    HexDigitIsRead(0);
    HexDigitIsRead(c / 16);
    HexDigitIsRead(c % 16);
    ZeroDigit();
    assert t[4..] == s;
  }

  lemma ZeroDigit()
    ensures HexDigit(0) == 0x30
  {
  }

  lemma EscapeIsRead(c: byte, s: bytes)
    requires EscapeByte(c)[0] == 0x5C
    ensures ReadEscape((EscapeByte(c) + s)[1..]) == Some(Token(c, s))
  {
    hide ReadCode, HexDigit;
    var t := (EscapeByte(c) + s)[1..];
    assert t == EscapeByte(c)[1..] + s;
    if t[0] == 0x75 {
      CodeIsRead(c, s);
      assert t[1..] == [0x30, 0x30, HexDigit(c / 16), HexDigit(c % 16)] + s;
    } else {
      assert t[1..] == s;
    }
  }

  lemma EscapedStart(c: byte)
    ensures EscapeByte(c) != [] && EscapeByte(c)[0] != 0x22
    ensures EscapeByte(c)[0] != 0x5C ==> EscapeByte(c) == [c] && c >= 0x20
  {
  }

  lemma CharIsRead(c: byte, s: bytes)
    ensures ReadChars(EscapeByte(c) + s) == AfterChar(c, ReadChars(s))
  {
    hide EscapeByte, ReadEscape, AfterChar;
    EscapedStart(c);
    var t := EscapeByte(c) + s;
    assert t[0] == EscapeByte(c)[0];
    if t[0] == 0x5C {
      EscapeIsRead(c, s);
    } else {
      assert t[1..] == s;
    }
  }

  lemma QuoteIsRead(s: bytes)
    ensures ReadChars([0x22] + s) == Some(Token([], s))
  {
  }

  lemma {:induction false} CharsAreRead(t: bytes, s: bytes)
    ensures ReadChars(Escape(t) + ([0x22] + s)) == Some(Token(t, s))
  {
    hide EscapeByte, ReadChars;
    QuoteIsRead(s);
    if t == [] {
      NothingAppended([0x22] + s);
    } else {
      ConcatAssociative(EscapeByte(t[0]), Escape(t[1..]), [0x22] + s);
      CharIsRead(t[0], Escape(t[1..]) + ([0x22] + s));
      CharsAreRead(t[1..], s);
      assert t == [t[0]] + t[1..];
    }
  }

  lemma TextIsRead(t: Text, s: bytes)
    ensures Quote(t) + s != [] && (Quote(t) + s)[0] == 0x22
    ensures ReadText((Quote(t) + s)[1..]) == Some(Token(t, s))
  {
    hide Escape, ReadChars, ValidUtf8, Quote;
    QuoteParts(t, s);
    CharsAreRead(t, s);
    assert ([0x22] + (Escape(t) + ([0x22] + s)))[1..] == Escape(t) + ([0x22] + s);
  }

  lemma {:induction false} RunEnds(digits: bytes, s: bytes)
    requires forall i :: 0 <= i < |digits| ==> Digit(digits[i])
    requires s == [] || !Digit(s[0])
    ensures DigitRun(digits + s) == |digits|
  {
    if digits == [] {
      assert digits + s == s;
    } else {
      assert (digits + s)[1..] == digits[1..] + s;
      RunEnds(digits[1..], s);
    }
  }

  lemma NumberIsRead(n: int, s: bytes)
    requires Follows(s)
    ensures PrintInt(n) + s != [] && ReadNumber(PrintInt(n) + s) == Some(Token(Int(n), s))
    ensures (PrintInt(n) + s)[0] == 0x2D || Digit((PrintInt(n) + s)[0])
  {
    hide Decimal, DigitRun, ReadInt;
    var t := PrintInt(n) + s;
    ReadsPrintedInt(PrintInt(n), n);
    if n < 0 {
      RunEnds(Decimal(-n), s);
      assert t[1..] == Decimal(-n) + s;
    } else {
      RunEnds(Decimal(n), s);
    }
    assert t[..|PrintInt(n)|] == PrintInt(n) && t[|PrintInt(n)|..] == s;
  }

  // ---------------------------------------------------------------- defining equations

  lemma StartsWith(c: byte, s: bytes)
    ensures ([c] + s)[0] == c && ([c] + s)[1..] == s && [c] + s != []
  {
  }

  lemma ArrayEquation(s: bytes)
    ensures ReadValue([0x5B] + s) ==
            match ReadArray(s)
            case None => None
            case Some(t) => Some(Token(Array(t.value), t.rest))
  {
    hide ReadArray, ReadObject, ReadText, ReadNumber, ReadWord;
    StartsWith(0x5B, s);
  }

  lemma ObjectEquation(s: bytes)
    ensures ReadValue([0x7B] + s) ==
            match ReadObject(s)
            case None => None
            case Some(t) => Some(Token(Object(Collected(t.value)), t.rest))
  {
    hide ReadArray, ReadObject, ReadText, ReadNumber, ReadWord, Collected;
    StartsWith(0x7B, s);
  }

  lemma EmptyEquations(s: bytes)
    ensures ReadArray([0x5D] + s) == Some(Token([], s)) && ReadItems([0x5D] + s) == Some(Token([], s))
    ensures ReadObject([0x7D] + s) == Some(Token([], s)) && ReadMembers([0x7D] + s) == Some(Token([], s))
  {
    hide ReadValue, ReadMember;
    StartsWith(0x5D, s);
    StartsWith(0x7D, s);
  }

  lemma FirstItemEquation(s: bytes, v: Value, t: bytes)
    requires ReadValue(s) == Some(Token(v, t))
    ensures ReadArray(s) == Before(v, ReadItems(t)) && ReadItems([0x2C] + s) == Before(v, ReadItems(t))
  {
    StartsWith(0x2C, s);
    ValueStart(s);
    hide ReadValue;
  }

  /** No value starts with a closing bracket. */
  lemma ValueStart(s: bytes)
    requires ReadValue(s).Some?
    ensures s != [] && s[0] != 0x5D
  {
    hide ReadArray, ReadObject, ReadText, ReadWord;
  }

  lemma FirstMemberEquation(s: bytes, m: Member, t: bytes)
    requires ReadMember(s) == Some(Token(m, t))
    ensures ReadObject(s) == Before(m, ReadMembers(t)) && ReadMembers([0x2C] + s) == Before(m, ReadMembers(t))
  {
    StartsWith(0x2C, s);
    hide ReadText, ReadValue;
  }

  lemma MemberEquation(s: bytes, k: Text, v: Value, t: bytes, u: bytes)
    requires s != [] && s[0] == 0x22 && ReadText(s[1..]) == Some(Token(k, [0x3A] + t))
    requires ReadValue(t) == Some(Token(v, u))
    ensures ReadMember(s) == Some(Token(Member(k, v), u))
  {
    hide ReadText, ReadValue;
    StartsWith(0x3A, t);
  }

  // ---------------------------------------------------------------- values read back

  lemma WordIsRead(v: Value, s: bytes)
    requires v.Null? || v.Bool?
    ensures ReadValue(Print(v) + s) == Some(Token(v, s))
  {
    hide ReadArray, ReadObject, ReadText, ReadNumber, ValidUtf8;
    var w := if v.Null? then [0x6E, 0x75, 0x6C, 0x6C] else if v.b then [0x74, 0x72, 0x75, 0x65]
             else [0x66, 0x61, 0x6C, 0x73, 0x65];
    assert Print(v) == w;
    var t := w + s;
    assert t[0] == w[0] && w <= t && t[|w|..] == s;
  }

  lemma ScalarIsRead(v: Value, s: bytes)
    requires (v.Int? || v.String?) && Follows(s)
    ensures ReadValue(Print(v) + s) == Some(Token(v, s))
  {
    hide ReadArray, ReadObject, ReadText, ReadNumber, ReadWord, PrintInt, Quote, Follows, ValidUtf8;
    if v.Int? {
      NumberIsRead(v.n, s);
    } else {
      TextIsRead(v.text, s);
    }
  }

  /** Whatever may follow it, the text of a value reads back as the value. */
  lemma {:induction false} ValueIsRead(v: Value, s: bytes)
    requires Printable(v) && Follows(s)
    ensures ReadValue(Print(v) + s) == Some(Token(v, s))
    decreases v, 3
  {
    hide *;
    PrintableParts(v);
    match v
    case Array(items) =>
      ArrayIsRead(items, s);
    case Object(entries) =>
      ObjectIsRead(v, s);
    case Null =>
      WordIsRead(v, s);
    case Bool(_) =>
      WordIsRead(v, s);
    case _ =>
      ScalarIsRead(v, s);
  }

  lemma {:induction false} ArrayIsRead(items: seq<Value>, s: bytes)
    requires forall i :: 0 <= i < |items| ==> Printable(items[i])
    ensures ReadValue(Print(Array(items)) + s) == Some(Token(Array(items), s))
    decreases items, 1
  {
    hide *;
    ArrayText(items, s);
    EmptyEquations(s);
    if items == [] {
      ArrayEquation([0x5D] + s);
    } else {
      var others := PrintItems(items[1..]) + s;
      ArrayEquation(Print(items[0]) + others);
      ItemsText(items[1..], s);
      ValueIsRead(items[0], others);
      FirstItemEquation(Print(items[0]) + others, items[0], others);
      ItemsAreRead(items[1..], s);
      BeforeRest(items[0], items[1..], s);
      assert items == [items[0]] + items[1..];
    }
  }

  lemma BeforeRest<T>(first: T, others: seq<T>, s: bytes)
    ensures Before(first, Some(Token(others, s))) == Some(Token([first] + others, s))
  {
  }

  lemma {:induction false} ItemsAreRead(items: seq<Value>, s: bytes)
    requires forall i :: 0 <= i < |items| ==> Printable(items[i])
    ensures ReadItems(PrintItems(items) + s) == Some(Token(items, s))
    decreases items, 0
  {
    hide *;
    ItemsText(items, s);
    EmptyEquations(s);
    if items != [] {
      var others := PrintItems(items[1..]) + s;
      ItemsText(items[1..], s);
      ValueIsRead(items[0], others);
      FirstItemEquation(Print(items[0]) + others, items[0], others);
      ItemsAreRead(items[1..], s);
      BeforeRest(items[0], items[1..], s);
      assert items == [items[0]] + items[1..];
    }
  }

  /** The members of an object under the given names. */
  function MembersOf(obj: Value, ks: seq<Text>): (members: seq<Member>)
    requires obj.Object? && forall k :: k in ks ==> k in obj.entries
    ensures |members| == |ks| && forall i :: 0 <= i < |ks| ==> members[i] == Member(ks[i], obj.entries[ks[i]])
  {
    seq<Member>(|ks|, i requires 0 <= i < |ks| => Member(ks[i], obj.entries[ks[i]]))
  }

  lemma {:induction false} MemberIsRead(obj: Value, k: Text, s: bytes)
    requires obj.Object? && Printable(obj) && k in obj.entries && Follows(s)
    ensures ReadMember(PrintEntry(obj, k) + s) == Some(Token(Member(k, obj.entries[k]), s))
    decreases obj, 0, 0
  {
    hide *;
    PrintableParts(obj);
    var v := obj.entries[k];
    EntryText(obj, k, s);
    QuoteParts(k, [0x3A] + (Print(v) + s));
    TextIsRead(k, [0x3A] + (Print(v) + s));
    ValueIsRead(v, s);
    MemberEquation(PrintEntry(obj, k) + s, k, v, Print(v) + s, s);
  }

  lemma {:induction false} MembersAreRead(obj: Value, ks: seq<Text>, s: bytes)
    requires obj.Object? && Printable(obj) && forall k :: k in ks ==> k in obj.entries
    ensures ReadMembers(PrintEntries(obj, ks) + s) == Some(Token(MembersOf(obj, ks), s))
    decreases obj, 0, 1 + |ks|
  {
    hide *;
    EntriesText(obj, ks, s);
    EmptyEquations(s);
    if ks == [] {
      assert MembersOf(obj, ks) == [];
    } else {
      var others := PrintEntries(obj, ks[1..]) + s;
      EntriesText(obj, ks[1..], s);
      MemberIsRead(obj, ks[0], others);
      FirstMemberEquation(PrintEntry(obj, ks[0]) + others, Member(ks[0], obj.entries[ks[0]]), others);
      MembersAreRead(obj, ks[1..], s);
      BeforeRest(Member(ks[0], obj.entries[ks[0]]), MembersOf(obj, ks[1..]), s);
      assert MembersOf(obj, ks) == [Member(ks[0], obj.entries[ks[0]])] + MembersOf(obj, ks[1..]);
    }
  }

  /** Behind the brace the members are read in the order of their names. */
  lemma {:induction false} BodyIsRead(obj: Value, ks: seq<Text>, s: bytes)
    requires obj.Object? && Printable(obj) && ks == SortedKeys(obj.entries.Keys)
    requires forall k :: k in ks ==> k in obj.entries
    ensures Print(obj) + s != [] && (Print(obj) + s)[0] == 0x7B
    ensures ReadObject((Print(obj) + s)[1..]) == Some(Token(MembersOf(obj, ks), s))
    ensures ReadValue(Print(obj) + s) == Some(Token(Object(Collected(MembersOf(obj, ks))), s))
    decreases obj, 1
  {
    hide *;
    ObjectText(obj, ks, s);
    EmptyEquations(s);
    if ks == [] {
      StartsWith(0x7B, [0x7D] + s);
      ObjectEquation([0x7D] + s);
      assert MembersOf(obj, ks) == [];
    } else {
      var others := PrintEntries(obj, ks[1..]) + s;
      StartsWith(0x7B, PrintEntry(obj, ks[0]) + others);
      ObjectEquation(PrintEntry(obj, ks[0]) + others);
      EntriesText(obj, ks[1..], s);
      MemberIsRead(obj, ks[0], others);
      FirstMemberEquation(PrintEntry(obj, ks[0]) + others, Member(ks[0], obj.entries[ks[0]]), others);
      MembersAreRead(obj, ks[1..], s);
      BeforeRest(Member(ks[0], obj.entries[ks[0]]), MembersOf(obj, ks[1..]), s);
      assert MembersOf(obj, ks) == [Member(ks[0], obj.entries[ks[0]])] + MembersOf(obj, ks[1..]);
    }
  }

  lemma CollectedFirst(obj: Value, ks: seq<Text>)
    requires ks != [] && obj.Object? && forall k :: k in ks ==> k in obj.entries
    ensures Collected(MembersOf(obj, ks)) == map[ks[0] := obj.entries[ks[0]]] + Collected(MembersOf(obj, ks[1..]))
  {
    hide ValidUtf8;
    assert MembersOf(obj, ks)[1..] == MembersOf(obj, ks[1..]);
  }

  lemma NothingCollected(obj: Value)
    requires obj.Object?
    ensures Collected(MembersOf(obj, [])) == map[]
  {
  }

  lemma FirstEntry<K, V>(k: K, v: V, others: map<K, V>, entries: map<K, V>)
    requires k in entries && entries[k] == v
    requires forall j :: j in others ==> j in entries && others[j] == entries[j]
    ensures var all := map[k := v] + others;
            all.Keys == {k} + others.Keys && forall j :: j in all ==> j in entries && all[j] == entries[j]
  {
  }

  lemma {:induction false} CollectedAre(obj: Value, ks: seq<Text>)
    requires obj.Object? && forall k :: k in ks ==> k in obj.entries
    ensures var all := Collected(MembersOf(obj, ks));
            all.Keys == Elements(ks) && forall k :: k in all ==> k in obj.entries && all[k] == obj.entries[k]
    decreases |ks|
  {
    hide *;
    if ks == [] {
      NothingCollected(obj);
      EmptyElements(ks);
    } else {
      CollectedAre(obj, ks[1..]);
      CollectedFirst(obj, ks);
      FirstEntry(ks[0], obj.entries[ks[0]], Collected(MembersOf(obj, ks[1..])), obj.entries);
      assert ks == [ks[0]] + ks[1..];
      ElementsPrepend(ks[0], ks[1..]);
    }
  }

  lemma {:induction false} ObjectIsRead(obj: Value, s: bytes)
    requires obj.Object? && Printable(obj)
    ensures ReadValue(Print(obj) + s) == Some(Token(obj, s))
    decreases obj, 2
  {
    hide *;
    var ks := SortedKeys(obj.entries.Keys);
    ElementsIn(ks);
    BodyIsRead(obj, ks, s);
    CollectedAre(obj, ks);
    assert Collected(MembersOf(obj, ks)) == obj.entries;
  }

  // ---------------------------------------------------------------- canonical texts

  /** The canonical text of a value reads back as the value. */
  lemma CanonicalReadsBack(v: Value)
    requires Canonicalize(v).Some?
    ensures ReadJson(Canonicalize(v).value) == Some(v)
  {
    hide Printable, Print, ReadValue;
    assert Print(v) + [] == Print(v);
    NothingFollows();
    ValueIsRead(v, []);
  }

  lemma NothingFollows()
    ensures Follows([])
  {
  }

  /** Different values have different canonical texts. */
  lemma CanonicalInjective(v: Value, w: Value)
    requires Canonicalize(v).Some? && Canonicalize(v) == Canonicalize(w)
    ensures v == w
  {
    hide *;
    CanonicalReadsBack(v);
    CanonicalReadsBack(w);
  }

  /** A printed value is read back in one way only, whatever may follow it. */
  lemma ValueReads(v: Value, w: Value, s: bytes, t: bytes)
    requires Printable(v) && Printable(w) && Follows(s) && Follows(t)
    requires Print(v) + s == Print(w) + t
    ensures v == w && s == t
  {
    hide *;
    ValueIsRead(v, s);
    ValueIsRead(w, t);
  }

  /** The members of a canonical object stand in the bytewise order of their names, each name once. */
  lemma MembersAscend(v: Value)
    requires v.Object? && Canonicalize(v).Some?
    ensures var text := Canonicalize(v).value;
            && text != [] && text[0] == 0x7B && ReadObject(text[1..]).Some?
            && var members := ReadObject(text[1..]).value.value;
            forall i, j :: 0 <= i < j < |members| ==> LexLess(members[i].name, members[j].name)
  {
    hide Printable, Print, ReadObject, SortedKeys, LexLess, ValidUtf8;
    var ks := SortedKeys(v.entries.Keys);
    ElementsIn(ks);
    assert Print(v) + [] == Print(v);
    BodyIsRead(v, ks, []);
  }
}
