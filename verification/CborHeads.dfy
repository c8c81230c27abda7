/** The head of a CBOR data item: major type, argument and the width the argument is written in
    (RFC 8949 section 3), its preferred form (section 4.1), and the order of encoded text keys. */
module CborHeads {
  import opened Bytes
  import opened Results
  import opened SortedSets

  const MAX_ARGUMENT: nat := 0xFFFF_FFFF_FFFF_FFFF

  /** The shortest head: `Encoder::type_len` of minicbor, `_cbor_head` and `_head` in Python. */
  function EncodeHead(major: nat, arg: nat): (h: bytes)
    requires major < 8
    ensures 1 <= |h| <= 9
  {
    if arg < 24 then [32 * major + arg]
    else if arg < 0x100 then [32 * major + 24] + BigEndian(arg, 1)
    else if arg < 0x1_0000 then [32 * major + 25] + BigEndian(arg, 2)
    else if arg < 0x1_0000_0000 then [32 * major + 26] + BigEndian(arg, 4)
    else [32 * major + 27] + BigEndian(arg, 8)
  }

  lemma UsizeIsArgument(n: usize)
    ensures n <= MAX_ARGUMENT
  {
  }

  datatype HeadError = EndOfInput | ReservedInfo | IndefiniteInfo

  datatype Head = Head(major: nat, arg: nat, next: nat)

  /** Width in bytes of the argument announced by additional information 24 to 27. */
  function ArgumentWidth(info: nat): (w: nat)
    requires 24 <= info <= 27
    ensures 1 <= w <= 8
  {
    if info == 24 then 1 else if info == 25 then 2 else if info == 26 then 4 else 8
  }

  /** Reads a head of any width, as minicbor does: no width is refused for being too wide. */
  function ReadHead(s: bytes, pos: nat): (r: Result<Head, HeadError>)
    requires pos <= |s|
    ensures r.Ok? ==> pos < r.value.next <= |s| && r.value.major == s[pos] / 32 < 8
  {
    if pos == |s| then Err(EndOfInput)
    else
      var major, info := s[pos] / 32, s[pos] % 32;
      if info < 24 then Ok(Head(major, info, pos + 1))
      else if info == 31 then Err(IndefiniteInfo)
      else if info > 27 then Err(ReservedInfo)
      else
        var next := pos + 1 + ArgumentWidth(info);
        if next > |s| then Err(EndOfInput)
        else Ok(Head(major, FromBigEndian(s[pos + 1..next]), next))
  }

  /** `t` occurs in `s` at `pos`. */
  predicate At(s: bytes, pos: nat, t: bytes) {
    pos + |t| <= |s| && s[pos..pos + |t|] == t
  }

  lemma AtConcat(s: bytes, pos: nat, a: bytes, b: bytes)
    ensures At(s, pos, a + b) <==> At(s, pos, a) && At(s, pos + |a|, b)
  {
    var mid, end := pos + |a|, pos + |a| + |b|;
    if end <= |s| {
      assert s[pos..end] == s[pos..mid] + s[mid..end];
      assert s[pos..end][..|a|] == s[pos..mid] && s[pos..end][|a|..] == s[mid..end];
      assert (a + b)[..|a|] == a && (a + b)[|a|..] == b;
    }
  }

  lemma AtMeans(s: bytes, pos: nat, t: bytes)
    requires At(s, pos, t)
    ensures pos + |t| <= |s| && s[pos..pos + |t|] == t
  {
  }

  /** Reading back a shortest head gives its major type and argument. */
  lemma ReadsEncodedHead(s: bytes, pos: nat, major: nat, arg: nat)
    requires major < 8 && arg <= MAX_ARGUMENT && At(s, pos, EncodeHead(major, arg))
    ensures ReadHead(s, pos) == Ok(Head(major, arg, pos + |EncodeHead(major, arg)|))
  {
    hide BigEndian, FromBigEndian, Pow256;
    var h := EncodeHead(major, arg);
    assert s[pos] == s[pos..pos + |h|][0] == h[0];
    assert s[pos] / 32 == major;
    if arg >= 24 {
      Pow256Values();
      BigEndianThenBack(arg, |h| - 1);
      assert s[pos + 1..pos + |h|] == s[pos..pos + |h|][1..] == h[1..] == BigEndian(arg, |h| - 1);
    }
  }

  /** The head that was read is in preferred form. */
  predicate Preferred(pos: nat, h: Head)
    requires h.major < 8
  {
    h.next == pos + |EncodeHead(h.major, h.arg)|
  }

  /** A head that was read is never shorter than the preferred one, and equals it when as long. */
  lemma ReadHeadLength(s: bytes, pos: nat)
    requires pos <= |s| && ReadHead(s, pos).Ok?
    ensures var h := ReadHead(s, pos).value;
            && h.arg <= MAX_ARGUMENT
            && pos + |EncodeHead(h.major, h.arg)| <= h.next
            && (Preferred(pos, h) <==> s[pos..h.next] == EncodeHead(h.major, h.arg))
  {
    hide BigEndian, FromBigEndian, Pow256;
    var h := ReadHead(s, pos).value;
    var info := s[pos] % 32;
    assert s[pos] == 32 * h.major + info;
    assert s[pos..h.next] == [s[pos]] + s[pos + 1..h.next];
    if info >= 24 {
      Pow256Values();
      FromBigEndianBound(s[pos + 1..h.next]);
      FromBigEndianThenBack(s[pos + 1..h.next]);
    }
  }

  /** Cutting the input inside a head is noticed; cutting it later changes nothing. */
  lemma ReadHeadTruncated(s: bytes, pos: nat, k: nat)
    requires pos <= k <= |s| && ReadHead(s, pos).Ok?
    ensures ReadHead(s[..k], pos) ==
            if ReadHead(s, pos).value.next <= k then ReadHead(s, pos) else Err(EndOfInput)
  {
    var h := ReadHead(s, pos).value;
    if h.next <= k {
      assert s[..k][pos + 1..h.next] == s[pos + 1..h.next];
    }
  }

  // ---------------------------------------------------------------- text keys

  /** A text string in preferred form. */
  function EncodeText(t: bytes): (s: bytes)
    ensures |s| > |t|
  {
    EncodeHead(3, |t|) + t
  }

  datatype Ordering = Less | Equal | Greater

  /** Length first, then bytewise. */
  function CompareEncodedKeys(left: bytes, right: bytes): Ordering {
    if |left| < |right| then Less
    else if |left| > |right| then Greater
    else if LexLess(left, right) then Less
    else if left == right then Equal
    else Greater
  }

  /** The order in which two keys appear in a deterministic map. */
  predicate KeyLess(a: bytes, b: bytes) {
    CompareEncodedKeys(EncodeText(a), EncodeText(b)) == Less
  }

  lemma EncodeTextGrows(a: bytes, b: bytes)
    requires |a| < |b|
    ensures |EncodeText(a)| < |EncodeText(b)|
  {
  }

  lemma EncodeTextOrder(a: bytes, b: bytes)
    requires |a| == |b|
    ensures LexLess(EncodeText(a), EncodeText(b)) <==> LexLess(a, b)
  {
    hide LexLess, EncodeHead;
    LexCommonPrefix(EncodeHead(3, |a|), a, b);
  }

  lemma KeyLessByLength(a: bytes, b: bytes)
    ensures KeyLess(a, b) <==> |a| < |b| || (|a| == |b| && LexLess(a, b))
  {
    hide LexLess, EncodeText;
    if |a| < |b| {
      EncodeTextGrows(a, b);
    } else if |b| < |a| {
      EncodeTextGrows(b, a);
    } else {
      EncodeTextOrder(a, b);
      assert |EncodeText(a)| == |EncodeText(b)| by { EncodeTextSize(a); EncodeTextSize(b); }
    }
  }

  lemma EncodeTextSize(a: bytes)
    ensures |EncodeText(a)| == |EncodeHead(3, |a|)| + |a|
  {
  }

  /** `compare_encoded_keys` is a strict total order on text keys. */
  lemma KeyOrderIsStrictTotal()
    ensures StrictTotal(KeyLess)
  {
    forall x ensures !KeyLess(x, x) {
      KeyLessByLength(x, x);
      LexIrreflexive(x);
    }
    forall x, y, z | KeyLess(x, y) && KeyLess(y, z) ensures KeyLess(x, z) {
      KeyLessByLength(x, y);
      KeyLessByLength(y, z);
      KeyLessByLength(x, z);
      if |x| == |z| {
        LexTransitive(x, y, z);
      }
    }
    forall x, y ensures x == y || KeyLess(x, y) || KeyLess(y, x) {
      KeyLessByLength(x, y);
      KeyLessByLength(y, x);
      LexTotal(x, y);
    }
  }

  /** A key can be put before ascending keys when it is less than the first of them. */
  lemma AscendingKeys(k: Text, rest: seq<Text>)
    requires Ascending(KeyLess, rest)
    requires rest != [] ==> CompareEncodedKeys(EncodeText(k), EncodeText(rest[0])) == Less
    ensures Ascending(KeyLess, [k] + rest)
  {
    hide EncodeText, CompareEncodedKeys, ValidUtf8;
    KeyOrderIsStrictTotal();
    forall y | y in Elements(rest) ensures KeyLess(k, y) {
      assert KeyLess(k, rest[0]);
      assert y != rest[0] ==> KeyLess(rest[0], y);
    }
    AscendingPrepend(KeyLess, k, rest);
  }

  /** A smaller argument has a bytewise smaller preferred head, across every width boundary. */
  lemma HeadOrder(major: nat, m: nat, n: nat, s: bytes, t: bytes)
    requires major < 8 && m < n <= MAX_ARGUMENT
    ensures LexLess(EncodeHead(major, m) + s, EncodeHead(major, n) + t)
  {
    var g, h := EncodeHead(major, m), EncodeHead(major, n);
    Pow256Values();
    if |g| == |h| {
      if |g| > 1 {
        BigEndianOrder(m, n, |g| - 1);
        LexCommonPrefix([g[0]], BigEndian(m, |g| - 1), BigEndian(n, |g| - 1));
      }
      LexExtends(g, h, s, t);
    } else {
      assert g[0] < h[0];
    }
  }

  /** On text keys the length-first comparison of RFC 8949 section 4.2.3, which the code uses, and
      the bytewise lexicographic order of section 4.2.1, which the profile asks for, coincide. */
  lemma KeyOrderIsBytewise(a: bytes, b: bytes)
    requires |a| <= MAX_ARGUMENT && |b| <= MAX_ARGUMENT
    ensures KeyLess(a, b) <==> LexLess(EncodeText(a), EncodeText(b))
  {
    hide LexLess;
    KeyLessByLength(a, b);
    if |a| < |b| {
      HeadOrder(3, |a|, |b|, a, b);
    } else if |b| < |a| {
      HeadOrder(3, |b|, |a|, b, a);
      LexAsymmetric(EncodeText(b), EncodeText(a));
    } else {
      EncodeTextOrder(a, b);
    }
  }
}
