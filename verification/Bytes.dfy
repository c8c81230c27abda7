/** Byte strings, their orders, big-endian numbers, UTF-8 and decimal rendering. */
module Bytes {
  type byte = b: int | 0 <= b < 256
  type bytes = seq<byte>

  /** Rust's `usize` and `u64` on the 64-bit targets the crates support. */
  type usize = n: int | 0 <= n < 0x1_0000_0000_0000_0000

  // ---------------------------------------------------------------- orders

  /** Strict bytewise lexicographic order: `Ord` on byte slices in Rust, `<` on `bytes` in Python. */
  predicate LexLess(a: bytes, b: bytes) {
    b != [] && (a == [] || a[0] < b[0] || (a[0] == b[0] && LexLess(a[1..], b[1..])))
  }

  lemma {:induction false} LexIrreflexive(a: bytes)
    ensures !LexLess(a, a)
  {
    if a != [] {
      LexIrreflexive(a[1..]);
    }
  }

  lemma {:induction false} LexTransitive(a: bytes, b: bytes, c: bytes)
    requires LexLess(a, b) && LexLess(b, c)
    ensures LexLess(a, c)
  {
    if a != [] && a[0] == b[0] == c[0] {
      LexTransitive(a[1..], b[1..], c[1..]);
    }
  }

  lemma {:induction false} LexTotal(a: bytes, b: bytes)
    ensures a == b || LexLess(a, b) || LexLess(b, a)
  {
    if a != [] && b != [] && a[0] == b[0] {
      LexTotal(a[1..], b[1..]);
      assert a == [a[0]] + a[1..] && b == [b[0]] + b[1..];
    }
  }

  lemma LexAsymmetric(a: bytes, b: bytes)
    requires LexLess(a, b)
    ensures !LexLess(b, a)
  {
    hide *;
    LexIrreflexive(a);
    if LexLess(b, a) {
      LexTransitive(a, b, a);
    }
  }

  /** A common prefix does not affect the comparison. */
  lemma {:induction false} LexCommonPrefix(p: bytes, a: bytes, b: bytes)
    ensures LexLess(p + a, p + b) <==> LexLess(a, b)
  {
    if p == [] {
      assert p + a == a && p + b == b;
    } else {
      assert (p + a)[1..] == p[1..] + a && (p + b)[1..] == p[1..] + b;
      LexCommonPrefix(p[1..], a, b);
    }
  }

  lemma ConcatAssociative<T>(a: seq<T>, b: seq<T>, c: seq<T>)
    ensures (a + b) + c == a + (b + c)
  {
  }

  /** Appending parts one after the other is appending their right-nested concatenation. */
  lemma AppendTwo(s: bytes, a: bytes, b: bytes)
    ensures (s + a) + b == s + (a + b)
  {
  }

  lemma AppendThree(s: bytes, a: bytes, b: bytes, c: bytes)
    ensures ((s + a) + b) + c == s + (a + (b + c))
  {
    AppendTwo(s + a, b, c);
    AppendTwo(s, a, b + c);
  }

  lemma AppendFour(s: bytes, a: bytes, b: bytes, c: bytes, d: bytes)
    ensures (((s + a) + b) + c) + d == s + (a + (b + (c + d)))
  {
    AppendThree(s + a, b, c, d);
    AppendTwo(s, a, b + (c + d));
  }

  lemma AppendFive(s: bytes, a: bytes, b: bytes, c: bytes, d: bytes, e: bytes)
    ensures ((((s + a) + b) + c) + d) + e == s + (a + (b + (c + (d + e))))
  {
    AppendFour(s + a, b, c, d, e);
    AppendTwo(s, a, b + (c + (d + e)));
  }

  lemma AppendSix(s: bytes, a: bytes, b: bytes, c: bytes, d: bytes, e: bytes, f: bytes)
    ensures (((((s + a) + b) + c) + d) + e) + f == s + (a + (b + (c + (d + (e + f)))))
  {
    AppendFive(s + a, b, c, d, e, f);
    AppendTwo(s, a, b + (c + (d + (e + f))));
  }

  lemma NothingAppended(s: bytes)
    ensures [] + s == s
  {
  }

  // ---------------------------------------------------------------- big-endian numbers

  function Pow256(w: nat): (p: nat)
    ensures p > 0
  {
    if w == 0 then 1 else 256 * Pow256(w - 1)
  }

  /** The low `w` bytes of `n`, most significant first (`to_be_bytes`, `to_bytes(w, "big")`). */
  function BigEndian(n: nat, w: nat): (s: bytes)
    ensures |s| == w
  {
    if w == 0 then [] else BigEndian(n / 256, w - 1) + [n % 256]
  }

  lemma NextDigit(n: nat, w: nat, low: byte)
    ensures BigEndian(0x100 * n + low, w + 1) == BigEndian(n, w) + [low]
  {
  }

  lemma NoDigits()
    ensures BigEndian(0, 0) == []
  {
  }

  function FromBigEndian(s: bytes): nat {
    if s == [] then 0 else 256 * FromBigEndian(s[..|s| - 1]) + s[|s| - 1]
  }

  lemma {:induction false} FromBigEndianBound(s: bytes)
    ensures FromBigEndian(s) < Pow256(|s|)
  {
    if s != [] {
      FromBigEndianBound(s[..|s| - 1]);
    }
  }

  lemma {:induction false} BigEndianThenBack(n: nat, w: nat)
    requires n < Pow256(w)
    ensures FromBigEndian(BigEndian(n, w)) == n
  {
    if w != 0 {
      assert n / 256 < Pow256(w - 1) && n == 256 * (n / 256) + n % 256;
      var init := BigEndian(n / 256, w - 1);
      BigEndianThenBack(n / 256, w - 1);
      assert BigEndian(n, w)[..w - 1] == init;
    }
  }

  lemma {:induction false} FromBigEndianThenBack(s: bytes)
    ensures BigEndian(FromBigEndian(s), |s|) == s
  {
    if s != [] {
      var init, last := s[..|s| - 1], s[|s| - 1];
      FromBigEndianThenBack(init);
      assert FromBigEndian(s) / 256 == FromBigEndian(init);
      assert FromBigEndian(s) % 256 == last;
      assert s == init + [last];
    }
  }

  lemma Pow256Values()
    ensures Pow256(1) == 0x100 && Pow256(2) == 0x1_0000 && Pow256(4) == 0x1_0000_0000
    ensures Pow256(8) == 0x1_0000_0000_0000_0000
  {
    assert Pow256(2) == 0x1_0000;
    assert Pow256(3) == 0x100_0000;
    assert Pow256(4) == 0x1_0000_0000;
    assert Pow256(5) == 0x100_0000_0000;
    assert Pow256(6) == 0x1_0000_0000_0000;
    assert Pow256(7) == 0x100_0000_0000_0000;
  }

  /** Big-endian numbers of one width compare like their byte strings. */
  lemma {:induction false} BigEndianOrder(m: nat, n: nat, w: nat)
    requires m < n < Pow256(w)
    ensures LexLess(BigEndian(m, w), BigEndian(n, w))
  {
    var a, b := BigEndian(m / 256, w - 1), BigEndian(n / 256, w - 1);
    if m / 256 == n / 256 {
      LexCommonPrefix(a, [m % 256], [n % 256]);
    } else {
      BigEndianOrder(m / 256, n / 256, w - 1);
      LexExtends(a, b, [m % 256], [n % 256]);
    }
  }

  /** A difference between strings of equal length decides, whatever follows. */
  lemma {:induction false} LexExtends(a: bytes, b: bytes, s: bytes, t: bytes)
    requires |a| == |b| && LexLess(a, b)
    ensures LexLess(a + s, b + t)
  {
    assert (a + s)[1..] == a[1..] + s && (b + t)[1..] == b[1..] + t;
    if a[0] == b[0] {
      LexExtends(a[1..], b[1..], s, t);
    }
  }

  // ---------------------------------------------------------------- UTF-8

  predicate Continuation(b: byte) {
    0x80 <= b <= 0xBF
  }

  /** Length of the well-formed UTF-8 scalar value that starts `s` (RFC 3629 section 4), or 0. */
  function Utf8Scalar(s: bytes): nat
    requires s != []
  {
    var b := s[0];
    if b < 0x80 then 1
    else if |s| < 2 || !Continuation(s[1]) then 0
    else if 0xC2 <= b <= 0xDF then 2
    else if |s| < 3 || !Continuation(s[2]) then 0
    else if 0xE0 <= b <= 0xEF then
      if (b == 0xE0 && s[1] < 0xA0) || (b == 0xED && s[1] > 0x9F) then 0 else 3
    else if |s| < 4 || !Continuation(s[3]) then 0
    else if 0xF0 <= b <= 0xF4 then
      if (b == 0xF0 && s[1] < 0x90) || (b == 0xF4 && s[1] > 0x8F) then 0 else 4
    else 0
  }

  /** What `std::str::from_utf8` and Python's strict `utf-8` codec accept. */
  predicate ValidUtf8(s: bytes)
    decreases |s|
  {
    s == [] || (0 < Utf8Scalar(s) <= |s| && ValidUtf8(s[Utf8Scalar(s)..]))
  }

  /** A Rust `String` or a decoded Python `str`, held as its UTF-8 bytes. */
  type Text = s: bytes | ValidUtf8(s) witness []

  lemma {:induction false} AsciiIsUtf8(s: bytes)
    requires forall i :: 0 <= i < |s| ==> s[i] < 0x80
    ensures ValidUtf8(s)
  {
    if s != [] {
      AsciiIsUtf8(s[1..]);
    }
  }

  function AsciiByte(c: char): byte {
    if c as int < 0x80 then c as int else 0x3F
  }

  /** The bytes of an ASCII literal (any other character would become `?`). */
  function Ascii(s: string): (t: Text)
    ensures |t| == |s| && forall i :: 0 <= i < |s| ==> t[i] == AsciiByte(s[i])
  {
    var t := seq(|s|, i requires 0 <= i < |s| => AsciiByte(s[i]));
    AsciiIsUtf8(t);
    t
  }

  lemma AsciiConcat(s: string, t: string)
    ensures Ascii(s + t) == Ascii(s) + Ascii(t)
  {
    hide ValidUtf8;
  }

  // ---------------------------------------------------------------- lines

  /** A line with its line break, and what follows. */
  function Line(s: bytes, rest: bytes): bytes {
    s + ([0x0A] + rest)
  }

  /** The lines of a text without their line breaks; what follows the last break is a line too. */
  function SplitLines(s: bytes): (lines: seq<bytes>)
    ensures lines != []
  {
    if s == [] then [[]]
    else
      var rest := SplitLines(s[1..]);
      if s[0] == 0x0A then [[]] + rest else [[s[0]] + rest[0]] + rest[1..]
  }

  lemma {:induction false} SplitFirst(a: bytes, s: bytes)
    requires 0x0A !in a
    ensures SplitLines(Line(a, s)) == [a] + SplitLines(s)
  {
    var t := Line(a, s);
    if a == [] {
      assert t[1..] == s;
    } else {
      assert t[1..] == Line(a[1..], s);
      SplitFirst(a[1..], s);
      assert a == [a[0]] + a[1..];
    }
  }

  lemma NothingToSplit()
    ensures SplitLines([]) == [[]]
  {
  }

  // ---------------------------------------------------------------- decimal numbers

  predicate Digit(b: byte) {
    48 <= b <= 57
  }

  function Decimal(n: nat): (s: bytes)
    ensures s != [] && forall i :: 0 <= i < |s| ==> Digit(s[i])
  {
    if n < 10 then [48 + n] else Decimal(n / 10) + [48 + n % 10]
  }

  function Pow10(k: nat): (p: nat)
    ensures p > 0
  {
    if k == 0 then 1 else 10 * Pow10(k - 1)
  }

  /** The number a string of decimal digits stands for: the digit before `k` others counts `10^k`. */
  function FromDecimal(s: bytes): int {
    if s == [] then 0 else (s[0] as int - 0x30) * Pow10(|s| - 1) + FromDecimal(s[1..])
  }

  lemma {:induction false} FromDecimalAppend(s: bytes, digit: byte)
    ensures FromDecimal(s + [digit]) == 10 * FromDecimal(s) + (digit as int - 0x30)
  {
    var longer := s + [digit];
    if s == [] {
      assert longer[1..] == [];
      assert Pow10(0) == 1;
    } else {
      assert longer[1..] == s[1..] + [digit];
      FromDecimalAppend(s[1..], digit);
      TimesTen(s[0] as int - 0x30, Pow10(|s| - 1));
    }
  }

  lemma TimesTen(x: int, p: nat)
    ensures x * (10 * p) == 10 * (x * p)
  {
  }

  /** Without a leading zero, unless zero is the only digit. */
  predicate Numeral(s: bytes) {
    s != [] && (forall i :: 0 <= i < |s| ==> Digit(s[i])) && (s[0] == 0x30 ==> |s| == 1)
  }

  /** The rendering of a number is a numeral, and the number is what the numeral stands for. */
  lemma {:induction false} DecimalReads(n: nat)
    ensures FromDecimal(Decimal(n)) == n && Numeral(Decimal(n)) && (Decimal(n)[0] == 0x30 <==> n == 0)
  {
    var s := Decimal(n);
    if n < 10 {
      assert s[1..] == [] && Pow10(0) == 1;
    } else {
      var init, last := Decimal(n / 10), 48 + n % 10;
      assert s == init + [last] && s[0] == init[0];
      DecimalReads(n / 10);
      FromDecimalAppend(init, last);
    }
  }

  /** Every numeral is the rendering of the number it stands for. */
  lemma {:induction false} NumeralIsDecimal(s: bytes)
    requires Numeral(s)
    ensures FromDecimal(s) >= 0 && Decimal(FromDecimal(s)) == s
  {
    var init, last := s[..|s| - 1], s[|s| - 1];
    assert s == init + [last];
    FromDecimalAppend(init, last);
    if init != [] {
      NumeralIsDecimal(init);
      NotZero(init);
    }
  }

  lemma NotZero(s: bytes)
    requires Numeral(s) && s[0] != 0x30 && FromDecimal(s) >= 0 && Decimal(FromDecimal(s)) == s
    ensures FromDecimal(s) > 0
  {
    DecimalReads(FromDecimal(s));
  }

  lemma DecimalInjective(m: nat, n: nat)
    requires Decimal(m) == Decimal(n)
    ensures m == n
  {
    hide *;
    DecimalReads(m);
    DecimalReads(n);
  }

  // ---------------------------------------------------------------- hexadecimal

  function HexDigit(n: nat): byte
    requires n < 16
  {
    if n < 10 then 48 + n else 87 + n
  }

  /** Python's `bytes.hex`. */
  function Hex(s: bytes): (t: Text)
    ensures |t| == 2 * |s|
    ensures forall i :: 0 <= i < |t| ==> t[i] < 0x80
  {
    var t := if s == [] then [] else [HexDigit(s[0] / 16), HexDigit(s[0] % 16)] + Hex(s[1..]);
    AsciiIsUtf8(t);
    t
  }

  /** So many digits `0` to `9` or `a` to `f`. */
  predicate LowerHex(value: Text, length: nat) {
    |value| == length && forall i :: 0 <= i < |value| ==> Digit(value[i]) || 0x61 <= value[i] <= 0x66
  }

  /** The value of a digit by its place among the sixteen. */
  function HexValue(c: byte): (n: nat)
    ensures n < 16
  {
    if 0x30 <= c <= 0x39 then c - 0x30 else if 0x61 <= c <= 0x66 then c - 0x61 + 10 else 0
  }

  /** Python's `bytes.fromhex`, for lower-case digits: each pair of digits is a byte. */
  function FromHex(t: bytes): bytes {
    if |t| < 2 then [] else [16 * HexValue(t[0]) + HexValue(t[1])] + FromHex(t[2..])
  }

  lemma HexDigitReads(n: nat)
    requires n < 16
    ensures var c := HexDigit(n); HexValue(c) == n && (Digit(c) || 0x61 <= c <= 0x66)
  {
  }

  lemma HexStep(s: bytes)
    requires s != []
    ensures Hex(s) == [HexDigit(s[0] / 16), HexDigit(s[0] % 16)] + Hex(s[1..])
  {
    hide HexDigit, ValidUtf8;
  }

  lemma FromHexStep(c: byte, d: byte, t: bytes)
    ensures FromHex([c, d] + t) == [16 * HexValue(c) + HexValue(d)] + FromHex(t)
  {
    hide HexValue;
    assert ([c, d] + t)[2..] == t;
  }

  lemma LowerHexStep(c: byte, d: byte, t: Text, n: nat)
    requires ValidUtf8([c, d] + t)
    ensures LowerHex([c, d] + t, n + 2) <==>
            (Digit(c) || 0x61 <= c <= 0x66) && (Digit(d) || 0x61 <= d <= 0x66) && LowerHex(t, n)
  {
    hide ValidUtf8, Digit;
    var u := [c, d] + t;
    assert u[0] == c && u[1] == d;
    assert forall i :: 0 <= i < |t| ==> t[i] == u[i + 2];
    assert forall i :: 2 <= i < |u| ==> u[i] == t[i - 2];
  }

  lemma NoHex()
    ensures Hex([]) == [] && FromHex([]) == [] && LowerHex([], 0)
  {
  }

  lemma LowerHexSize(t: Text, n: nat)
    requires LowerHex(t, n)
    ensures |t| == n
  {
    hide ValidUtf8;
  }

  /** The rendering of a byte string has two lower-case digits for each byte, and reads back to it. */
  lemma {:induction false} HexReads(s: bytes)
    ensures LowerHex(Hex(s), 2 * |s|) && FromHex(Hex(s)) == s
  {
    hide *;
    NoHex();
    if s != [] {
      HexStep(s);
      HexDigitReads(s[0] / 16);
      HexDigitReads(s[0] % 16);
      HexReads(s[1..]);
      LowerHexStep(HexDigit(s[0] / 16), HexDigit(s[0] % 16), Hex(s[1..]), 2 * |s[1..]|);
      FromHexStep(HexDigit(s[0] / 16), HexDigit(s[0] % 16), Hex(s[1..]));
      assert s == [s[0]] + s[1..];
    }
  }

  lemma AsciiTail(t: Text, n: nat)
    requires LowerHex(t, n) && n >= 2
    ensures ValidUtf8(t[2..])
  {
    hide ValidUtf8;
    AsciiIsUtf8(t[2..]);
  }

  /** Lower-case digits are the rendering of the bytes they stand for. */
  lemma {:induction false} HexBack(t: Text, n: nat)
    requires LowerHex(t, 2 * n)
    ensures |FromHex(t)| == n && Hex(FromHex(t)) == t
  {
    hide *;
    LowerHexSize(t, 2 * n);
    NoHex();
    if n > 0 {
      AsciiTail(t, 2 * n);
      var c, d, rest := t[0], t[1], t[2..];
      assert t == [c, d] + rest;
      LowerHexStep(c, d, rest, 2 * (n - 1));
      FromHexStep(c, d, rest);
      HexBack(rest, n - 1);
      ValueIsDigit(c);
      ValueIsDigit(d);
      HexStep(FromHex(t));
      assert FromHex(t)[1..] == FromHex(rest);
    }
  }

  lemma ValueIsDigit(c: byte)
    requires Digit(c) || 0x61 <= c <= 0x66
    ensures HexDigit(HexValue(c)) == c && c < 0x80
  {
  }

  lemma HexInjective(a: bytes, b: bytes)
    requires Hex(a) == Hex(b)
    ensures a == b
  {
    hide *;
    HexReads(a);
    HexReads(b);
  }
}
