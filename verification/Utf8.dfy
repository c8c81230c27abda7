/** Valid UTF-8 is what encoding Unicode scalar values gives (RFC 3629 section 3), and it is decoded one way. */
module Utf8 {
  import opened Bytes

  /** A code point that is not a surrogate. */
  predicate Scalar(c: nat) {
    c < 0xD800 || 0xE000 <= c <= 0x10FFFF
  }

  type scalar = c: nat | Scalar(c)

  function EncodeScalar(c: scalar): (s: bytes)
    ensures 1 <= |s| <= 4
  {
    if c < 0x80 then [c]
    else if c < 0x800 then [0xC0 + c / 0x40, 0x80 + c % 0x40]
    else if c < 0x1_0000 then [0xE0 + c / 0x1000, 0x80 + c / 0x40 % 0x40, 0x80 + c % 0x40]
    else
      assert Scalar(c) && c / 0x4_0000 <= 4;
      [0xF0 + c / 0x4_0000, 0x80 + c / 0x1000 % 0x40, 0x80 + c / 0x40 % 0x40, 0x80 + c % 0x40]
  }

  function Encode(cs: seq<scalar>): bytes {
    if cs == [] then [] else EncodeScalar(cs[0]) + Encode(cs[1..])
  }

  /** The scalar value that `n` bytes encode. */
  function DecodeScalar(s: bytes, n: nat): int
    requires 1 <= n <= 4 && n <= |s|
  {
    if n == 1 then s[0]
    else if n == 2 then Two(s[0] as int - 0xC0, s[1] as int - 0x80)
    else if n == 3 then Three(s[0] as int - 0xE0, s[1] as int - 0x80, s[2] as int - 0x80)
    else Four(s[0] as int - 0xF0, s[1] as int - 0x80, s[2] as int - 0x80, s[3] as int - 0x80)
  }

  function Two(a: int, b: int): int {
    0x40 * a + b
  }

  function Three(a: int, b: int, c: int): int {
    0x1000 * a + 0x40 * b + c
  }

  function Four(a: int, b: int, c: int, d: int): int {
    0x4_0000 * a + 0x1000 * b + 0x40 * c + d
  }

  lemma TwoParts(a: nat, b: nat)
    requires b < 0x40
    ensures Two(a, b) / 0x40 == a && Two(a, b) % 0x40 == b
  {
  }

  lemma ThreeParts(a: nat, b: nat, c: nat)
    requires b < 0x40 && c < 0x40
    ensures Three(a, b, c) / 0x1000 == a && Three(a, b, c) / 0x40 % 0x40 == b && Three(a, b, c) % 0x40 == c
  {
    assert Three(a, b, c) / 0x40 == 0x40 * a + b;
  }

  lemma FourParts(a: nat, b: nat, c: nat, d: nat)
    requires b < 0x40 && c < 0x40 && d < 0x40
    ensures Four(a, b, c, d) / 0x4_0000 == a && Four(a, b, c, d) / 0x1000 % 0x40 == b
    ensures Four(a, b, c, d) / 0x40 % 0x40 == c && Four(a, b, c, d) % 0x40 == d
  {
    assert Four(a, b, c, d) / 0x40 == 0x1000 * a + 0x40 * b + c;
    assert Four(a, b, c, d) / 0x1000 == 0x40 * a + b;
  }

  lemma Recombined(c: nat)
    ensures c == Two(c / 0x40, c % 0x40) == Three(c / 0x1000, c / 0x40 % 0x40, c % 0x40)
    ensures c == Four(c / 0x4_0000, c / 0x1000 % 0x40, c / 0x40 % 0x40, c % 0x40)
  {
    assert c / 0x40 / 0x40 == c / 0x1000 && c / 0x1000 / 0x40 == c / 0x4_0000;
  }

  lemma StartsAs(s: bytes, t: bytes)
    ensures forall i :: 0 <= i < |s| ==> (s + t)[i] == s[i]
  {
  }

  lemma EncodedShort(c: scalar, rest: bytes)
    requires c < 0x800
    ensures Utf8Scalar(EncodeScalar(c) + rest) == |EncodeScalar(c)|
    ensures DecodeScalar(EncodeScalar(c) + rest, |EncodeScalar(c)|) == c
  {
    hide Three, Four;
    StartsAs(EncodeScalar(c), rest);
    Recombined(c);
    if c >= 0x80 {
      assert 2 <= c / 0x40 < 0x20;
    }
  }

  lemma EncodedThree(c: scalar, rest: bytes)
    requires 0x800 <= c < 0x1_0000
    ensures Utf8Scalar(EncodeScalar(c) + rest) == |EncodeScalar(c)| == 3
    ensures DecodeScalar(EncodeScalar(c) + rest, 3) == c
  {
    StartsAs(EncodeScalar(c), rest);
    Recombined(c);
    hide Two, Three, Four;
    LeadOfThree(c);
  }

  lemma LeadOfThree(c: scalar)
    requires 0x800 <= c < 0x1_0000
    ensures c / 0x1000 < 0x10 && (c / 0x1000 == 0 ==> c / 0x40 % 0x40 >= 0x20)
    ensures c / 0x1000 == 0xD ==> c / 0x40 % 0x40 < 0x20
  {
    assert Scalar(c);
    assert c / 0x40 / 0x40 == c / 0x1000;
  }

  lemma EncodedFour(c: scalar, rest: bytes)
    requires c >= 0x1_0000
    ensures Utf8Scalar(EncodeScalar(c) + rest) == |EncodeScalar(c)| == 4
    ensures DecodeScalar(EncodeScalar(c) + rest, 4) == c
  {
    StartsAs(EncodeScalar(c), rest);
    Recombined(c);
    hide Two, Three, Four;
    LeadOfFour(c);
  }

  lemma LeadOfFour(c: scalar)
    requires c >= 0x1_0000
    ensures c / 0x4_0000 <= 4 && (c / 0x4_0000 == 0 ==> c / 0x1000 % 0x40 >= 0x10)
    ensures c / 0x4_0000 == 4 ==> c / 0x1000 % 0x40 < 0x10
  {
    assert Scalar(c);
    assert c / 0x1000 / 0x40 == c / 0x4_0000;
  }

  lemma EncodedLength(c: scalar, rest: bytes)
    ensures Utf8Scalar(EncodeScalar(c) + rest) == |EncodeScalar(c)|
    ensures DecodeScalar(EncodeScalar(c) + rest, |EncodeScalar(c)|) == c
  {
    hide Utf8Scalar, DecodeScalar, EncodeScalar;
    if c < 0x800 {
      EncodedShort(c, rest);
    } else if c < 0x1_0000 {
      EncodedThree(c, rest);
    } else {
      EncodedFour(c, rest);
    }
  }

  lemma DecodedShort(s: bytes)
    requires s != [] && 1 <= Utf8Scalar(s) <= 2
    ensures |s| >= Utf8Scalar(s)
    ensures var c := DecodeScalar(s, Utf8Scalar(s)); c >= 0 && Scalar(c) && EncodeScalar(c) == s[..Utf8Scalar(s)]
  {
    hide Three, Four;
    if Utf8Scalar(s) == 2 {
      TwoParts(s[0] as int - 0xC0, s[1] as int - 0x80);
    }
  }

  lemma DecodedThree(s: bytes)
    requires s != [] && Utf8Scalar(s) == 3
    ensures |s| >= 3 && var c := DecodeScalar(s, 3); c >= 0 && Scalar(c) && EncodeScalar(c) == s[..3]
  {
    var a, b, d := s[0] as int - 0xE0, s[1] as int - 0x80, s[2] as int - 0x80;
    ThreeParts(a, b, d);
    assert 0x800 <= Three(a, b, d) < 0x1_0000 && Scalar(Three(a, b, d));
    hide Two, Three, Four;
  }

  lemma DecodedFour(s: bytes)
    requires s != [] && Utf8Scalar(s) == 4
    ensures |s| >= 4 && var c := DecodeScalar(s, 4); c >= 0 && Scalar(c) && EncodeScalar(c) == s[..4]
  {
    var a, b, c, d := s[0] as int - 0xF0, s[1] as int - 0x80, s[2] as int - 0x80, s[3] as int - 0x80;
    FourParts(a, b, c, d);
    assert 0x1_0000 <= Four(a, b, c, d) <= 0x10FFFF;
    hide Two, Three, Four;
  }

  lemma DecodedIsEncoded(s: bytes)
    requires s != [] && Utf8Scalar(s) > 0
    ensures 1 <= Utf8Scalar(s) <= 4 && Utf8Scalar(s) <= |s|
    ensures var c := DecodeScalar(s, Utf8Scalar(s)); c >= 0 && Scalar(c) && EncodeScalar(c) == s[..Utf8Scalar(s)]
  {
    LengthCases(s);
    hide Utf8Scalar, DecodeScalar, EncodeScalar;
    if Utf8Scalar(s) <= 2 {
      DecodedShort(s);
    } else if Utf8Scalar(s) == 3 {
      DecodedThree(s);
    } else {
      DecodedFour(s);
    }
  }

  lemma LengthCases(s: bytes)
    requires s != []
    ensures Utf8Scalar(s) <= 4 && Utf8Scalar(s) <= |s|
  {
  }

  lemma {:induction false} EncodedIsValid(cs: seq<scalar>)
    ensures ValidUtf8(Encode(cs))
  {
    hide EncodeScalar, Utf8Scalar;
    if cs != [] {
      EncodedIsValid(cs[1..]);
      EncodedLength(cs[0], Encode(cs[1..]));
      assert (EncodeScalar(cs[0]) + Encode(cs[1..]))[|EncodeScalar(cs[0])|..] == Encode(cs[1..]);
    }
  }

  lemma {:induction false} ValidIsEncoded(s: bytes) returns (cs: seq<scalar>)
    requires ValidUtf8(s)
    ensures Encode(cs) == s
    decreases |s|
  {
    hide EncodeScalar, Utf8Scalar, DecodeScalar;
    if s == [] {
      cs := [];
    } else {
      DecodedIsEncoded(s);
      var n := Utf8Scalar(s);
      var rest := ValidIsEncoded(s[n..]);
      cs := [DecodeScalar(s, n)] + rest;
      assert cs[1..] == rest && s == s[..n] + s[n..];
    }
  }

  /** The strings of the model are exactly the encodings of sequences of scalar values. */
  lemma ValidExactly(s: bytes)
    ensures ValidUtf8(s) <==> exists cs: seq<scalar> :: Encode(cs) == s
  {
    hide Encode, ValidUtf8;
    if ValidUtf8(s) {
      var cs := ValidIsEncoded(s);
    }
    if cs: seq<scalar> :| Encode(cs) == s {
      EncodedIsValid(cs);
    }
  }

  lemma FirstScalar(c: scalar, s: bytes, d: scalar, t: bytes)
    requires EncodeScalar(c) + s == EncodeScalar(d) + t
    ensures c == d && s == t
  {
    hide EncodeScalar, Utf8Scalar, DecodeScalar;
    EncodedLength(c, s);
    EncodedLength(d, t);
    var n := |EncodeScalar(c)|;
    assert s == (EncodeScalar(c) + s)[n..] && t == (EncodeScalar(d) + t)[n..];
  }

  /** One string is one sequence of scalar values. */
  lemma {:induction false} EncodeInjective(a: seq<scalar>, b: seq<scalar>)
    requires Encode(a) == Encode(b)
    ensures a == b
  {
    hide EncodeScalar;
    if a != [] && b != [] {
      FirstScalar(a[0], Encode(a[1..]), b[0], Encode(b[1..]));
      EncodeInjective(a[1..], b[1..]);
      assert a == [a[0]] + a[1..] && b == [b[0]] + b[1..];
    }
  }

  // ---------------------------------------------------------------- the order by code point

  /** Python's `<` on strings. */
  predicate PointLess(a: seq<scalar>, b: seq<scalar>) {
    b != [] && (a == [] || a[0] < b[0] || (a[0] == b[0] && PointLess(a[1..], b[1..])))
  }

  lemma FirstByteLess(s: bytes, t: bytes)
    requires s != [] && t != [] && s[0] < t[0]
    ensures LexLess(s, t)
  {
  }

  lemma LaterByteLess(x: byte, s: bytes, t: bytes)
    requires LexLess(s, t)
    ensures LexLess([x] + s, [x] + t)
  {
    LexCommonPrefix([x], s, t);
  }

  lemma LeadBytes(c: scalar)
    ensures c < 0x80 ==> EncodeScalar(c)[0] < 0x80
    ensures 0x80 <= c < 0x800 ==> 0xC0 <= EncodeScalar(c)[0] < 0xE0
    ensures 0x800 <= c < 0x1_0000 ==> 0xE0 <= EncodeScalar(c)[0] < 0xF0
    ensures c >= 0x1_0000 ==> 0xF0 <= EncodeScalar(c)[0]
  {
  }

  function Class(c: scalar): nat {
    if c < 0x80 then 1 else if c < 0x800 then 2 else if c < 0x1_0000 then 3 else 4
  }

  lemma SameClass(c: scalar, d: scalar)
    requires c < d && Class(c) == Class(d)
    ensures |EncodeScalar(c)| == |EncodeScalar(d)| && LexLess(EncodeScalar(c), EncodeScalar(d))
  {
    hide Two, Three, Four;
    Recombined(c);
    Recombined(d);
    if Class(c) == 2 {
      TwoOrder(c / 0x40, c % 0x40, d / 0x40, d % 0x40, 0xC0);
    } else if Class(c) == 3 {
      ThreeOrder(c / 0x1000, c / 0x40 % 0x40, c % 0x40, d / 0x1000, d / 0x40 % 0x40, d % 0x40, 0xE0);
    } else if Class(c) == 4 {
      assert Scalar(c) && Scalar(d) && c / 0x4_0000 <= 4 && d / 0x4_0000 <= 4;
      FourOrder(c / 0x4_0000, c / 0x1000 % 0x40, c / 0x40 % 0x40, c % 0x40,
                d / 0x4_0000, d / 0x1000 % 0x40, d / 0x40 % 0x40, d % 0x40);
    }
  }

  lemma TwoOrder(a: nat, b: nat, x: nat, y: nat, base: byte)
    requires b < 0x40 && y < 0x40 && Two(a, b) < Two(x, y) && base + a < 0x100 && base + x < 0x100
    ensures LexLess([base + a, 0x80 + b], [base + x, 0x80 + y])
  {
    if a == x {
      FirstByteLess([0x80 + b], [0x80 + y]);
      LaterByteLess(base + a, [0x80 + b], [0x80 + y]);
      assert [base + a] + [0x80 + b] == [base + a, 0x80 + b] && [base + x] + [0x80 + y] == [base + x, 0x80 + y];
    }
  }

  lemma ThreeOrder(a: nat, b: nat, c: nat, x: nat, y: nat, z: nat, base: byte)
    requires b < 0x40 && c < 0x40 && y < 0x40 && z < 0x40 && Three(a, b, c) < Three(x, y, z)
    requires base + a < 0x100 && base + x < 0x100
    ensures LexLess([base + a, 0x80 + b, 0x80 + c], [base + x, 0x80 + y, 0x80 + z])
  {
    if a == x {
      TwoOrder(b, c, y, z, 0x80);
      LaterByteLess(base + a, [0x80 + b, 0x80 + c], [0x80 + y, 0x80 + z]);
      assert [base + a] + [0x80 + b, 0x80 + c] == [base + a, 0x80 + b, 0x80 + c];
      assert [base + x] + [0x80 + y, 0x80 + z] == [base + x, 0x80 + y, 0x80 + z];
    }
  }

  lemma FourOrder(a: nat, b: nat, c: nat, d: nat, w: nat, x: nat, y: nat, z: nat)
    requires a <= 4 && b < 0x40 && c < 0x40 && d < 0x40 && w <= 4 && x < 0x40 && y < 0x40 && z < 0x40
    requires Four(a, b, c, d) < Four(w, x, y, z)
    ensures LexLess([0xF0 + a, 0x80 + b, 0x80 + c, 0x80 + d], [0xF0 + w, 0x80 + x, 0x80 + y, 0x80 + z])
  {
    if a == w {
      ThreeOrder(b, c, d, x, y, z, 0x80);
      LaterByteLess(0xF0 + a, [0x80 + b, 0x80 + c, 0x80 + d], [0x80 + x, 0x80 + y, 0x80 + z]);
      assert [0xF0 + a] + [0x80 + b, 0x80 + c, 0x80 + d] == [0xF0 + a, 0x80 + b, 0x80 + c, 0x80 + d];
      assert [0xF0 + w] + [0x80 + x, 0x80 + y, 0x80 + z] == [0xF0 + w, 0x80 + x, 0x80 + y, 0x80 + z];
    }
  }

  lemma ScalarOrder(c: scalar, d: scalar, s: bytes, t: bytes)
    requires c < d
    ensures LexLess(EncodeScalar(c) + s, EncodeScalar(d) + t)
  {
    hide EncodeScalar, LexLess;
    if Class(c) == Class(d) {
      SameClass(c, d);
      LexExtends(EncodeScalar(c), EncodeScalar(d), s, t);
    } else {
      LeadBytes(c);
      LeadBytes(d);
      StartsAs(EncodeScalar(c), s);
      StartsAs(EncodeScalar(d), t);
      FirstByteLess(EncodeScalar(c) + s, EncodeScalar(d) + t);
    }
  }

  /** Strings compare by code point as their UTF-8 compares by byte: the order of `sort_keys` in Python is that of a
      `BTreeMap` in Rust. */
  lemma {:induction false} SameOrder(a: seq<scalar>, b: seq<scalar>)
    ensures PointLess(a, b) <==> LexLess(Encode(a), Encode(b))
  {
    hide EncodeScalar, LexLess;
    if a == [] || b == [] {
      EmptyOrder(Encode(a), Encode(b));
    } else if a[0] == b[0] {
      LexCommonPrefix(EncodeScalar(a[0]), Encode(a[1..]), Encode(b[1..]));
      SameOrder(a[1..], b[1..]);
    } else if a[0] < b[0] {
      ScalarOrder(a[0], b[0], Encode(a[1..]), Encode(b[1..]));
    } else {
      ScalarOrder(b[0], a[0], Encode(b[1..]), Encode(a[1..]));
      LexAsymmetric(Encode(b), Encode(a));
    }
  }

  lemma EmptyOrder(s: bytes, t: bytes)
    ensures s == [] ==> (LexLess(s, t) <==> t != [])
    ensures t == [] ==> !LexLess(s, t)
  {
  }
}
