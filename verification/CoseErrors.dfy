/** Which error a header, an entry or an envelope of the right shape but with a wrong part is refused with. */
module CoseErrors {
  import opened Bytes
  import opened CborExamples
  import opened CborHeads
  import opened CborValues
  import opened LenientDecoder
  import opened Results
  import opened Cose
  import opened CoseEnvelope

  /** A map of two entries with integer labels. */
  function Header(a: int, x: bytes, b: int, y: bytes): bytes {
    [0xA2] + (EncodeInt(a) + (x + (EncodeInt(b) + y)))
  }

  lemma HeaderAt(a: int, x: bytes, b: int, y: bytes)
    ensures var s := Header(a, x, b, y);
            var p1 := 1 + |EncodeInt(a)|;
            var p2 := p1 + |x|;
            var p3 := p2 + |EncodeInt(b)|;
            && At(s, 0, EncodeHead(5, 2)) && |EncodeHead(5, 2)| == 1 && At(s, 1, EncodeInt(a)) && At(s, p1, x)
            && At(s, p2, EncodeInt(b)) && At(s, p3, y) && |s| == p3 + |y|
  {
    HeaderIs(a, x, b, y);
    hide *;
    ShortHead(5, 2);
    AtStart(Header(a, x, b, y));
    AtFive(Header(a, x, b, y), 0, [0xA2], EncodeInt(a), x, EncodeInt(b), y);
  }

  lemma HeaderIs(a: int, x: bytes, b: int, y: bytes)
    ensures Header(a, x, b, y) == [0xA2] + (EncodeInt(a) + (x + (EncodeInt(b) + y)))
    ensures |Header(a, x, b, y)| == 1 + |EncodeInt(a)| + |x| + |EncodeInt(b)| + |y|
  {
    hide EncodeInt;
  }

  lemma LabelRead(s: bytes, pos: nat, n: int, expected: int)
    requires -100 <= n <= 100 && At(s, pos, EncodeInt(n))
    ensures pos <= |s|
    ensures TakeInt(s, pos) == Some(Step(n, pos + |EncodeInt(n)|))
    ensures ReadLabel(s, pos, expected) == if n == expected then Ok(pos + |EncodeInt(n)|) else Err(UnsupportedHeader)
  {
    TakeIntBack(s, pos, n);
    hide TakeInt, EncodeInt;
  }

  // ---------------------------------------------------------------- protected headers

  lemma BodySteps(s: bytes, limits: CborLimits, p1: nat, r1: Result<nat, CoseError>, t: Text, p2: nat,
                  r2: Result<nat, CoseError>, u: Text)
    requires 1 <= |s| && p1 <= |s| && p2 <= |s| && ReadMapLength(s, 0) == Ok(Step(2, 1))
    requires ReadLabel(s, 1, 3) == r1 && (r1.Ok? ==> r1.value == p1)
    requires ReadText(s, p1, limits.maxStringBytes) == Ok(Step(t, p2)) && ReadLabel(s, p2, 16) == r2
    requires r2.Ok? ==> r2.value <= |s| && ReadText(s, r2.value, limits.maxStringBytes) == Ok(Step(u, |s|))
    ensures r1.Err? ==> ValidateBodyProtected(s, limits) == Err(r1.error)
    ensures r1.Ok? && t != ContentType() ==> ValidateBodyProtected(s, limits) == Err(InvalidContentType)
    ensures r1.Ok? && t == ContentType() && r2.Err? ==> ValidateBodyProtected(s, limits) == Err(r2.error)
    ensures r1.Ok? && t == ContentType() && r2.Ok? && u != EnvelopeType() ==>
              ValidateBodyProtected(s, limits) == Err(InvalidType)
  {
    hide ReadMapLength, ReadLabel, ReadText, EncodeBodyProtected, ContentType, EnvelopeType;
  }

  /** A body header with two texts: labels other than 3 and 16, another content type, another envelope type. */
  lemma BodyHeaderRefused(a: int, t: Text, b: int, u: Text, limits: CborLimits)
    requires -100 <= a <= 100 && -100 <= b <= 100 && |t| <= limits.maxStringBytes && |u| <= limits.maxStringBytes
    ensures var r := ValidateBodyProtected(Header(a, EncodeText(t), b, EncodeText(u)), limits);
            && (a != 3 ==> r == Err(UnsupportedHeader))
            && (a == 3 && t != Ascii("application/tfws+cbor") ==> r == Err(InvalidContentType))
            && (a == 3 && t == Ascii("application/tfws+cbor") && b != 16 ==> r == Err(UnsupportedHeader))
            && (a == 3 && t == Ascii("application/tfws+cbor") && b == 16 ==>
                  u != Ascii("application/cose; cose-type=\"cose-sign\"") ==> r == Err(InvalidType))
  {
    hide Header, At, EncodeInt, EncodeText, EncodeHead, ReadMapLength, ReadLabel, ReadText, ValidateBodyProtected;
    hide Ascii, ValidUtf8;
    var s := Header(a, EncodeText(t), b, EncodeText(u));
    var p1 := 1 + |EncodeInt(a)|;
    var p2 := p1 + |EncodeText(t)|;
    var p3 := p2 + |EncodeInt(b)|;
    HeaderAt(a, EncodeText(t), b, EncodeText(u));
    MapLengthBack(s, 0, 2);
    LabelRead(s, 1, a, 3);
    ReadTextBack(s, p1, t, limits.maxStringBytes);
    LabelRead(s, p2, b, 16);
    ReadTextBack(s, p3, u, limits.maxStringBytes);
    BodySteps(s, limits, p1, ReadLabel(s, 1, 3), t, p2, ReadLabel(s, p2, 16), u);
  }

  lemma SignatureSteps(s: bytes, algorithm: CoseAlgorithm, limits: CborLimits, r1: Result<nat, CoseError>, p1: nat,
                       n: int, p2: nat, r2: Result<nat, CoseError>, kid: bytes)
    requires 1 <= |s| && p1 <= |s| && p2 <= |s| && ReadMapLength(s, 0) == Ok(Step(2, 1))
    requires ReadLabel(s, 1, 1) == r1 && (r1.Ok? ==> r1.value == p1)
    requires TakeInt(s, p1) == Some(Step(n, p2)) && ReadLabel(s, p2, 4) == r2
    requires r2.Ok? ==> r2.value <= |s| && ReadBytes(s, r2.value, limits.maxStringBytes) == Ok(Step(kid, |s|))
    ensures r1.Err? ==> ValidateSignatureProtected(s, algorithm, limits) == Err(r1.error)
    ensures r1.Ok? && n != algorithm.CoseValue() ==>
              ValidateSignatureProtected(s, algorithm, limits) == Err(InvalidAlgorithm)
    ensures r1.Ok? && n == algorithm.CoseValue() && r2.Err? ==>
              ValidateSignatureProtected(s, algorithm, limits) == Err(r2.error)
    ensures r1.Ok? && n == algorithm.CoseValue() && r2.Ok? && (kid == [] || !ValidUtf8(kid)) ==>
              ValidateSignatureProtected(s, algorithm, limits) == Err(InvalidKid)
  {
    hide ReadMapLength, ReadLabel, TakeInt, ReadBytes, EncodeSignatureProtected, ValidUtf8, CoseAlgorithm.CoseValue;
  }

  /** A signature header: labels other than 1 and 4, the algorithm of another place, an unusable key identifier. */
  lemma SignatureHeaderRefused(a: int, n: int, b: int, kid: bytes, algorithm: CoseAlgorithm, limits: CborLimits)
    requires -100 <= a <= 100 && -100 <= n <= 100 && -100 <= b <= 100 && |kid| <= limits.maxStringBytes
    ensures var r := ValidateSignatureProtected(Header(a, EncodeInt(n), b, EncodeBytes(kid)), algorithm, limits);
            var expected := if algorithm.Ed25519? then -19 else -49;
            && (a != 1 ==> r == Err(UnsupportedHeader))
            && (a == 1 && n != expected ==> r == Err(InvalidAlgorithm))
            && (a == 1 && n == expected && b != 4 ==> r == Err(UnsupportedHeader))
            && (a == 1 && n == expected && b == 4 && (kid == [] || !ValidUtf8(kid)) ==> r == Err(InvalidKid))
  {
    hide Header, At, EncodeInt, EncodeBytes, EncodeHead, ReadMapLength, ReadLabel, TakeInt, ReadBytes,
         ValidateSignatureProtected, ValidUtf8;
    var s := Header(a, EncodeInt(n), b, EncodeBytes(kid));
    var p1 := 1 + |EncodeInt(a)|;
    var p2 := p1 + |EncodeInt(n)|;
    var p3 := p2 + |EncodeInt(b)|;
    HeaderAt(a, EncodeInt(n), b, EncodeBytes(kid));
    MapLengthBack(s, 0, 2);
    LabelRead(s, 1, a, 1);
    LabelRead(s, p1, n, 1);
    LabelRead(s, p2, b, 4);
    ReadBytesBack(s, p3, kid, limits.maxStringBytes);
    SignatureSteps(s, algorithm, limits, ReadLabel(s, 1, 1), p1, n, p2, ReadLabel(s, p2, 4), kid);
  }

  // ---------------------------------------------------------------- entries and envelopes

  lemma EntrySteps(s: bytes, pos: nat, protected: bytes, signature: bytes, algorithm: CoseAlgorithm, limits: CborLimits,
                   p1: nat, p2: nat, p3: nat, p4: nat)
    requires pos <= |s| && p1 <= |s| && p2 <= |s| && p3 <= |s| && ExpectArray(s, pos, 3) == Ok(p1)
    requires ReadBytes(s, p1, limits.maxStringBytes) == Ok(Step(protected, p2)) && ExpectEmptyMap(s, p2) == Ok(p3)
    requires ReadBytes(s, p3, limits.maxStringBytes) == Ok(Step(signature, p4))
    ensures var header := ValidateSignatureProtected(protected, algorithm, limits);
            var r := ParseSignature(s, pos, algorithm, limits);
            && (header.Err? ==> r == Err(header.error))
            && (header.Ok? && |signature| != algorithm.SignatureLength() ==> r == Err(SignatureInvalid))
  {
    hide ExpectArray, ReadBytes, ValidateSignatureProtected, ExpectEmptyMap, CoseAlgorithm.SignatureLength;
  }

  /** A signature entry with a refused header gets the error of the header; one with a signature of another length than
      64 or 3309 bytes is an invalid signature. */
  lemma EntryRefused(s: bytes, pos: nat, protected: bytes, signature: bytes, algorithm: CoseAlgorithm,
          limits: CborLimits)
    requires At(s, pos, EncodeEntry(protected, signature))
    requires |protected| <= limits.maxStringBytes && |signature| <= limits.maxStringBytes
    ensures pos <= |s|
    ensures var header := ValidateSignatureProtected(protected, algorithm, limits);
            var r := ParseSignature(s, pos, algorithm, limits);
            && (header.Err? ==> r == Err(header.error))
            && (header.Ok? && |signature| != (if algorithm.Ed25519? then 64 else 3309) ==> r == Err(SignatureInvalid))
  {
    EntryShape(protected, signature);
    Lengths(algorithm);
    hide *;
    var h, pr, m, sg := EncodeHead(4, 3), EncodeBytes(protected), EncodeHead(5, 0), EncodeBytes(signature);
    AtFour(s, pos, h, pr, m, sg);
    ExpectArrayBack(s, pos, 3);
    ReadBytesBack(s, pos + |h|, protected, limits.maxStringBytes);
    MapLengthBack(s, pos + |h| + |pr|, 0);
    ReadBytesBack(s, pos + |h| + |pr| + |m|, signature, limits.maxStringBytes);
    EntrySteps(s, pos, protected, signature, algorithm, limits, pos + |h|, pos + |h| + |pr|, pos + |h| + |pr| + |m|,
               pos + |h| + |pr| + |m| + |sg|);
  }

  lemma EntryShape(protected: bytes, signature: bytes)
    ensures EncodeEntry(protected, signature) ==
            EncodeHead(4, 3) + (EncodeBytes(protected) + (EncodeHead(5, 0) + EncodeBytes(signature)))
  {
    hide EncodeBytes, EncodeHead;
  }

  lemma Lengths(algorithm: CoseAlgorithm)
    ensures algorithm.SignatureLength() == if algorithm.Ed25519? then 64 else 3309
  {
  }

  lemma BodyFails(s: bytes, body: bytes, limits: CborLimits, p1: nat, p2: nat)
    requires p1 <= |s| && ExpectArray(s, 0, 4) == Ok(p1)
    requires ReadBytes(s, p1, limits.maxStringBytes) == Ok(Step(body, p2))
    requires ValidateBodyProtected(body, limits).Err?
    ensures ParseOuter(s, limits) == Err(ValidateBodyProtected(body, limits).error)
  {
    hide ExpectArray, ReadBytes, ValidateBodyProtected, ExpectEmptyMap, ParseSignature;
  }

  /** Whatever follows it, a refused body header refuses the envelope, with its own error. */
  lemma BodyRefused(body: bytes, rest: bytes, limits: CoseLimits)
    requires limits.cbor.maxDepth >= 4 && limits.cbor.maxArrayItems >= 4 && limits.cbor.maxMapPairs >= 2
    requires |body| <= limits.cbor.maxStringBytes && ValidateBodyProtected(body, limits.cbor).Err?
    requires |[0xD8, 0x62, 0x84] + (EncodeBytes(body) + rest)| <= limits.maxEnvelopeBytes
    ensures ParseEnvelope([0xD8, 0x62, 0x84] + (EncodeBytes(body) + rest), limits)
         == Err(ValidateBodyProtected(body, limits.cbor).error)
  {
    hide ParseOuter, Reencode, At, EncodeBytes, EncodeHead, ExpectArray, ReadBytes, ValidateBodyProtected;
    var input := [0xD8, 0x62, 0x84] + (EncodeBytes(body) + rest);
    var s := [0x84] + (EncodeBytes(body) + rest);
    assert input[2..] == s && input[..2] == TAG;
    ShortHead(4, 4);
    AtStart(s);
    AtSplit(s, 0, [0x84], EncodeBytes(body) + rest);
    AtSplit(s, 1, EncodeBytes(body), rest);
    ExpectArrayBack(s, 0, 4);
    ReadBytesBack(s, 1, body, limits.cbor.maxStringBytes);
    BodyFails(s, body, limits.cbor, 1, 1 + |EncodeBytes(body)|);
  }
}
