/** Exactly which byte strings `parse_envelope` accepts, and what it returns for them. */
module CoseEnvelope {
  import opened Bytes
  import opened CborHeads
  import opened CborValues
  import opened LenientDecoder
  import opened Results
  import opened Cose

  // ---------------------------------------------------------------- what is printed can be read

  lemma AtSplit(s: bytes, pos: nat, a: bytes, b: bytes)
    requires At(s, pos, a + b)
    ensures pos + |a| <= |s| && At(s, pos, a) && At(s, pos + |a|, b)
  {
    AtConcat(s, pos, a, b);
  }

  function TypeOfMajor(major: nat): ItemType
    requires 2 <= major <= 5
  {
    if major == 2 then BytesItem else if major == 3 then StringItem else if major == 4 then ArrayItem else MapItem
  }

  lemma PeekHead(s: bytes, pos: nat, major: nat, n: nat)
    requires 2 <= major <= 5 && n <= MAX_ARGUMENT && At(s, pos, EncodeHead(major, n))
    ensures PeekType(s, pos) == Ok(TypeOfMajor(major))
    ensures TakeHead(s, pos) == Ok(Head(major, n, pos + |EncodeHead(major, n)|))
  {
    ReadsEncodedHead(s, pos, major, n);
    assert s[pos] == s[pos..pos + |EncodeHead(major, n)|][0];
    hide ReadHead;
  }

  lemma ExpectHeadBack(s: bytes, pos: nat, major: nat, n: nat, indefinite: byte)
    requires 2 <= major <= 5 && n <= MAX_ARGUMENT && At(s, pos, EncodeHead(major, n))
    ensures ExpectHead(s, pos, TypeOfMajor(major), indefinite) == Ok(Step(n, pos + |EncodeHead(major, n)|))
  {
    PeekHead(s, pos, major, n);
    hide PeekType, TakeHead, EncodeHead;
  }

  lemma ExpectArrayBack(s: bytes, pos: nat, n: nat)
    requires n <= 4 && At(s, pos, EncodeHead(4, n))
    ensures ExpectArray(s, pos, n) == Ok(pos + |EncodeHead(4, n)|)
  {
    ExpectHeadBack(s, pos, 4, n, 0x9F);
    hide ExpectHead, EncodeHead;
  }

  lemma MapLengthBack(s: bytes, pos: nat, n: nat)
    requires n <= 2 && At(s, pos, EncodeHead(5, n))
    ensures ReadMapLength(s, pos) == Ok(Step(n, pos + |EncodeHead(5, n)|))
    ensures n == 0 ==> ExpectEmptyMap(s, pos) == Ok(pos + |EncodeHead(5, n)|)
  {
    ExpectHeadBack(s, pos, 5, n, 0xBF);
    hide ExpectHead, EncodeHead;
  }

  lemma ReadBytesBack(s: bytes, pos: nat, raw: bytes, maximum: usize)
    requires At(s, pos, EncodeBytes(raw)) && |raw| <= maximum
    ensures ReadBytes(s, pos, maximum) == Ok(Step(raw, pos + |EncodeBytes(raw)|))
  {
    hide ExpectHead, EncodeHead;
    var h := EncodeHead(2, |raw|);
    AtSplit(s, pos, h, raw);
    ExpectHeadBack(s, pos, 2, |raw|, 0x5F);
  }

  lemma ReadTextBack(s: bytes, pos: nat, t: Text, maximum: usize)
    requires At(s, pos, EncodeText(t)) && |t| <= maximum
    ensures ReadText(s, pos, maximum) == Ok(Step(t, pos + |EncodeText(t)|))
  {
    hide ExpectHead, EncodeHead, ValidUtf8;
    var h := EncodeHead(3, |t|);
    AtSplit(s, pos, h, t);
    ExpectHeadBack(s, pos, 3, |t|, 0x7F);
  }

  lemma TakeIntBack(s: bytes, pos: nat, n: int)
    requires -100 <= n <= 100 && At(s, pos, EncodeInt(n))
    ensures TakeInt(s, pos) == Some(Step(n, pos + |EncodeInt(n)|))
    ensures ReadLabel(s, pos, n) == Ok(pos + |EncodeInt(n)|)
  {
    ReadsEncodedHead(s, pos, if n >= 0 then 0 else 1, if n >= 0 then n else -1 - n);
    hide ReadHead, EncodeHead;
  }

  // ---------------------------------------------------------------- protected headers

  lemma AtFive(s: bytes, pos: nat, a: bytes, b: bytes, c: bytes, d: bytes, e: bytes)
    requires At(s, pos, a + (b + (c + (d + e))))
    ensures pos + |a| + |b| + |c| + |d| + |e| <= |s|
    ensures At(s, pos, a) && At(s, pos + |a|, b) && At(s, pos + |a| + |b|, c)
    ensures At(s, pos + |a| + |b| + |c|, d) && At(s, pos + |a| + |b| + |c| + |d|, e)
  {
    hide *;
    AtSplit(s, pos, a, b + (c + (d + e)));
    AtSplit(s, pos + |a|, b, c + (d + e));
    AtSplit(s, pos + |a| + |b|, c, d + e);
    AtSplit(s, pos + |a| + |b| + |c|, d, e);
    AtMeans(s, pos + |a| + |b| + |c| + |d|, e);
  }

  lemma AtStart(s: bytes)
    ensures At(s, 0, s)
  {
    assert s[0..|s|] == s;
  }

  lemma BodyHeaderParts()
    ensures EncodeBodyProtected()
         == EncodeHead(5, 2) +
            (EncodeInt(3) + (EncodeText(ContentType()) + (EncodeInt(16) + EncodeText(EnvelopeType()))))
    ensures 66 == |EncodeBodyProtected()|
  {
    hide ContentType, EnvelopeType;
  }

  lemma BodyHeaderRead(s: bytes, limits: CborLimits, p1: nat, p2: nat, p3: nat, p4: nat)
    requires p1 <= |s| && p2 <= |s| && p3 <= |s| && p4 <= |s| && s == EncodeBodyProtected()
    requires ReadMapLength(s, 0) == Ok(Step(2, p1)) && ReadLabel(s, p1, 3) == Ok(p2)
    requires ReadText(s, p2, limits.maxStringBytes) == Ok(Step(ContentType(), p3)) && ReadLabel(s, p3, 16) == Ok(p4)
    requires ReadText(s, p4, limits.maxStringBytes) == Ok(Step(EnvelopeType(), |s|))
    ensures ValidateBodyProtected(s, limits) == Ok(())
  {
    hide ReadMapLength, ReadLabel, ReadText, EncodeBodyProtected, ContentType, EnvelopeType;
  }

  lemma BodyHeaderBack(limits: CborLimits)
    requires limits.maxStringBytes >= 39
    ensures ValidateBodyProtected(EncodeBodyProtected(), limits) == Ok(())
  {
    hide *;
    var s := EncodeBodyProtected();
    var h, l3, ct, l16, ty := EncodeHead(5, 2), EncodeInt(3), EncodeText(ContentType()), EncodeInt(16),
        EncodeText(EnvelopeType());
    BodyHeaderParts();
    AtStart(s);
    AtFive(s, 0, h, l3, ct, l16, ty);
    MapLengthBack(s, 0, 2);
    TakeIntBack(s, |h|, 3);
    ReadTextBack(s, |h| + |l3|, ContentType(), limits.maxStringBytes);
    TakeIntBack(s, |h| + |l3| + |ct|, 16);
    ReadTextBack(s, |h| + |l3| + |ct| + |l16|, EnvelopeType(), limits.maxStringBytes);
    BodyHeaderRead(s, limits, |h|, |h| + |l3|, |h| + |l3| + |ct|, |h| + |l3| + |ct| + |l16|);
  }

  lemma SignatureHeaderParts(algorithm: CoseAlgorithm, kid: bytes)
    ensures EncodeSignatureProtected(algorithm, kid)
         == EncodeHead(5, 2) + (EncodeInt(1) + (EncodeInt(algorithm.CoseValue()) + (EncodeInt(4) + EncodeBytes(kid))))
    ensures -100 <= algorithm.CoseValue() <= 100
    ensures |EncodeSignatureProtected(algorithm, kid)|
        == |EncodeHead(2, |kid|)| + |kid| + (if algorithm.Ed25519? then 4 else 5)
  {
  }

  lemma SignatureHeaderRead(s: bytes, algorithm: CoseAlgorithm, kid: bytes, limits: CborLimits, p1: nat, p2: nat,
          p3: nat, p4: nat)
    requires p1 <= |s| && p2 <= |s| && p3 <= |s| && p4 <= |s| && s == EncodeSignatureProtected(algorithm, kid)
    requires ReadMapLength(s, 0) == Ok(Step(2, p1)) && ReadLabel(s, p1, 1) == Ok(p2)
    requires TakeInt(s, p2) == Some(Step(algorithm.CoseValue(), p3)) && ReadLabel(s, p3, 4) == Ok(p4)
    requires ReadBytes(s, p4, limits.maxStringBytes) == Ok(Step(kid, |s|)) && kid != [] && ValidUtf8(kid)
    ensures ValidateSignatureProtected(s, algorithm, limits) == Ok(kid)
  {
    hide ReadMapLength, ReadLabel, TakeInt, ReadBytes, EncodeSignatureProtected, ValidUtf8, CoseAlgorithm.CoseValue;
  }

  lemma SignatureHeaderBack(algorithm: CoseAlgorithm, kid: bytes, limits: CborLimits)
    requires kid != [] && ValidUtf8(kid) && |kid| <= limits.maxStringBytes
    ensures ValidateSignatureProtected(EncodeSignatureProtected(algorithm, kid), algorithm, limits) == Ok(kid)
  {
    hide *;
    var s := EncodeSignatureProtected(algorithm, kid);
    var h, l1, alg, l4, k := EncodeHead(5, 2), EncodeInt(1), EncodeInt(algorithm.CoseValue()), EncodeInt(4),
        EncodeBytes(kid);
    SignatureHeaderParts(algorithm, kid);
    AtStart(s);
    AtFive(s, 0, h, l1, alg, l4, k);
    MapLengthBack(s, 0, 2);
    TakeIntBack(s, |h|, 1);
    TakeIntBack(s, |h| + |l1|, algorithm.CoseValue());
    TakeIntBack(s, |h| + |l1| + |alg|, 4);
    ReadBytesBack(s, |h| + |l1| + |alg| + |l4|, kid, limits.maxStringBytes);
    SignatureHeaderRead(s, algorithm, kid, limits, |h|, |h| + |l1|, |h| + |l1| + |alg|, |h| + |l1| + |alg| + |l4|);
  }

  /** The body header is accepted exactly when it is the fixed one and the limit admits its texts. */
  lemma BodyHeaderExactly(input: bytes, limits: CborLimits)
    ensures ValidateBodyProtected(input, limits).Ok? <==> input == EncodeBodyProtected() && limits.maxStringBytes >= 39
  {
    hide EncodeBodyProtected, ReadMapLength, ReadLabel, ContentType, EnvelopeType, ExpectHead, ValidUtf8;
    if input == EncodeBodyProtected() && limits.maxStringBytes >= 39 {
      BodyHeaderBack(limits);
    }
  }

  /** A signature header is accepted with key identifier `kid` exactly when it is the printed header
      of that identifier. */
  lemma SignatureHeaderExactly(input: bytes, algorithm: CoseAlgorithm, limits: CborLimits, kid: bytes)
    ensures ValidateSignatureProtected(input, algorithm, limits) == Ok(kid) <==>
            && input == EncodeSignatureProtected(algorithm, kid)
            && kid != [] && ValidUtf8(kid) && |kid| <= limits.maxStringBytes
  {
    hide EncodeSignatureProtected, ReadMapLength, ReadLabel, TakeInt, ExpectHead, ValidUtf8, CoseAlgorithm.CoseValue;
    if input == EncodeSignatureProtected(algorithm, kid) && kid != [] && ValidUtf8(kid)
        && |kid| <= limits.maxStringBytes {
      SignatureHeaderBack(algorithm, kid, limits);
    }
  }

  // ---------------------------------------------------------------- the envelope

  ghost predicate EntryOk(e: ParsedSignature, algorithm: CoseAlgorithm, limits: CborLimits) {
    && e.algorithm == algorithm
    && e.kid != [] && ValidUtf8(e.kid) && |e.kid| <= limits.maxStringBytes
    && e.protected == EncodeSignatureProtected(algorithm, e.kid) && |e.protected| <= limits.maxStringBytes
    && |e.signature| == algorithm.SignatureLength() <= limits.maxStringBytes
  }

  /** The parts an accepted envelope can have. */
  ghost predicate PartsOk(p: ParsedEnvelope, limits: CborLimits) {
    && p.bodyProtected == EncodeBodyProtected() && |p.bodyProtected| <= limits.maxStringBytes
    && |p.payload| <= limits.maxManifestBytes
    && |p.signatures| == 2
    && EntryOk(p.signatures[0], Ed25519, limits)
    && EntryOk(p.signatures[1], MlDsa65, limits)
  }

  function EntryOf(e: ParsedSignature): bytes {
    EncodeEntry(e.protected, e.signature)
  }

  lemma EntryParts(e: ParsedSignature)
    ensures EntryOf(e) == EncodeHead(4, 3) + (EncodeBytes(e.protected) + (EncodeHead(5, 0) + EncodeBytes(e.signature)))
  {
  }

  lemma AtFour(s: bytes, pos: nat, a: bytes, b: bytes, c: bytes, d: bytes)
    requires At(s, pos, a + (b + (c + d)))
    ensures pos + |a| + |b| + |c| + |d| == pos + |a + (b + (c + d))| <= |s|
    ensures At(s, pos, a) && At(s, pos + |a|, b) && At(s, pos + |a| + |b|, c) && At(s, pos + |a| + |b| + |c|, d)
  {
    hide *;
    AtSplit(s, pos, a, b + (c + d));
    AtSplit(s, pos + |a|, b, c + d);
    AtSplit(s, pos + |a| + |b|, c, d);
    AtMeans(s, pos + |a| + |b| + |c|, d);
  }

  lemma EntryRead(s: bytes, pos: nat, e: ParsedSignature, algorithm: CoseAlgorithm, limits: CborLimits,
                  p1: nat, p2: nat, p3: nat, p4: nat)
    requires pos <= |s| && p1 <= |s| && p2 <= |s| && p3 <= |s| && EntryOk(e, algorithm, limits)
    requires ExpectArray(s, pos, 3) == Ok(p1) && ReadBytes(s, p1, limits.maxStringBytes) == Ok(Step(e.protected, p2))
    requires ValidateSignatureProtected(e.protected, algorithm, limits) == Ok(e.kid)
    requires ExpectEmptyMap(s, p2) == Ok(p3) && ReadBytes(s, p3, limits.maxStringBytes) == Ok(Step(e.signature, p4))
    ensures ParseSignature(s, pos, algorithm, limits) == Ok(Step(e, p4))
  {
    hide ExpectArray, ReadBytes, ValidateSignatureProtected, ExpectEmptyMap, ValidUtf8, EncodeSignatureProtected;
  }

  lemma EntryMeans(e: ParsedSignature, algorithm: CoseAlgorithm, limits: CborLimits)
    requires EntryOk(e, algorithm, limits)
    ensures e.kid != [] && ValidUtf8(e.kid) && |e.kid| <= limits.maxStringBytes
    ensures e.protected == EncodeSignatureProtected(algorithm, e.kid)
    ensures |e.protected| <= limits.maxStringBytes && |e.signature| <= limits.maxStringBytes
  {
  }

  lemma EntryBack(s: bytes, pos: nat, e: ParsedSignature, algorithm: CoseAlgorithm, limits: CborLimits)
    requires EntryOk(e, algorithm, limits) && At(s, pos, EntryOf(e))
    ensures pos + |EntryOf(e)| <= |s|
    ensures ParseSignature(s, pos, algorithm, limits) == Ok(Step(e, pos + |EntryOf(e)|))
  {
    hide *;
    var h, pr, m, sg := EncodeHead(4, 3), EncodeBytes(e.protected), EncodeHead(5, 0), EncodeBytes(e.signature);
    EntryParts(e);
    EntryMeans(e, algorithm, limits);
    AtFour(s, pos, h, pr, m, sg);
    ExpectArrayBack(s, pos, 3);
    ReadBytesBack(s, pos + |h|, e.protected, limits.maxStringBytes);
    SignatureHeaderBack(algorithm, e.kid, limits);
    MapLengthBack(s, pos + |h| + |pr|, 0);
    ReadBytesBack(s, pos + |h| + |pr| + |m|, e.signature, limits.maxStringBytes);
    EntryRead(s, pos, e, algorithm, limits, pos + |h|, pos + |h| + |pr|, pos + |h| + |pr| + |m|, pos + |EntryOf(e)|);
  }

  lemma OuterRead(s: bytes, p: ParsedEnvelope, limits: CborLimits, p1: nat, p2: nat, p3: nat, p4: nat, p5: nat, p6: nat,
                  p7: nat)
    requires p1 <= |s| && p2 <= |s| && p3 <= |s| && p4 <= |s| && p5 <= |s| && p6 <= |s| && |p.signatures| == 2
    requires ExpectArray(s, 0, 4) == Ok(p1) && ReadBytes(s, p1, limits.maxStringBytes) == Ok(Step(p.bodyProtected, p2))
    requires ValidateBodyProtected(p.bodyProtected, limits) == Ok(()) && ExpectEmptyMap(s, p2) == Ok(p3)
    requires ReadBytes(s, p3, limits.maxManifestBytes) == Ok(Step(p.payload, p4)) && ExpectArray(s, p4, 2) == Ok(p5)
    requires ParseSignature(s, p5, Ed25519, limits) == Ok(Step(p.signatures[0], p6))
    requires ParseSignature(s, p6, MlDsa65, limits) == Ok(Step(p.signatures[1], p7))
    ensures ParseOuter(s, limits) == Ok(Step(p, p7))
  {
    hide ExpectArray, ReadBytes, ValidateBodyProtected, ExpectEmptyMap, ParseSignature;
    assert [p.signatures[0], p.signatures[1]] == p.signatures;
  }

  /** The bytes after the tag, for parts with two signatures. */
  function OuterOf(p: ParsedEnvelope): bytes
    requires |p.signatures| == 2
  {
    EncodeHead(4, 4) +
    (EncodeBytes(p.bodyProtected) +
     (EncodeHead(5, 0) +
      (EncodeBytes(p.payload) + (EncodeHead(4, 2) + (EntryOf(p.signatures[0]) + EntryOf(p.signatures[1]))))))
  }

  lemma OuterParts(p: ParsedEnvelope)
    requires |p.signatures| == 2
    ensures OuterOf(p)
         == EncodeHead(4, 4) + (EncodeBytes(p.bodyProtected) + (EncodeHead(5, 0) +
            (EncodeBytes(p.payload) + (EncodeHead(4, 2) + (EntryOf(p.signatures[0]) + EntryOf(p.signatures[1]))))))
    ensures Reencode(p) == Ok(TAG + OuterOf(p))
  {
    hide EncodeHead, EncodeBytes, EncodeEntry;
  }

  lemma PartsMean(p: ParsedEnvelope, limits: CborLimits)
    requires PartsOk(p, limits)
    ensures p.bodyProtected == EncodeBodyProtected() && |p.bodyProtected| <= limits.maxStringBytes
    ensures |p.payload| <= limits.maxManifestBytes && |p.signatures| == 2
    ensures EntryOk(p.signatures[0], Ed25519, limits) && EntryOk(p.signatures[1], MlDsa65, limits)
  {
  }

  /** The printed parts are read back, whatever follows them. */
  lemma OuterBack(s: bytes, p: ParsedEnvelope, limits: CborLimits)
    requires PartsOk(p, limits) && |p.signatures| == 2 && At(s, 0, OuterOf(p))
    ensures ParseOuter(s, limits) == Ok(Step(p, |OuterOf(p)|))
  {
    hide *;
    PartsMean(p, limits);
    OuterParts(p);
    AtMeans(s, 0, OuterOf(p));
    var h, b, m, pl, a := EncodeHead(4, 4), EncodeBytes(p.bodyProtected), EncodeHead(5, 0), EncodeBytes(p.payload),
        EncodeHead(4, 2);
    var e0, e1 := EntryOf(p.signatures[0]), EntryOf(p.signatures[1]);
    AtFive(s, 0, h, b, m, pl, a + (e0 + e1));
    var p4 := |h| + |b| + |m| + |pl|;
    AtSplit(s, p4, a, e0 + e1);
    AtSplit(s, p4 + |a|, e0, e1);
    BodyHeaderParts();
    BodyHeaderBack(limits);
    ExpectArrayBack(s, 0, 4);
    ReadBytesBack(s, |h|, p.bodyProtected, limits.maxStringBytes);
    MapLengthBack(s, |h| + |b|, 0);
    ReadBytesBack(s, |h| + |b| + |m|, p.payload, limits.maxManifestBytes);
    ExpectArrayBack(s, p4, 2);
    EntryBack(s, p4 + |a|, p.signatures[0], Ed25519, limits);
    EntryBack(s, p4 + |a| + |e0|, p.signatures[1], MlDsa65, limits);
    OuterRead(s, p, limits, |h|, |h| + |b|, |h| + |b| + |m|, p4, p4 + |a|, p4 + |a| + |e0|, |OuterOf(p)|);
  }

  /** Whatever the fixed-shape parser returns has acceptable parts. */
  lemma SignatureSound(s: bytes, pos: nat, algorithm: CoseAlgorithm, limits: CborLimits)
    requires pos <= |s| && ParseSignature(s, pos, algorithm, limits).Ok?
    ensures EntryOk(ParseSignature(s, pos, algorithm, limits).value.value, algorithm, limits)
  {
    hide ExpectArray, ExpectHead, ValidateSignatureProtected, ExpectEmptyMap, ValidUtf8, EncodeSignatureProtected;
    var e := ParseSignature(s, pos, algorithm, limits).value.value;
    SignatureHeaderExactly(e.protected, algorithm, limits, e.kid);
  }

  lemma OuterSound(s: bytes, limits: CborLimits)
    requires ParseOuter(s, limits).Ok?
    ensures PartsOk(ParseOuter(s, limits).value.value, limits)
  {
    hide ExpectArray, ExpectHead, ValidateBodyProtected, ExpectEmptyMap, ParseSignature, EntryOk, EncodeBodyProtected;
    var afterHead := ExpectArray(s, 0, 4).value;
    var body := ReadBytes(s, afterHead, limits.maxStringBytes).value;
    BodyHeaderExactly(body.value, limits);
    var afterMap := ExpectEmptyMap(s, body.next).value;
    var payload := ReadBytes(s, afterMap, limits.maxManifestBytes).value;
    var afterArray := ExpectArray(s, payload.next, 2).value;
    var first := ParseSignature(s, afterArray, Ed25519, limits).value;
    SignatureSound(s, afterArray, Ed25519, limits);
    SignatureSound(s, first.next, MlDsa65, limits);
  }

  /** The accepted envelopes are exactly the printed ones with acceptable parts, and parsing gives
      back precisely these parts. */
  lemma ParsesExactly(input: bytes, limits: CoseLimits, p: ParsedEnvelope)
    ensures ParseEnvelope(input, limits) == Ok(p) <==>
            && ValidateShapeLimits(limits).Ok? && |input| <= limits.maxEnvelopeBytes
            && PartsOk(p, limits.cbor) && Reencode(p) == Ok(input)
  {
    hide ParseOuter, PartsOk, Reencode, ValidateShapeLimits;
    if ParseEnvelope(input, limits) == Ok(p) {
      OuterSound(input[2..], limits.cbor);
    }
    if ValidateShapeLimits(limits).Ok? && |input| <= limits.maxEnvelopeBytes && PartsOk(p, limits.cbor)
        && Reencode(p) == Ok(input) {
      PartsMean(p, limits.cbor);
      AtStart(OuterOf(p));
      OuterBack(OuterOf(p), p, limits.cbor);
      OuterParts(p);
      hide OuterOf;
      assert input[2..] == OuterOf(p) && input[..2] == TAG;
      OuterNonEmpty(p);
    }
  }

  lemma OuterNonEmpty(p: ParsedEnvelope)
    requires |p.signatures| == 2
    ensures |OuterOf(p)| >= 1
  {
    hide EncodeBytes, EntryOf;
  }
}
