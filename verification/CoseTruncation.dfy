/** What happens to an accepted envelope that is cut short or extended, and how an envelope is refused at its start. */
module CoseTruncation {
  import opened Bytes
  import opened CborHeads
  import opened CborValues
  import opened LenientDecoder
  import opened Results
  import opened Cose
  import opened CoseEnvelope

  /** The outcome on the first `k` bytes of an input that was read up to `next`. */
  function Cut<T>(r: Step<T>, k: nat): Result<Step<T>, CoseError> {
    if r.next <= k then Ok(r) else Err(MalformedEnvelope)
  }

  function CutAt(next: nat, k: nat): Result<nat, CoseError> {
    if next <= k then Ok(next) else Err(MalformedEnvelope)
  }

  lemma PeekCut(s: bytes, pos: nat, k: nat)
    requires pos <= k <= |s| && PeekType(s, pos).Ok?
    ensures PeekType(s[..k], pos) == PeekType(s, pos) || PeekType(s[..k], pos) == Err(EndOfInput)
    ensures pos < k && PeekType(s, pos).value in {BytesItem, StringItem, ArrayItem, MapItem} ==>
              PeekType(s[..k], pos) == PeekType(s, pos)
  {
  }

  lemma HeadCut(s: bytes, pos: nat, k: nat, wanted: ItemType, indefinite: byte)
    requires pos <= k <= |s| && wanted in {BytesItem, StringItem, ArrayItem, MapItem}
    requires ExpectHead(s, pos, wanted, indefinite).Ok?
    ensures ExpectHead(s[..k], pos, wanted, indefinite) == Cut(ExpectHead(s, pos, wanted, indefinite).value, k)
  {
    hide ReadHead, PeekType;
    PeekCut(s, pos, k);
    ReadHeadTruncated(s, pos, k);
    if pos == k {
      NothingToPeek(s[..k], pos);
    }
  }

  lemma NothingToPeek(s: bytes, pos: nat)
    requires pos == |s|
    ensures PeekType(s, pos).Err?
  {
  }

  lemma ArrayCut(s: bytes, pos: nat, k: nat, n: nat)
    requires pos <= k <= |s| && ExpectArray(s, pos, n).Ok?
    ensures ExpectArray(s[..k], pos, n) == CutAt(ExpectArray(s, pos, n).value, k)
  {
    hide ExpectHead;
    HeadCut(s, pos, k, ArrayItem, 0x9F);
  }

  lemma EmptyMapCut(s: bytes, pos: nat, k: nat)
    requires pos <= k <= |s| && ExpectEmptyMap(s, pos).Ok?
    ensures ExpectEmptyMap(s[..k], pos) == CutAt(ExpectEmptyMap(s, pos).value, k)
  {
    hide ExpectHead;
    HeadCut(s, pos, k, MapItem, 0xBF);
  }

  lemma BytesCut(s: bytes, pos: nat, k: nat, maximum: nat)
    requires pos <= k <= |s| && ReadBytes(s, pos, maximum).Ok?
    ensures ReadBytes(s[..k], pos, maximum) == Cut(ReadBytes(s, pos, maximum).value, k)
  {
    hide ExpectHead;
    HeadCut(s, pos, k, BytesItem, 0x5F);
    var length := ExpectHead(s, pos, BytesItem, 0x5F).value;
    var next := length.next + length.value;
    if next <= k {
      assert s[..k][length.next..next] == s[length.next..next];
    }
  }

  lemma SignatureCut(s: bytes, pos: nat, k: nat, algorithm: CoseAlgorithm, limits: CborLimits)
    requires pos <= k <= |s| && ParseSignature(s, pos, algorithm, limits).Ok?
    ensures ParseSignature(s[..k], pos, algorithm, limits) == Cut(ParseSignature(s, pos, algorithm, limits).value, k)
  {
    hide ExpectArray, ReadBytes, ValidateSignatureProtected, ExpectEmptyMap;
    ArrayCut(s, pos, k, 3);
    var afterHead := ExpectArray(s, pos, 3).value;
    if afterHead <= k {
      BytesCut(s, afterHead, k, limits.maxStringBytes);
      var protected := ReadBytes(s, afterHead, limits.maxStringBytes).value;
      if protected.next <= k {
        EmptyMapCut(s, protected.next, k);
        var afterMap := ExpectEmptyMap(s, protected.next).value;
        if afterMap <= k {
          BytesCut(s, afterMap, k, limits.maxStringBytes);
        }
      }
    }
  }

  lemma OuterCut(s: bytes, k: nat, limits: CborLimits)
    requires k <= |s| && ParseOuter(s, limits).Ok?
    ensures ParseOuter(s[..k], limits) == Cut(ParseOuter(s, limits).value, k)
  {
    hide ExpectArray, ReadBytes, ValidateBodyProtected, ExpectEmptyMap, ParseSignature;
    ArrayCut(s, 0, k, 4);
    var afterHead := ExpectArray(s, 0, 4).value;
    if afterHead <= k {
      BytesCut(s, afterHead, k, limits.maxStringBytes);
      var body := ReadBytes(s, afterHead, limits.maxStringBytes).value;
      if body.next <= k {
        EmptyMapCut(s, body.next, k);
        var afterMap := ExpectEmptyMap(s, body.next).value;
        if afterMap <= k {
          BytesCut(s, afterMap, k, limits.maxManifestBytes);
          var payload := ReadBytes(s, afterMap, limits.maxManifestBytes).value;
          if payload.next <= k {
            ArrayCut(s, payload.next, k, 2);
            var afterArray := ExpectArray(s, payload.next, 2).value;
            if afterArray <= k {
              SignatureCut(s, afterArray, k, Ed25519, limits);
              var first := ParseSignature(s, afterArray, Ed25519, limits).value;
              if first.next <= k {
                SignatureCut(s, first.next, k, MlDsa65, limits);
              }
            }
          }
        }
      }
    }
  }

  /** Every proper prefix of an accepted envelope is malformed. */
  lemma PrefixMalformed(input: bytes, limits: CoseLimits, k: nat)
    requires ParseEnvelope(input, limits).Ok? && k < |input|
    ensures ParseEnvelope(input[..k], limits) == Err(MalformedEnvelope)
  {
    hide ParseOuter, Reencode, ValidateShapeLimits;
    if k >= 3 {
      assert input[..k][..2] == input[..2] && input[..k][2..] == input[2..][..k - 2];
      OuterCut(input[2..], k - 2, limits.cbor);
    }
  }

  lemma MoreFollows(input: bytes, limits: CoseLimits, parsed: Step<ParsedEnvelope>)
    requires ValidateShapeLimits(limits).Ok? && 3 <= |input| <= limits.maxEnvelopeBytes && input[..2] == TAG
    requires ParseOuter(input[2..], limits.cbor) == Ok(parsed) && parsed.next != |input| - 2
    ensures ParseEnvelope(input, limits) == Err(MalformedEnvelope)
  {
    hide ParseOuter, Reencode, ValidateShapeLimits;
  }

  lemma TooLong(input: bytes, limits: CoseLimits)
    requires ValidateShapeLimits(limits).Ok? && |input| > limits.maxEnvelopeBytes
    ensures ParseEnvelope(input, limits) == Err(EnvelopeLimit)
  {
    hide ParseOuter, Reencode, ValidateShapeLimits;
  }

  lemma Accepted(input: bytes, limits: CoseLimits)
    requires ParseEnvelope(input, limits).Ok?
    ensures ValidateShapeLimits(limits).Ok? && 3 <= |input| <= limits.maxEnvelopeBytes && input[..2] == TAG
  {
    hide ParseOuter, Reencode, ValidateShapeLimits;
  }

  lemma AfterTag(input: bytes, outer: bytes, suffix: bytes)
    requires |TAG| == 2 && input == TAG + outer
    ensures (input + suffix)[..2] == TAG && (input + suffix)[2..] == outer + suffix
    ensures At(outer + suffix, 0, outer)
  {
    assert (outer + suffix)[0..|outer|] == outer;
  }

  /** Every extension of an accepted envelope is malformed, or too long. */
  lemma ExtensionMalformed(input: bytes, limits: CoseLimits, suffix: bytes)
    requires ParseEnvelope(input, limits).Ok? && suffix != []
    ensures ParseEnvelope(input + suffix, limits)
         == Err(if |input + suffix| > limits.maxEnvelopeBytes then EnvelopeLimit else MalformedEnvelope)
  {
    hide *;
    var p := ParseEnvelope(input, limits).value;
    Accepted(input, limits);
    ParsesExactly(input, limits, p);
    PartsMean(p, limits.cbor);
    OuterParts(p);
    TagSize();
    AfterTag(input, OuterOf(p), suffix);
    OuterBack(OuterOf(p) + suffix, p, limits.cbor);
    if |input + suffix| > limits.maxEnvelopeBytes {
      TooLong(input + suffix, limits);
    } else {
      MoreFollows(input + suffix, limits, Step(p, |OuterOf(p)|));
    }
  }

  lemma TagSize()
    ensures |TAG| == 2
  {
  }

  /** How an envelope is refused before its parts are read: limits without room for the shape, too many bytes, too
      few, or another tag than 98. */
  lemma RefusedAtStart(input: bytes, limits: CoseLimits)
    ensures var r := ParseEnvelope(input, limits);
            var room := limits.cbor.maxDepth >= 4 && limits.cbor.maxArrayItems >= 4 && limits.cbor.maxMapPairs >= 2;
            && (!room || |input| > limits.maxEnvelopeBytes ==> r == Err(EnvelopeLimit))
            && (room && |input| <= limits.maxEnvelopeBytes && |input| < 3 ==> r == Err(MalformedEnvelope))
            && (room && 3 <= |input| <= limits.maxEnvelopeBytes && (input[0] != 0xD8 || input[1] != 0x62) ==>
                  r == Err(InvalidCoseStructure))
  {
    hide ParseOuter, Reencode;
    if |input| >= 3 {
      assert input[..2] == [input[0], input[1]];
    }
  }
}
