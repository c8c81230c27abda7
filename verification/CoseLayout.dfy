/** The COSE bytes spelled out, as RFC 9052 and the published envelope have them. */
module CoseLayout {
  import opened Bytes
  import opened CborHeads
  import opened CborExamples
  import opened Results
  import opened Cose

  lemma ShortBytes(raw: bytes)
    ensures |raw| < 24 ==> EncodeBytes(raw) == [0x40 + |raw|] + raw
    ensures 24 <= |raw| < 0x100 ==> EncodeBytes(raw) == [0x58, |raw|] + raw
  {
    hide EncodeHead;
    if |raw| < 24 {
      ShortHead(2, |raw|);
    } else if |raw| < 0x100 {
      OneByteHead(2, |raw|);
    }
  }

  /** The two signature lengths: 64 bytes for Ed25519 and 3309 for ML-DSA-65. */
  lemma SignatureBytes(algorithm: CoseAlgorithm, signature: bytes)
    requires |signature| == algorithm.SignatureLength()
    ensures algorithm.Ed25519? ==> |signature| == 64 && EncodeBytes(signature) == [0x58, 0x40] + signature
    ensures algorithm.MlDsa65? ==> |signature| == 3309 && EncodeBytes(signature) == [0x59, 0x0C, 0xED] + signature
  {
    hide EncodeHead;
    if algorithm.Ed25519? {
      OneByteHead(2, 64);
    } else {
      TwoByteHead(2, 0x0C, 0xED);
    }
  }

  lemma SmallTexts(t: Text)
    ensures |t| < 24 ==> EncodeText(t) == [0x60 + |t|] + t
    ensures 24 <= |t| < 0x100 ==> EncodeText(t) == [0x78, |t|] + t
  {
    hide EncodeHead, ValidUtf8;
    if |t| < 24 {
      ShortText(t);
    } else if |t| < 0x100 {
      OneByteHead(3, |t|);
    }
  }

  lemma FiveParts(a: bytes, b: bytes, c: bytes, d: bytes, e: bytes)
    ensures a + (b + (c + (d + e))) == a + b + c + d + e
  {
    AppendFour(a, b, c, d, e);
  }

  lemma LabelBytes()
    ensures EncodeInt(1) == [0x01] && EncodeInt(3) == [0x03] && EncodeInt(4) == [0x04] && EncodeInt(16) == [0x10]
    ensures EncodeInt(-19) == [0x32] && EncodeInt(-49) == [0x38, 0x30]
  {
    hide EncodeHead;
    ShortHead(0, 1);
    ShortHead(0, 3);
    ShortHead(0, 4);
    ShortHead(0, 16);
    ShortHead(1, 18);
    OneByteHead(1, 48);
  }

  /** The body header: label 3 with the content type and label 16 with the envelope type. */
  lemma BodyHeaderBytes()
    ensures EncodeBodyProtected() ==
            [0xA2] + [0x03] + ([0x75] + Ascii("application/tfws+cbor")) + [0x10]
            + ([0x78, 0x27] + Ascii("application/cose; cose-type=\"cose-sign\""))
  {
    hide EncodeHead, EncodeInt, EncodeText, Ascii, ValidUtf8;
    ShortHead(5, 2);
    LabelBytes();
    SmallTexts(ContentType());
    SmallTexts(EnvelopeType());
    FiveParts([0xA2], [0x03], EncodeText(ContentType()), [0x10], EncodeText(EnvelopeType()));
  }

  /** A signature header: label 1 with algorithm -19 or -49, and label 4 with the key identifier. */
  lemma SignatureHeaderBytes(kid: bytes)
    ensures EncodeSignatureProtected(Ed25519, kid) == [0xA2] + [0x01] + [0x32] + [0x04] + EncodeBytes(kid)
    ensures EncodeSignatureProtected(MlDsa65, kid) == [0xA2] + [0x01] + [0x38, 0x30] + [0x04] + EncodeBytes(kid)
  {
    hide EncodeHead, EncodeInt, EncodeBytes;
    ShortHead(5, 2);
    LabelBytes();
    FiveParts([0xA2], [0x01], [0x32], [0x04], EncodeBytes(kid));
    FiveParts([0xA2], [0x01], [0x38, 0x30], [0x04], EncodeBytes(kid));
  }

  /** The signed bytes: five items, the context "Signature", the two headers, no external data, the payload. */
  lemma SigStructureBytes(body: bytes, header: bytes, payload: bytes)
    ensures EncodeSigStructure(body, header, payload) ==
            [0x85] + ([0x69] + Ascii("Signature")) + EncodeBytes(body) + EncodeBytes(header)
            + ([0x40] + EncodeBytes(payload))
  {
    hide EncodeHead, EncodeText, EncodeBytes, Ascii, ValidUtf8;
    ShortHead(4, 5);
    SmallTexts(Ascii("Signature"));
    ShortBytes([]);
    NoBytes();
    FiveParts([0x85], EncodeText(Ascii("Signature")), EncodeBytes(body), EncodeBytes(header),
              EncodeBytes([]) + EncodeBytes(payload));
  }

  lemma NoBytes()
    ensures EncodeBytes([]) == [0x40]
  {
    hide EncodeHead;
    ShortHead(2, 0);
  }

  lemma EntryBytes(header: bytes, signature: bytes)
    ensures EncodeEntry(header, signature) == [0x83] + EncodeBytes(header) + [0xA0] + EncodeBytes(signature)
  {
    hide EncodeHead, EncodeBytes;
    ShortHead(4, 3);
    ShortHead(5, 0);
    AppendThree([0x83], EncodeBytes(header), [0xA0], EncodeBytes(signature));
  }

  /** The envelope: tag 98, four items, the body header, an empty map, the payload, and the two signatures, each with
      its header and an empty map. */
  lemma EnvelopeBytes(body: bytes, payload: bytes, first: EncodedSignature, second: EncodedSignature)
    ensures EncodeEnvelope(body, payload, [first, second]) == Ok(
              [0xD8, 0x62]
              + ([0x84] + EncodeBytes(body) + [0xA0] + EncodeBytes(payload) + [0x82]
                 + ([0x83] + EncodeBytes(first.protected) + [0xA0] + EncodeBytes(first.signature))
                 + ([0x83] + EncodeBytes(second.protected) + [0xA0] + EncodeBytes(second.signature))))
  {
    hide EncodeHead, EncodeBytes, EncodeEntry;
    ShortHead(4, 4);
    ShortHead(5, 0);
    ShortHead(4, 2);
    EntryBytes(first.protected, first.signature);
    EntryBytes(second.protected, second.signature);
    AppendSix([0x84], EncodeBytes(body), [0xA0], EncodeBytes(payload), [0x82],
              EncodeEntry(first.protected, first.signature), EncodeEntry(second.protected, second.signature));
  }
}
