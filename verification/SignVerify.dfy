/** The sign and verify drivers of cose.rs over abstract signature algorithms. */
module SignVerify {
  import opened Bytes
  import opened CborHeads
  import opened CborValues
  import opened Results
  import opened Cose
  import opened CoseEnvelope
  import opened CoseMessages
  import opened Manifests
  import opened ManifestCodec
  import LenientSoundness
  import SortedSets

  datatype CryptoError = BindingMismatch | BadSignature | OperationFailed

  function MapCryptoError(e: CryptoError): CoseError {
    match e
    case BindingMismatch => KeyBindingMismatch
    case BadSignature => SignatureInvalid
    case OperationFailed => CryptoOperation
  }

  type Signer = (CoseAlgorithm, KeyDescriptor, bytes) -> Result<bytes, CryptoError>
  type Verifier = (CoseAlgorithm, KeyDescriptor, bytes, bytes) -> Result<(), CryptoError>

  // ---------------------------------------------------------------- descriptors

  /** `descriptor_for`: the only descriptor of the algorithm. */
  function DescriptorFor(m: Manifest, algorithm: CoseAlgorithm): (r: Result<KeyDescriptor, CoseError>) {
    var matching := Matching(m.keys, algorithm.TfwsIdentifier());
    if |matching| != 1 then Err(HybridBaselineIncomplete)
    else if matching[0].keyId == [] then Err(KeyBindingMismatch)
    else Ok(matching[0])
  }

  lemma IdentifiersDiffer()
    ensures Ed25519.TfwsIdentifier() == Ascii("ed25519") && MlDsa65.TfwsIdentifier() == Ascii("ml-dsa-65")
    ensures Ed25519.TfwsIdentifier() != MlDsa65.TfwsIdentifier()
  {
    assert |Ascii("ed25519")| == 7 && |Ascii("ml-dsa-65")| == 9;
  }

  lemma MatchingTwo(a: KeyDescriptor, b: KeyDescriptor, algorithm: Text)
    requires a.algorithm != b.algorithm
    ensures Matching([a, b], algorithm)
         == if a.algorithm == algorithm then [a] else if b.algorithm == algorithm then [b] else []
  {
    hide ValidUtf8;
    assert [a, b][1..] == [b] && [b][1..] == [];
    assert Matching([b], algorithm) == (if b.algorithm == algorithm then [b] else []) + [];
  }

  /** A valid manifest with keys has one for each baseline algorithm, none with an empty identifier. */
  lemma ValidKeys(m: Manifest, lib: Library)
    requires ValidManifest(m, lib) && lib.Lawful() && m.keys != []
    ensures |m.keys| == 2 && m.keys[0].algorithm != m.keys[1].algorithm
    ensures forall i :: 0 <= i < 2 ==> KeyOk(m.keys[i], lib) && m.keys[i].keyId != []
    ensures forall i :: 0 <= i < 2 ==>
        m.keys[i].algorithm == Ascii("ed25519") || m.keys[i].algorithm == Ascii("ml-dsa-65")
  {
    hide Ascii, KeyOk, LateOk, ListedOnce, OperatorOk, Known, Development, BASELINE;
    KeyOkMeans(m.keys[0], lib);
    KeyOkMeans(m.keys[1], lib);
  }

  lemma KeyOkMeans(key: KeyDescriptor, lib: Library)
    requires KeyOk(key, lib) && lib.Lawful()
    ensures key.keyId != [] && (key.algorithm == Ascii("ed25519") || key.algorithm == Ascii("ml-dsa-65"))
  {
    hide Ascii, LowerHex;
  }

  /** On a valid manifest the lookup fails exactly when there are no keys; otherwise it finds the one
      descriptor of the algorithm, which satisfies every descriptor requirement. */
  lemma DescriptorOfValidManifest(m: Manifest, lib: Library, algorithm: CoseAlgorithm)
    requires ValidManifest(m, lib) && lib.Lawful()
    ensures m.keys == [] ==> DescriptorFor(m, algorithm) == Err(HybridBaselineIncomplete)
    ensures m.keys != [] ==>
              && DescriptorFor(m, algorithm).Ok?
              && var d := DescriptorFor(m, algorithm).value;
              && d in m.keys && d.algorithm == algorithm.TfwsIdentifier() && KeyOk(d, lib)
              && (forall e :: e in m.keys && e.algorithm == d.algorithm ==> e == d)
  {
    hide ValidManifest, Ascii, KeyOk;
    IdentifiersDiffer();
    if m.keys != [] {
      ValidKeys(m, lib);
      assert m.keys == [m.keys[0], m.keys[1]];
      MatchingTwo(m.keys[0], m.keys[1], algorithm.TfwsIdentifier());
    }
  }

  lemma DescriptorMeans(m: Manifest, algorithm: CoseAlgorithm)
    requires DescriptorFor(m, algorithm).Ok?
    ensures DescriptorFor(m, algorithm).value.keyId != []
  {
  }

  // ---------------------------------------------------------------- signing

  /** One turn of the signing loop. */
  function SignEntry(m: Manifest, payload: bytes, algorithm: CoseAlgorithm, signer: Signer, limits: CborLimits)
    : Result<ParsedSignature, CoseError>
  {
    var d :- DescriptorFor(m, algorithm);
    var protected := EncodeSignatureProtected(algorithm, d.keyId);
    match signer(algorithm, d, EncodeSigStructure(EncodeBodyProtected(), protected, payload))
    case Err(e) => Err(MapCryptoError(e))
    case Ok(signature) =>
      if |signature| != algorithm.SignatureLength() then Err(SignatureInvalid)
      else if |signature| > limits.maxStringBytes then Err(EnvelopeLimit)
      else Ok(ParsedSignature(algorithm, protected, d.keyId, signature))
  }

  /** Every step of signing before the final self-check has succeeded, with parts `p` and the printed
      envelope `envelope`. */
  ghost predicate Prepared(m: Manifest, signer: Signer, limits: CoseLimits, lib: Library, p: ParsedEnvelope,
          envelope: bytes)
  {
    && ValidateShapeLimits(limits).Ok?
    && Encodes(m, limits.cbor, lib, p.payload)
    && p.bodyProtected == EncodeBodyProtected()
    && |p.signatures| == 2
    && SignEntry(m, p.payload, Ed25519, signer, limits.cbor) == Ok(p.signatures[0])
    && SignEntry(m, p.payload, MlDsa65, signer, limits.cbor) == Ok(p.signatures[1])
    && Reencode(p) == Ok(envelope)
    && |envelope| <= limits.maxEnvelopeBytes
  }

  /** `sign_manifest_cose_with_limits` returns `envelope`: the printed envelope also parses. */
  ghost predicate Signed(m: Manifest, signer: Signer, limits: CoseLimits, lib: Library, envelope: bytes) {
    && ParseEnvelope(envelope, limits).Ok?
    && exists p :: Prepared(m, signer, limits, lib, p, envelope)
  }

  // ---------------------------------------------------------------- verification

  /** One turn of the verification loop. */
  function CheckSignature(m: Manifest, p: ParsedEnvelope, i: nat, expected: CoseAlgorithm,
          verifier: Verifier): Result<(), CoseError>
    requires i < |p.signatures|
  {
    var s := p.signatures[i];
    if s.algorithm != expected then Err(InvalidAlgorithm)
    else
      var d :- DescriptorFor(m, expected);
      if s.kid != d.keyId then Err(InvalidKid)
      else
        match verifier(expected, d, EncodeSigStructure(p.bodyProtected, s.protected, p.payload), s.signature)
        case Err(e) => Err(MapCryptoError(e))
        case Ok(_) => Ok(())
  }

  /** `verify_manifest_cose_with_limits`. */
  ghost function VerifyManifest(envelope: bytes, verifier: Verifier, limits: CoseLimits, lib: Library)
    : Result<Manifest, CoseError>
  {
    var p :- ParseEnvelope(envelope, limits);
    match DecodeManifest(p.payload, limits.cbor, lib)
    case Err(e) => Err(ManifestCbor(e))
    case Ok(m) =>
      if |p.signatures| != 2 then Err(HybridBaselineIncomplete)
      else
        var _ :- CheckSignature(m, p, 0, Ed25519, verifier);
        var _ :- CheckSignature(m, p, 1, MlDsa65, verifier);
        Ok(m)
  }

  /** The verifier accepted the signature of `s` over the payload, under the descriptor of the manifest. */
  ghost predicate Accepted(m: Manifest, payload: bytes, s: ParsedSignature, algorithm: CoseAlgorithm,
          verifier: Verifier)
  {
    && DescriptorFor(m, algorithm).Ok?
    && var d := DescriptorFor(m, algorithm).value;
    && s.kid == d.keyId
    && verifier(algorithm, d, SignedMessage(algorithm, d.keyId, payload), s.signature).Ok?
  }

  lemma CheckMeans(m: Manifest, p: ParsedEnvelope, i: nat, algorithm: CoseAlgorithm, limits: CborLimits,
          verifier: Verifier)
    requires i < |p.signatures| && p.bodyProtected == EncodeBodyProtected()
        && EntryOk(p.signatures[i], algorithm, limits)
    ensures CheckSignature(m, p, i, algorithm, verifier).Ok? <==>
        Accepted(m, p.payload, p.signatures[i], algorithm, verifier)
    ensures CheckSignature(m, p, i, algorithm, verifier) != Err(InvalidAlgorithm)
    ensures CheckSignature(m, p, i, algorithm, verifier) == Err(HybridBaselineIncomplete) ==>
              DescriptorFor(m, algorithm) == Err(HybridBaselineIncomplete)
  {
    hide EncodeSigStructure, EncodeSignatureProtected, EncodeBodyProtected, ValidUtf8, Matching, Ascii;
  }

  /** Verification succeeds with `m` exactly when the envelope parses, its payload decodes to `m`, and
      the verifier accepts both signatures, each under the descriptor of `m` for its algorithm and over
      the message made of that descriptor's key identifier and the same payload. */
  lemma VerifiesExactly(envelope: bytes, verifier: Verifier, limits: CoseLimits, lib: Library, m: Manifest)
    ensures VerifyManifest(envelope, verifier, limits, lib) == Ok(m) <==>
            && ParseEnvelope(envelope, limits).Ok?
            && var p := ParseEnvelope(envelope, limits).value;
            && DecodeManifest(p.payload, limits.cbor, lib) == Ok(m)
            && |p.signatures| == 2
            && Accepted(m, p.payload, p.signatures[0], Ed25519, verifier)
            && Accepted(m, p.payload, p.signatures[1], MlDsa65, verifier)
  {
    hide ParseEnvelope, DecodeManifest, CheckSignature, Accepted, PartsOk, Reencode, EncodeBodyProtected, EntryOk;
    if ParseEnvelope(envelope, limits).Ok? {
      var p := ParseEnvelope(envelope, limits).value;
      ParsesExactly(envelope, limits, p);
      PartsMean(p, limits.cbor);
      CheckMeans(m, p, 0, Ed25519, limits.cbor, verifier);
      CheckMeans(m, p, 1, MlDsa65, limits.cbor, verifier);
    }
  }

  lemma DecodedIsValid(input: bytes, limits: CborLimits, lib: Library)
    requires DecodeManifest(input, limits, lib).Ok?
    ensures ValidManifest(DecodeManifest(input, limits, lib).value, lib)
  {
    hide ValidManifest, FromValue;
  }

  /** Once an envelope has parsed and its payload has decoded, the checks on the number of signatures
      and on their algorithms cannot fail, and the baseline is incomplete exactly when the manifest
      has no keys. */
  lemma RechecksUnreachable(envelope: bytes, verifier: Verifier, limits: CoseLimits, lib: Library)
    requires ParseEnvelope(envelope, limits).Ok? && lib.Lawful()
    requires DecodeManifest(ParseEnvelope(envelope, limits).value.payload, limits.cbor, lib).Ok?
    ensures VerifyManifest(envelope, verifier, limits, lib) != Err(InvalidAlgorithm)
    ensures VerifyManifest(envelope, verifier, limits, lib) == Err(HybridBaselineIncomplete) <==>
            DecodeManifest(ParseEnvelope(envelope, limits).value.payload, limits.cbor, lib).value.keys == []
  {
    hide ParseEnvelope, DecodeManifest, PartsOk, Reencode, EncodeBodyProtected, EntryOk, ValidManifest, DescriptorFor,
         KeyOk, EncodeSigStructure;
    var p := ParseEnvelope(envelope, limits).value;
    var m := DecodeManifest(p.payload, limits.cbor, lib).value;
    ParsesExactly(envelope, limits, p);
    PartsMean(p, limits.cbor);
    DecodedIsValid(p.payload, limits.cbor, lib);
    DescriptorOfValidManifest(m, lib, Ed25519);
    DescriptorOfValidManifest(m, lib, MlDsa65);
    CheckMeans(m, p, 0, Ed25519, limits.cbor, verifier);
    CheckMeans(m, p, 1, MlDsa65, limits.cbor, verifier);
    EntryAlgorithm(p.signatures[0], Ed25519, limits.cbor);
  }

  lemma EntryAlgorithm(e: ParsedSignature, algorithm: CoseAlgorithm, limits: CborLimits)
    requires EntryOk(e, algorithm, limits)
    ensures e.algorithm == algorithm
  {
  }

  lemma CheckRefuses(m: Manifest, p: ParsedEnvelope, i: nat, algorithm: CoseAlgorithm, limits: CborLimits,
          verifier: Verifier)
    requires i < |p.signatures| && p.bodyProtected == EncodeBodyProtected()
        && EntryOk(p.signatures[i], algorithm, limits)
    requires DescriptorFor(m, algorithm).Ok?
    ensures var d, s := DescriptorFor(m, algorithm).value, p.signatures[i];
            var r := CheckSignature(m, p, i, algorithm, verifier);
            && (s.kid != d.keyId ==> r == Err(InvalidKid))
            && (s.kid == d.keyId ==>
                  && var verdict := verifier(algorithm, d, SignedMessage(algorithm, d.keyId, p.payload), s.signature);
                  && (verdict == Err(BindingMismatch) ==> r == Err(KeyBindingMismatch))
                  && (verdict == Err(BadSignature) ==> r == Err(SignatureInvalid))
                  && (verdict == Err(OperationFailed) ==> r == Err(CryptoOperation))
                  && (verdict.Ok? ==> r == Ok(())))
  {
    hide EncodeSigStructure, EncodeSignatureProtected, EncodeBodyProtected, ValidUtf8, DescriptorFor;
  }

  /** Why a parsed envelope with a decoded payload is refused: a key identifier other than that of the manifest's key,
      or the verdict on the signature, under the error for that verdict; the first signature decides if it is refused,
      and the second only if the first is not. */
  lemma RefusedSignature(envelope: bytes, verifier: Verifier, limits: CoseLimits, lib: Library, m: Manifest)
    requires ParseEnvelope(envelope, limits).Ok? && lib.Lawful() && m.keys != []
    requires DecodeManifest(ParseEnvelope(envelope, limits).value.payload, limits.cbor, lib) == Ok(m)
    ensures DescriptorFor(m, Ed25519).Ok? && DescriptorFor(m, MlDsa65).Ok?
    ensures var p := ParseEnvelope(envelope, limits).value;
            var r := VerifyManifest(envelope, verifier, limits, lib);
            && |p.signatures| == 2
            && var d, e := DescriptorFor(m, Ed25519).value, DescriptorFor(m, MlDsa65).value;
            && var s, t := p.signatures[0], p.signatures[1];
            && var first := verifier(Ed25519, d, SignedMessage(Ed25519, d.keyId, p.payload), s.signature);
            && var second := verifier(MlDsa65, e, SignedMessage(MlDsa65, e.keyId, p.payload), t.signature);
            && (s.kid != d.keyId ==> r == Err(InvalidKid))
            && (s.kid == d.keyId && first == Err(BindingMismatch) ==> r == Err(KeyBindingMismatch))
            && (s.kid == d.keyId && first == Err(BadSignature) ==> r == Err(SignatureInvalid))
            && (s.kid == d.keyId && first == Err(OperationFailed) ==> r == Err(CryptoOperation))
            && (s.kid == d.keyId && first.Ok? ==>
                  && (t.kid != e.keyId ==> r == Err(InvalidKid))
                  && (t.kid == e.keyId && second == Err(BindingMismatch) ==> r == Err(KeyBindingMismatch))
                  && (t.kid == e.keyId && second == Err(BadSignature) ==> r == Err(SignatureInvalid))
                  && (t.kid == e.keyId && second == Err(OperationFailed) ==> r == Err(CryptoOperation))
                  && (t.kid == e.keyId && second.Ok? ==> r == Ok(m)))
  {
    hide ParseEnvelope, DecodeManifest, CheckSignature, PartsOk, Reencode, EncodeBodyProtected, EntryOk, DescriptorFor,
         ValidManifest, KeyOk, SignedMessage;
    var p := ParseEnvelope(envelope, limits).value;
    ParsesExactly(envelope, limits, p);
    PartsMean(p, limits.cbor);
    DecodedIsValid(p.payload, limits.cbor, lib);
    DescriptorOfValidManifest(m, lib, Ed25519);
    DescriptorOfValidManifest(m, lib, MlDsa65);
    CheckRefuses(m, p, 0, Ed25519, limits.cbor, verifier);
    CheckRefuses(m, p, 1, MlDsa65, limits.cbor, verifier);
  }

  /** An envelope that does not parse, and a payload that does not decode, are refused with their own errors. */
  lemma RefusedBefore(envelope: bytes, verifier: Verifier, limits: CoseLimits, lib: Library)
    ensures ParseEnvelope(envelope, limits).Err? ==>
              VerifyManifest(envelope, verifier, limits, lib) == Err(ParseEnvelope(envelope, limits).error)
    ensures ParseEnvelope(envelope, limits).Ok? ==>
              var decoded := DecodeManifest(ParseEnvelope(envelope, limits).value.payload, limits.cbor, lib);
              decoded.Err? ==> VerifyManifest(envelope, verifier, limits, lib) == Err(ManifestCbor(decoded.error))
  {
    hide ParseEnvelope, DecodeManifest, CheckSignature;
  }

  // ---------------------------------------------------------------- the parts of a prepared envelope

  const UNLIMITED: CborLimits :=
    CborLimits(ANY_LENGTH, ANY_LENGTH, ANY_LENGTH, ANY_LENGTH, ANY_LENGTH)

  lemma PartsFit(p: ParsedEnvelope)
    requires |p.signatures| == 2
    ensures |p.bodyProtected| <= |OuterOf(p)| && |p.payload| <= |OuterOf(p)|
    ensures forall i :: 0 <= i < 2 ==>
        |p.signatures[i].protected| <= |OuterOf(p)| && |p.signatures[i].signature| <= |OuterOf(p)|
  {
    hide EncodeHead;
  }

  lemma EntryUnlimited(e: ParsedSignature, algorithm: CoseAlgorithm, limits: CborLimits)
    requires EntryOk(e, algorithm, limits)
    ensures EntryOk(e, algorithm, UNLIMITED)
  {
    hide EncodeSignatureProtected, ValidUtf8;
  }

  lemma PartsUnlimited(p: ParsedEnvelope, limits: CborLimits)
    requires PartsOk(p, limits)
    ensures PartsOk(p, UNLIMITED)
  {
    hide EntryOk, EncodeBodyProtected;
    EntryUnlimited(p.signatures[0], Ed25519, limits);
    EntryUnlimited(p.signatures[1], MlDsa65, limits);
  }

  /** An entry the signing loop made is acceptable exactly when its header is within the limit. */
  lemma SignedEntry(m: Manifest, payload: bytes, algorithm: CoseAlgorithm, signer: Signer, limits: CborLimits)
    requires SignEntry(m, payload, algorithm, signer, limits).Ok?
    ensures var e := SignEntry(m, payload, algorithm, signer, limits).value;
            && DescriptorFor(m, algorithm).Ok? && e.kid == DescriptorFor(m, algorithm).value.keyId
            && e.algorithm == algorithm && e.protected == EncodeSignatureProtected(algorithm, e.kid)
            && |e.signature| == algorithm.SignatureLength() <= limits.maxStringBytes
            && (EntryOk(e, algorithm, limits) <==> |e.protected| <= limits.maxStringBytes)
            && (|e.protected| <= ANY_LENGTH ==> EntryOk(e, algorithm, UNLIMITED))
            && Ok(e.signature) ==
               signer(algorithm, DescriptorFor(m, algorithm).value, SignedMessage(algorithm, e.kid, payload))
  {
    hide EncodeSignatureProtected, EncodeBodyProtected, EncodeSigStructure, DescriptorFor, ValidUtf8;
    var d := DescriptorFor(m, algorithm).value;
    DescriptorMeans(m, algorithm);
    KidWithinHeader(algorithm, d.keyId);
    TextIsUtf8(d.keyId);
  }

  lemma TextIsUtf8(t: Text)
    ensures ValidUtf8(t)
  {
  }

  lemma KidWithinHeader(algorithm: CoseAlgorithm, kid: bytes)
    ensures |kid| <= |EncodeSignatureProtected(algorithm, kid)|
  {
    hide EncodeSignatureProtected, EncodeHead;
    SignatureHeaderParts(algorithm, kid);
  }

  lemma PreparedMeans(m: Manifest, signer: Signer, limits: CoseLimits, lib: Library, p: ParsedEnvelope, envelope: bytes)
    requires Prepared(m, signer, limits, lib, p, envelope)
    ensures ValidateShapeLimits(limits).Ok? && Encodes(m, limits.cbor, lib, p.payload) && |p.signatures| == 2
    ensures p.bodyProtected == EncodeBodyProtected() && Reencode(p) == Ok(envelope)
        && |envelope| <= limits.maxEnvelopeBytes
    ensures SignEntry(m, p.payload, Ed25519, signer, limits.cbor) == Ok(p.signatures[0])
    ensures SignEntry(m, p.payload, MlDsa65, signer, limits.cbor) == Ok(p.signatures[1])
  {
  }

  lemma EncodesMeans(m: Manifest, limits: CborLimits, lib: Library, encoded: bytes)
    requires Encodes(m, limits, lib, encoded)
    ensures |encoded| <= limits.maxManifestBytes && encoded == Enc(ToValue(m)) && ValidManifest(m, lib)
  {
  }

  lemma PartsOkIntro(p: ParsedEnvelope, limits: CborLimits)
    requires p.bodyProtected == EncodeBodyProtected() && |p.payload| <= limits.maxManifestBytes && |p.signatures| == 2
    requires limits.maxStringBytes >= 66
    requires EntryOk(p.signatures[0], Ed25519, limits) && EntryOk(p.signatures[1], MlDsa65, limits)
    ensures PartsOk(p, limits)
  {
    hide EntryOk;
    BodyHeaderParts();
  }

  lemma PreparedUnlimited(m: Manifest, signer: Signer, limits: CoseLimits, lib: Library, p: ParsedEnvelope,
          envelope: bytes)
    requires Prepared(m, signer, limits, lib, p, envelope)
    ensures PartsOk(p, UNLIMITED) && limits.cbor.maxStringBytes >= 3309
  {
    hide Prepared, Encodes, EntryOk, PartsOk, Reencode, OuterOf, SignEntry, EncodeBodyProtected,
         EncodeSignatureProtected;
    PreparedMeans(m, signer, limits, lib, p, envelope);
    OuterParts(p);
    PartsFit(p);
    SignedEntry(m, p.payload, Ed25519, signer, limits.cbor);
    SignedEntry(m, p.payload, MlDsa65, signer, limits.cbor);
    PartsOkIntro(p, UNLIMITED);
  }

  /** An envelope has only one set of parts. */
  lemma SameParts(p: ParsedEnvelope, q: ParsedEnvelope, envelope: bytes)
    requires PartsOk(p, UNLIMITED) && PartsOk(q, UNLIMITED)
    requires Reencode(p) == Ok(envelope) && Reencode(q) == Ok(envelope)
    ensures p == q
  {
    hide PartsOk, Reencode, OuterOf, ParseOuter;
    PartsMean(p, UNLIMITED);
    PartsMean(q, UNLIMITED);
    AtStart(OuterOf(p));
    AtStart(OuterOf(q));
    OuterBack(OuterOf(p), p, UNLIMITED);
    OuterBack(OuterOf(q), q, UNLIMITED);
    OuterParts(p);
    OuterParts(q);
    assert envelope[2..] == OuterOf(p) == OuterOf(q);
  }

  /** The signer's final self-check succeeds exactly when both signature headers are within the string
      limit, and then it returns the parts that were printed. */
  lemma SelfCheckExactly(m: Manifest, signer: Signer, limits: CoseLimits, lib: Library, p: ParsedEnvelope,
          envelope: bytes)
    requires Prepared(m, signer, limits, lib, p, envelope)
    ensures |p.signatures| == 2
    ensures ParseEnvelope(envelope, limits).Ok? <==>
            && |p.signatures[0].protected| <= limits.cbor.maxStringBytes
            && |p.signatures[1].protected| <= limits.cbor.maxStringBytes
    ensures ParseEnvelope(envelope, limits).Ok? ==> ParseEnvelope(envelope, limits) == Ok(p)
  {
    hide *;
    PreparedMeans(m, signer, limits, lib, p, envelope);
    EncodesMeans(m, limits.cbor, lib, p.payload);
    PreparedUnlimited(m, signer, limits, lib, p, envelope);
    SignedEntry(m, p.payload, Ed25519, signer, limits.cbor);
    SignedEntry(m, p.payload, MlDsa65, signer, limits.cbor);
    if |p.signatures[0].protected| <= limits.cbor.maxStringBytes
        && |p.signatures[1].protected| <= limits.cbor.maxStringBytes {
      PartsOkIntro(p, limits.cbor);
      ParsesExactly(envelope, limits, p);
    }
    if ParseEnvelope(envelope, limits).Ok? {
      var q := ParseEnvelope(envelope, limits).value;
      ParsesExactly(envelope, limits, q);
      PartsUnlimited(q, limits.cbor);
      SameParts(p, q, envelope);
      PartsMean(q, limits.cbor);
      EntryMeans(q.signatures[0], Ed25519, limits.cbor);
      EntryMeans(q.signatures[1], MlDsa65, limits.cbor);
    }
  }

  // ---------------------------------------------------------------- the payload outweighs the headers

  lemma ObjectEncoding(entries: map<Text, Value>)
    ensures |Enc(Object(entries))| >= 1 + |EncEntries(Object(entries), CanonicalKeys(entries))|
  {
    hide CanonicalKeys, EncEntries, EncodeHead;
  }

  lemma KeyPosition(entries: map<Text, Value>, k: Text) returns (i: nat)
    requires k in entries
    ensures i < |CanonicalKeys(entries)| && CanonicalKeys(entries)[i] == k
    ensures SortedSets.Elements(CanonicalKeys(entries)) == entries.Keys && SortedSets.Distinct(CanonicalKeys(entries))
  {
    hide CanonicalKeys, ValidUtf8, SortedSets.Ascending, SortedSets.Distinct;
    assert k in SortedSets.Elements(CanonicalKeys(entries));
    i :| 0 <= i < |CanonicalKeys(entries)| && CanonicalKeys(entries)[i] == k;
  }

  lemma ObjectContains(entries: map<Text, Value>, k: Text)
    requires k in entries
    ensures |Enc(Object(entries))| >= 1 + |EncodeText(k)| + |Enc(entries[k])|
  {
    hide *;
    ObjectEncoding(entries);
    var i := KeyPosition(entries, k);
    LenientSoundness.MoveToFrontLength(Object(entries), CanonicalKeys(entries), i);
  }

  lemma ArrayContains(items: seq<Value>, i: nat)
    requires i < |items|
    ensures |Enc(Array(items))| >= 1 + |Enc(items[i])|
  {
    assert |Enc(Array(items))| == |EncodeHead(4, |items|)| + |EncItems(items)|;
    hide EncodeHead, Enc;
    assert items == items[..i] + ([items[i]] + items[i + 1..]);
    EncItemsConcat(items[..i], [items[i]] + items[i + 1..]);
    EncItemsConcat([items[i]], items[i + 1..]);
    assert EncItems([items[i]]) == Enc(items[i]) + EncItems([]);
  }

  /** The encoded manifest is longer than the key identifier of any of its descriptors by more than a
      signature header adds. */
  lemma PayloadOutweighs(m: Manifest, d: KeyDescriptor)
    requires d in m.keys
    ensures |Enc(ToValue(m))| >= 10 + |EncodeText(d.keyId)|
  {
    hide Enc, EncodeText, Named, NameOf, Fields, KeyValue, ValidUtf8;
    var i :| 0 <= i < |m.keys| && m.keys[i] == d;
    MandatoryFields(m);
    NamedAt(Fields(m), FKeys);
    ObjectContains(Named(Fields(m)), NameOf(FKeys));
    NameLength(FKeys);
    ArrayContains(KeysValue(m.keys).items, i);
    KeyOutweighs(d);
    TextGrows(NameOf(FKeys));
  }

  lemma TextGrows(t: bytes)
    ensures |EncodeText(t)| >= |t| + 1
  {
  }

  /** A descriptor is written as an object one entry of which holds its key identifier. */
  lemma KeyFields(d: KeyDescriptor) returns (fields: map<Field, Value>)
    ensures KeyValue(d) == Object(Named(fields)) && FKeyId in fields && fields[FKeyId] == String(d.keyId)
  {
    hide Named, NameOf, ValidUtf8;
    fields := map[
      FAlgorithm := String(d.algorithm), FKeyId := String(d.keyId), FPublicKeyUri := String(d.publicKeyUri),
      FPublicKeySha256 := String(d.publicKeySha256), FStatus := String(d.status), FUsage := Strings(d.usage)];
  }

  lemma KeyOutweighs(d: KeyDescriptor)
    ensures |Enc(KeyValue(d))| >= 5 + |EncodeText(d.keyId)|
  {
    hide *;
    var fields := KeyFields(d);
    NamedAt(fields, FKeyId);
    ObjectContains(Named(fields), NameOf(FKeyId));
    NameLength(FKeyId);
    TextGrows(NameOf(FKeyId));
    StringEncoding(d.keyId);
  }

  lemma StringEncoding(t: Text)
    ensures Enc(String(t)) == EncodeText(t)
  {
  }

  lemma HeaderSize(algorithm: CoseAlgorithm, kid: bytes)
    ensures |EncodeSignatureProtected(algorithm, kid)| <= |EncodeText(kid)| + 5
  {
    hide EncodeSignatureProtected;
    SignatureHeaderParts(algorithm, kid);
  }

  lemma DescriptorIsKey(m: Manifest, algorithm: CoseAlgorithm)
    requires DescriptorFor(m, algorithm).Ok?
    ensures DescriptorFor(m, algorithm).value in m.keys
  {
  }

  lemma HeaderWithinPayload(m: Manifest, payload: bytes, algorithm: CoseAlgorithm, signer: Signer, limits: CborLimits)
    requires SignEntry(m, payload, algorithm, signer, limits).Ok? && payload == Enc(ToValue(m))
    ensures |SignEntry(m, payload, algorithm, signer, limits).value.protected| <= |payload|
  {
    hide *;
    SignedEntry(m, payload, algorithm, signer, limits);
    DescriptorIsKey(m, algorithm);
    PayloadOutweighs(m, DescriptorFor(m, algorithm).value);
    HeaderSize(algorithm, SignEntry(m, payload, algorithm, signer, limits).value.kid);
  }

  /** With the manifest limit no larger than the string limit, as in the defaults, the signer's final
      self-check never fails. */
  lemma SelfCheckNeverFails(m: Manifest, signer: Signer, limits: CoseLimits, lib: Library, p: ParsedEnvelope,
          envelope: bytes)
    requires Prepared(m, signer, limits, lib, p, envelope)
    requires limits.cbor.maxManifestBytes <= limits.cbor.maxStringBytes
    ensures ParseEnvelope(envelope, limits) == Ok(p) && Signed(m, signer, limits, lib, envelope)
  {
    hide Prepared, Encodes, ParseEnvelope, EncodeSignatureProtected, EncodeText, SignEntry, DescriptorFor, Enc, ToValue,
         Reencode, EncodeBodyProtected, ValidManifest, EntryOk;
    PreparedMeans(m, signer, limits, lib, p, envelope);
    EncodesMeans(m, limits.cbor, lib, p.payload);
    HeaderWithinPayload(m, p.payload, Ed25519, signer, limits.cbor);
    HeaderWithinPayload(m, p.payload, MlDsa65, signer, limits.cbor);
    SelfCheckExactly(m, signer, limits, lib, p, envelope);
  }

  // ---------------------------------------------------------------- end to end

  /** The verifier accepts whatever the signer returns. */
  ghost predicate Compatible(signer: Signer, verifier: Verifier) {
    forall a, d, msg :: signer(a, d, msg).Ok? ==> verifier(a, d, msg, signer(a, d, msg).value).Ok?
  }

  /** What was signed verifies, and gives back the manifest that was signed. */
  lemma SignThenVerify(m: Manifest, signer: Signer, verifier: Verifier, limits: CoseLimits, lib: Library,
          envelope: bytes)
    requires Compatible(signer, verifier) && Signed(m, signer, limits, lib, envelope)
    ensures VerifyManifest(envelope, verifier, limits, lib) == Ok(m)
  {
    hide Prepared, Encodes, ParseEnvelope, EncodeSignatureProtected, SignEntry, DescriptorFor, Reencode, EntryOk,
         EncodeBodyProtected, VerifyManifest, DecodeManifest, SignedMessage, ValidManifest, Enc, ToValue;
    var p :| Prepared(m, signer, limits, lib, p, envelope);
    SelfCheckExactly(m, signer, limits, lib, p, envelope);
    PreparedMeans(m, signer, limits, lib, p, envelope);
    ManifestRoundTrip(m, limits.cbor, lib, p.payload);
    SignedEntry(m, p.payload, Ed25519, signer, limits.cbor);
    SignedEntry(m, p.payload, MlDsa65, signer, limits.cbor);
    VerifiesExactly(envelope, verifier, limits, lib, m);
  }

  /** Signing an encoded manifest, step by step. */
  ghost function SignPayload(m: Manifest, payload: bytes, signer: Signer, limits: CoseLimits): Result<bytes, CoseError>
  {
    var first :- SignEntry(m, payload, Ed25519, signer, limits.cbor);
    var second :- SignEntry(m, payload, MlDsa65, signer, limits.cbor);
    var envelope :- Reencode(ParsedEnvelope(EncodeBodyProtected(), payload, [first, second]));
    if |envelope| > limits.maxEnvelopeBytes then Err(EnvelopeLimit)
    else
      var _ :- ParseEnvelope(envelope, limits);
      Ok(envelope)
  }

  /** What `sign_manifest_cose_with_limits` returns. */
  ghost function SignOutcome(m: Manifest, signer: Signer, limits: CoseLimits, lib: Library)
    : Result<bytes, CoseError>
  {
    var _ :- ValidateShapeLimits(limits);
    match EncodeResult(m, limits.cbor, lib)
    case Err(e) => Err(ManifestCbor(e))
    case Ok(payload) => SignPayload(m, payload, signer, limits)
  }

  lemma PartsSigned(m: Manifest, signer: Signer, limits: CoseLimits, p: ParsedEnvelope, envelope: bytes)
    requires |p.signatures| == 2 && p.bodyProtected == EncodeBodyProtected()
    requires SignEntry(m, p.payload, Ed25519, signer, limits.cbor) == Ok(p.signatures[0])
    requires SignEntry(m, p.payload, MlDsa65, signer, limits.cbor) == Ok(p.signatures[1])
    requires Reencode(p) == Ok(envelope) && |envelope| <= limits.maxEnvelopeBytes && ParseEnvelope(envelope, limits).Ok?
    ensures SignPayload(m, p.payload, signer, limits) == Ok(envelope)
  {
    hide SignEntry, Reencode, ParseEnvelope, EncodeBodyProtected;
    assert p == ParsedEnvelope(EncodeBodyProtected(), p.payload, [p.signatures[0], p.signatures[1]]);
  }

  lemma OutcomeOf(m: Manifest, signer: Signer, limits: CoseLimits, lib: Library, envelope: bytes)
    requires ValidateShapeLimits(limits).Ok? && Encodes(m, limits.cbor, lib, Enc(ToValue(m)))
    requires SignPayload(m, Enc(ToValue(m)), signer, limits) == Ok(envelope)
    ensures SignOutcome(m, signer, limits, lib) == Ok(envelope)
  {
    hide SignPayload, Encodes, Enc, ToValue, ValidateShapeLimits, EncodeResult;
    EncodesExactly(m, limits.cbor, lib, Enc(ToValue(m)));
  }

  lemma SignedIsOutcome(m: Manifest, signer: Signer, limits: CoseLimits, lib: Library, p: ParsedEnvelope,
          envelope: bytes)
    requires ParseEnvelope(envelope, limits).Ok? && Prepared(m, signer, limits, lib, p, envelope)
    ensures SignOutcome(m, signer, limits, lib) == Ok(envelope)
  {
    hide *;
    PreparedMeans(m, signer, limits, lib, p, envelope);
    EncodesMeans(m, limits.cbor, lib, p.payload);
    PartsSigned(m, signer, limits, p, envelope);
    OutcomeOf(m, signer, limits, lib, envelope);
  }

  lemma OutcomeIsSigned(m: Manifest, signer: Signer, limits: CoseLimits, lib: Library, envelope: bytes)
    returns (p: ParsedEnvelope)
    requires SignOutcome(m, signer, limits, lib) == Ok(envelope)
    ensures ParseEnvelope(envelope, limits).Ok? && Prepared(m, signer, limits, lib, p, envelope)
  {
    hide Encodes, SignEntry, Reencode, ParseEnvelope, EncodeBodyProtected, Enc, ToValue, ValidateShapeLimits,
         EncodeResult;
    var payload := EncodeResult(m, limits.cbor, lib).value;
    EncodesExactly(m, limits.cbor, lib, payload);
    var first := SignEntry(m, payload, Ed25519, signer, limits.cbor).value;
    var second := SignEntry(m, payload, MlDsa65, signer, limits.cbor).value;
    p := ParsedEnvelope(EncodeBodyProtected(), payload, [first, second]);
  }

  /** The steps return an envelope exactly when that envelope is signed in the sense of the theorems. */
  lemma SignedExactly(m: Manifest, signer: Signer, limits: CoseLimits, lib: Library, envelope: bytes)
    ensures Signed(m, signer, limits, lib, envelope) <==> SignOutcome(m, signer, limits, lib) == Ok(envelope)
  {
    hide Prepared, SignOutcome, ParseEnvelope;
    if Signed(m, signer, limits, lib, envelope) {
      var p :| Prepared(m, signer, limits, lib, p, envelope);
      SignedIsOutcome(m, signer, limits, lib, p, envelope);
    }
    if SignOutcome(m, signer, limits, lib) == Ok(envelope) {
      var p := OutcomeIsSigned(m, signer, limits, lib, envelope);
    }
  }

  /** The parts of the envelope that signing would print. */
  function SignedParts(m: Manifest, payload: bytes, signer: Signer, limits: CborLimits)
    : (r: Result<ParsedEnvelope, CoseError>)
    ensures r.Ok? ==> |r.value.signatures| == 2
  {
    var first :- SignEntry(m, payload, Ed25519, signer, limits);
    var second :- SignEntry(m, payload, MlDsa65, signer, limits);
    Ok(ParsedEnvelope(EncodeBodyProtected(), payload, [first, second]))
  }

  /** The shape limits hold, the manifest encodes, both turns of the loop succeed, the printed envelope fits
      and both signature headers are within the string limit. */
  ghost predicate CanSign(m: Manifest, signer: Signer, limits: CoseLimits, lib: Library) {
    var payload := Enc(ToValue(m));
    && ValidateShapeLimits(limits).Ok?
    && Encodes(m, limits.cbor, lib, payload)
    && SignedParts(m, payload, signer, limits.cbor).Ok?
    && var p := SignedParts(m, payload, signer, limits.cbor).value;
    && |TAG + OuterOf(p)| <= limits.maxEnvelopeBytes
    && |p.signatures[0].protected| <= limits.cbor.maxStringBytes
    && |p.signatures[1].protected| <= limits.cbor.maxStringBytes
  }

  lemma PartsOfEntries(m: Manifest, signer: Signer, limits: CborLimits, p: ParsedEnvelope)
    requires |p.signatures| == 2 && p.bodyProtected == EncodeBodyProtected()
    requires SignEntry(m, p.payload, Ed25519, signer, limits) == Ok(p.signatures[0])
    requires SignEntry(m, p.payload, MlDsa65, signer, limits) == Ok(p.signatures[1])
    ensures SignedParts(m, p.payload, signer, limits) == Ok(p)
  {
    hide SignEntry, EncodeBodyProtected;
    assert p == ParsedEnvelope(EncodeBodyProtected(), p.payload, [p.signatures[0], p.signatures[1]]);
  }

  lemma CanSignIntro(m: Manifest, signer: Signer, limits: CoseLimits, lib: Library, p: ParsedEnvelope)
    requires ValidateShapeLimits(limits).Ok? && Encodes(m, limits.cbor, lib, Enc(ToValue(m))) && |p.signatures| == 2
    requires SignedParts(m, Enc(ToValue(m)), signer, limits.cbor) == Ok(p)
        && |TAG + OuterOf(p)| <= limits.maxEnvelopeBytes
    requires |p.signatures[0].protected| <= limits.cbor.maxStringBytes
    requires |p.signatures[1].protected| <= limits.cbor.maxStringBytes
    ensures CanSign(m, signer, limits, lib)
  {
    hide Encodes, SignedParts, Enc, ToValue, ValidateShapeLimits, OuterOf;
  }

  lemma SignedCanSign(m: Manifest, signer: Signer, limits: CoseLimits, lib: Library, p: ParsedEnvelope, envelope: bytes)
    requires Prepared(m, signer, limits, lib, p, envelope) && ParseEnvelope(envelope, limits).Ok?
    ensures CanSign(m, signer, limits, lib)
  {
    hide *;
    PreparedMeans(m, signer, limits, lib, p, envelope);
    EncodesMeans(m, limits.cbor, lib, p.payload);
    PartsOfEntries(m, signer, limits.cbor, p);
    OuterParts(p);
    SelfCheckExactly(m, signer, limits, lib, p, envelope);
    CanSignIntro(m, signer, limits, lib, p);
  }

  lemma CanSignPrepares(m: Manifest, signer: Signer, limits: CoseLimits, lib: Library)
    returns (p: ParsedEnvelope, envelope: bytes)
    requires CanSign(m, signer, limits, lib)
    ensures Prepared(m, signer, limits, lib, p, envelope)
    ensures |p.signatures| == 2 && |p.signatures[0].protected| <= limits.cbor.maxStringBytes
    ensures |p.signatures[1].protected| <= limits.cbor.maxStringBytes
  {
    hide Prepared, Encodes, SignEntry, EncodeBodyProtected, Enc, ToValue, ValidateShapeLimits, OuterOf, Reencode;
    p := SignedParts(m, Enc(ToValue(m)), signer, limits.cbor).value;
    envelope := TAG + OuterOf(p);
    OuterParts(p);
    PreparedIntro(m, signer, limits, lib, p, envelope);
  }

  /** Signing returns an envelope exactly when these conditions hold. */
  lemma SigningSucceedsExactly(m: Manifest, signer: Signer, limits: CoseLimits, lib: Library)
    ensures (exists envelope :: Signed(m, signer, limits, lib, envelope)) <==> CanSign(m, signer, limits, lib)
  {
    hide Prepared, ParseEnvelope, CanSign;
    if envelope :| Signed(m, signer, limits, lib, envelope) {
      var p :| Prepared(m, signer, limits, lib, p, envelope);
      SignedCanSign(m, signer, limits, lib, p, envelope);
    }
    if CanSign(m, signer, limits, lib) {
      var p, envelope := CanSignPrepares(m, signer, limits, lib);
      SelfCheckExactly(m, signer, limits, lib, p, envelope);
      assert Signed(m, signer, limits, lib, envelope);
    }
  }

  lemma PreparedIntro(m: Manifest, signer: Signer, limits: CoseLimits, lib: Library, p: ParsedEnvelope, envelope: bytes)
    requires ValidateShapeLimits(limits).Ok? && Encodes(m, limits.cbor, lib, p.payload) && |p.signatures| == 2
    requires p.bodyProtected == EncodeBodyProtected() && Reencode(p) == Ok(envelope)
        && |envelope| <= limits.maxEnvelopeBytes
    requires SignEntry(m, p.payload, Ed25519, signer, limits.cbor) == Ok(p.signatures[0])
    requires SignEntry(m, p.payload, MlDsa65, signer, limits.cbor) == Ok(p.signatures[1])
    ensures Prepared(m, signer, limits, lib, p, envelope)
  {
    hide Encodes, SignEntry, EncodeBodyProtected, ValidateShapeLimits, Reencode;
  }
}
