/** The envelope code as it runs: a cursor over the input, a growing output buffer, and the loops over
    the two required algorithms. */
module RustCose {
  import opened Bytes
  import opened CborHeads
  import opened CborValues
  import opened Results
  import opened Manifests
  import opened ManifestCodec
  import opened RustCbor
  import Read = LenientDecoder
  import Spec = Cose
  import Drivers = SignVerify

  type CoseError = Spec.CoseError

  const REQUIRED: seq<Spec.CoseAlgorithm> := [Spec.Ed25519, Spec.MlDsa65]

  // ---------------------------------------------------------------- reading

  /** `r` and the cursor are what the specification `spec` says. */
  ghost predicate Stepped<T(!new)>(spec: Result<Spec.Step<T>, CoseError>, r: Result<T, CoseError>, pos: nat) {
    match spec
    case Ok(d) => r == Ok(d.value) && pos == d.next
    case Err(e) => r == Err(e)
  }

  /** As `Stepped`, for a check that only moves the cursor. */
  ghost predicate Passed(spec: Result<nat, CoseError>, r: Result<(), CoseError>, pos: nat) {
    match spec
    case Ok(next) => r == Ok(()) && pos == next
    case Err(e) => r == Err(e)
  }

  method ExpectHead(decoder: Decoder, wanted: Read.ItemType, indefinite: byte) returns (r: Result<nat, CoseError>)
    requires decoder.Valid()
    modifies decoder
    ensures decoder.Valid()
        && Stepped(Spec.ExpectHead(decoder.input, old(decoder.pos), wanted, indefinite), r, decoder.pos)
  {
    var dataType := decoder.Datatype();
    if dataType.Err? {
      return Err(Spec.MalformedEnvelope);
    }
    if dataType.value != wanted {
      return Err(if decoder.input[decoder.pos] == indefinite then Spec.NonDeterministicEnvelope
                 else Spec.InvalidCoseStructure);
    }
    var length := decoder.Argument();
    if length.Err? {
      return Err(Spec.MalformedEnvelope);
    }
    return Ok(length.value);
  }

  method ExpectArray(decoder: Decoder, expected: nat) returns (r: Result<(), CoseError>)
    requires decoder.Valid()
    modifies decoder
    ensures decoder.Valid() && Passed(Spec.ExpectArray(decoder.input, old(decoder.pos), expected), r, decoder.pos)
  {
    var length :- ExpectHead(decoder, Read.ArrayItem, 0x9F);
    if length != expected {
      return Err(Spec.InvalidCoseStructure);
    }
    return Ok(());
  }

  method ReadMapLength(decoder: Decoder) returns (r: Result<nat, CoseError>)
    requires decoder.Valid()
    modifies decoder
    ensures decoder.Valid() && Stepped(Spec.ReadMapLength(decoder.input, old(decoder.pos)), r, decoder.pos)
  {
    r := ExpectHead(decoder, Read.MapItem, 0xBF);
  }

  method ExpectEmptyMap(decoder: Decoder) returns (r: Result<(), CoseError>)
    requires decoder.Valid()
    modifies decoder
    ensures decoder.Valid() && Passed(Spec.ExpectEmptyMap(decoder.input, old(decoder.pos)), r, decoder.pos)
  {
    var length :- ReadMapLength(decoder);
    if length != 0 {
      return Err(Spec.UnsupportedHeader);
    }
    return Ok(());
  }

  method ReadBytes(decoder: Decoder, maximum: nat) returns (r: Result<bytes, CoseError>)
    requires decoder.Valid()
    modifies decoder
    ensures decoder.Valid() && Stepped(Spec.ReadBytes(decoder.input, old(decoder.pos), maximum), r, decoder.pos)
  {
    var length :- ExpectHead(decoder, Read.BytesItem, 0x5F);
    var start := decoder.pos;
    if start + length > |decoder.input| {
      return Err(Spec.MalformedEnvelope);
    }
    decoder.pos := start + length;
    if length > maximum {
      return Err(Spec.EnvelopeLimit);
    }
    return Ok(decoder.input[start..start + length]);
  }

  method ReadText(decoder: Decoder, maximum: nat) returns (r: Result<Text, CoseError>)
    requires decoder.Valid()
    modifies decoder
    ensures decoder.Valid() && Stepped(Spec.ReadText(decoder.input, old(decoder.pos), maximum), r, decoder.pos)
  {
    var length :- ExpectHead(decoder, Read.StringItem, 0x7F);
    var start := decoder.pos;
    if start + length > |decoder.input| || !ValidUtf8(decoder.input[start..start + length]) {
      return Err(Spec.MalformedEnvelope);
    }
    decoder.pos := start + length;
    if length > maximum {
      return Err(Spec.EnvelopeLimit);
    }
    return Ok(decoder.input[start..start + length]);
  }

  /** `Decoder::i64`. */
  method ReadInt(decoder: Decoder) returns (r: Option<int>)
    requires decoder.Valid()
    modifies decoder
    ensures decoder.Valid()
    ensures match Spec.TakeInt(decoder.input, old(decoder.pos))
            case Some(d) => r == Some(d.value) && decoder.pos == d.next
            case None => r == None
  {
    var start := decoder.pos;
    var argument := decoder.Argument();
    if argument.Err? || decoder.input[start] >= 0x40 || argument.value >= 0x8000_0000_0000_0000 {
      return None;
    }
    return Some(if decoder.input[start] < 0x20 then argument.value else -1 - (argument.value as int));
  }

  method ReadLabel(decoder: Decoder, expected: int) returns (r: Result<(), CoseError>)
    requires decoder.Valid()
    modifies decoder
    ensures decoder.Valid() && Passed(Spec.ReadLabel(decoder.input, old(decoder.pos), expected), r, decoder.pos)
  {
    var found := ReadInt(decoder);
    if found != Some(expected) {
      return Err(Spec.UnsupportedHeader);
    }
    return Ok(());
  }

  // ---------------------------------------------------------------- printing

  method PutInt(encoder: Encoder, n: int)
    modifies encoder
    ensures encoder.output == old(encoder.output) + Spec.EncodeInt(n)
  {
    encoder.PutInt(n);
  }

  method EncodeBodyProtected() returns (output: bytes)
    ensures output == Spec.EncodeBodyProtected()
  {
    hide EncodeHead, Spec.EncodeInt, EncodeText, Spec.ContentType, Spec.EnvelopeType;
    var encoder := new Encoder();
    encoder.PutHead(5, 2);
    PutInt(encoder, 3);
    encoder.PutStr(Spec.ContentType());
    PutInt(encoder, 16);
    encoder.PutStr(Spec.EnvelopeType());
    AppendFive([], EncodeHead(5, 2), Spec.EncodeInt(3), EncodeText(Spec.ContentType()), Spec.EncodeInt(16),
               EncodeText(Spec.EnvelopeType()));
    NothingAppended(Spec.EncodeBodyProtected());
    return encoder.output;
  }

  method EncodeSignatureProtected(algorithm: Spec.CoseAlgorithm, kid: bytes) returns (output: bytes)
    ensures output == Spec.EncodeSignatureProtected(algorithm, kid)
  {
    hide EncodeHead, Spec.EncodeInt;
    var encoder := new Encoder();
    encoder.PutHead(5, 2);
    PutInt(encoder, 1);
    PutInt(encoder, algorithm.CoseValue());
    PutInt(encoder, 4);
    encoder.PutBytes(kid);
    AppendFive([], EncodeHead(5, 2), Spec.EncodeInt(1), Spec.EncodeInt(algorithm.CoseValue()), Spec.EncodeInt(4),
               Spec.EncodeBytes(kid));
    NothingAppended(Spec.EncodeSignatureProtected(algorithm, kid));
    return encoder.output;
  }

  method EncodeSigStructure(bodyProtected: bytes, signatureProtected: bytes, payload: bytes) returns (output: bytes)
    ensures output == Spec.EncodeSigStructure(bodyProtected, signatureProtected, payload)
  {
    hide EncodeHead, EncodeText, Ascii;
    var encoder := new Encoder();
    encoder.PutHead(4, 5);
    encoder.PutStr(Ascii("Signature"));
    encoder.PutBytes(bodyProtected);
    encoder.PutBytes(signatureProtected);
    encoder.PutBytes([]);
    encoder.PutBytes(payload);
    AppendSix([], EncodeHead(4, 5), EncodeText(Ascii("Signature")), Spec.EncodeBytes(bodyProtected),
              Spec.EncodeBytes(signatureProtected), Spec.EncodeBytes([]), Spec.EncodeBytes(payload));
    NothingAppended(Spec.EncodeSigStructure(bodyProtected, signatureProtected, payload));
    return encoder.output;
  }

  method PutEntry(encoder: Encoder, e: Spec.EncodedSignature)
    modifies encoder
    ensures encoder.output == old(encoder.output) + Spec.EncodeEntry(e.protected, e.signature)
  {
    hide EncodeHead;
    encoder.PutHead(4, 3);
    encoder.PutBytes(e.protected);
    encoder.PutHead(5, 0);
    encoder.PutBytes(e.signature);
    AppendFour(old(encoder.output), EncodeHead(4, 3), Spec.EncodeBytes(e.protected), EncodeHead(5, 0),
               Spec.EncodeBytes(e.signature));
  }

  /** The entries for `signatures`, one after the other. */
  function EntriesOf(signatures: seq<Spec.EncodedSignature>): bytes {
    if signatures == [] then []
    else
      var last := signatures[|signatures| - 1];
      EntriesOf(signatures[..|signatures| - 1]) + Spec.EncodeEntry(last.protected, last.signature)
  }

  method EncodeEnvelope(bodyProtected: bytes, payload: bytes, signatures: seq<Spec.EncodedSignature>)
    returns (r: Result<bytes, CoseError>)
    ensures r == Spec.EncodeEnvelope(bodyProtected, payload, signatures)
  {
    hide EncodeHead, Spec.EncodeEntry;
    if |signatures| != |REQUIRED| {
      return Err(Spec.HybridBaselineIncomplete);
    }
    var encoder := new Encoder();
    encoder.output := Spec.TAG;
    encoder.PutHead(4, 4);
    encoder.PutBytes(bodyProtected);
    encoder.PutHead(5, 0);
    encoder.PutBytes(payload);
    encoder.PutHead(4, 2);
    ghost var start := encoder.output;
    for i := 0 to |signatures|
      invariant encoder.output == start + EntriesOf(signatures[..i])
    {
      PutEntry(encoder, signatures[i]);
      EntriesGrow(signatures, i);
      ConcatAssociative(start, EntriesOf(signatures[..i]),
        Spec.EncodeEntry(signatures[i].protected, signatures[i].signature));
    }
    TwoEntries(signatures);
    AppendSix(Spec.TAG, EncodeHead(4, 4), Spec.EncodeBytes(bodyProtected), EncodeHead(5, 0), Spec.EncodeBytes(payload),
              EncodeHead(4, 2), EntriesOf(signatures));
    return Ok(encoder.output);
  }

  lemma EntriesGrow(signatures: seq<Spec.EncodedSignature>, i: nat)
    requires i < |signatures|
    ensures EntriesOf(signatures[..i + 1])
         == EntriesOf(signatures[..i]) + Spec.EncodeEntry(signatures[i].protected, signatures[i].signature)
  {
    hide Spec.EncodeEntry;
    assert signatures[..i + 1][..i] == signatures[..i];
  }

  lemma TwoEntries(signatures: seq<Spec.EncodedSignature>)
    requires |signatures| == 2
    ensures signatures[..2] == signatures
    ensures EntriesOf(signatures) == Spec.EncodeEntry(signatures[0].protected, signatures[0].signature)
                                   + Spec.EncodeEntry(signatures[1].protected, signatures[1].signature)
  {
    hide Spec.EncodeEntry;
    EntriesGrow(signatures, 0);
    EntriesGrow(signatures, 1);
    assert signatures[..2] == signatures && signatures[..0] == [];
    NothingAppended(Spec.EncodeEntry(signatures[0].protected, signatures[0].signature));
  }

  // ---------------------------------------------------------------- parsing

  method ValidateBodyProtected(input: bytes, limits: CborLimits) returns (r: Result<(), CoseError>)
    ensures r == Spec.ValidateBodyProtected(input, limits)
  {
    hide Spec.ReadMapLength, Spec.ReadLabel, Spec.ReadText, Spec.EncodeBodyProtected, Spec.ContentType,
         Spec.EnvelopeType;
    var decoder := new Decoder(input);
    var length :- ReadMapLength(decoder);
    if length != 2 {
      return Err(Spec.UnsupportedHeader);
    }
    var _ :- ReadLabel(decoder, 3);
    var contentType :- ReadText(decoder, limits.maxStringBytes);
    if contentType != Spec.ContentType() {
      return Err(Spec.InvalidContentType);
    }
    var _ :- ReadLabel(decoder, 16);
    var coseType :- ReadText(decoder, limits.maxStringBytes);
    if coseType != Spec.EnvelopeType() {
      return Err(Spec.InvalidType);
    }
    if decoder.pos != |input| {
      return Err(Spec.MalformedEnvelope);
    }
    var deterministic := EncodeBodyProtected();
    if deterministic != input {
      return Err(Spec.NonDeterministicEnvelope);
    }
    return Ok(());
  }

  method ValidateSignatureProtected(input: bytes, algorithm: Spec.CoseAlgorithm, limits: CborLimits)
    returns (r: Result<bytes, CoseError>)
    ensures r == Spec.ValidateSignatureProtected(input, algorithm, limits)
  {
    hide Spec.ReadMapLength, Spec.ReadLabel, Spec.TakeInt, Spec.ReadBytes, Spec.EncodeSignatureProtected, ValidUtf8,
         Spec.CoseAlgorithm.CoseValue;
    var decoder := new Decoder(input);
    var length :- ReadMapLength(decoder);
    if length != 2 {
      return Err(Spec.UnsupportedHeader);
    }
    var _ :- ReadLabel(decoder, 1);
    var found := ReadInt(decoder);
    if found != Some(algorithm.CoseValue()) {
      return Err(Spec.InvalidAlgorithm);
    }
    var _ :- ReadLabel(decoder, 4);
    var kid :- ReadBytes(decoder, limits.maxStringBytes);
    if kid == [] || !ValidUtf8(kid) {
      return Err(Spec.InvalidKid);
    }
    if decoder.pos != |input| {
      return Err(Spec.MalformedEnvelope);
    }
    var deterministic := EncodeSignatureProtected(algorithm, kid);
    if deterministic != input {
      return Err(Spec.NonDeterministicEnvelope);
    }
    return Ok(kid);
  }

  method ParseSignature(decoder: Decoder, algorithm: Spec.CoseAlgorithm, limits: CborLimits)
    returns (r: Result<Spec.ParsedSignature, CoseError>)
    requires decoder.Valid()
    modifies decoder
    ensures decoder.Valid()
    ensures Stepped(Spec.ParseSignature(decoder.input, old(decoder.pos), algorithm, limits), r, decoder.pos)
  {
    hide Spec.ExpectArray, Spec.ReadBytes, Spec.ValidateSignatureProtected, Spec.ExpectEmptyMap;
    var _ :- ExpectArray(decoder, 3);
    var protected :- ReadBytes(decoder, limits.maxStringBytes);
    var kid :- ValidateSignatureProtected(protected, algorithm, limits);
    var _ :- ExpectEmptyMap(decoder);
    var signature :- ReadBytes(decoder, limits.maxStringBytes);
    if |signature| != algorithm.SignatureLength() {
      return Err(Spec.SignatureInvalid);
    }
    return Ok(Spec.ParsedSignature(algorithm, protected, kid, signature));
  }

  lemma ReencodedOf(p: Spec.ParsedEnvelope, first: Spec.ParsedSignature, second: Spec.ParsedSignature)
    requires p.signatures == [first, second]
    ensures Spec.Reencode(p)
         == Spec.EncodeEnvelope(p.bodyProtected, p.payload, [Spec.EncodedSignature(first.protected, first.signature),
                                                             Spec.EncodedSignature(second.protected, second.signature)])
    ensures Spec.Reencode(p).Ok?
  {
    hide Spec.EncodeOuter;
    assert seq(2, i requires 0 <= i < 2 => Spec.EncodedSignature(p.signatures[i].protected, p.signatures[i].signature))
        == [Spec.EncodedSignature(first.protected, first.signature),
          Spec.EncodedSignature(second.protected, second.signature)];
  }

  /** `parse_envelope`. The re-encoding of two entries cannot fail, so one comparison covers it. */
  method ParseEnvelope(input: bytes, limits: Spec.CoseLimits) returns (r: Result<Spec.ParsedEnvelope, CoseError>)
    ensures r == Spec.ParseEnvelope(input, limits)
  {
    hide Spec.ExpectArray, Spec.ReadBytes, Spec.ValidateBodyProtected, Spec.ExpectEmptyMap, Spec.ParseSignature,
         Spec.EncodeEnvelope, Spec.Reencode;
    var _ :- Spec.ValidateShapeLimits(limits);
    if |input| > limits.maxEnvelopeBytes {
      return Err(Spec.EnvelopeLimit);
    }
    if |input| < 3 {
      return Err(Spec.MalformedEnvelope);
    }
    if input[..2] != Spec.TAG {
      return Err(Spec.InvalidCoseStructure);
    }
    var decoder := new Decoder(input[2..]);
    var _ :- ExpectArray(decoder, 4);
    var bodyProtected :- ReadBytes(decoder, limits.cbor.maxStringBytes);
    var _ :- ValidateBodyProtected(bodyProtected, limits.cbor);
    var _ :- ExpectEmptyMap(decoder);
    var payload :- ReadBytes(decoder, limits.cbor.maxManifestBytes);
    var _ :- ExpectArray(decoder, 2);
    var first :- ParseSignature(decoder, REQUIRED[0], limits.cbor);
    var second :- ParseSignature(decoder, REQUIRED[1], limits.cbor);
    if decoder.pos != |input| - 2 {
      return Err(Spec.MalformedEnvelope);
    }
    var parsed := Spec.ParsedEnvelope(bodyProtected, payload, [first, second]);
    var encoded := [Spec.EncodedSignature(first.protected, first.signature),
                    Spec.EncodedSignature(second.protected, second.signature)];
    ReencodedOf(parsed, first, second);
    var deterministic := EncodeEnvelope(bodyProtected, payload, encoded);
    if deterministic != Ok(input) {
      return Err(Spec.NonDeterministicEnvelope);
    }
    return Ok(parsed);
  }

  // ---------------------------------------------------------------- signing and verifying

  /** `sign_manifest_cose_with_limits`. */
  method SignManifest(m: Manifest, signer: Drivers.Signer, limits: Spec.CoseLimits, lib: Library)
    returns (r: Result<bytes, CoseError>)
    ensures r == Drivers.SignOutcome(m, signer, limits, lib)
    ensures r.Ok? ==> Drivers.Signed(m, signer, limits, lib, r.value)
  {
    hide Encodes, Spec.Reencode, Spec.ParseEnvelope, Spec.EncodeBodyProtected, Spec.EncodeSignatureProtected, Enc,
         ToValue, EncodeResult, Spec.EncodeSigStructure, Drivers.DescriptorFor, Drivers.Signed, ValidManifest,
         Spec.EncodeEnvelope;
    var _ :- Spec.ValidateShapeLimits(limits);
    var encodedManifest := EncodeManifest(m, limits.cbor, lib);
    if encodedManifest.Err? {
      return Err(Spec.ManifestCbor(encodedManifest.error));
    }
    var payload := encodedManifest.value;
    Drivers.EncodesMeans(m, limits.cbor, lib, payload);
    var bodyProtected := EncodeBodyProtected();
    var signatures: seq<Spec.EncodedSignature> := [];
    ghost var entries: seq<Spec.ParsedSignature> := [];
    for i := 0 to |REQUIRED|
      invariant |signatures| == |entries| == i
      invariant forall j :: 0 <= j < i ==>
          Drivers.SignEntry(m, payload, REQUIRED[j], signer, limits.cbor) == Ok(entries[j])
      invariant forall j :: 0 <= j < i ==>
          signatures[j] == Spec.EncodedSignature(entries[j].protected, entries[j].signature)
    {
      assert i == 0 || i == 1;
      assert i == 1 ==> Drivers.SignEntry(m, payload, REQUIRED[0], signer, limits.cbor) == Ok(entries[0]);
      var algorithm := REQUIRED[i];
      var descriptor :- Drivers.DescriptorFor(m, algorithm);
      var protected := EncodeSignatureProtected(algorithm, descriptor.keyId);
      var message := EncodeSigStructure(bodyProtected, protected, payload);
      var signature := signer(algorithm, descriptor, message);
      if signature.Err? {
        return Err(Drivers.MapCryptoError(signature.error));
      }
      if |signature.value| != algorithm.SignatureLength() {
        return Err(Spec.SignatureInvalid);
      }
      if |signature.value| > limits.cbor.maxStringBytes {
        return Err(Spec.EnvelopeLimit);
      }
      signatures := signatures + [Spec.EncodedSignature(protected, signature.value)];
      entries := entries + [Spec.ParsedSignature(algorithm, protected, descriptor.keyId, signature.value)];
    }
    ghost var p := Spec.ParsedEnvelope(bodyProtected, payload, entries);
    assert entries == [entries[0], entries[1]];
    assert signatures == [Spec.EncodedSignature(entries[0].protected, entries[0].signature),
                          Spec.EncodedSignature(entries[1].protected, entries[1].signature)];
    assert Drivers.SignEntry(m, payload, REQUIRED[0], signer, limits.cbor) == Ok(entries[0]);
    assert Drivers.SignEntry(m, payload, REQUIRED[1], signer, limits.cbor) == Ok(entries[1]);
    ReencodedOf(p, entries[0], entries[1]);
    var encoded := EncodeEnvelope(bodyProtected, payload, signatures);
    assert encoded == Spec.Reencode(p) && encoded.Ok?;
    if |encoded.value| > limits.maxEnvelopeBytes {
      return Err(Spec.EnvelopeLimit);
    }
    var _ :- ParseEnvelope(encoded.value, limits);
    Drivers.SignedExactly(m, signer, limits, lib, encoded.value);
    return Ok(encoded.value);
  }

  /** `verify_manifest_cose_with_limits`. */
  method VerifyManifest(envelope: bytes, verifier: Drivers.Verifier, limits: Spec.CoseLimits, lib: Library)
    returns (r: Result<Manifest, CoseError>)
    ensures r == Drivers.VerifyManifest(envelope, verifier, limits, lib)
  {
    hide Spec.ParseEnvelope, DecodeManifest, Spec.EncodeSigStructure, Drivers.DescriptorFor;
    var parsed :- ParseEnvelope(envelope, limits);
    var decoded := DecodeManifestBytes(parsed.payload, limits.cbor, lib);
    if decoded.Err? {
      return Err(Spec.ManifestCbor(decoded.error));
    }
    var manifest := decoded.value;
    if |parsed.signatures| != |REQUIRED| {
      return Err(Spec.HybridBaselineIncomplete);
    }
    for i := 0 to |REQUIRED|
      invariant forall j :: 0 <= j < i ==> Drivers.CheckSignature(manifest, parsed, j, REQUIRED[j], verifier).Ok?
    {
      var signature, expected := parsed.signatures[i], REQUIRED[i];
      assert i == 0 || i == 1;
      assert i == 1 ==> Drivers.CheckSignature(manifest, parsed, 0, REQUIRED[0], verifier).Ok?;
      if signature.algorithm != expected {
        return Err(Spec.InvalidAlgorithm);
      }
      var descriptor :- Drivers.DescriptorFor(manifest, expected);
      if signature.kid != descriptor.keyId {
        return Err(Spec.InvalidKid);
      }
      var message := EncodeSigStructure(parsed.bodyProtected, signature.protected, parsed.payload);
      var outcome := verifier(expected, descriptor, message, signature.signature);
      if outcome.Err? {
        return Err(Drivers.MapCryptoError(outcome.error));
      }
    }
    assert Drivers.CheckSignature(manifest, parsed, 0, REQUIRED[0], verifier).Ok?;
    assert Drivers.CheckSignature(manifest, parsed, 1, REQUIRED[1], verifier).Ok?;
    return Ok(manifest);
  }
}
