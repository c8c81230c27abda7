/** The COSE_Sign envelope of cose.rs as functions: its printers, and the parser that reads a fixed
    shape, checks both protected headers and compares the input with its re-encoding. */
module Cose {
  import opened Bytes
  import opened CborHeads
  import opened CborValues
  import opened LenientDecoder
  import opened Results

  datatype CoseAlgorithm = Ed25519 | MlDsa65 {
    function CoseValue(): int {
      if Ed25519? then -19 else -49
    }

    function TfwsIdentifier(): Text {
      if Ed25519? then Ascii("ed25519") else Ascii("ml-dsa-65")
    }

    function SignatureLength(): nat {
      if Ed25519? then 64 else 3309
    }
  }

  datatype CoseLimits = CoseLimits(maxEnvelopeBytes: usize, cbor: CborLimits)

  datatype CoseError =
    | ManifestCbor(error: CborError)
    | MalformedEnvelope
    | NonDeterministicEnvelope
    | EnvelopeLimit
    | InvalidCoseStructure
    | UnsupportedHeader
    | InvalidContentType
    | InvalidType
    | InvalidAlgorithm
    | InvalidKid
    | HybridBaselineIncomplete
    | KeyBindingMismatch
    | SignatureInvalid
    | CryptoOperation

  datatype EncodedSignature = EncodedSignature(protected: bytes, signature: bytes)

  datatype ParsedSignature = ParsedSignature(algorithm: CoseAlgorithm, protected: bytes, kid: bytes, signature: bytes)

  datatype ParsedEnvelope = ParsedEnvelope(bodyProtected: bytes, payload: bytes, signatures: seq<ParsedSignature>)

  /** `application/tfws+cbor` */
  function ContentType(): (t: Text)
    ensures |t| == 21
  {
    Ascii("application/tfws+cbor")
  }

  /** `application/cose; cose-type="cose-sign"` */
  function EnvelopeType(): (t: Text)
    ensures |t| == 39
  {
    Ascii("application/cose; cose-type=\"cose-sign\"")
  }

  // ---------------------------------------------------------------- printers

  function EncodeBytes(raw: bytes): (e: bytes)
    ensures |e| > |raw|
  {
    EncodeHead(2, |raw|) + raw
  }

  function EncodeInt(n: int): (e: bytes)
    ensures 1 <= |e| <= 9
  {
    if n >= 0 then EncodeHead(0, n) else EncodeHead(1, -1 - n)
  }

  function EncodeBodyProtected(): bytes {
    EncodeHead(5, 2) + (EncodeInt(3) + (EncodeText(ContentType()) + (EncodeInt(16) + EncodeText(EnvelopeType()))))
  }

  function EncodeSignatureProtected(algorithm: CoseAlgorithm, kid: bytes): bytes {
    EncodeHead(5, 2) + (EncodeInt(1) + (EncodeInt(algorithm.CoseValue()) + (EncodeInt(4) + EncodeBytes(kid))))
  }

  /** The Sig_structure of RFC 9052 section 4.4 with empty external data. */
  function EncodeSigStructure(bodyProtected: bytes, signatureProtected: bytes, payload: bytes): bytes {
    EncodeHead(4, 5) +
    (EncodeText(Ascii("Signature")) +
     (EncodeBytes(bodyProtected) + (EncodeBytes(signatureProtected) + (EncodeBytes([]) + EncodeBytes(payload)))))
  }

  /** One COSE_Signature: its protected header, an empty map, its signature. */
  function EncodeEntry(protected: bytes, signature: bytes): bytes {
    EncodeHead(4, 3) + (EncodeBytes(protected) + (EncodeHead(5, 0) + EncodeBytes(signature)))
  }

  /** What follows the tag. */
  function EncodeOuter(bodyProtected: bytes, payload: bytes, first: EncodedSignature, second: EncodedSignature): bytes {
    EncodeHead(4, 4) +
    (EncodeBytes(bodyProtected) +
     (EncodeHead(5, 0) +
      (EncodeBytes(payload) +
       (EncodeHead(4, 2) +
        (EncodeEntry(first.protected, first.signature) + EncodeEntry(second.protected, second.signature))))))
  }

  /** Tag 98 in preferred form. */
  const TAG: bytes := [0xD8, 0x62]

  function EncodeEnvelope(bodyProtected: bytes, payload: bytes, signatures: seq<EncodedSignature>)
    : Result<bytes, CoseError>
  {
    if |signatures| != 2 then Err(HybridBaselineIncomplete)
    else Ok(TAG + EncodeOuter(bodyProtected, payload, signatures[0], signatures[1]))
  }

  // ---------------------------------------------------------------- reading

  /** A value and where the cursor stands after it. */
  datatype Step<+T> = Step(value: T, next: nat)

  /** A head of the announced class whose absence from a wrong position is a structure error. */
  function ExpectHead(s: bytes, pos: nat, wanted: ItemType, indefinite: byte): (r: Result<Step<nat>, CoseError>)
    requires pos <= |s|
    ensures r.Ok? ==> pos < r.value.next <= |s|
  {
    match PeekType(s, pos)
    case Err(_) => Err(MalformedEnvelope)
    case Ok(t) =>
      if t == wanted then
        match TakeHead(s, pos)
        case Err(_) => Err(MalformedEnvelope)
        case Ok(h) => Ok(Step(h.arg, h.next))
      else if s[pos] == indefinite then Err(NonDeterministicEnvelope)
      else Err(InvalidCoseStructure)
  }

  function ExpectArray(s: bytes, pos: nat, expected: nat): (r: Result<nat, CoseError>)
    requires pos <= |s|
    ensures r.Ok? ==> pos < r.value <= |s|
  {
    var length :- ExpectHead(s, pos, ArrayItem, 0x9F);
    if length.value != expected then Err(InvalidCoseStructure) else Ok(length.next)
  }

  function ReadMapLength(s: bytes, pos: nat): (r: Result<Step<nat>, CoseError>)
    requires pos <= |s|
    ensures r.Ok? ==> pos < r.value.next <= |s|
  {
    ExpectHead(s, pos, MapItem, 0xBF)
  }

  function ExpectEmptyMap(s: bytes, pos: nat): (r: Result<nat, CoseError>)
    requires pos <= |s|
    ensures r.Ok? ==> pos < r.value <= |s|
  {
    var length :- ReadMapLength(s, pos);
    if length.value != 0 then Err(UnsupportedHeader) else Ok(length.next)
  }

  function ReadBytes(s: bytes, pos: nat, maximum: nat): (r: Result<Step<bytes>, CoseError>)
    requires pos <= |s|
    ensures r.Ok? ==> pos < r.value.next <= |s|
  {
    var length :- ExpectHead(s, pos, BytesItem, 0x5F);
    var next := length.next + length.value;
    if next > |s| then Err(MalformedEnvelope)
    else if length.value > maximum then Err(EnvelopeLimit)
    else Ok(Step(s[length.next..next], next))
  }

  function ReadText(s: bytes, pos: nat, maximum: nat): (r: Result<Step<Text>, CoseError>)
    requires pos <= |s|
    ensures r.Ok? ==> pos < r.value.next <= |s|
  {
    var length :- ExpectHead(s, pos, StringItem, 0x7F);
    var next := length.next + length.value;
    if next > |s| || !ValidUtf8(s[length.next..next]) then Err(MalformedEnvelope)
    else if length.value > maximum then Err(EnvelopeLimit)
    else Ok(Step(s[length.next..next], next))
  }

  /** `Decoder::i64`: an integer head of any width whose value fits. */
  function TakeInt(s: bytes, pos: nat): (r: Option<Step<int>>)
    requires pos <= |s|
    ensures r.Some? ==> pos < r.value.next <= |s|
  {
    match ReadHead(s, pos)
    case Err(_) => None
    case Ok(h) =>
      if h.major > 1 || h.arg >= 0x8000_0000_0000_0000 then None
      else Some(Step(if h.major == 0 then h.arg else -1 - h.arg, h.next))
  }

  function ReadLabel(s: bytes, pos: nat, expected: int): (r: Result<nat, CoseError>)
    requires pos <= |s|
    ensures r.Ok? ==> pos < r.value <= |s|
  {
    match TakeInt(s, pos)
    case None => Err(UnsupportedHeader)
    case Some(found) => if found.value != expected then Err(UnsupportedHeader) else Ok(found.next)
  }

  // ---------------------------------------------------------------- protected headers

  function ValidateBodyProtected(input: bytes, limits: CborLimits): Result<(), CoseError> {
    var length :- ReadMapLength(input, 0);
    if length.value != 2 then Err(UnsupportedHeader)
    else
      var afterLabel :- ReadLabel(input, length.next, 3);
      var contentType :- ReadText(input, afterLabel, limits.maxStringBytes);
      if contentType.value != ContentType() then Err(InvalidContentType)
      else
        var afterSecond :- ReadLabel(input, contentType.next, 16);
        var coseType :- ReadText(input, afterSecond, limits.maxStringBytes);
        if coseType.value != EnvelopeType() then Err(InvalidType)
        else if coseType.next != |input| then Err(MalformedEnvelope)
        else if EncodeBodyProtected() != input then Err(NonDeterministicEnvelope)
        else Ok(())
  }

  function ValidateSignatureProtected(input: bytes, algorithm: CoseAlgorithm, limits: CborLimits)
    : Result<bytes, CoseError>
  {
    var length :- ReadMapLength(input, 0);
    if length.value != 2 then Err(UnsupportedHeader)
    else
      var afterLabel :- ReadLabel(input, length.next, 1);
      match TakeInt(input, afterLabel)
      case None => Err(InvalidAlgorithm)
      case Some(alg) =>
        if alg.value != algorithm.CoseValue() then Err(InvalidAlgorithm)
        else
          var afterSecond :- ReadLabel(input, alg.next, 4);
          var kid :- ReadBytes(input, afterSecond, limits.maxStringBytes);
          if kid.value == [] || !ValidUtf8(kid.value) then Err(InvalidKid)
          else if kid.next != |input| then Err(MalformedEnvelope)
          else if EncodeSignatureProtected(algorithm, kid.value) != input then Err(NonDeterministicEnvelope)
          else Ok(kid.value)
  }

  // ---------------------------------------------------------------- the envelope

  function ValidateShapeLimits(limits: CoseLimits): Result<(), CoseError> {
    if limits.cbor.maxDepth < 4 || limits.cbor.maxArrayItems < 4 || limits.cbor.maxMapPairs < 2 then Err(EnvelopeLimit)
    else Ok(())
  }

  function ParseSignature(s: bytes, pos: nat, algorithm: CoseAlgorithm, limits: CborLimits)
    : (r: Result<Step<ParsedSignature>, CoseError>)
    requires pos <= |s|
    ensures r.Ok? ==> pos < r.value.next <= |s|
  {
    var afterHead :- ExpectArray(s, pos, 3);
    var protected :- ReadBytes(s, afterHead, limits.maxStringBytes);
    var kid :- ValidateSignatureProtected(protected.value, algorithm, limits);
    var afterMap :- ExpectEmptyMap(s, protected.next);
    var signature :- ReadBytes(s, afterMap, limits.maxStringBytes);
    if |signature.value| != algorithm.SignatureLength() then Err(SignatureInvalid)
    else Ok(Step(ParsedSignature(algorithm, protected.value, kid, signature.value), signature.next))
  }

  /** The fixed shape after the tag, without the final comparison. */
  function ParseOuter(s: bytes, limits: CborLimits): (r: Result<Step<ParsedEnvelope>, CoseError>) {
    var afterHead :- ExpectArray(s, 0, 4);
    var body :- ReadBytes(s, afterHead, limits.maxStringBytes);
    var _ :- ValidateBodyProtected(body.value, limits);
    var afterMap :- ExpectEmptyMap(s, body.next);
    var payload :- ReadBytes(s, afterMap, limits.maxManifestBytes);
    var afterArray :- ExpectArray(s, payload.next, 2);
    var first :- ParseSignature(s, afterArray, Ed25519, limits);
    var second :- ParseSignature(s, first.next, MlDsa65, limits);
    Ok(Step(ParsedEnvelope(body.value, payload.value, [first.value, second.value]), second.next))
  }

  function Reencode(p: ParsedEnvelope): Result<bytes, CoseError> {
    EncodeEnvelope(p.bodyProtected, p.payload,
                   seq(|p.signatures|, i requires 0 <= i < |p.signatures| =>
                     EncodedSignature(p.signatures[i].protected, p.signatures[i].signature)))
  }

  function ParseEnvelope(input: bytes, limits: CoseLimits): Result<ParsedEnvelope, CoseError> {
    var _ :- ValidateShapeLimits(limits);
    if |input| > limits.maxEnvelopeBytes then Err(EnvelopeLimit)
    else if |input| < 3 then Err(MalformedEnvelope)
    else if input[..2] != TAG then Err(InvalidCoseStructure)
    else
      var parsed :- ParseOuter(input[2..], limits.cbor);
      if parsed.next != |input| - 2 then Err(MalformedEnvelope)
      else
        var deterministic :- Reencode(parsed.value);
        if deterministic != input then Err(NonDeterministicEnvelope) else Ok(parsed.value)
  }
}
