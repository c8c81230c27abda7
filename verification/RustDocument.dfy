/** The document layer of `decode_manifest_cbor` in cbor.rs: lenient decoding, full consumption, and
    comparison with the re-encoding. */
module RustDocument {
  import opened Bytes
  import opened CborHeads
  import opened CborValues
  import opened Results
  import Spec = LenientDecoder
  import Sound = LenientSoundness
  import Complete = LenientCompleteness
  import RustCbor

  ghost function DecodeDocument(input: bytes, limits: CborLimits): Result<Value, CborError> {
    if |input| > limits.maxManifestBytes then Err(ResourceLimit)
    else if input == [] then Err(MalformedCbor)
    else
      match Spec.DecodeValue(input, 0, limits, 0)
      case Err(e) => Err(e)
      case Ok(d) =>
        if d.next != |input| then Err(TrailingData)
        else if Enc(d.value) != input then Err(NonDeterministicCbor)
        else Ok(d.value)
  }

  /** `encode_value_to_vec`: the first violation of the profile, or the encoding. */
  method EncodeValueToVec(value: Value, limits: CborLimits) returns (r: Result<bytes, CborError>)
    ensures ProfileCheck(value, limits, 0).Err? ==> r == Err(ProfileCheck(value, limits, 0).error)
    ensures ProfileCheck(value, limits, 0).Ok? ==> r == Ok(Enc(value))
    ensures r.Ok? <==> InProfile(value, limits, 0)
  {
    hide ProfileCheck, Enc, InProfile;
    var _ :- RustCbor.ValidateValueProfile(value, limits, 0);
    var encoder := new RustCbor.Encoder();
    var written := RustCbor.EncodeValue(value, encoder, limits, 0);
    assert written.Ok?;
    assert [] + Enc(value) == Enc(value);
    return Ok(encoder.output);
  }

  /** The code as written; its re-encoding step can fail in the type but never does. */
  method DecodeBytes(input: bytes, limits: CborLimits) returns (r: Result<Value, CborError>)
    ensures r == DecodeDocument(input, limits)
  {
    hide Enc, InProfile, Spec.DecodeValue;
    if |input| > limits.maxManifestBytes {
      return Err(ResourceLimit);
    }
    if input == [] {
      return Err(MalformedCbor);
    }
    var decoder := new RustCbor.Decoder(input);
    var value :- RustCbor.DecodeValue(decoder, limits, 0);
    if decoder.pos != |input| {
      return Err(TrailingData);
    }
    Sound.ValueSound(input, 0, limits, 0);
    var deterministic := EncodeValueToVec(value, limits);
    assert deterministic.Ok?;
    if deterministic.value != input {
      return Err(NonDeterministicCbor);
    }
    return Ok(value);
  }

  /** The accepted documents are exactly the deterministic encodings of the values within the
      profile, and each is decoded to the value it encodes. */
  lemma AcceptsExactlyEncodings(input: bytes, limits: CborLimits, v: Value)
    ensures DecodeDocument(input, limits) == Ok(v) <==>
            InProfile(v, limits, 0) && input == Enc(v) && |input| <= limits.maxManifestBytes
  {
    hide Enc, InProfile, Spec.DecodeValue;
    if DecodeDocument(input, limits) == Ok(v) {
      Sound.ValueSound(input, 0, limits, 0);
    }
    if InProfile(v, limits, 0) && input == Enc(v) {
      WholeAt(input);
      Complete.ValueComplete(input, 0, v, limits, 0);
    }
  }

  lemma WholeAt(s: bytes)
    ensures At(s, 0, s)
  {
    assert s[0..|s|] == s;
  }

  /** Once the lenient decoder has consumed a whole input, re-encoding cannot fail, cannot grow, and
      reproduces the input unless some head was wider than necessary. */
  lemma ReencodingDiffersExactlyWhenWide(input: bytes, limits: CborLimits)
    requires Spec.DecodeValue(input, 0, limits, 0).Ok?
    requires Spec.DecodeValue(input, 0, limits, 0).value.next == |input|
    ensures var d := Spec.DecodeValue(input, 0, limits, 0).value;
            && InProfile(d.value, limits, 0)
            && |Enc(d.value)| <= |input|
            && (Enc(d.value) == input <==> d.preferred)
            && (!d.preferred ==> |Enc(d.value)| < |input|)
  {
    hide Enc, InProfile, Spec.DecodeValue;
    Sound.ValueSound(input, 0, limits, 0);
    assert input[0..|input|] == input;
  }

  /** Distinct values within a profile have distinct encodings. */
  lemma EncodingInjective(v: Value, w: Value, limits: CborLimits)
    requires InProfile(v, limits, 0) && InProfile(w, limits, 0) && Enc(v) == Enc(w)
    ensures v == w
  {
    hide *;
    WholeAt(Enc(v));
    Complete.ValueComplete(Enc(v), 0, v, limits, 0);
    Complete.ValueComplete(Enc(v), 0, w, limits, 0);
  }

  /** Every proper prefix of an accepted document is malformed, and every extension is rejected. */
  lemma PrefixAndExtensionRejected(input: bytes, limits: CborLimits, k: nat, suffix: bytes)
    requires DecodeDocument(input, limits).Ok? && k < |input| && suffix != []
    ensures var cut := DecodeDocument(input[..k], limits); cut.Err? && CategoryOf(cut.error) == CatMalformed
    ensures DecodeDocument(input + suffix, limits)
         == Err(if |input + suffix| > limits.maxManifestBytes then ResourceLimit else TrailingData)
  {
    hide Enc, InProfile, Spec.DecodeValue;
    var v := DecodeDocument(input, limits).value;
    AcceptsExactlyEncodings(input, limits, v);
    Complete.ValueTruncated(input, 0, k, limits, 0);
    assert (input + suffix)[0..|input|] == input;
    Complete.ValueComplete(input + suffix, 0, v, limits, 0);
  }
}
