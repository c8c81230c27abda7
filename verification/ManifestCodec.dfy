/** The manifest drivers of cbor.rs: a manifest that can be encoded is decoded back to itself. */
module ManifestCodec {
  import opened Bytes
  import opened CborValues
  import opened Manifests
  import opened Results
  import RustDocument

  // ---------------------------------------------------------------- the JSON value round trip

  lemma NamedAt(fields: map<Field, Value>, f: Field)
    ensures f in fields ==> NameOf(f) in Named(fields) && Named(fields)[NameOf(f)] == fields[f]
    ensures f !in fields ==> NameOf(f) !in Named(fields)
  {
    hide NameOf;
    if NameOf(f) in Named(fields) {
      var g :| g in fields && NameOf(f) == NameOf(g);
      NamesDiffer(f, g);
    }
  }

  function ValueOf(fields: map<Field, Value>, f: Field): Value {
    if f in fields then fields[f] else Null
  }

  /** The values under the names of `order`, with null where a field is absent. */
  function ValuesOf(fields: map<Field, Value>, order: seq<Field>): (r: seq<Value>)
    ensures |r| == |order| && forall i :: 0 <= i < |order| ==> r[i] == ValueOf(fields, order[i])
  {
    seq<Value>(|order|, i requires 0 <= i < |order| => ValueOf(fields, order[i]))
  }

  /** Reading the object of some fields finds their values in the order of declaration. */
  lemma SlotsBack(fields: map<Field, Value>, order: seq<Field>)
    requires forall f :: f in fields ==> f in order
    ensures Slots(Object(Named(fields)), order) == Some(ValuesOf(fields, order))
  {
    hide NameOf;
    var e := Named(fields);
    forall i | 0 <= i < |order| ensures FieldValue(e, order[i]) == ValuesOf(fields, order)[i] {
      NamedAt(fields, order[i]);
    }
    assert e.Keys <= Names(order);
    var r := Slots(Object(e), order);
    assert r.Some? && r.value == ValuesOf(fields, order);
  }

  lemma StringsBack(xs: seq<Text>)
    ensures ReadStrings(Strings(xs)) == Some(xs)
  {
    hide ValidUtf8;
    var r := ReadStrings(Strings(xs));
    assert r.Some? && r.value == xs;
  }

  lemma OperatorBack(o: Operator)
    ensures ReadOperator(OperatorValue(o)) == Some(o)
  {
    hide NameOf, Named, Slots, ValidUtf8;
    SlotsBack(map[FName := String(o.name)] + Optional(FJurisdiction, OptionalString(o.jurisdiction)), OPERATOR);
  }

  lemma PolicyBack(p: SignaturePolicy)
    ensures ReadPolicy(PolicyValue(p)) == Some(p)
  {
    hide NameOf, Named, Slots, Strings, ReadStrings, ValidUtf8;
    SlotsBack(map[FPolicyId := String(p.policyId), FRequiredAlgorithms := Strings(p.requiredAlgorithms)], POLICY);
    StringsBack(p.requiredAlgorithms);
  }

  lemma CapabilitiesBack(c: Capabilities)
    ensures ReadCapabilities(CapabilitiesValue(c)) == Some(c)
  {
    hide NameOf, Named, Slots, Strings, ReadStrings, ValidUtf8;
    SlotsBack(map[FRequired := Strings(c.required), FOptional := Strings(c.optional)], CAPABILITIES);
    StringsBack(c.required);
    StringsBack(c.optional);
  }

  lemma ArtifactBack(a: Artifact)
    ensures ReadArtifact(ArtifactValue(a)) == Some(a)
  {
    hide NameOf, Named, Slots, ValidUtf8;
    SlotsBack(map[FUri := String(a.uri), FMediaType := String(a.mediaType), FSha512 := String(a.sha512)], ARTIFACT);
  }

  lemma KeySlots(k: KeyDescriptor)
    ensures Slots(KeyValue(k), KEY)
         == Some([String(k.algorithm), String(k.keyId), String(k.publicKeyUri), String(k.publicKeySha256),
                  String(k.status), Strings(k.usage)])
  {
    hide NameOf, Named, Slots, Strings, ValidUtf8;
    var fields := map[
      FAlgorithm := String(k.algorithm), FKeyId := String(k.keyId), FPublicKeyUri := String(k.publicKeyUri),
      FPublicKeySha256 := String(k.publicKeySha256), FStatus := String(k.status), FUsage := Strings(k.usage)];
    SlotsBack(fields, KEY);
    assert ValuesOf(fields, KEY)
        == [String(k.algorithm), String(k.keyId), String(k.publicKeyUri), String(k.publicKeySha256),
            String(k.status), Strings(k.usage)];
  }

  lemma KeyBack(k: KeyDescriptor)
    ensures ReadKey(KeyValue(k)) == Some(k)
  {
    hide KeyValue, Slots, Strings, ReadStrings, ValidUtf8;
    KeySlots(k);
    StringsBack(k.usage);
  }

  /** Reading a list of structs element by element. */
  lemma AllBack<T>(v: Value, read: Value -> Option<T>, xs: seq<T>)
    requires v.Array? && |v.items| == |xs| && forall i :: 0 <= i < |xs| ==> read(v.items[i]) == Some(xs[i])
    ensures ReadAll(v, read) == Some(xs)
  {
    var r := ReadAll(v, read);
    assert r.Some? && r.value == xs;
  }

  lemma KeysBack(keys: seq<KeyDescriptor>)
    ensures ReadAll(KeysValue(keys), ReadKey) == Some(keys)
  {
    hide ReadKey, KeyValue, ReadAll;
    forall i | 0 <= i < |keys| ensures ReadKey(KeysValue(keys).items[i]) == Some(keys[i]) {
      KeyBack(keys[i]);
    }
    AllBack(KeysValue(keys), ReadKey, keys);
  }

  lemma ArtifactsBack(artifacts: seq<Artifact>)
    ensures ReadAll(ArtifactsValue(artifacts), ReadArtifact) == Some(artifacts)
  {
    hide ReadArtifact, ArtifactValue, ReadAll;
    forall i | 0 <= i < |artifacts| ensures ReadArtifact(ArtifactsValue(artifacts).items[i]) == Some(artifacts[i]) {
      ArtifactBack(artifacts[i]);
    }
    AllBack(ArtifactsValue(artifacts), ReadArtifact, artifacts);
  }

  predicate IdentityIsObject(m: Manifest) {
    m.identity.Some? ==> m.identity.value.Object?
  }

  lemma MandatoryFields(m: Manifest)
    ensures var fs := Fields(m);
            && FVersion in fs && fs[FVersion] == String(m.tfwsVersion)
            && FSubject in fs && fs[FSubject] == String(m.subject)
            && FEnvironment in fs && fs[FEnvironment] == String(m.environment)
            && FOperator in fs && fs[FOperator] == OperatorValue(m.operator)
            && FKeyEpoch in fs && fs[FKeyEpoch] == Int(m.keyEpoch) && FKeys in fs && fs[FKeys] == KeysValue(m.keys)
            && FSignaturePolicy in fs && fs[FSignaturePolicy] == PolicyValue(m.signaturePolicy)
            && FCapabilities in fs && fs[FCapabilities] == CapabilitiesValue(m.capabilities)
            && FArtifacts in fs && fs[FArtifacts] == ArtifactsValue(m.artifacts)
            && FUpdatedAt in fs && fs[FUpdatedAt] == String(m.updatedAt)
  {
    hide OperatorValue, KeysValue, PolicyValue, CapabilitiesValue, ArtifactsValue, ValidUtf8;
  }

  lemma OptionalFields(m: Manifest)
    ensures var fs := Fields(m);
            && (forall f :: f in fs ==> f in ROOT)
            && (m.identity.None? ==> FIdentity !in fs)
            && (m.identity.Some? ==> FIdentity in fs && fs[FIdentity] == m.identity.value)
            && (m.expiresAt.None? ==> FExpiresAt !in fs)
            && (m.expiresAt.Some? ==> FExpiresAt in fs && fs[FExpiresAt] == String(m.expiresAt.value))
  {
    hide OperatorValue, KeysValue, PolicyValue, CapabilitiesValue, ArtifactsValue, ValidUtf8;
  }

  /** The values of the twelve fields of `m`. */
  function RootValues(m: Manifest): seq<Value> {
    [String(m.tfwsVersion), String(m.subject), String(m.environment), OperatorValue(m.operator), Int(m.keyEpoch),
     KeysValue(m.keys), PolicyValue(m.signaturePolicy), CapabilitiesValue(m.capabilities),
     if m.identity.Some? then m.identity.value else Null, ArtifactsValue(m.artifacts), String(m.updatedAt),
     if m.expiresAt.Some? then String(m.expiresAt.value) else Null]
  }

  lemma RootSlots(fields: map<Field, Value>)
    ensures ValuesOf(fields, ROOT) == [
      ValueOf(fields, FVersion), ValueOf(fields, FSubject), ValueOf(fields, FEnvironment), ValueOf(fields, FOperator),
      ValueOf(fields, FKeyEpoch), ValueOf(fields, FKeys), ValueOf(fields, FSignaturePolicy),
      ValueOf(fields, FCapabilities), ValueOf(fields, FIdentity), ValueOf(fields, FArtifacts),
      ValueOf(fields, FUpdatedAt), ValueOf(fields, FExpiresAt)]
  {
    hide ValueOf, ValuesOf;
  }

  lemma RootValuesBack(m: Manifest)
    ensures ValuesOf(Fields(m), ROOT) == RootValues(m)
  {
    hide Fields, OperatorValue, PolicyValue, CapabilitiesValue, KeysValue, ArtifactsValue, ValuesOf, ROOT, ValidUtf8;
    RootSlots(Fields(m));
    MandatoryFields(m);
    OptionalFields(m);
  }

  lemma SlotsReadBack(m: Manifest)
    requires IdentityIsObject(m)
    ensures ReadSlots(RootValues(m)) == Some(m)
  {
    hide OperatorValue, PolicyValue, CapabilitiesValue, KeysValue, ArtifactsValue, ReadOperator, ReadPolicy,
         ReadCapabilities, ReadAll, ReadKey, ReadArtifact, ValidUtf8;
    OperatorBack(m.operator);
    KeysBack(m.keys);
    PolicyBack(m.signaturePolicy);
    CapabilitiesBack(m.capabilities);
    ArtifactsBack(m.artifacts);
  }

  /** Reading back the JSON value of a manifest gives the manifest, with every absent field absent. */
  lemma ValueRoundTrip(m: Manifest)
    requires IdentityIsObject(m)
    ensures FromValue(ToValue(m)) == Some(m)
  {
    hide Fields, Named, Slots, ReadSlots, ValuesOf, RootValues;
    OptionalFields(m);
    SlotsBack(Fields(m), ROOT);
    RootValuesBack(m);
    SlotsReadBack(m);
  }

  // ---------------------------------------------------------------- the drivers

  /** `encode_manifest_cbor_with_limits` returns `encoded` for `m`. */
  ghost predicate Encodes(m: Manifest, limits: CborLimits, lib: Library, encoded: bytes) {
    && ValidManifest(m, lib) && IdentityIsObject(m) && InProfile(ToValue(m), limits, 0)
    && encoded == Enc(ToValue(m)) && |encoded| <= limits.maxManifestBytes
  }

  /** What `encode_manifest_cbor_with_limits` returns. */
  ghost function EncodeResult(m: Manifest, limits: CborLimits, lib: Library): Result<bytes, CborError> {
    if !ValidManifest(m, lib) then Err(ManifestPolicy)
    else if !IdentityIsObject(m) then Err(SchemaViolation)
    else
      match ProfileCheck(ToValue(m), limits, 0)
      case Err(e) => Err(e)
      case Ok(_) =>
        if |Enc(ToValue(m))| > limits.maxManifestBytes then Err(ResourceLimit) else Ok(Enc(ToValue(m)))
  }

  lemma EncodesExactly(m: Manifest, limits: CborLimits, lib: Library, encoded: bytes)
    ensures EncodeResult(m, limits, lib) == Ok(encoded) <==> Encodes(m, limits, lib, encoded)
  {
    hide ValidManifest, ToValue, InProfile, Enc, ProfileCheck;
    ProfileCheckExactly(ToValue(m), limits, 0);
  }

  method EncodeManifest(m: Manifest, limits: CborLimits, lib: Library) returns (r: Result<bytes, CborError>)
    ensures r == EncodeResult(m, limits, lib)
    ensures r.Ok? ==> Encodes(m, limits, lib, r.value)
    ensures r.Err? ==> !Encodes(m, limits, lib, Enc(ToValue(m)))
  {
    hide ValidManifest, ToValue, InProfile, Enc, ProfileCheck;
    EncodesExactly(m, limits, lib, Enc(ToValue(m)));
    var valid := Validate(m, lib);
    if valid.Err? {
      return Err(ManifestPolicy);
    }
    if !IdentityIsObject(m) {
      return Err(SchemaViolation);
    }
    var encoded :- RustDocument.EncodeValueToVec(ToValue(m), limits);
    if |encoded| > limits.maxManifestBytes {
      return Err(ResourceLimit);
    }
    return Ok(encoded);
  }

  /** `decode_manifest_cbor`. */
  ghost function DecodeManifest(input: bytes, limits: CborLimits, lib: Library): Result<Manifest, CborError> {
    var v :- RustDocument.DecodeDocument(input, limits);
    match FromValue(v)
    case None => Err(SchemaViolation)
    case Some(m) =>
      if !IdentityIsObject(m) then Err(SchemaViolation)
      else if !ValidManifest(m, lib) then Err(ManifestPolicy)
      else Ok(m)
  }

  method DecodeManifestBytes(input: bytes, limits: CborLimits, lib: Library) returns (r: Result<Manifest, CborError>)
    ensures r == DecodeManifest(input, limits, lib)
  {
    hide RustDocument.DecodeDocument, FromValue, ValidManifest;
    var value :- RustDocument.DecodeBytes(input, limits);
    var manifest := FromValue(value);
    if manifest.None? {
      return Err(SchemaViolation);
    }
    if !IdentityIsObject(manifest.value) {
      return Err(SchemaViolation);
    }
    var valid := Validate(manifest.value, lib);
    if valid.Err? {
      return Err(ManifestPolicy);
    }
    return Ok(manifest.value);
  }

  /** Why a document is refused: by its bytes, because its value is no manifest or has an identity that is no object,
      or because the manifest is not valid. */
  lemma DecodingRefused(input: bytes, limits: CborLimits, lib: Library)
    ensures var document := RustDocument.DecodeDocument(input, limits);
            var r := DecodeManifest(input, limits, lib);
            && (document.Err? ==> r == Err(document.error))
            && (document.Ok? ==>
                  && var m := FromValue(document.value);
                  && (m.None? ==> r == Err(SchemaViolation))
                  && (m.Some? && m.value.identity.Some? && !m.value.identity.value.Object? ==>
                        r == Err(SchemaViolation))
                  && (m.Some? && (m.value.identity.None? || m.value.identity.value.Object?) ==>
                        r == if ValidManifest(m.value, lib) then Ok(m.value) else Err(ManifestPolicy)))
  {
    hide RustDocument.DecodeDocument, FromValue, ValidManifest;
  }

  /** Why a manifest is not encoded: it is not valid, its identity is no object, its value is outside the profile, or
      its encoding is too long. */
  lemma EncodingRefused(m: Manifest, limits: CborLimits, lib: Library)
    ensures var r := EncodeResult(m, limits, lib);
            && (!ValidManifest(m, lib) ==> r == Err(ManifestPolicy))
            && (ValidManifest(m, lib) ==>
                  && (m.identity.Some? && !m.identity.value.Object? ==> r == Err(SchemaViolation))
                  && (m.identity.None? || m.identity.value.Object? ==>
                        && (ProfileCheck(ToValue(m), limits, 0).Err? ==>
                              r == Err(ProfileCheck(ToValue(m), limits, 0).error))
                        && (InProfile(ToValue(m), limits, 0) && |Enc(ToValue(m))| > limits.maxManifestBytes ==>
                              r == Err(ResourceLimit))
                        && (InProfile(ToValue(m), limits, 0) && |Enc(ToValue(m))| <= limits.maxManifestBytes ==>
                              r == Ok(Enc(ToValue(m))))))
  {
    hide ValidManifest, ToValue, InProfile, Enc, ProfileCheck;
    ProfileCheckExactly(ToValue(m), limits, 0);
  }

  /** A manifest that was encoded is decoded back to itself under the same limits. */
  lemma ManifestRoundTrip(m: Manifest, limits: CborLimits, lib: Library, encoded: bytes)
    requires Encodes(m, limits, lib, encoded)
    ensures DecodeManifest(encoded, limits, lib) == Ok(m)
  {
    hide RustDocument.DecodeDocument, FromValue, ValidManifest, ToValue, InProfile, Enc;
    ValueRoundTrip(m);
    RustDocument.AcceptsExactlyEncodings(encoded, limits, ToValue(m));
  }

  /** Different manifests have different encodings. */
  lemma ManifestEncodingInjective(m: Manifest, n: Manifest, limits: CborLimits, lib: Library, encoded: bytes)
    requires Encodes(m, limits, lib, encoded) && Encodes(n, limits, lib, encoded)
    ensures m == n
  {
    hide *;
    ManifestRoundTrip(m, limits, lib, encoded);
    ManifestRoundTrip(n, limits, lib, encoded);
  }
}
