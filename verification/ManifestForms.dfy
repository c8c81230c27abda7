/** How many documents decode to one manifest: the struct reader also takes structs written as arrays, so the encoding
    of a manifest is not the only document for it. It is the only one with an object for every struct. */
module ManifestForms {
  import opened Bytes
  import opened CborValues
  import opened Manifests
  import opened ManifestCodec
  import opened Results
  import RustDocument

  // ---------------------------------------------------------------- one struct

  ghost predicate NoNulls(e: map<Text, Value>) {
    forall k :: k in e ==> !e[k].Null?
  }

  /** An object that holds just the given values, where it holds no null, is the object written from them. */
  lemma ObjectOfSlots(e: map<Text, Value>, fields: map<Field, Value>, order: seq<Field>)
    requires e.Keys <= Names(order) && NoNulls(e) && forall f :: f in fields ==> f in order && !fields[f].Null?
    requires forall f :: f in order ==> ValueOf(fields, f) == FieldValue(e, f)
    ensures e == Named(fields)
  {
    hide NameOf, Named, ValidUtf8;
    var n := Named(fields);
    forall k | k in e ensures k in n && n[k] == e[k] {
      var f :| f in order && NameOf(f) == k;
      assert ValueOf(fields, f) == FieldValue(e, f);
      NamedAt(fields, f);
    }
    forall k | k in n ensures k in e {
      var f :| f in fields && NameOf(f) == k;
      assert ValueOf(fields, f) == FieldValue(e, f);
    }
  }

  lemma SlotsOfObject(v: Value, order: seq<Field>)
    requires v.Object? && Slots(v, order).Some?
    ensures v.entries.Keys <= Names(order)
    ensures forall i :: 0 <= i < |order| ==> Slots(v, order).value[i] == FieldValue(v.entries, order[i])
  {
    hide NameOf, Names, FieldValue, ValidUtf8;
  }

  lemma StringsRead(v: Value, xs: seq<Text>)
    requires ReadStrings(v) == Some(xs)
    ensures v == Strings(xs)
  {
    hide ValidUtf8;
    assert v.items == Strings(xs).items;
  }

  lemma OperatorRead(v: Value, o: Operator)
    requires ReadOperator(v) == Some(o) && v.Object? && NoNulls(v.entries)
    ensures v == OperatorValue(o)
  {
    hide NameOf, Named, Slots, Names, FieldValue, ValidUtf8, NoNulls;
    var fields := map[FName := String(o.name)] + Optional(FJurisdiction, OptionalString(o.jurisdiction));
    SlotsOfObject(v, OPERATOR);
    assert OPERATOR[0] == FName && OPERATOR[1] == FJurisdiction;
    ObjectOfSlots(v.entries, fields, OPERATOR);
  }

  lemma PolicyRead(v: Value, p: SignaturePolicy)
    requires ReadPolicy(v) == Some(p) && v.Object? && NoNulls(v.entries)
    ensures v == PolicyValue(p)
  {
    hide NameOf, Named, Slots, Names, FieldValue, ReadStrings, ValidUtf8, NoNulls;
    var fields := map[FPolicyId := String(p.policyId), FRequiredAlgorithms := Strings(p.requiredAlgorithms)];
    SlotsOfObject(v, POLICY);
    assert POLICY[0] == FPolicyId && POLICY[1] == FRequiredAlgorithms;
    StringsRead(FieldValue(v.entries, FRequiredAlgorithms), p.requiredAlgorithms);
    ObjectOfSlots(v.entries, fields, POLICY);
  }

  lemma CapabilitiesRead(v: Value, c: Capabilities)
    requires ReadCapabilities(v) == Some(c) && v.Object? && NoNulls(v.entries)
    ensures v == CapabilitiesValue(c)
  {
    hide NameOf, Named, Slots, Names, FieldValue, ReadStrings, ValidUtf8, NoNulls;
    var fields := map[FRequired := Strings(c.required), FOptional := Strings(c.optional)];
    SlotsOfObject(v, CAPABILITIES);
    assert CAPABILITIES[0] == FRequired && CAPABILITIES[1] == FOptional;
    StringsRead(FieldValue(v.entries, FRequired), c.required);
    StringsRead(FieldValue(v.entries, FOptional), c.optional);
    ObjectOfSlots(v.entries, fields, CAPABILITIES);
  }

  lemma ArtifactRead(v: Value, a: Artifact)
    requires ReadArtifact(v) == Some(a) && v.Object? && NoNulls(v.entries)
    ensures v == ArtifactValue(a)
  {
    hide NameOf, Named, Slots, Names, FieldValue, ValidUtf8, NoNulls;
    var fields := map[FUri := String(a.uri), FMediaType := String(a.mediaType), FSha512 := String(a.sha512)];
    SlotsOfObject(v, ARTIFACT);
    assert ARTIFACT[0] == FUri && ARTIFACT[1] == FMediaType && ARTIFACT[2] == FSha512;
    ObjectOfSlots(v.entries, fields, ARTIFACT);
  }

  lemma KeyRead(v: Value, k: KeyDescriptor)
    requires ReadKey(v) == Some(k) && v.Object? && NoNulls(v.entries)
    ensures v == KeyValue(k)
  {
    hide NameOf, Named, Slots, Names, FieldValue, ReadStrings, ValidUtf8, NoNulls;
    var fields := map[
      FAlgorithm := String(k.algorithm), FKeyId := String(k.keyId), FPublicKeyUri := String(k.publicKeyUri),
      FPublicKeySha256 := String(k.publicKeySha256), FStatus := String(k.status), FUsage := Strings(k.usage)];
    SlotsOfObject(v, KEY);
    assert KEY[0] == FAlgorithm && KEY[1] == FKeyId && KEY[2] == FPublicKeyUri && KEY[3] == FPublicKeySha256;
    assert KEY[4] == FStatus && KEY[5] == FUsage;
    StringsRead(FieldValue(v.entries, FUsage), k.usage);
    ObjectOfSlots(v.entries, fields, KEY);
  }

  // ---------------------------------------------------------------- the manifest

  /** Every struct of the manifest is written as an object. */
  ghost predicate Plain(v: Value) {
    && v.Object?
    && var e := v.entries;
    && FieldValue(e, FOperator).Object? && FieldValue(e, FSignaturePolicy).Object?
    && FieldValue(e, FCapabilities).Object?
    && PlainList(FieldValue(e, FKeys)) && PlainList(FieldValue(e, FArtifacts))
  }

  ghost predicate PlainList(v: Value) {
    v.Array? ==> forall i :: 0 <= i < |v.items| ==> v.items[i].Object?
  }

  lemma ProfileHasNoNulls(v: Value, limits: CborLimits, depth: nat)
    requires InProfile(v, limits, depth)
    ensures !v.Null?
    ensures v.Object? ==>
              NoNulls(v.entries) && forall k :: k in v.entries ==> InProfile(v.entries[k], limits, depth + 1)
    ensures v.Array? ==> forall i :: 0 <= i < |v.items| ==> InProfile(v.items[i], limits, depth + 1)
  {
  }

  lemma FieldInProfile(v: Value, f: Field, limits: CborLimits, depth: nat)
    requires v.Object? && InProfile(v, limits, depth)
    ensures FieldValue(v.entries, f).Null? || InProfile(FieldValue(v.entries, f), limits, depth + 1)
  {
    hide NameOf, InProfile;
    ProfileHasNoNulls(v, limits, depth);
  }

  lemma KeysRead(v: Value, keys: seq<KeyDescriptor>, limits: CborLimits, depth: nat)
    requires ReadAll(v, ReadKey) == Some(keys) && PlainList(v) && InProfile(v, limits, depth)
    ensures v == KeysValue(keys)
  {
    hide ReadKey, KeyValue, InProfile;
    ProfileHasNoNulls(v, limits, depth);
    forall i | 0 <= i < |keys| ensures v.items[i] == KeysValue(keys).items[i] {
      ProfileHasNoNulls(v.items[i], limits, depth + 1);
      KeyRead(v.items[i], keys[i]);
    }
    assert v.items == KeysValue(keys).items;
  }

  lemma ArtifactsRead(v: Value, artifacts: seq<Artifact>, limits: CborLimits, depth: nat)
    requires ReadAll(v, ReadArtifact) == Some(artifacts) && PlainList(v) && InProfile(v, limits, depth)
    ensures v == ArtifactsValue(artifacts)
  {
    hide ReadArtifact, ArtifactValue, InProfile;
    ProfileHasNoNulls(v, limits, depth);
    forall i | 0 <= i < |artifacts| ensures v.items[i] == ArtifactsValue(artifacts).items[i] {
      ProfileHasNoNulls(v.items[i], limits, depth + 1);
      ArtifactRead(v.items[i], artifacts[i]);
    }
    assert v.items == ArtifactsValue(artifacts).items;
  }

  lemma SlotsMean(x: seq<Value>, m: Manifest)
    requires |x| == 12 && ReadSlots(x) == Some(m)
    ensures x[0] == String(m.tfwsVersion) && x[1] == String(m.subject) && x[2] == String(m.environment)
    ensures ReadOperator(x[3]) == Some(m.operator) && x[4] == Int(m.keyEpoch) && ReadAll(x[5], ReadKey) == Some(m.keys)
    ensures ReadPolicy(x[6]) == Some(m.signaturePolicy) && ReadCapabilities(x[7]) == Some(m.capabilities)
    ensures x[8] == (if m.identity.Some? then m.identity.value else Null)
    ensures ReadAll(x[9], ReadArtifact) == Some(m.artifacts) && x[10] == String(m.updatedAt)
    ensures x[11] == if m.expiresAt.Some? then String(m.expiresAt.value) else Null
  {
    hide ReadOperator, ReadAll, ReadKey, ReadPolicy, ReadCapabilities, ReadArtifact, ValidUtf8;
  }

  lemma NullReadsNothing()
    ensures ReadOperator(Null).None? && ReadPolicy(Null).None? && ReadCapabilities(Null).None?
    ensures ReadAll(Null, ReadKey).None? && ReadAll(Null, ReadArtifact).None?
  {
  }

  lemma RootFieldOrder()
    ensures |ROOT| == 12
    ensures ROOT[0] == FVersion && ROOT[1] == FSubject && ROOT[2] == FEnvironment && ROOT[3] == FOperator
    ensures ROOT[4] == FKeyEpoch && ROOT[5] == FKeys && ROOT[6] == FSignaturePolicy && ROOT[7] == FCapabilities
    ensures ROOT[8] == FIdentity && ROOT[9] == FArtifacts && ROOT[10] == FUpdatedAt && ROOT[11] == FExpiresAt
  {
  }

  lemma RootStructs(v: Value, m: Manifest, limits: CborLimits)
    requires FromValue(v) == Some(m) && Plain(v) && InProfile(v, limits, 0)
    ensures v.Object? && Slots(v, ROOT).Some?
    ensures FieldValue(v.entries, FOperator) == OperatorValue(m.operator)
    ensures FieldValue(v.entries, FSignaturePolicy) == PolicyValue(m.signaturePolicy)
    ensures FieldValue(v.entries, FCapabilities) == CapabilitiesValue(m.capabilities)
    ensures FieldValue(v.entries, FKeys) == KeysValue(m.keys)
    ensures FieldValue(v.entries, FArtifacts) == ArtifactsValue(m.artifacts)
    ensures ReadSlots(Slots(v, ROOT).value) == Some(m)
  {
    hide FieldValue, Slots, ReadSlots, ReadOperator, ReadAll, ReadKey, ReadPolicy, ReadCapabilities, ReadArtifact,
         OperatorValue, PolicyValue, CapabilitiesValue, KeysValue, ArtifactsValue, InProfile, PlainList, ROOT, Names,
         NoNulls, ValidUtf8;
    var e := v.entries;
    RootFieldOrder();
    SlotsOfObject(v, ROOT);
    SlotsMean(Slots(v, ROOT).value, m);
    NullReadsNothing();
    FieldInProfile(v, FOperator, limits, 0);
    FieldInProfile(v, FSignaturePolicy, limits, 0);
    FieldInProfile(v, FCapabilities, limits, 0);
    FieldInProfile(v, FKeys, limits, 0);
    FieldInProfile(v, FArtifacts, limits, 0);
    ProfileHasNoNulls(FieldValue(e, FOperator), limits, 1);
    ProfileHasNoNulls(FieldValue(e, FSignaturePolicy), limits, 1);
    ProfileHasNoNulls(FieldValue(e, FCapabilities), limits, 1);
    OperatorRead(FieldValue(e, FOperator), m.operator);
    PolicyRead(FieldValue(e, FSignaturePolicy), m.signaturePolicy);
    CapabilitiesRead(FieldValue(e, FCapabilities), m.capabilities);
    KeysRead(FieldValue(e, FKeys), m.keys, limits, 1);
    ArtifactsRead(FieldValue(e, FArtifacts), m.artifacts, limits, 1);
  }

  lemma FieldsOf(e: map<Text, Value>, m: Manifest, f: Field)
    requires f in ROOT && IdentityIsObject(m)
    requires FieldValue(e, FVersion) == String(m.tfwsVersion) && FieldValue(e, FSubject) == String(m.subject)
    requires FieldValue(e, FEnvironment) == String(m.environment)
    requires FieldValue(e, FOperator) == OperatorValue(m.operator) && FieldValue(e, FKeyEpoch) == Int(m.keyEpoch)
    requires FieldValue(e, FKeys) == KeysValue(m.keys)
    requires FieldValue(e, FSignaturePolicy) == PolicyValue(m.signaturePolicy)
    requires FieldValue(e, FCapabilities) == CapabilitiesValue(m.capabilities)
    requires FieldValue(e, FIdentity) == if m.identity.Some? then m.identity.value else Null
    requires FieldValue(e, FArtifacts) == ArtifactsValue(m.artifacts)
    requires FieldValue(e, FUpdatedAt) == String(m.updatedAt)
    requires FieldValue(e, FExpiresAt) == if m.expiresAt.Some? then String(m.expiresAt.value) else Null
    ensures ValueOf(Fields(m), f) == FieldValue(e, f)
    ensures f in Fields(m) ==> !Fields(m)[f].Null?
  {
    hide FieldValue, Fields, OperatorValue, PolicyValue, CapabilitiesValue, KeysValue, ArtifactsValue, ROOT, NameOf,
         ValidUtf8;
    FieldCases(f);
    MandatoryFields(m);
    OptionalFields(m);
    StructsAreNotNull(m);
  }

  lemma FieldCases(f: Field)
    requires f in ROOT
    ensures || f == FVersion || f == FSubject || f == FEnvironment || f == FOperator || f == FKeyEpoch || f == FKeys
            || f == FSignaturePolicy || f == FCapabilities || f == FIdentity || f == FArtifacts || f == FUpdatedAt
            || f == FExpiresAt
  {
  }

  lemma StructsAreNotNull(m: Manifest)
    ensures OperatorValue(m.operator).Object? && PolicyValue(m.signaturePolicy).Object?
    ensures CapabilitiesValue(m.capabilities).Object? && KeysValue(m.keys).Array? && ArtifactsValue(m.artifacts).Array?
    ensures forall i :: 0 <= i < |m.keys| ==> KeysValue(m.keys).items[i].Object?
    ensures forall i :: 0 <= i < |m.artifacts| ==> ArtifactsValue(m.artifacts).items[i].Object?
    ensures |KeysValue(m.keys).items| == |m.keys| && |ArtifactsValue(m.artifacts).items| == |m.artifacts|
  {
    hide Named;
  }

  /** A value within the profile that reads as a manifest, with an object for every struct, is the JSON value of that
      manifest: there are no other names in it, and none is missing. */
  lemma PlainIsWritten(v: Value, m: Manifest, limits: CborLimits)
    requires FromValue(v) == Some(m) && Plain(v) && InProfile(v, limits, 0) && IdentityIsObject(m)
    ensures v == ToValue(m)
  {
    hide FieldValue, Slots, ReadSlots, Plain, OperatorValue, PolicyValue, CapabilitiesValue, KeysValue, ArtifactsValue,
         InProfile, ROOT, Names, Fields, Named, ValueOf, FromValue, NoNulls, ValidUtf8;
    RootStructs(v, m, limits);
    RootFieldOrder();
    SlotsOfObject(v, ROOT);
    SlotsMean(Slots(v, ROOT).value, m);
    ProfileHasNoNulls(v, limits, 0);
    OptionalFields(m);
    forall f | f in ROOT
      ensures ValueOf(Fields(m), f) == FieldValue(v.entries, f) && (f in Fields(m) ==> !Fields(m)[f].Null?)
    {
      FieldsOf(v.entries, m, f);
    }
    ObjectOfSlots(v.entries, Fields(m), ROOT);
  }

  lemma WrittenField(m: Manifest, f: Field)
    ensures FieldValue(Named(Fields(m)), f) == ValueOf(Fields(m), f)
  {
    NamedAt(Fields(m), f);
    hide NameOf, Fields, Named;
  }

  lemma WrittenIsPlain(m: Manifest)
    ensures Plain(ToValue(m))
  {
    hide FieldValue, OperatorValue, PolicyValue, CapabilitiesValue, KeysValue, ArtifactsValue, Fields, Named, ValidUtf8;
    MandatoryFields(m);
    WrittenField(m, FOperator);
    WrittenField(m, FSignaturePolicy);
    WrittenField(m, FCapabilities);
    WrittenField(m, FKeys);
    WrittenField(m, FArtifacts);
    StructsAreNotNull(m);
  }

  lemma DecodedParts(input: bytes, limits: CborLimits, lib: Library, m: Manifest)
    ensures DecodeManifest(input, limits, lib) == Ok(m) <==>
            && RustDocument.DecodeDocument(input, limits).Ok?
            && FromValue(RustDocument.DecodeDocument(input, limits).value) == Some(m)
            && IdentityIsObject(m) && ValidManifest(m, lib)
  {
    hide RustDocument.DecodeDocument, FromValue, ValidManifest, IdentityIsObject;
  }

  /** A document that decodes to a manifest is the encoding of that manifest exactly when each of its structs is an
      object. */
  lemma CanonicalExactly(input: bytes, limits: CborLimits, lib: Library, m: Manifest)
    requires DecodeManifest(input, limits, lib) == Ok(m)
    ensures RustDocument.DecodeDocument(input, limits).Ok?
    ensures Encodes(m, limits, lib, input) <==> Plain(RustDocument.DecodeDocument(input, limits).value)
  {
    hide RustDocument.DecodeDocument, FromValue, ValidManifest, IdentityIsObject, InProfile, Enc, ToValue, Plain,
         DecodeManifest;
    DecodedParts(input, limits, lib, m);
    var v := RustDocument.DecodeDocument(input, limits).value;
    RustDocument.AcceptsExactlyEncodings(input, limits, v);
    if Plain(v) {
      PlainIsWritten(v, m, limits);
    }
    if Encodes(m, limits, lib, input) {
      RustDocument.AcceptsExactlyEncodings(input, limits, ToValue(m));
      WrittenIsPlain(m);
    }
  }

  // ---------------------------------------------------------------- another document for the same manifest

  function CapabilitiesArray(c: Capabilities): Value {
    Array([Strings(c.required), Strings(c.optional)])
  }

  /** The JSON value of a manifest, but with the capabilities as an array of their two lists. */
  function ArrayForm(m: Manifest): Value {
    Object(Named(Fields(m))[NameOf(FCapabilities) := CapabilitiesArray(m.capabilities)])
  }

  lemma CapabilitiesArrayRead(c: Capabilities)
    ensures ReadCapabilities(CapabilitiesArray(c)) == Some(c)
  {
    hide Strings, ReadStrings, ValidUtf8;
    StringsBack(c.required);
    StringsBack(c.optional);
  }

  lemma ArrayFormField(m: Manifest, f: Field)
    ensures FieldValue(ArrayForm(m).entries, f) ==
            if f == FCapabilities then CapabilitiesArray(m.capabilities) else ValueOf(Fields(m), f)
  {
    NamedAt(Fields(m), f);
    hide NameOf, Fields, Named, CapabilitiesArray;
    if NameOf(f) == NameOf(FCapabilities) {
      NamesDiffer(f, FCapabilities);
    }
  }

  lemma ArrayFormSlots(m: Manifest)
    ensures Slots(ArrayForm(m), ROOT) == Some(RootValues(m)[7 := CapabilitiesArray(m.capabilities)])
  {
    hide FieldValue, Fields, Named, NameOf, CapabilitiesArray, ValueOf, RootValues, ROOT, ValidUtf8;
    RootFieldOrder();
    RootValuesBack(m);
    RootSize(m);
    ArrayFormNames(m);
    forall i | 0 <= i < 12
      ensures FieldValue(ArrayForm(m).entries, ROOT[i])
           == RootValues(m)[7 := CapabilitiesArray(m.capabilities)][i]
    {
      ArrayFormField(m, ROOT[i]);
      assert ValuesOf(Fields(m), ROOT)[i] == ValueOf(Fields(m), ROOT[i]);
      OnlySeventh(i);
    }
    var r := Slots(ArrayForm(m), ROOT);
    assert r.Some? && r.value == RootValues(m)[7 := CapabilitiesArray(m.capabilities)];
  }

  lemma RootSize(m: Manifest)
    ensures |RootValues(m)| == 12
  {
  }

  lemma OnlySeventh(i: nat)
    requires i < |ROOT|
    ensures ROOT[i] == FCapabilities <==> i == 7
  {
  }

  lemma ArrayFormNames(m: Manifest)
    ensures ArrayForm(m).entries.Keys <= Names(ROOT)
  {
    hide NameOf, Fields, Named, CapabilitiesArray, ValidUtf8;
    OptionalFields(m);
    assert FCapabilities in ROOT;
  }

  lemma ArrayFormReads(m: Manifest)
    requires IdentityIsObject(m)
    ensures FromValue(ArrayForm(m)) == Some(m)
  {
    hide ArrayForm, CapabilitiesArray, OperatorValue, PolicyValue, CapabilitiesValue, KeysValue, ArtifactsValue,
         ReadOperator, ReadPolicy, ReadCapabilities, ReadAll, ReadKey, ReadArtifact, Slots, ValidUtf8;
    ArrayFormSlots(m);
    CapabilitiesArrayRead(m.capabilities);
    OperatorBack(m.operator);
    KeysBack(m.keys);
    PolicyBack(m.signaturePolicy);
    ArtifactsBack(m.artifacts);
  }

  lemma CapabilitiesWritten(m: Manifest)
    ensures NameOf(FCapabilities) in Named(Fields(m))
    ensures Named(Fields(m))[NameOf(FCapabilities)] == CapabilitiesValue(m.capabilities)
  {
    NamedAt(Fields(m), FCapabilities);
    MandatoryFields(m);
    hide NameOf, Fields, Named, CapabilitiesValue;
  }

  lemma ListsInProfile(c: Capabilities, limits: CborLimits, depth: nat)
    requires InProfile(CapabilitiesValue(c), limits, depth) && limits.maxArrayItems >= 2
    ensures InProfile(CapabilitiesArray(c), limits, depth)
  {
    var fields := map[FRequired := Strings(c.required), FOptional := Strings(c.optional)];
    NamedAt(fields, FRequired);
    NamedAt(fields, FOptional);
    hide NameOf, Named, Strings, ValidUtf8;
  }

  lemma ReplacedInProfile(e: map<Text, Value>, k: Text, v: Value, limits: CborLimits)
    requires InProfile(Object(e), limits, 0) && k in e && InProfile(v, limits, 1)
    ensures InProfile(Object(e[k := v]), limits, 0)
  {
    hide ValidUtf8;
    var f := e[k := v];
    assert f.Keys == e.Keys;
    assert |f| == |f.Keys| && |e| == |e.Keys|;
    forall j | j in f ensures |j| <= limits.maxStringBytes && InProfile(f[j], limits, 1) {
      assert j in e;
    }
  }

  lemma ArrayFormInProfile(m: Manifest, limits: CborLimits)
    requires InProfile(ToValue(m), limits, 0) && limits.maxArrayItems >= 2
    ensures InProfile(ArrayForm(m), limits, 0) && ArrayForm(m) != ToValue(m)
  {
    hide InProfile, NameOf, Fields, Named, CapabilitiesArray, CapabilitiesValue;
    var e, k := Named(Fields(m)), NameOf(FCapabilities);
    CapabilitiesWritten(m);
    ProfileHasNoNulls(ToValue(m), limits, 0);
    ListsInProfile(m.capabilities, limits, 1);
    ReplacedInProfile(e, k, CapabilitiesArray(m.capabilities), limits);
    ArrayIsNoObject(m.capabilities);
    assert ArrayForm(m).entries[k] != e[k];
  }

  lemma ArrayIsNoObject(c: Capabilities)
    ensures CapabilitiesArray(c) != CapabilitiesValue(c)
  {
    hide Named, Strings;
  }

  /** Every manifest that can be encoded has a second document that decodes to it, wherever the limits leave room for
      that document: byte strings are canonical for JSON values, but not for manifests. */
  lemma AnotherDocument(m: Manifest, limits: CborLimits, lib: Library)
    requires Encodes(m, limits, lib, Enc(ToValue(m))) && limits.maxArrayItems >= 2
    requires |Enc(ArrayForm(m))| <= limits.maxManifestBytes
    ensures DecodeManifest(Enc(ArrayForm(m)), limits, lib) == Ok(m)
    ensures DecodeManifest(Enc(ToValue(m)), limits, lib) == Ok(m)
    ensures Enc(ArrayForm(m)) != Enc(ToValue(m))
  {
    hide Enc, InProfile, ToValue, ArrayForm, FromValue, ValidManifest, IdentityIsObject, DecodeManifest,
         RustDocument.DecodeDocument;
    ArrayFormInProfile(m, limits);
    ArrayFormReads(m);
    RustDocument.AcceptsExactlyEncodings(Enc(ArrayForm(m)), limits, ArrayForm(m));
    DecodedParts(Enc(ArrayForm(m)), limits, lib, m);
    ManifestRoundTrip(m, limits, lib, Enc(ToValue(m)));
    if Enc(ArrayForm(m)) == Enc(ToValue(m)) {
      RustDocument.EncodingInjective(ArrayForm(m), ToValue(m), limits);
    }
  }
}
