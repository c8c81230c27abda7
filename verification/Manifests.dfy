/** The manifest, its policy checks (`Manifest::validate` of lib.rs), and its JSON value. */
module Manifests {
  import opened Bytes
  import opened CborValues
  import opened Results
  import opened SortedSets

  datatype Operator = Operator(name: Text, jurisdiction: Option<Text>)

  datatype SignaturePolicy = SignaturePolicy(policyId: Text, requiredAlgorithms: seq<Text>)

  datatype Capabilities = Capabilities(required: seq<Text>, optional: seq<Text>)

  datatype Artifact = Artifact(uri: Text, mediaType: Text, sha512: Text)

  datatype KeyDescriptor = KeyDescriptor(
    algorithm: Text, keyId: Text, publicKeyUri: Text, publicKeySha256: Text, status: Text, usage: seq<Text>)

  datatype Manifest = Manifest(
    tfwsVersion: Text, subject: Text, environment: Text, operator: Operator, keyEpoch: usize,
    keys: seq<KeyDescriptor>, signaturePolicy: SignaturePolicy, capabilities: Capabilities,
    identity: Option<Value>, artifacts: seq<Artifact>, updatedAt: Text, expiresAt: Option<Text>)

  /** Library behaviour the checks rely on: `Url::parse` with the origin conditions, `Url::parse`
      alone, and whether `trim` leaves nothing. */
  datatype Library = Library(httpsOrigin: Text -> bool, uri: Text -> bool, blank: Text -> bool) {
    /** The empty string has nothing left after trimming. */
    ghost predicate Lawful() {
      blank([])
    }
  }

  // ---------------------------------------------------------------- policy

  /** `validate_json_number_profile`: no floating-point and no unsafe number anywhere. */
  predicate NumbersOk(v: Value) {
    match v
    case Int(n) => SafeInteger(n)
    case Float => false
    case Array(items) => forall i :: 0 <= i < |items| ==> NumbersOk(items[i])
    case Object(entries) => forall k :: k in entries ==> NumbersOk(entries[k])
    case _ => true
  }

  const BASELINE: SignaturePolicy :=
    SignaturePolicy(Ascii("tfws.hybrid.baseline.v1"), [Ascii("ed25519"), Ascii("ml-dsa-65")])

  predicate Baseline(algorithm: Text) {
    algorithm == Ascii("ed25519") || algorithm == Ascii("ml-dsa-65")
  }

  /** The conditions on one descriptor that do not involve the others. */
  predicate KeyOk(key: KeyDescriptor, lib: Library) {
    && Baseline(key.algorithm)
    && !lib.blank(key.keyId)
    && key.status == Ascii("active")
    && key.usage == [Ascii("release")]
    && LowerHex(key.publicKeySha256, 64)
    && key.publicKeyUri == Ascii("/.well-known/keys/") + key.algorithm + Ascii(".pem")
  }

  predicate KeysOk(keys: seq<KeyDescriptor>, lib: Library) {
    && |keys| == 2
    && KeyOk(keys[0], lib) && KeyOk(keys[1], lib)
    && keys[0].algorithm != keys[1].algorithm
  }

  predicate NoDuplicates(xs: seq<Text>) {
    forall i, j :: 0 <= i < j < |xs| ==> xs[i] != xs[j]
  }

  predicate Known(capability: Text) {
    || capability == Ascii("core.v1") || capability == Ascii("identity.v1")
    || capability == Ascii("recovery.v1") || capability == Ascii("transparency.v1")
  }

  /** Nothing is listed twice, neither in one list nor in both. */
  predicate ListedOnce(c: Capabilities) {
    && NoDuplicates(c.required) && NoDuplicates(c.optional)
    && (forall i, j :: 0 <= i < |c.required| && 0 <= j < |c.optional| ==> c.required[i] != c.optional[j])
  }

  predicate ArtifactOk(a: Artifact, lib: Library) {
    lib.uri(a.uri) && !lib.blank(a.mediaType) && LowerHex(a.sha512, 128)
  }

  predicate OperatorOk(o: Operator, lib: Library) {
    && !lib.blank(o.name)
    && (o.jurisdiction.Some? ==>
          && |o.jurisdiction.value| == 2
          && forall i :: 0 <= i < 2 ==> 0x41 <= o.jurisdiction.value[i] <= 0x5A)
  }

  predicate Development(m: Manifest) {
    m.environment == Ascii("development")
  }

  /** The checks that come before the search for unknown capabilities. */
  predicate EarlyOk(m: Manifest, lib: Library) {
    && m.tfwsVersion == Ascii("3.0")
    && lib.httpsOrigin(m.subject)
    && (Development(m) || m.environment == Ascii("staging") || m.environment == Ascii("production"))
    && 0 < m.keyEpoch <= MAX_SAFE_INTEGER
    && OperatorOk(m.operator, lib)
    && (m.keys == [] ==> Development(m))
    && (m.keys != [] ==> KeysOk(m.keys, lib))
    && m.signaturePolicy == BASELINE
    && ListedOnce(m.capabilities)
  }

  /** And those that come after it. */
  predicate LateOk(m: Manifest, lib: Library) {
    && (forall i :: 0 <= i < |m.artifacts| ==> ArtifactOk(m.artifacts[i], lib))
    && (m.identity.Some? ==> NumbersOk(m.identity.value))
  }

  predicate ValidManifest(m: Manifest, lib: Library) {
    && EarlyOk(m, lib)
    && (forall i :: 0 <= i < |m.capabilities.required| ==> Known(m.capabilities.required[i]))
    && LateOk(m, lib)
  }

  /** The loop over the descriptors, with the set of algorithms already seen. */
  method ValidateKeys(keys: seq<KeyDescriptor>, lib: Library) returns (ok: bool)
    ensures ok <==> KeysOk(keys, lib)
  {
    hide KeyOk;
    if |keys| != 2 {
      return false;
    }
    var seen: set<Text> := {};
    for i := 0 to |keys|
      invariant seen == set j | 0 <= j < i :: keys[j].algorithm
      invariant forall j :: 0 <= j < i ==> KeyOk(keys[j], lib)
      invariant i == 2 ==> keys[0].algorithm != keys[1].algorithm
    {
      if !KeyOk(keys[i], lib) || keys[i].algorithm in seen {
        return false;
      }
      seen := seen + {keys[i].algorithm};
    }
    return true;
  }

  datatype ManifestError = InvalidManifest | UnsupportedCapability(capability: Text)

  function FirstUnknown(required: seq<Text>): Option<Text> {
    if required == [] then None
    else if !Known(required[0]) then Some(required[0])
    else FirstUnknown(required[1..])
  }

  /** What `Manifest::validate` returns. */
  function Validation(m: Manifest, lib: Library): Result<(), ManifestError> {
    if !EarlyOk(m, lib) then Err(InvalidManifest)
    else
      match FirstUnknown(m.capabilities.required)
      case Some(capability) => Err(UnsupportedCapability(capability))
      case None => if LateOk(m, lib) then Ok(()) else Err(InvalidManifest)
  }

  lemma {:induction false} AllKnown(required: seq<Text>)
    ensures FirstUnknown(required).None? <==> forall i :: 0 <= i < |required| ==> Known(required[i])
  {
    hide Known, ValidUtf8;
    if required != [] {
      AllKnown(required[1..]);
      if forall i :: 0 <= i < |required[1..]| ==> Known(required[1..][i]) {
        assert forall i :: 1 <= i < |required| ==> required[i] == required[1..][i - 1];
      }
    }
  }

  /** The outcome is success exactly on the valid manifests. */
  lemma ValidationSucceedsExactly(m: Manifest, lib: Library)
    ensures Validation(m, lib).Ok? <==> ValidManifest(m, lib)
  {
    hide Known, ValidUtf8, EarlyOk, LateOk;
    AllKnown(m.capabilities.required);
  }

  /** The capability at i is the first one that is not known. */
  ghost predicate UnknownFirst(required: seq<Text>, i: nat, capability: Text) {
    && i < |required|
    && required[i] == capability
    && !Known(capability)
    && forall j :: 0 <= j < i ==> Known(required[j])
  }

  /** A required capability is reported exactly when the earlier checks pass, it is not one of the four known ones, and
      every capability required before it is. */
  lemma {:induction false} UnsupportedExactly(m: Manifest, lib: Library, capability: Text)
    ensures Validation(m, lib) == Err(UnsupportedCapability(capability)) <==>
            EarlyOk(m, lib) && exists i :: UnknownFirst(m.capabilities.required, i, capability)
  {
    hide Known, EarlyOk, LateOk, FirstUnknown, UnknownFirst, ValidUtf8;
    UnknownAt(m.capabilities.required, capability);
  }

  lemma {:induction false} UnknownAt(required: seq<Text>, capability: Text)
    ensures FirstUnknown(required) == Some(capability) <==> exists i :: UnknownFirst(required, i, capability)
  {
    hide Known, ValidUtf8;
    if required != [] {
      var rest := required[1..];
      UnknownAt(rest, capability);
      if !Known(required[0]) {
        assert UnknownFirst(required, 0, required[0]);
        assert forall i :: UnknownFirst(required, i, capability) ==> i == 0;
      } else {
        forall i: nat | i < |rest|
          ensures UnknownFirst(rest, i, capability) <==> UnknownFirst(required, i + 1, capability)
        {
          assert forall j :: 0 <= j < i ==> rest[j] == required[j + 1];
          assert forall j :: 1 <= j < i + 1 ==> required[j] == rest[j - 1];
        }
        if i: nat :| UnknownFirst(required, i, capability) {
          assert i > 0;
          assert UnknownFirst(rest, i - 1, capability);
        }
      }
    }
  }

  /** As many members as items: no item twice. */
  lemma {:induction false} SizeTellsDuplicates(xs: seq<Text>)
    ensures |Elements(xs)| <= |xs|
    ensures |Elements(xs)| == |xs| <==> NoDuplicates(xs)
  {
    hide ValidUtf8;
    if xs == [] {
      EmptyElements(xs);
    } else {
      var x, rest := xs[0], xs[1..];
      SizeTellsDuplicates(rest);
      assert xs == [x] + rest;
      ElementsPrepend(x, rest);
      if x in Elements(rest) {
        assert Elements(xs) == Elements(rest);
        var j :| 0 <= j < |rest| && rest[j] == x;
        assert xs[0] == xs[j + 1];
      } else {
        if NoDuplicates(rest) {
          FreshFirst(x, rest);
        }
        if NoDuplicates(xs) {
          assert forall i :: 0 <= i < |rest| ==> rest[i] == xs[i + 1];
        }
      }
    }
  }

  lemma FreshFirst(x: Text, rest: seq<Text>)
    requires x !in Elements(rest) && NoDuplicates(rest)
    ensures NoDuplicates([x] + rest)
  {
    hide ValidUtf8;
    var xs := [x] + rest;
    forall i, j | 0 <= i < j < |xs| ensures xs[i] != xs[j] {
      assert xs[j] == rest[j - 1];
      if i > 0 {
        assert xs[i] == rest[i - 1];
      }
    }
  }

  /** The set that `collect` makes of a list. */
  method Collect(xs: seq<Text>) returns (s: set<Text>)
    ensures s == Elements(xs)
  {
    s := {};
    for i := 0 to |xs|
      invariant s == Elements(xs[..i])
    {
      assert xs[..i + 1] == xs[..i] + [xs[i]];
      ElementsConcat(xs[..i], [xs[i]]);
      assert Elements([xs[i]]) == {xs[i]};
      s := s + {xs[i]};
    }
    assert xs[..|xs|] == xs;
  }

  /** The comparison of sizes and the test for disjoint sets. */
  method ListedOnceBySize(c: Capabilities) returns (ok: bool)
    ensures ok <==> ListedOnce(c)
  {
    hide ValidUtf8, NoDuplicates, Elements;
    var requiredSet := Collect(c.required);
    SizeTellsDuplicates(c.required);
    if |requiredSet| != |c.required| {
      return false;
    }
    var optionalSet := Collect(c.optional);
    SizeTellsDuplicates(c.optional);
    DisjointElements(c.required, c.optional);
    return |optionalSet| == |c.optional| && requiredSet !! optionalSet;
  }

  lemma DisjointElements(xs: seq<Text>, ys: seq<Text>)
    ensures Elements(xs) !! Elements(ys) <==> forall i, j :: 0 <= i < |xs| && 0 <= j < |ys| ==> xs[i] != ys[j]
  {
    hide ValidUtf8;
    if forall i, j :: 0 <= i < |xs| && 0 <= j < |ys| ==> xs[i] != ys[j] {
      forall x | x in Elements(xs) ensures x !in Elements(ys) {
        var i :| 0 <= i < |xs| && xs[i] == x;
      }
    }
    if Elements(xs) !! Elements(ys) {
      forall i, j | 0 <= i < |xs| && 0 <= j < |ys| ensures xs[i] != ys[j] {
        assert xs[i] in Elements(xs) && ys[j] in Elements(ys);
      }
    }
  }

  /** The loop that looks for unknown capabilities. */
  method CheckKnown(required: seq<Text>) returns (r: Option<Text>)
    ensures r == FirstUnknown(required)
  {
    hide Known;
    for i := 0 to |required|
      invariant FirstUnknown(required) == FirstUnknown(required[i..])
    {
      if !Known(required[i]) {
        return Some(required[i]);
      }
      assert required[i..][1..] == required[i + 1..];
    }
    return None;
  }

  /** `Manifest::validate`, check by check. */
  method Validate(m: Manifest, lib: Library) returns (r: Result<(), ManifestError>)
    ensures r == Validation(m, lib)
    ensures r.Ok? <==> ValidManifest(m, lib)
  {
    hide KeysOk, Development, Known, ListedOnce, OperatorOk, ArtifactOk, NumbersOk, ValidManifest, Ascii, ValidUtf8,
         FirstUnknown;
    ValidationSucceedsExactly(m, lib);
    if m.tfwsVersion != Ascii("3.0") || !lib.httpsOrigin(m.subject) {
      return Err(InvalidManifest);
    }
    if !Development(m) && m.environment != Ascii("staging") && m.environment != Ascii("production") {
      return Err(InvalidManifest);
    }
    if m.keyEpoch == 0 || m.keyEpoch > MAX_SAFE_INTEGER {
      return Err(InvalidManifest);
    }
    if !OperatorOk(m.operator, lib) || (m.keys == [] && !Development(m)) {
      return Err(InvalidManifest);
    }
    if m.keys != [] {
      var bound := ValidateKeys(m.keys, lib);
      if !bound {
        return Err(InvalidManifest);
      }
    }
    if m.signaturePolicy != BASELINE {
      return Err(InvalidManifest);
    }
    var once := ListedOnceBySize(m.capabilities);
    if !once {
      return Err(InvalidManifest);
    }
    var unknown := CheckKnown(m.capabilities.required);
    if unknown.Some? {
      return Err(UnsupportedCapability(unknown.value));
    }
    for i := 0 to |m.artifacts|
      invariant forall j :: 0 <= j < i ==> ArtifactOk(m.artifacts[j], lib)
    {
      if !ArtifactOk(m.artifacts[i], lib) {
        return Err(InvalidManifest);
      }
    }
    if m.identity.Some? && !NumbersOk(m.identity.value) {
      return Err(InvalidManifest);
    }
    return Ok(());
  }

  // ---------------------------------------------------------------- descriptors

  /** The descriptors with the given algorithm, in order. */
  function Matching(keys: seq<KeyDescriptor>, algorithm: Text): (r: seq<KeyDescriptor>)
    ensures forall d :: d in r ==> d in keys && d.algorithm == algorithm
    ensures forall d :: d in keys && d.algorithm == algorithm ==> d in r
  {
    if keys == [] then []
    else (if keys[0].algorithm == algorithm then [keys[0]] else []) + Matching(keys[1..], algorithm)
  }

  // ---------------------------------------------------------------- field names

  datatype Field =
    | FVersion | FSubject | FEnvironment | FOperator | FKeyEpoch | FKeys | FSignaturePolicy | FCapabilities
    | FIdentity | FArtifacts | FUpdatedAt | FExpiresAt
    | FName | FJurisdiction
    | FPolicyId | FRequiredAlgorithms
    | FRequired | FOptional
    | FUri | FMediaType | FSha512
    | FAlgorithm | FKeyId | FPublicKeyUri | FPublicKeySha256 | FStatus | FUsage

  function Spelling(f: Field): string {
    match f
    case FVersion => "tfws_version"
    case FSubject => "subject"
    case FEnvironment => "environment"
    case FOperator => "operator"
    case FKeyEpoch => "key_epoch"
    case FKeys => "keys"
    case FSignaturePolicy => "signature_policy"
    case FCapabilities => "capabilities"
    case FIdentity => "identity"
    case FArtifacts => "artifacts"
    case FUpdatedAt => "updated_at"
    case FExpiresAt => "expires_at"
    case FName => "name"
    case FJurisdiction => "jurisdiction"
    case FPolicyId => "policy_id"
    case FRequiredAlgorithms => "required_algorithms"
    case FRequired => "required"
    case FOptional => "optional"
    case FUri => "uri"
    case FMediaType => "media_type"
    case FSha512 => "sha512"
    case FAlgorithm => "algorithm"
    case FKeyId => "key_id"
    case FPublicKeyUri => "public_key_uri"
    case FPublicKeySha256 => "public_key_sha256"
    case FStatus => "status"
    case FUsage => "usage"
  }

  function NameOf(f: Field): Text {
    Ascii(Spelling(f))
  }

  /** A number for each spelling, made of its length and its first three characters. */
  function CodeOf(f: Field): int {
    match f
    case FVersion => 0xC746677
    case FSubject => 0x7737562
    case FEnvironment => 0xB656E76
    case FOperator => 0x86F7065
    case FKeyEpoch => 0x96B6579
    case FKeys => 0x46B6579
    case FSignaturePolicy => 0x10736967
    case FCapabilities => 0xC636170
    case FIdentity => 0x8696465
    case FArtifacts => 0x9617274
    case FUpdatedAt => 0xA757064
    case FExpiresAt => 0xA657870
    case FName => 0x46E616D
    case FJurisdiction => 0xC6A7572
    case FPolicyId => 0x9706F6C
    case FRequiredAlgorithms => 0x13726571
    case FRequired => 0x8726571
    case FOptional => 0x86F7074
    case FUri => 0x3757269
    case FMediaType => 0xA6D6564
    case FSha512 => 0x6736861
    case FAlgorithm => 0x9616C67
    case FKeyId => 0x66B6579
    case FPublicKeyUri => 0xE707562
    case FPublicKeySha256 => 0x11707562
    case FStatus => 0x6737461
    case FUsage => 0x5757361
  }

  function FieldOf(code: int): Option<Field> {
    if code == 0xC746677 then Some(FVersion)
    else if code == 0x7737562 then Some(FSubject)
    else if code == 0xB656E76 then Some(FEnvironment)
    else if code == 0x86F7065 then Some(FOperator)
    else if code == 0x96B6579 then Some(FKeyEpoch)
    else if code == 0x46B6579 then Some(FKeys)
    else if code == 0x10736967 then Some(FSignaturePolicy)
    else if code == 0xC636170 then Some(FCapabilities)
    else if code == 0x8696465 then Some(FIdentity)
    else if code == 0x9617274 then Some(FArtifacts)
    else if code == 0xA757064 then Some(FUpdatedAt)
    else if code == 0xA657870 then Some(FExpiresAt)
    else if code == 0x46E616D then Some(FName)
    else if code == 0xC6A7572 then Some(FJurisdiction)
    else if code == 0x9706F6C then Some(FPolicyId)
    else if code == 0x13726571 then Some(FRequiredAlgorithms)
    else if code == 0x8726571 then Some(FRequired)
    else if code == 0x86F7074 then Some(FOptional)
    else if code == 0x3757269 then Some(FUri)
    else if code == 0xA6D6564 then Some(FMediaType)
    else if code == 0x6736861 then Some(FSha512)
    else if code == 0x9616C67 then Some(FAlgorithm)
    else if code == 0x66B6579 then Some(FKeyId)
    else if code == 0xE707562 then Some(FPublicKeyUri)
    else if code == 0x11707562 then Some(FPublicKeySha256)
    else if code == 0x6737461 then Some(FStatus)
    else if code == 0x5757361 then Some(FUsage)
    else None
  }

  lemma FieldOfCode(f: Field)
    ensures FieldOf(CodeOf(f)) == Some(f)
  {
  }

  function StringCode(s: string): int
    requires |s| >= 3
  {
    |s| * 0x100_0000 + s[0] as int * 0x1_0000 + s[1] as int * 0x100 + s[2] as int
  }

  lemma CodeOfSpelling(f: Field)
    ensures 3 <= |Spelling(f)| <= 19 && StringCode(Spelling(f)) == CodeOf(f)
    ensures Spelling(f)[0] as int < 0x80 && Spelling(f)[1] as int < 0x80 && Spelling(f)[2] as int < 0x80
  {
  }

  lemma SameCode(s: string, t: string)
    requires |s| >= 3 && |t| >= 3 && Ascii(s) == Ascii(t)
    requires s[0] as int < 0x80 && s[1] as int < 0x80 && s[2] as int < 0x80
    requires t[0] as int < 0x80 && t[1] as int < 0x80 && t[2] as int < 0x80
    ensures StringCode(s) == StringCode(t)
  {
    hide ValidUtf8;
    var a, b := Ascii(s), Ascii(t);
    assert a[0] == b[0] && a[1] == b[1] && a[2] == b[2];
  }

  lemma NameLength(f: Field)
    ensures 3 <= |NameOf(f)| <= 19
  {
    hide Spelling, Ascii;
    CodeOfSpelling(f);
  }

  /** Different fields are spelled differently. */
  lemma NamesDiffer(f: Field, g: Field)
    requires NameOf(f) == NameOf(g)
    ensures f == g
  {
    hide Spelling, Ascii, StringCode, CodeOf, FieldOf;
    CodeOfSpelling(f);
    CodeOfSpelling(g);
    SameCode(Spelling(f), Spelling(g));
    FieldOfCode(f);
    FieldOfCode(g);
  }

  // ---------------------------------------------------------------- the JSON value

  /** The object with the given fields. */
  function Named(fields: map<Field, Value>): (e: map<Text, Value>)
    ensures forall f :: f in fields ==> NameOf(f) in e && e[NameOf(f)] == fields[f]
    ensures forall k :: k in e ==> exists f :: f in fields && k == NameOf(f)
  {
    assert forall f, g :: f in fields && g in fields && NameOf(f) == NameOf(g) ==> f == g by {
      hide *;
      forall f: Field, g: Field | NameOf(f) == NameOf(g) ensures f == g {
        NamesDiffer(f, g);
      }
    }
    map f | f in fields :: NameOf(f) := fields[f]
  }

  function Strings(xs: seq<Text>): Value {
    Array(seq(|xs|, i requires 0 <= i < |xs| => String(xs[i])))
  }

  /** An optional field is absent when it has no value. */
  function Optional(f: Field, o: Option<Value>): map<Field, Value> {
    if o.None? then map[] else map[f := o.value]
  }

  function OptionalString(o: Option<Text>): Option<Value> {
    if o.None? then None else Some(String(o.value))
  }

  function OperatorValue(o: Operator): Value {
    Object(Named(map[FName := String(o.name)] + Optional(FJurisdiction, OptionalString(o.jurisdiction))))
  }

  function PolicyValue(p: SignaturePolicy): Value {
    Object(Named(map[FPolicyId := String(p.policyId), FRequiredAlgorithms := Strings(p.requiredAlgorithms)]))
  }

  function CapabilitiesValue(c: Capabilities): Value {
    Object(Named(map[FRequired := Strings(c.required), FOptional := Strings(c.optional)]))
  }

  function ArtifactValue(a: Artifact): Value {
    Object(Named(map[FUri := String(a.uri), FMediaType := String(a.mediaType), FSha512 := String(a.sha512)]))
  }

  function KeyValue(k: KeyDescriptor): Value {
    Object(Named(map[
      FAlgorithm := String(k.algorithm), FKeyId := String(k.keyId), FPublicKeyUri := String(k.publicKeyUri),
      FPublicKeySha256 := String(k.publicKeySha256), FStatus := String(k.status), FUsage := Strings(k.usage)]))
  }

  function KeysValue(keys: seq<KeyDescriptor>): Value {
    Array(seq(|keys|, i requires 0 <= i < |keys| => KeyValue(keys[i])))
  }

  function ArtifactsValue(artifacts: seq<Artifact>): Value {
    Array(seq(|artifacts|, i requires 0 <= i < |artifacts| => ArtifactValue(artifacts[i])))
  }

  function Fields(m: Manifest): map<Field, Value> {
    map[FVersion := String(m.tfwsVersion), FSubject := String(m.subject), FEnvironment := String(m.environment),
        FOperator := OperatorValue(m.operator), FKeyEpoch := Int(m.keyEpoch), FKeys := KeysValue(m.keys),
        FSignaturePolicy := PolicyValue(m.signaturePolicy), FCapabilities := CapabilitiesValue(m.capabilities),
        FArtifacts := ArtifactsValue(m.artifacts), FUpdatedAt := String(m.updatedAt)]
    + Optional(FIdentity, m.identity)
    + Optional(FExpiresAt, OptionalString(m.expiresAt))
  }

  /** `serde_json::to_value` followed by the removal of the absent optional fields. */
  function ToValue(m: Manifest): Value {
    Object(Named(Fields(m)))
  }

  // ---------------------------------------------------------------- reading the JSON value back

  function TextOf(v: Value): Option<Text> {
    if v.String? then Some(v.text) else None
  }

  /** An `Option<String>`: `null` is `None`. */
  function OptionalTextOf(v: Value): Option<Option<Text>> {
    if v.Null? then Some(None) else if v.String? then Some(Some(v.text)) else None
  }

  /** An `Option<Value>`. */
  function OptionalValueOf(v: Value): Option<Value> {
    if v.Null? then None else Some(v)
  }

  /** A `u64`. */
  function NumberOf(v: Value): Option<usize> {
    if v.Int? && 0 <= v.n < 0x1_0000_0000_0000_0000 then Some(v.n) else None
  }

  /** A `Vec<String>`. */
  function ReadStrings(v: Value): Option<seq<Text>> {
    if v.Array? && forall i :: 0 <= i < |v.items| ==> v.items[i].String?
    then Some(seq(|v.items|, i requires 0 <= i < |v.items| => v.items[i].text))
    else None
  }

  function Names(fields: seq<Field>): set<Text> {
    set f | f in fields :: NameOf(f)
  }

  /** What an object holds under the name of `f`; a field that is absent reads as `null` does. */
  function FieldValue(e: map<Text, Value>, f: Field): Value {
    if NameOf(f) in e then e[NameOf(f)] else Null
  }

  /** The fields of a struct, in the order of their declaration. Serde finds them in an object without unknown names,
      or in an array that has just them. */
  function Slots(v: Value, fields: seq<Field>): (r: Option<seq<Value>>)
    ensures r.Some? ==> |r.value| == |fields|
  {
    match v
    case Object(e) =>
      if e.Keys <= Names(fields)
      then Some(seq(|fields|, i requires 0 <= i < |fields| => FieldValue(e, fields[i])))
      else None
    case Array(items) => if |items| == |fields| then Some(items) else None
    case _ => None
  }

  const OPERATOR: seq<Field> := [FName, FJurisdiction]
  const POLICY: seq<Field> := [FPolicyId, FRequiredAlgorithms]
  const CAPABILITIES: seq<Field> := [FRequired, FOptional]
  const ARTIFACT: seq<Field> := [FUri, FMediaType, FSha512]
  const KEY: seq<Field> := [FAlgorithm, FKeyId, FPublicKeyUri, FPublicKeySha256, FStatus, FUsage]
  const ROOT: seq<Field> := [
    FVersion, FSubject, FEnvironment, FOperator, FKeyEpoch, FKeys, FSignaturePolicy, FCapabilities, FIdentity,
    FArtifacts, FUpdatedAt, FExpiresAt]

  function ReadOperator(v: Value): Option<Operator> {
    match Slots(v, OPERATOR)
    case None => None
    case Some(x) =>
      match (TextOf(x[0]), OptionalTextOf(x[1]))
      case (Some(name), Some(jurisdiction)) => Some(Operator(name, jurisdiction))
      case _ => None
  }

  function ReadPolicy(v: Value): Option<SignaturePolicy> {
    match Slots(v, POLICY)
    case None => None
    case Some(x) =>
      match (TextOf(x[0]), ReadStrings(x[1]))
      case (Some(id), Some(algorithms)) => Some(SignaturePolicy(id, algorithms))
      case _ => None
  }

  function ReadCapabilities(v: Value): Option<Capabilities> {
    match Slots(v, CAPABILITIES)
    case None => None
    case Some(x) =>
      match (ReadStrings(x[0]), ReadStrings(x[1]))
      case (Some(required), Some(optional)) => Some(Capabilities(required, optional))
      case _ => None
  }

  function ReadArtifact(v: Value): Option<Artifact> {
    match Slots(v, ARTIFACT)
    case None => None
    case Some(x) =>
      match (TextOf(x[0]), TextOf(x[1]), TextOf(x[2]))
      case (Some(uri), Some(mediaType), Some(sha512)) => Some(Artifact(uri, mediaType, sha512))
      case _ => None
  }

  function ReadKey(v: Value): Option<KeyDescriptor> {
    match Slots(v, KEY)
    case None => None
    case Some(x) =>
      match (TextOf(x[0]), TextOf(x[1]), TextOf(x[2]), TextOf(x[3]), TextOf(x[4]), ReadStrings(x[5]))
      case (Some(algorithm), Some(keyId), Some(uri), Some(sha), Some(status), Some(usage)) =>
        Some(KeyDescriptor(algorithm, keyId, uri, sha, status, usage))
      case _ => None
  }

  /** A `Vec` of structs. */
  function ReadAll<T>(v: Value, read: Value -> Option<T>): Option<seq<T>> {
    if v.Array? && forall i :: 0 <= i < |v.items| ==> read(v.items[i]).Some?
    then Some(seq(|v.items|, i requires 0 <= i < |v.items| => read(v.items[i]).value))
    else None
  }

  /** A manifest from the values of its twelve fields. */
  function ReadSlots(x: seq<Value>): Option<Manifest>
    requires |x| == 12
  {
    match (TextOf(x[0]), TextOf(x[1]), TextOf(x[2]), ReadOperator(x[3]), NumberOf(x[4]), ReadAll(x[5], ReadKey))
    case (Some(version), Some(subject), Some(environment), Some(operator), Some(epoch), Some(keys)) =>
      (match (ReadPolicy(x[6]), ReadCapabilities(x[7]), ReadAll(x[9], ReadArtifact), TextOf(x[10]),
              OptionalTextOf(x[11]))
       case (Some(policy), Some(capabilities), Some(artifacts), Some(updated), Some(expires)) =>
         Some(Manifest(version, subject, environment, operator, epoch, keys, policy, capabilities,
                       OptionalValueOf(x[8]), artifacts, updated, expires))
       case _ => None)
    case _ => None
  }

  /** `serde_json::from_value`. */
  function FromValue(v: Value): Option<Manifest> {
    match Slots(v, ROOT)
    case None => None
    case Some(x) => ReadSlots(x)
  }
}
