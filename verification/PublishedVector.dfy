/** The manifest that the repository publishes as its valid test vector, and what validity says field by field. */
module PublishedVector {
  import opened Bytes
  import opened Results
  import opened Cose
  import opened Manifests
  import opened Fixtures
  import SignVerify

  // ---------------------------------------------------------------- validity, field by field

  lemma KeyOkExactly(d: KeyDescriptor, lib: Library)
    ensures KeyOk(d, lib) <==>
            && (d.algorithm == Ascii("ed25519") || d.algorithm == Ascii("ml-dsa-65"))
            && !lib.blank(d.keyId)
            && d.status == Ascii("active") && d.usage == [Ascii("release")]
            && LowerHex(d.publicKeySha256, 64)
            && d.publicKeyUri == Ascii("/.well-known/keys/") + d.algorithm + Ascii(".pem")
  {
    hide Ascii, LowerHex, ValidUtf8;
  }

  /** A manifest is valid exactly when: the version is "3.0"; the subject is an HTTPS origin; the environment is one of
      three and only development goes without keys; the key epoch is positive and safe; the operator has a name and at
      most a jurisdiction of two capital letters; the keys, if any, are two usable ones for the two algorithms; the
      policy is the hybrid baseline; no capability is listed twice and every required one is known; every artifact has
      a URI, a media type and a SHA-512 digest; and the identity holds safe integers only. */
  lemma ValidExactly(m: Manifest, lib: Library)
    ensures ValidManifest(m, lib) <==>
            && m.tfwsVersion == Ascii("3.0") && lib.httpsOrigin(m.subject)
            && (|| (m.environment == Ascii("development"))
                || ((m.environment == Ascii("staging") || m.environment == Ascii("production")) && m.keys != []))
            && 1 <= m.keyEpoch <= 9007199254740991
            && !lib.blank(m.operator.name)
            && (m.operator.jurisdiction.Some? ==>
                  && |m.operator.jurisdiction.value| == 2
                  && forall b :: b in m.operator.jurisdiction.value ==> 0x41 <= b <= 0x5A)
            && (m.keys != [] ==>
                  && |m.keys| == 2 && KeyOk(m.keys[0], lib) && KeyOk(m.keys[1], lib)
                  && m.keys[0].algorithm != m.keys[1].algorithm)
            && m.signaturePolicy.policyId == Ascii("tfws.hybrid.baseline.v1")
            && m.signaturePolicy.requiredAlgorithms == [Ascii("ed25519"), Ascii("ml-dsa-65")]
            && ListedOnce(m.capabilities)
            && (forall i :: 0 <= i < |m.capabilities.required| ==>
                  || m.capabilities.required[i] == Ascii("core.v1")
                  || m.capabilities.required[i] == Ascii("identity.v1")
                  || m.capabilities.required[i] == Ascii("recovery.v1")
                  || m.capabilities.required[i] == Ascii("transparency.v1"))
            && (forall i :: 0 <= i < |m.artifacts| ==>
                  && lib.uri(m.artifacts[i].uri) && !lib.blank(m.artifacts[i].mediaType)
                  && LowerHex(m.artifacts[i].sha512, 128))
            && (m.identity.Some? ==> NumbersOk(m.identity.value))
  {
    hide Ascii, KeyOk, LowerHex, ListedOnce, NumbersOk, ValidUtf8;
    Environments();
    if m.operator.jurisdiction.Some? {
      Capitals(m.operator.jurisdiction.value);
    }
  }

  lemma Environments()
    ensures Ascii("staging") != Ascii("development") && Ascii("production") != Ascii("development")
  {
    assert |Ascii("staging")| == 7 && |Ascii("production")| == 10 && |Ascii("development")| == 11;
  }

  lemma Capitals(t: Text)
    ensures |t| == 2 ==>
              ((forall i :: 0 <= i < 2 ==> 0x41 <= t[i] <= 0x5A) <==> (forall b :: b in t ==> 0x41 <= b <= 0x5A))
  {
    hide ValidUtf8;
    if |t| == 2 && forall b :: b in t ==> 0x41 <= b <= 0x5A {
      assert t[0] in t && t[1] in t;
    }
  }

  /** A policy other than the hybrid baseline of exactly two algorithms is never valid. */
  lemma DowngradeRejected(m: Manifest, lib: Library)
    requires m.signaturePolicy.requiredAlgorithms != [Ascii("ed25519"), Ascii("ml-dsa-65")]
    ensures Validation(m, lib) == Err(InvalidManifest)
  {
    hide Ascii, KeysOk, ListedOnce, OperatorOk, Known, ValidUtf8;
  }

  // ---------------------------------------------------------------- the fixture keys

  predicate HexChars(s: string) {
    forall i :: 0 <= i < |s| ==> '0' <= s[i] <= '9' || 'a' <= s[i] <= 'f'
  }

  lemma HexConcat(s: string, t: string)
    requires HexChars(s) && HexChars(t)
    ensures HexChars(s + t)
  {
  }

  lemma HexIsLower(s: string)
    requires HexChars(s)
    ensures LowerHex(Ascii(s), |s|)
  {
    hide ValidUtf8;
  }

  lemma Ed25519Hash()
    ensures LowerHex(Ascii("7fe64728f1a7bb8c6c103f49c0e2ed0e" + "999678229256c7aab813634cc6c85ba9"), 64)
  {
    hide LowerHex, Ascii, ValidUtf8;
    HexConcat("7fe64728f1a7bb8c6c103f49c0e2ed0e", "999678229256c7aab813634cc6c85ba9");
    HexIsLower("7fe64728f1a7bb8c6c103f49c0e2ed0e" + "999678229256c7aab813634cc6c85ba9");
  }

  lemma MlDsaHash()
    ensures LowerHex(Ascii("85acf51bf7260bc7009f1b3d6b8a4f6d" + "0442bf21ea91a86fe7cbb282edb317cb"), 64)
  {
    hide LowerHex, Ascii, ValidUtf8;
    HexConcat("85acf51bf7260bc7009f1b3d6b8a4f6d", "0442bf21ea91a86fe7cbb282edb317cb");
    HexIsLower("85acf51bf7260bc7009f1b3d6b8a4f6d" + "0442bf21ea91a86fe7cbb282edb317cb");
  }

  /** The descriptor that the conformance verifier insists on is one that validation accepts. */
  lemma FixtureKeyIsValid(algorithm: CoseAlgorithm, d: KeyDescriptor, lib: Library)
    requires FixtureBinding(algorithm, d) && !lib.blank(Ascii("release-1"))
    ensures KeyOk(d, lib)
  {
    hide LowerHex, Ascii, ValidUtf8;
    Ed25519Hash();
    MlDsaHash();
  }

  // ---------------------------------------------------------------- the vector

  function VectorKey(algorithm: CoseAlgorithm): KeyDescriptor {
    if algorithm.Ed25519? then
      KeyDescriptor(
        Ascii("ed25519"), Ascii("release-1"), Ascii("/.well-known/keys/ed25519.pem"),
        Ascii("7fe64728f1a7bb8c6c103f49c0e2ed0e" + "999678229256c7aab813634cc6c85ba9"),
        Ascii("active"), [Ascii("release")])
    else
      KeyDescriptor(
        Ascii("ml-dsa-65"), Ascii("release-1"), Ascii("/.well-known/keys/ml-dsa-65.pem"),
        Ascii("85acf51bf7260bc7009f1b3d6b8a4f6d" + "0442bf21ea91a86fe7cbb282edb317cb"),
        Ascii("active"), [Ascii("release")])
  }

  /** `test-vectors/manifest.valid.json` */
  function Vector(): Manifest {
    Manifest(
      Ascii("3.0"), Ascii("https://example.com"), Ascii("production"),
      Operator(Ascii("Example Organization"), None), 1,
      [VectorKey(Ed25519), VectorKey(MlDsa65)],
      SignaturePolicy(Ascii("tfws.hybrid.baseline.v1"), [Ascii("ed25519"), Ascii("ml-dsa-65")]),
      Capabilities([Ascii("core.v1"), Ascii("identity.v1"), Ascii("transparency.v1"), Ascii("recovery.v1")], []),
      None, [], Ascii("2026-07-21T00:00:00Z"), Some(Ascii("2027-07-21T00:00:00Z")))
  }

  lemma KeyUris()
    ensures Ascii("/.well-known/keys/") + Ascii("ed25519") + Ascii(".pem") == Ascii("/.well-known/keys/ed25519.pem")
    ensures Ascii("/.well-known/keys/") + Ascii("ml-dsa-65") + Ascii(".pem") == Ascii("/.well-known/keys/ml-dsa-65.pem")
  {
    hide Ascii, ValidUtf8;
    AsciiConcat("/.well-known/keys/", "ed25519");
    AsciiConcat("/.well-known/keys/" + "ed25519", ".pem");
    AsciiConcat("/.well-known/keys/", "ml-dsa-65");
    AsciiConcat("/.well-known/keys/" + "ml-dsa-65", ".pem");
    assert "/.well-known/keys/" + "ed25519" + ".pem" == "/.well-known/keys/ed25519.pem";
    assert "/.well-known/keys/" + "ml-dsa-65" + ".pem" == "/.well-known/keys/ml-dsa-65.pem";
  }

  /** The two keys of the vector are the ones that the conformance verifier binds to the two algorithms. */
  lemma VectorKeyIsBound(algorithm: CoseAlgorithm)
    ensures FixtureBinding(algorithm, VectorKey(algorithm))
  {
    hide Ascii, ValidUtf8;
    KeyUris();
  }

  lemma VectorKeys(lib: Library)
    requires !lib.blank(Ascii("release-1"))
    ensures KeyOk(VectorKey(Ed25519), lib) && KeyOk(VectorKey(MlDsa65), lib)
    ensures VectorKey(Ed25519).algorithm != VectorKey(MlDsa65).algorithm
  {
    hide KeyOk, LowerHex, Ascii, ExpectedKeyHash, FixtureBinding, ValidUtf8;
    SignVerify.IdentifiersDiffer();
    VectorKeyIsBound(Ed25519);
    VectorKeyIsBound(MlDsa65);
    FixtureKeyIsValid(Ed25519, VectorKey(Ed25519), lib);
    FixtureKeyIsValid(MlDsa65, VectorKey(MlDsa65), lib);
  }

  lemma VectorCapabilities()
    ensures ListedOnce(Capabilities([Ascii("core.v1"), Ascii("identity.v1"), Ascii("transparency.v1"),
                                     Ascii("recovery.v1")], []))
  {
    hide ValidUtf8;
    assert |Ascii("core.v1")| == 7 && |Ascii("identity.v1")| == |Ascii("recovery.v1")| == 11;
    assert |Ascii("transparency.v1")| == 15;
    assert Ascii("identity.v1")[0] == AsciiByte('i') && Ascii("recovery.v1")[0] == AsciiByte('r');
  }

  /** The vector is valid wherever its subject is an HTTPS origin and its names are not blank. */
  lemma VectorIsValid(lib: Library)
    requires lib.httpsOrigin(Ascii("https://example.com"))
    requires !lib.blank(Ascii("release-1")) && !lib.blank(Ascii("Example Organization"))
    ensures ValidManifest(Vector(), lib)
  {
    hide KeyOk, LowerHex, ListedOnce, NumbersOk, Ascii, VectorKey, FixtureBinding, ValidUtf8;
    VectorKeys(lib);
    VectorCapabilities();
    ValidExactly(Vector(), lib);
  }
}
