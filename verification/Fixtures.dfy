/** The deterministic signatures of the conformance corpus, in the three forms the repository has. */
module Fixtures {
  import opened Bytes
  import opened Results
  import opened CborValues
  import opened Cose
  import opened CoseEnvelope
  import opened CoseMessages
  import opened Manifests
  import opened SignVerify
  import Sha256

  // ---------------------------------------------------------------- stretching a digest

  /** The first `n` items of the endlessly repeated digest. */
  function Cycle(digest: bytes, n: nat): (s: bytes)
    requires |digest| == 32
    ensures |s| == n && forall i :: 0 <= i < n ==> s[i] == digest[i % 32]
  {
    seq<byte>(n, i requires 0 <= i < n => digest[i % 32])
  }

  /** Python's `digest * k`. */
  function Repeat(digest: bytes, k: nat): (s: bytes)
    ensures |s| == k * |digest|
  {
    if k == 0 then [] else digest + Repeat(digest, k - 1)
  }

  lemma {:induction false} RepeatAt(digest: bytes, k: nat, i: nat)
    requires |digest| == 32 && i < |Repeat(digest, k)|
    ensures Repeat(digest, k)[i] == digest[i % 32]
  {
    if i >= 32 {
      RepeatAt(digest, k - 1, i - 32);
    }
  }

  function RepeatCount(n: nat): (k: nat)
    ensures 32 * k >= n
  {
    (n + 31) / 32
  }

  /** Repeating the digest often enough and cutting is taking from the cycle. */
  lemma RepeatThenCut(digest: bytes, n: nat)
    requires |digest| == 32
    ensures |Repeat(digest, RepeatCount(n))| >= n && Repeat(digest, RepeatCount(n))[..n] == Cycle(digest, n)
  {
    hide Repeat, Cycle, RepeatCount;
    forall i | 0 <= i < n ensures Repeat(digest, RepeatCount(n))[i] == Cycle(digest, n)[i] {
      RepeatAt(digest, RepeatCount(n), i);
    }
  }

  // ---------------------------------------------------------------- the signatures

  function Tag(algorithm: CoseAlgorithm): byte {
    if algorithm.Ed25519? then 0x13 else 0x31
  }

  /** `fixture_signature` of main.rs. */
  function FixtureSignature(algorithm: CoseAlgorithm, message: bytes): (s: bytes)
    ensures |s| == algorithm.SignatureLength()
  {
    Cycle(Sha256.Digest([Tag(algorithm)] + message), algorithm.SignatureLength())
  }

  /** `_fixture_signature` of crypto.py and `fixture_signature` of the generator. */
  function CutSignature(tag: byte, message: bytes, length: nat): bytes
  {
    var digest := Sha256.Digest([tag] + message);
    RepeatThenCut(digest, length);
    Repeat(digest, RepeatCount(length))[..length]
  }

  /** The Rust and the Python signatures are the same bytes. */
  lemma FixturesAgree(algorithm: CoseAlgorithm, message: bytes)
    ensures CutSignature(Tag(algorithm), message, algorithm.SignatureLength()) == FixtureSignature(algorithm, message)
  {
    hide Sha256.Digest, Repeat, Cycle, RepeatCount;
    RepeatThenCut(Sha256.Digest([Tag(algorithm)] + message), algorithm.SignatureLength());
  }

  /** `fixture_signature` of main.rs. */
  method ComputeFixtureSignature(algorithm: CoseAlgorithm, message: bytes) returns (signature: bytes)
    ensures signature == FixtureSignature(algorithm, message)
  {
    hide Sha256.Digest;
    var digest := Sha256.ComputeDigest([Tag(algorithm)] + message);
    signature := [];
    while |signature| < algorithm.SignatureLength()
      invariant |signature| <= algorithm.SignatureLength()
      invariant forall i :: 0 <= i < |signature| ==> signature[i] == digest[i % 32]
    {
      signature := signature + [digest[|signature| % 32]];
    }
  }

  /** The fixture signature of each algorithm, byte by byte: the digest of the message behind the byte 0x13 or 0x31,
      repeated to 64 or 3309 bytes. */
  lemma FixtureBytes(message: bytes, i: nat)
    ensures |FixtureSignature(Ed25519, message)| == 64 && |FixtureSignature(MlDsa65, message)| == 3309
    ensures i < 64 ==> FixtureSignature(Ed25519, message)[i] == Sha256.Digest([0x13] + message)[i % 32]
    ensures i < 3309 ==> FixtureSignature(MlDsa65, message)[i] == Sha256.Digest([0x31] + message)[i % 32]
  {
    hide Sha256.Digest;
  }

  // ---------------------------------------------------------------- the conformance verifier

  function ExpectedKeyHash(algorithm: CoseAlgorithm): Text {
    if algorithm.Ed25519? then Ascii("7fe64728f1a7bb8c6c103f49c0e2ed0e" + "999678229256c7aab813634cc6c85ba9")
    else Ascii("85acf51bf7260bc7009f1b3d6b8a4f6d" + "0442bf21ea91a86fe7cbb282edb317cb")
  }

  /** `validate_fixture_binding`. */
  predicate FixtureBinding(algorithm: CoseAlgorithm, d: KeyDescriptor) {
    && d.algorithm == algorithm.TfwsIdentifier()
    && d.keyId == Ascii("release-1")
    && d.publicKeyUri == Ascii("/.well-known/keys/") + algorithm.TfwsIdentifier() + Ascii(".pem")
    && d.publicKeySha256 == ExpectedKeyHash(algorithm)
    && d.status == Ascii("active")
    && d.usage == [Ascii("release")]
  }

  /** `ConformanceFixtureVerifier::verify`. */
  function FixtureVerify(algorithm: CoseAlgorithm, d: KeyDescriptor, message: bytes, signature: bytes)
    : Result<(), CryptoError>
  {
    if !FixtureBinding(algorithm, d) then Err(BindingMismatch)
    else if signature != FixtureSignature(algorithm, message) then Err(BadSignature)
    else Ok(())
  }

  /** The verdict of the conformance verifier: a wrong descriptor, else a wrong signature, else success. */
  lemma FixtureVerdict(algorithm: CoseAlgorithm, d: KeyDescriptor, message: bytes, signature: bytes)
    ensures FixtureVerify(algorithm, d, message, signature) ==
            if !(&& d.algorithm == (if algorithm.Ed25519? then Ascii("ed25519") else Ascii("ml-dsa-65"))
                 && d.keyId == Ascii("release-1")
                 && d.publicKeyUri == Ascii("/.well-known/keys/") + d.algorithm + Ascii(".pem")
                 && d.publicKeySha256 == ExpectedKeyHash(algorithm)
                 && d.status == Ascii("active") && d.usage == [Ascii("release")])
            then Err(BindingMismatch)
            else if signature != FixtureSignature(algorithm, message) then Err(BadSignature)
            else Ok(())
  {
    hide FixtureSignature, ExpectedKeyHash, Ascii, ValidUtf8;
  }

  /** The signer of the conformance corpus. */
  function FixtureSign(algorithm: CoseAlgorithm, d: KeyDescriptor, message: bytes): Result<bytes, CryptoError> {
    if FixtureBinding(algorithm, d) then Ok(FixtureSignature(algorithm, message)) else Err(BindingMismatch)
  }

  lemma FixtureCompatible()
    ensures Compatible(FixtureSign, FixtureVerify)
  {
    hide FixtureSignature, FixtureBinding;
  }

  /** A conformance envelope verifies and gives back its manifest. */
  lemma ConformanceRoundTrip(m: Manifest, limits: CoseLimits, lib: Library, envelope: bytes)
    requires Signed(m, FixtureSign, limits, lib, envelope)
    ensures VerifyManifest(envelope, FixtureVerify, limits, lib) == Ok(m)
  {
    hide *;
    FixtureCompatible();
    SignThenVerify(m, FixtureSign, FixtureVerify, limits, lib, envelope);
  }

  lemma AcceptedEntry(m: Manifest, payload: bytes, s: ParsedSignature, algorithm: CoseAlgorithm, limits: CborLimits)
    requires EntryOk(s, algorithm, limits) && Accepted(m, payload, s, algorithm, FixtureVerify)
    ensures DescriptorFor(m, algorithm).Ok?
    ensures var kid := DescriptorFor(m, algorithm).value.keyId;
            s == ParsedSignature(algorithm, EncodeSignatureProtected(algorithm, kid), kid,
                                 FixtureSignature(algorithm, SignedMessage(algorithm, kid, payload)))
  {
    hide FixtureSignature, FixtureBinding, EncodeSignatureProtected, SignedMessage, DescriptorFor, ValidUtf8;
  }

  /** The conformance verifier accepts at most one envelope for each payload. */
  lemma OneEnvelopePerPayload(x: bytes, y: bytes, limits: CoseLimits, lib: Library)
    requires VerifyManifest(x, FixtureVerify, limits, lib).Ok? && VerifyManifest(y, FixtureVerify, limits, lib).Ok?
    requires ParseEnvelope(x, limits).Ok? && ParseEnvelope(y, limits).Ok?
    requires ParseEnvelope(x, limits).value.payload == ParseEnvelope(y, limits).value.payload
    ensures x == y
  {
    hide *;
    var p, q := ParseEnvelope(x, limits).value, ParseEnvelope(y, limits).value;
    var m, n := VerifyManifest(x, FixtureVerify, limits, lib).value,
        VerifyManifest(y, FixtureVerify, limits, lib).value;
    VerifiesExactly(x, FixtureVerify, limits, lib, m);
    VerifiesExactly(y, FixtureVerify, limits, lib, n);
    ParsesExactly(x, limits, p);
    ParsesExactly(y, limits, q);
    PartsMean(p, limits.cbor);
    PartsMean(q, limits.cbor);
    AcceptedEntry(m, p.payload, p.signatures[0], Ed25519, limits.cbor);
    AcceptedEntry(m, p.payload, p.signatures[1], MlDsa65, limits.cbor);
    AcceptedEntry(n, q.payload, q.signatures[0], Ed25519, limits.cbor);
    AcceptedEntry(n, q.payload, q.signatures[1], MlDsa65, limits.cbor);
    assert p.signatures == [p.signatures[0], p.signatures[1]] && q.signatures == [q.signatures[0], q.signatures[1]];
  }
}
