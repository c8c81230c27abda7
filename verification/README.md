# TFWS manifests: encodings, signatures and logs

A Dafny model of the parts of TFWS on which trust in a manifest rests, and proofs about them.

* **Deterministic CBOR** exists twice. The Rust core decodes leniently and compares the input with its
  re-encoding; the Python reference and the vector generator refuse wide heads while they read. The modules
  `LenientDecoder`, `LenientSoundness`, `LenientCompleteness`, `RustCbor` and `RustDocument` model the first
  design, `StrictDecoder`, `StrictCorrectness`, `StrictTruncation`, `StrictCbor` and `StrictDocument` the second,
  and `Agreement` proves that they accept the same byte strings with the same values: the image of the encoder.
  `LenientRefusals` and `StrictRefusals` prove that they also refuse alike: an encoding outside the profile fails
  with its first violation. `DocumentErrors` ties the other errors to the bytes.
  `InsertionOrder` and `ManifestOrder` add the Python encoder on dictionaries filled in any order, and the round
  trips through it.
* **The COSE_Sign envelope** of RFC 9052 with one Ed25519 and one ML-DSA-65 signature: `Cose` holds the printers
  and the parser as functions, `CoseEnvelope` characterises the accepted envelopes, `CoseMessages` proves what a
  signed message determines, `CoseLayout` spells the bytes out, `CoseTruncation` cuts and extends them,
  `CoseErrors` says which headers and entries are refused and with what error,
  `EnvelopeReaders` says what the Python readers make of an envelope, `RustCose` holds the cursor-driven code,
  `SignVerify` the drivers over an abstract signer and verifier.
* **Manifests**: the policy of `Manifest::validate` and the way through JSON values to bytes and back
  (`Manifests`, `ManifestCodec`), the bytes of every manifest (`ManifestLayout`), the documents that decode to one
  manifest (`ManifestForms`), the published vector (`PublishedVector`).
* **The event log**: canonical JSON (`Json`) and its reader (`JsonReader`), the hash chain and its file
  (`EventLog`), the Merkle root whose odd layers repeat their last node (`Merkle`) and the same tree from above
  (`MerkleTree`).
* **SHA-256**: the computation (`Sha256`), what the standard says of its parts (`Sha256Standard`), its constants
  from the roots of primes (`Sha256Constants`), the digest of "abc" (`Sha256KnownAnswer`).
* **Smaller pieces**: the fixture signatures of the conformance corpus (`Fixtures`), the
  newline-delimited signature message (`SignatureMessages`), witness quorums (`Quorum`).

Code that moves a cursor, fills a buffer or loops over state is a class or a method here, proved equal to a
recursive function; the theorems are about those functions. Byte strings are sequences of integers below 256, a
text is a byte string of valid UTF-8, and lengths and limits are 64-bit unsigned. A hash is any function from byte
strings to 32 bytes, so every statement about hashes names the colliding texts among those the two runs hashed.

`dafny verify dfyconfig.toml` checks the project.

Where the documents and the code differ, the code is followed. The profile asks for the bytewise key order
(`spec/CBOR-COSE.md`, section 6); the code compares lengths first, and `CborHeads.KeyOrderIsBytewise` shows that
this is the same order for text keys. The padding of SHA-256 needs no bound on the input to be injective: lengths
whose 64-bit bit counts agree after wrapping are too far apart to fill the same number of blocks. A Merkle root
does not fix the number of events of a list that was not verified: `Merkle.RootsAgreeExactly` says which lists
share a root, and `Merkle.SharedRootExactly` tells from the length of a list whether another one shares its root.
Section 6 of the profile wants one byte string for what is decoded. That holds for JSON values, but not for
manifests: serde also reads a struct from an array of its fields, so a document with its capabilities as an array
decodes to the same manifest (`ManifestForms.AnotherDocument`). `ManifestForms.CanonicalExactly` says when a document
is the encoding of what it decodes to: exactly when each struct in it is an object.

## Model

| member | source | states |
|---|---|---|
| CborHeads.ReadsEncodedHead | scripts/generate_issue7_cbor_cose_vectors.py:54-67 | reading a shortest-form head gives back its major type and argument and stops behind it |
| CborHeads.ReadHeadLength | crates/tfws-core/src/cbor.rs:247-299 | a head that was read is never shorter than the shortest form of its argument and equals that form exactly when it is as long |
| CborHeads.HeadOrder | crates/tfws-core/src/cbor.rs:482-490 | a larger argument has a bytewise larger shortest head, whatever follows, across the width boundaries at 24, 2^8, 2^16 and 2^32 |
| CborHeads.KeyOrderIsBytewise | crates/tfws-core/src/cbor.rs:482-490 | for text keys of every length the length-first comparison is the bytewise order of RFC 8949 section 4.2.1 |
| CborHeads.KeyOrderIsStrictTotal | crates/tfws-core/src/cbor.rs:488-490 | the comparison of encoded keys is a strict total order on text keys |
| SortedSets.AscendingIsUnique | crates/tfws-core/src/cbor.rs:468 | two ascending lists of the same keys are the same list, so the order of a deterministic map is unique |
| Utf8.ValidExactly | crates/tfws-core/src/cbor.rs:282-290 | the byte strings taken as text are exactly the encodings of sequences of Unicode scalar values by RFC 3629 |
| Utf8.EncodeInjective | reference/python/tfws3/canonical.py:108-113 | one text is one sequence of scalar values |
| Utf8.SameOrder | reference/python/tfws3/canonical.py:265-267 | texts compare by code point as their UTF-8 compares by byte, so sorted keys mean the same in Python and in Rust |
| CborExamples.IntegerHeads | scripts/generate_issue7_cbor_cose_vectors.py:54-67 | the heads of the integers of RFC 8949 appendix A |
| CborExamples.IntegerExamples | crates/tfws-core/src/cbor.rs:416-432 | the integers of the appendix, negative ones included, have its bytes |
| CborExamples.SimpleExamples | scripts/generate_issue7_cbor_cose_vectors.py:70-74 | the bytes of the booleans and of null |
| CborExamples.TextExamples | scripts/generate_issue7_cbor_cose_vectors.py:81-83 | the text strings of the appendix have its bytes |
| CborExamples.ArrayExamples | scripts/generate_issue7_cbor_cose_vectors.py:84-85 | the arrays of the appendix, nested ones included, have its bytes |
| CborExamples.MapExamples | scripts/generate_issue7_cbor_cose_vectors.py:86-91 | the maps of the appendix have its bytes, in whatever order they were filled |
| CborExamples.BytesAndTagExamples | scripts/generate_issue7_cbor_cose_vectors.py:79-93 | a byte string and a tagged value of the appendix have its bytes |
| LenientSoundness.ValueSound | crates/tfws-core/src/cbor.rs:247-386 | whatever the lenient decoder accepts is within the profile; its encoding is the bytes read when all heads were shortest, and strictly shorter otherwise |
| LenientCompleteness.ValueComplete | crates/tfws-core/src/cbor.rs:247-386 | wherever the encoding of a value within the profile stands in an input, the decoder reads exactly that value and stops at its end |
| LenientCompleteness.ValueTruncated | crates/tfws-core/src/cbor.rs:247-386 | an input cut inside an accepted value is malformed; cut later, the value is read as before |
| RustCbor.Decoder.Argument | crates/tfws-core/src/cbor.rs:263-280 | at the shortest head of an argument, reads that argument and moves the cursor behind the head; reads wider heads too, and fails on a cut or malformed one |
| RustCbor.Decoder.Str | crates/tfws-core/src/cbor.rs:282-290 | reads a definite text string of valid UTF-8 and moves the cursor behind it |
| RustCbor.DecodeValue | crates/tfws-core/src/cbor.rs:247-299 | the cursor-driven decoder returns the value, the error and the final cursor of the recursive definition |
| RustCbor.DecodeArray | crates/tfws-core/src/cbor.rs:301-324 | the loop over array items, with the item limit, refines the recursive definition |
| RustCbor.DecodeMap | crates/tfws-core/src/cbor.rs:326-386 | the loop with the map under construction, the set of keys seen and the previous key refines the recursive definition |
| RustCbor.DecodeKey | crates/tfws-core/src/cbor.rs:346-380 | one key: its length limit, then the duplicate check, then the order check |
| RustCbor.ValidateValueProfile | crates/tfws-core/src/cbor.rs:180-225 | succeeds exactly on the values within the profile, and otherwise reports the first violation, maps being walked in key order |
| CborValues.ProfileCheckExactly | crates/tfws-core/src/cbor.rs:180-245 | there is a violation to report exactly when the value is outside the profile |
| RustCbor.EncodeValue | crates/tfws-core/src/cbor.rs:397-480 | succeeds exactly on the values within the profile and then appends the deterministic encoding and nothing else |
| RustCbor.EncodeArray | crates/tfws-core/src/cbor.rs:440-452 | the array case of the encoder |
| RustCbor.SortEntries | crates/tfws-core/src/cbor.rs:458-468 | the sort puts the collected entries in the unique ascending key order and keeps them all |
| RustCbor.EncodeObject | crates/tfws-core/src/cbor.rs:453-478 | the map case: collect, sort, write in key order |
| RustDocument.EncodeValueToVec | crates/tfws-core/src/cbor.rs:388-395 | the deterministic encoding of a value within the profile, and otherwise the first violation |
| RustDocument.DecodeBytes | crates/tfws-core/src/cbor.rs:100-120 | the document driver, with its limit, consumption and re-encoding checks in the order of the code |
| RustDocument.AcceptsExactlyEncodings | crates/tfws-core/src/cbor.rs:100-120 | the accepted documents are exactly the encodings of the values within the profile that fit the size limit, each decoded to the value it encodes |
| RustDocument.ReencodingDiffersExactlyWhenWide | crates/tfws-core/src/cbor.rs:109-120 | after a complete decode re-encoding cannot fail or grow, and differs from the input exactly when some head was not shortest |
| RustDocument.EncodingInjective | crates/tfws-core/src/cbor.rs:397-480 | different values have different encodings |
| RustDocument.PrefixAndExtensionRejected | crates/tfws-core/src/cbor.rs:100-114 | every proper prefix of an accepted document is malformed and every extension is refused, with the exact error |
| DocumentErrors.FirstByteRefused | crates/tfws-core/src/cbor.rs:100-108 | too many bytes, none, and every first byte that starts no manifest value are refused with the stated error |
| DocumentErrors.WideHeadRefused | crates/tfws-core/src/cbor.rs:109-120 | a document read to its end with a wide head anywhere is refused as not deterministic |
| DocumentErrors.FirstKeyRefused | crates/tfws-core/src/cbor.rs:344-355 | a first map key that is no text string is an unsupported type, one of indefinite length has its own error |
| DocumentErrors.SecondKeyRefused | crates/tfws-core/src/cbor.rs:346-380 | a second map key is a duplicate when equal to the first and out of order when before it, whatever the values are |
| DocumentErrors.ViolationOf | crates/tfws-core/src/cbor.rs:180-245 | the violation of a value by its kind, the depth first: null and floating-point numbers, integers beyond 2^53 - 1, long texts, long arrays and large maps |
| DocumentErrors.FirstItemDecides | crates/tfws-core/src/cbor.rs:180-225 | in an array the first item with a violation decides |
| DocumentErrors.TooLargeRefused | crates/tfws-core/src/cbor.rs:247-330 | an integer beyond 2^53 - 1 and an array or a map that announces more than its limit are refused for that, whatever follows |
| DocumentErrors.LongTextRefused | crates/tfws-core/src/cbor.rs:282-290 | a text beyond its limit at the start of a document is refused for that, whatever follows |
| LenientRefusals.ViolationExactly | crates/tfws-core/src/cbor.rs:180-245 | in the order of the encoding there is a first violation exactly when the value is outside the profile |
| LenientRefusals.ValueRefused | crates/tfws-core/src/cbor.rs:247-386 | wherever the encoding of a value outside the profile stands, the decoder fails with the first violation in it, however deep it lies and whatever follows |
| DocumentErrors.Categories | crates/tfws-core/src/cbor.rs:64-76 | which errors each public category stands for |
| DocumentErrors.StrictFirstHead | reference/python/tfws3/canonical.py:53-165 | the category of a first head that is cut, reserved, indefinite, wide or of an unsupported kind |
| DocumentErrors.StrictFirstKeyRefused | reference/python/tfws3/canonical.py:121-148 | a first key that is an array or a map, and for the reference decoder a null or tagged one, is an unsupported type |
| DocumentErrors.StrictSecondKeyRefused | reference/python/tfws3/canonical.py:121-148 | an equal or earlier second key is not deterministic |
| DocumentErrors.PublishedRefusals | test-vectors/hybrid-signature-v1/issue7-cbor-cose-cross-language-v1.json:10-42 | both layers refuse the three published bad documents with the published category |
| StrictCbor.CborDecoder.Take | reference/python/tfws3/canonical.py:45-51 | takes exactly the next bytes, or reports malformed data |
| StrictCbor.CborDecoder.Argument | reference/python/tfws3/canonical.py:53-72 | reads an argument and refuses every form that is not the shortest |
| StrictCbor.CborDecoder.DecodeItem | reference/python/tfws3/canonical.py:74-165 | the decoder that moves `offset` returns the item, the error category and the final offset of the recursive definition |
| StrictCbor.CborDecoder.DecodeList | reference/python/tfws3/canonical.py:115-119 | the loop that appends list items refines the recursive definition |
| StrictCbor.CborDecoder.DecodeDict | reference/python/tfws3/canonical.py:121-148 | the loop with the dictionary and the previous key encoding refines the recursive definition |
| StrictCbor.DecodeDocument | reference/python/tfws3/canonical.py:168-186 | one item and nothing after it, within the size limit |
| StrictCorrectness.ItemSound | reference/python/tfws3/canonical.py:74-165 | whatever the strict decoder accepts is an admissible value, and the bytes read are the encoding of that value, although nothing is re-encoded |
| StrictCorrectness.ItemComplete | reference/python/tfws3/canonical.py:74-165 | wherever the encoding of a value that the decoder can return stands, its dictionaries in the order of the encoding, the decoder reads that value |
| StrictTruncation.ItemCut | reference/python/tfws3/canonical.py:45-51 | an input cut inside an accepted item is malformed; cut later, the item is read as before |
| StrictDocument.AcceptsExactlyEncodings | reference/python/tfws3/canonical.py:168-186 | a strict document layer accepts exactly the encodings of its admissible values |
| StrictDocument.GeneratorCheckNeverFires | scripts/generate_issue7_cbor_cose_vectors.py:191-198 | the comparison with the re-encoding in the generator can never fail, for any input |
| StrictDocument.PrefixAndExtensionRejected | reference/python/tfws3/canonical.py:181-186 | every proper prefix of an accepted document is malformed and every extension is refused |
| Agreement.ItemSame | reference/python/tfws3/canonical.py:189-215 | a validated value that the decoder can return has a JSON value within the Rust profile, and the two encoders print the same bytes for both |
| Agreement.ValueRepresented | reference/python/tfws3/canonical.py:189-215 | every value within the Rust profile is the JSON value of an admissible Python value that the validation passes |
| Agreement.DocumentLayersAgree | reference/python/tfws3/canonical.py:168-215 | under one limit record the Rust and the Python document layers accept exactly the same inputs and return the same value |
| Agreement.PrefixMalformedForBoth | crates/tfws-core/src/cbor.rs:100-114 | a proper prefix of a document that either layer accepts is malformed for both |
| StrictRefusals.ItemRefused | reference/python/tfws3/canonical.py:53-165 | wherever the encoding of a value outside the profile stands, the reference decoder fails with the category of the first violation in it |
| StrictRefusals.BothAnswerAlike | reference/python/tfws3/canonical.py:53-175 | whatever value was encoded, both document layers return it when it is within the profile, and otherwise refuse it with the same category, that of the first violation in the order of the encoding |
| InsertionOrder.NormalEncoding | scripts/generate_issue7_cbor_cose_vectors.py:86-91 | the order in which dictionaries were filled, at any level, does not show in the encoding |
| InsertionOrder.NormalIsSame | scripts/generate_issue7_cbor_cose_vectors.py:86-91 | filling dictionaries in deterministic order gives a value that Python takes to be equal |
| InsertionOrder.NormalAdmissible | scripts/generate_issue7_cbor_cose_vectors.py:70-94 | with its dictionaries in deterministic order, every encodable value is one that the decoder can return |
| InsertionOrder.EncodingDecodes | reference/python/tfws3/canonical.py:168-186 | every encodable value within the limits, its dictionaries filled in any order, is decoded from its encoding as an equal value |
| InsertionOrder.GeneratorRoundTrip | scripts/generate_issue7_cbor_cose_vectors.py:70-198 | whatever the generator can encode it reads back as an equal value |
| InsertionOrder.EncodingForgetsOrderOnly | scripts/generate_issue7_cbor_cose_vectors.py:70-94 | two encodable values have one encoding exactly when they differ in the order of dictionaries only |
| ManifestOrder.ItemIsValue | scripts/generate_issue7_cbor_cose_vectors.py:70-94 | a validated Python value, its dictionaries filled in any order, has the encoding of its JSON value |
| ManifestOrder.EncodableExactly | reference/python/tfws3/canonical.py:189-215 | a validated Python value, its dictionaries filled in any order, can be read back exactly when its JSON value is within the Rust profile |
| ManifestOrder.ManifestValueDecodes | reference/python/tfws3/canonical.py:168-215 | a validated Python value within the profile is decoded from its encoding by both document layers: in Python as an equal value, in Rust as its JSON value |
| CoseEnvelope.BodyHeaderExactly | crates/tfws-core/src/cose.rs:392-431 | the body header check passes for exactly one byte string, the printed body header |
| CoseEnvelope.SignatureHeaderExactly | crates/tfws-core/src/cose.rs:433-478 | the signature header check returns a key identifier exactly for the printed header of that identifier, non-empty, valid UTF-8 and within the limit |
| CoseEnvelope.ParsesExactly | crates/tfws-core/src/cose.rs:290-379 | an envelope is accepted exactly when it is the printed form of a payload within limits, an Ed25519 entry with 64 signature bytes and an ML-DSA-65 entry with 3309; the parse returns precisely these parts |
| CoseTruncation.PrefixMalformed | crates/tfws-core/src/cose.rs:290-379 | every proper prefix of an accepted envelope is malformed |
| CoseTruncation.ExtensionMalformed | crates/tfws-core/src/cose.rs:290-356 | every extension of an accepted envelope is malformed, or too long |
| CoseTruncation.RefusedAtStart | crates/tfws-core/src/cose.rs:290-307 | limits without room for the shape, a wrong size and a wrong tag are refused with the stated errors |
| CoseErrors.BodyHeaderRefused | crates/tfws-core/src/cose.rs:392-431 | a two-entry body header with another first label, content type, second label or type is refused with the error of the first wrong one |
| CoseErrors.SignatureHeaderRefused | crates/tfws-core/src/cose.rs:433-478 | a two-entry signature header with another label, another algorithm or an unusable kid is refused with the error of the first wrong one |
| CoseErrors.EntryRefused | crates/tfws-core/src/cose.rs:358-379 | an entry whose header is refused is refused with that error, and one with a signature of another length with the length error |
| CoseErrors.BodyRefused | crates/tfws-core/src/cose.rs:290-315 | an envelope whose body header is refused is refused with that error, whatever follows |
| CoseLayout.BodyHeaderBytes | crates/tfws-core/src/cose.rs:594-611 | the body header, label by label and text by text |
| CoseLayout.SignatureHeaderBytes | crates/tfws-core/src/cose.rs:613-633 | the two signature headers, with the algorithms -19 and -49, for every key identifier |
| CoseLayout.SigStructureBytes | crates/tfws-core/src/cose.rs:635-658 | the signed bytes: the context, the two headers, empty external data, the payload |
| CoseLayout.EnvelopeBytes | crates/tfws-core/src/cose.rs:660-697 | the envelope: tag 98, the body header, an empty map, the payload and two signatures with empty maps |
| CoseLayout.SignatureBytes | crates/tfws-core/src/cose.rs:15-16 | the lengths 64 and 3309, with the heads that announce them |
| CoseMessages.SigStructureInjective | crates/tfws-core/src/cose.rs:635-658 | the Sig_structure of RFC 9052 section 4.4 determines body header, signature header and payload |
| CoseMessages.SignatureHeaderInjective | crates/tfws-core/src/cose.rs:613-633 | a signature header determines its algorithm and key identifier |
| CoseMessages.SignedMessageInjective | crates/tfws-core/src/cose.rs:186-200 | what is signed determines algorithm, key identifier and payload; an Ed25519 message is never an ML-DSA-65 message |
| CoseMessages.SigStructurePrintersAgree | reference/python/tfws3/crypto.py:356-378 | the Rust, the Python and the generator printers of the Sig_structure give the same bytes |
| CoseMessages.HeaderPrintersAgree | scripts/generate_issue7_cbor_cose_vectors.py:218-229 | the headers of the generator are the Rust headers |
| CoseMessages.EnvelopePrintersAgree | scripts/generate_issue7_cbor_cose_vectors.py:236-247 | the envelope of the generator is the Rust envelope |
| EnvelopeReaders.ReadersAgree | reference/python/tfws3/canonical.py:168-186 | a strict reader with room for the parts reads them from every envelope that the Rust parser accepts |
| EnvelopeReaders.AcceptedEnvelopesAreRead | scripts/generate_issue7_cbor_cose_vectors.py:191-198 | the generator reads every envelope that the Rust parser accepts, and the reference decoder under the same limits does exactly when payload and input are within its string and size limits |
| RustCose.ExpectHead | crates/tfws-core/src/cose.rs:496-533 | the header readers move the cursor behind a head of the expected type |
| RustCose.ExpectArray | crates/tfws-core/src/cose.rs:496-517 | an array of exactly the expected length |
| RustCose.ReadMapLength | crates/tfws-core/src/cose.rs:519-533 | the number of pairs of a definite map |
| RustCose.ExpectEmptyMap | crates/tfws-core/src/cose.rs:535-546 | the unprotected header must be empty |
| RustCose.ReadBytes | crates/tfws-core/src/cose.rs:548-566 | a definite byte string within the limit |
| RustCose.ReadText | crates/tfws-core/src/cose.rs:568-586 | a definite text string within the limit |
| RustCose.ReadLabel | crates/tfws-core/src/cose.rs:588-592 | an integer label equal to the expected one |
| RustCose.EncodeBodyProtected | crates/tfws-core/src/cose.rs:594-611 | the growing buffer ends as the body header of the definition |
| RustCose.EncodeSignatureProtected | crates/tfws-core/src/cose.rs:613-633 | the growing buffer ends as the signature header of the definition |
| RustCose.EncodeSigStructure | crates/tfws-core/src/cose.rs:635-658 | the growing buffer ends as the Sig_structure of the definition |
| RustCose.EncodeEnvelope | crates/tfws-core/src/cose.rs:660-697 | the printed envelope, or the error for a wrong number of signatures |
| RustCose.ValidateBodyProtected | crates/tfws-core/src/cose.rs:392-431 | the cursor version of the body header check has the outcome of the definition |
| RustCose.ValidateSignatureProtected | crates/tfws-core/src/cose.rs:433-478 | the cursor version of the signature header check has the outcome of the definition |
| RustCose.ParseSignature | crates/tfws-core/src/cose.rs:358-379 | one signature entry, from the cursor |
| RustCose.ParseEnvelope | crates/tfws-core/src/cose.rs:290-356 | the whole parser, with limits, tag, shape, order of signatures and re-encoding, has the outcome of the definition |
| RustCose.SignManifest | crates/tfws-core/src/cose.rs:175-215 | the signing driver returns what the steps of the definition return, errors included; a returned envelope is signed in the sense of the theorems |
| RustCose.VerifyManifest | crates/tfws-core/src/cose.rs:224-264 | the verification driver with its loop over the required algorithms has the outcome of the definition |
| SignVerify.DescriptorOfValidManifest | crates/tfws-core/src/cose.rs:266-288 | on a validated manifest the lookup fails exactly when there are no keys, and otherwise finds the only descriptor of the algorithm |
| SignVerify.VerifiesExactly | crates/tfws-core/src/cose.rs:224-264 | verification returns a manifest exactly when the envelope parses, its payload decodes to it and the verifier accepts both signatures, each under the descriptor of that manifest and over the same payload |
| SignVerify.RefusedBefore | crates/tfws-core/src/cose.rs:224-231 | an envelope that does not parse and a payload that does not decode are refused with their own errors |
| SignVerify.RefusedSignature | crates/tfws-core/src/cose.rs:242-264 | for a parsed envelope with a decoded payload: which error a wrong key identifier and each verdict of the verifier lead to, and in which order |
| SignVerify.RechecksUnreachable | crates/tfws-core/src/cose.rs:232-241 | after parsing and decoding, the checks of length and algorithm cannot fail, and the baseline is incomplete exactly when there are no keys |
| SignVerify.SelfCheckExactly | crates/tfws-core/src/cose.rs:206-214 | once every earlier step has succeeded, the final parse of the signer succeeds exactly when both signature headers are within the string limit, and returns the printed parts |
| SignVerify.PayloadOutweighs | crates/tfws-core/src/cose.rs:180-214 | the encoded manifest is longer than the encoding of each of its key identifiers by at least ten bytes |
| SignVerify.SelfCheckNeverFails | crates/tfws-core/src/cose.rs:180-214 | the final parse cannot fail when the manifest limit is at most the string limit, as in the defaults |
| SignVerify.SignThenVerify | crates/tfws-core/src/cose.rs:175-264 | whatever the signer returns, if the verifier accepts what the signer makes, verification under the same limits gives back the manifest that was signed |
| SignVerify.SignedExactly | crates/tfws-core/src/cose.rs:175-215 | the step-by-step outcome is an envelope exactly when that envelope is signed in the sense of the theorems |
| SignVerify.SigningSucceedsExactly | crates/tfws-core/src/cose.rs:175-215 | signing returns an envelope exactly when the shape limits hold, the manifest encodes, both turns of the loop succeed, the printed envelope fits and both signature headers are within the string limit |
| Manifests.ValidateKeys | crates/tfws-core/src/lib.rs:169-195 | the loop with the `seen` set accepts exactly two valid descriptors of different algorithms |
| Manifests.Validate | crates/tfws-core/src/lib.rs:131-251 | every check in the order of the code, with its error; it succeeds exactly on the valid manifests |
| Manifests.ListedOnceBySize | crates/tfws-core/src/lib.rs:210-233 | comparing the sizes of sets with the lengths of lists finds exactly the duplicate and conflicting capabilities |
| Manifests.CheckKnown | crates/tfws-core/src/lib.rs:234-238 | the first mandatory capability that is not known |
| Manifests.UnsupportedExactly | crates/tfws-core/src/lib.rs:234-238 | a capability is reported as unsupported exactly when all earlier checks pass and it is the first required one that is not known |
| Manifests.ValidationSucceedsExactly | crates/tfws-core/src/lib.rs:131-251 | the checks in order all pass exactly on the valid manifests |
| Manifests.NamesDiffer | crates/tfws-core/src/lib.rs:37-93 | different fields have different names in the JSON object |
| PublishedVector.ValidExactly | crates/tfws-core/src/lib.rs:131-251 | a manifest is valid exactly under the listed conditions on its fields, with the published names and bounds |
| PublishedVector.DowngradeRejected | crates/tfws-core/src/lib.rs:196-209 | a policy that does not require exactly the two baseline algorithms is invalid |
| PublishedVector.FixtureKeyIsValid | crates/tfws-cli/src/main.rs:99-118 | every descriptor the conformance verifier accepts is one that validation accepts |
| PublishedVector.VectorIsValid | test-vectors/manifest.valid.json:1-50 | the published valid manifest is valid |
| ManifestCodec.ValueRoundTrip | crates/tfws-core/src/cbor.rs:140-178 | the JSON value of a manifest reads back as that manifest, with absent optional fields and nested identity objects |
| ManifestCodec.EncodeManifest | crates/tfws-core/src/cbor.rs:85-98 | the encoding of a valid manifest whose identity is an object, whose value is within the profile and whose encoding fits; otherwise the first of these checks that fails |
| ManifestCodec.EncodingRefused | crates/tfws-core/src/cbor.rs:85-98 | which of policy, identity, profile and size an encoding fails on |
| ManifestCodec.DecodeManifestBytes | crates/tfws-core/src/cbor.rs:100-138 | the decode driver, with the schema and policy checks in the order of the code |
| ManifestCodec.DecodingRefused | crates/tfws-core/src/cbor.rs:100-138 | which of document, structs, identity and policy a decoding fails on |
| ManifestCodec.ManifestRoundTrip | crates/tfws-core/src/cbor.rs:85-138 | what encodes under limits decodes under the same limits to the same manifest |
| ManifestCodec.ManifestEncodingInjective | crates/tfws-core/src/cbor.rs:85-98 | different manifests have different encodings |
| ManifestLayout.ManifestBytes | crates/tfws-core/src/cbor.rs:140-178 | the encoding of every manifest, field by field under the published names and in deterministic order, the optional fields where present |
| ManifestLayout.KeyBytes | crates/tfws-core/src/lib.rs:66-75 | the encoding of a key descriptor, field by field |
| ManifestLayout.PolicyBytes | crates/tfws-core/src/lib.rs:44-49 | the encoding of a signature policy, field by field |
| ManifestLayout.CapabilitiesBytes | crates/tfws-core/src/lib.rs:51-56 | the encoding of capabilities, field by field |
| ManifestLayout.OperatorBytes | crates/tfws-core/src/lib.rs:37-42 | the encoding of an operator, with a jurisdiction and without |
| ManifestLayout.ArtifactBytes | crates/tfws-core/src/lib.rs:58-64 | the encoding of an artifact, field by field |
| ManifestForms.PlainIsWritten | crates/tfws-core/src/cbor.rs:122-124 | a value within the profile that reads as a manifest, with an object for each struct, is the JSON value of that manifest: no name is unknown and none is missing |
| ManifestForms.CanonicalExactly | crates/tfws-core/src/cbor.rs:100-138 | a document that decodes to a manifest is the encoding of that manifest exactly when each of its structs is an object |
| ManifestForms.AnotherDocument | crates/tfws-core/src/cbor.rs:122-124 | every manifest that can be encoded has a second document that decodes to it, with its capabilities as an array, so byte strings are not canonical for manifests |
| SortedSets.SortedKeys | reference/python/tfws3/canonical.py:265-267 | the keys of an object in ascending bytewise order, all of them |
| JsonReader.ValueIsRead | reference/python/tfws3/canonical.py:265-267 | a reader made from the grammar of RFC 8259 reads the text of every printable value back as that value, whatever may follow it |
| JsonReader.CanonicalReadsBack | reference/python/tfws3/canonical.py:244-267 | the canonical text of a value reads back as the value |
| JsonReader.MembersAscend | reference/python/tfws3/canonical.py:265-267 | the members of a canonical object stand in the bytewise order of their names, each once |
| JsonReader.ValueReads | reference/python/tfws3/canonical.py:265-267 | a canonical text followed by anything that can follow a value is read in one way only |
| Json.PrintedIsPlain | reference/python/tfws3/canonical.py:265-267 | a canonical text holds no control character and so is one line |
| Json.PrintableShapes | reference/python/tfws3/canonical.py:244-263 | which values have a canonical text, by kind: no floating-point number and no integer beyond 2^53 - 1 at any depth |
| Json.ReadsPrintedInt | reference/python/tfws3/canonical.py:265-267 | the integer literals are exactly the printed integers, each read by place value |
| JsonReader.CanonicalInjective | reference/python/tfws3/canonical.py:244-267 | different values have different canonical texts |
| Json.ObjectStarts | reference/python/tfws3/canonical.py:265-267 | the canonical text of an object starts with an opening brace |
| EventLog.VerifiedExactly | reference/python/tfws3/eventlog.py:69-76 | a list verifies exactly when each event carries its position and the hash of the event before it |
| EventLog.VerifiedByFields | reference/python/tfws3/eventlog.py:69-76 | the same from the fields: `sequence` is the position and `previous_event_hash` is null, or 64 lower-case digits that read back as the hash of the canonical text of the event before |
| EventLog.FirstFailure | reference/python/tfws3/eventlog.py:69-76 | the exception is that of the first event that does not continue the chain: its number, else its link, else its value |
| EventLog.VerifyChain | reference/python/tfws3/eventlog.py:69-76 | the loop with `previous` accepts exactly the verified lists and raises the first error |
| EventLog.HeadFixesLog | reference/python/tfws3/eventlog.py:69-76 | two verified lists whose last events have one hash are the same list, or two different texts hashed by the two runs collide |
| EventLog.AppendKeepsVerified | reference/python/tfws3/eventlog.py:31-48 | appending the new event keeps a verified list verified |
| EventLog.AppendedFields | reference/python/tfws3/eventlog.py:34-46 | an appended event has exactly eight fields; six hold the parts of the request under their own names, the details as 64 digits that read back as their hash, and the others position and link |
| EventLog.AppendFixesRequest | reference/python/tfws3/eventlog.py:22-46 | one appended event fixes its request and the length of the list, except that different details may collide |
| EventLog.AppendFails | reference/python/tfws3/eventlog.py:31-48 | an append is refused exactly for a list that does not verify, a payload without canonical form or a list too long for a safe integer |
| EventLog.RunKeepsVerified | reference/python/tfws3/eventlog.py:31-48 | every run of appends from a verified list ends in a verified list that extends it |
| EventLog.LogTextInjective | reference/python/tfws3/eventlog.py:47-50 | the bytes of the log file determine the events written to it |
| EventLog.ReadsWhatWasWritten | reference/python/tfws3/eventlog.py:47-66 | splitting the file at its line breaks and reading each line by the grammar gives back the events that were written |
| EventLog.WrittenFilesAgree | reference/python/tfws3/eventlog.py:47-66 | two written files with the same bytes hold the same events |
| EventLog.LogFile.Append | reference/python/tfws3/eventlog.py:22-53 | adds one line and one event that holds the parts of the request, or leaves file and events as they are; a written file stays one and reads back as its events |
| Merkle.LeafLayer | reference/python/tfws3/eventlog.py:80 | the list of leaf hashes, or the first failure |
| Merkle.MerkleRoot | reference/python/tfws3/eventlog.py:79-93 | the while loop over padded layers computes the recursive root |
| MerkleTree.TwoLeaves | reference/python/tfws3/eventlog.py:86-92 | the root of two leaves is the hash of the prefix, the left leaf and the right leaf, in this order |
| MerkleTree.TopSplits | reference/python/tfws3/eventlog.py:84-93 | a full left half and the rest, lifted to the same height by repetition, are hashed behind the prefix, left before right |
| MerkleTree.TopIsRoot | reference/python/tfws3/eventlog.py:84-93 | building layers from below gives the root of the tree defined from above, which splits its leaves at the largest power of two |
| MerkleTree.RootIsTree | reference/python/tfws3/eventlog.py:79-93 | the root is that tree over the hashes of the canonical texts, at the least height with room for them, in 64 lower-case digits that read back as the digest; it fails exactly when an event has no canonical text |
| MerkleTree.CollisionMeans | reference/python/tfws3/eventlog.py:79-93 | a collision is two different texts with one hash, each the canonical text of an event or the text of an inner node of one of the two trees |
| Merkle.NodesAgree | reference/python/tfws3/eventlog.py:84-92 | two nodes agree exactly when both of their children do, the last child of an odd layer counting twice |
| Merkle.SameHeight | reference/python/tfws3/eventlog.py:84-93 | trees of one height have one root exactly when repetition expands them to the same perfect tree |
| Merkle.HeightsAgree | reference/python/tfws3/eventlog.py:84-93 | lists with one root have trees of one height, because leaves and nodes hash texts that start differently |
| Merkle.PerfectFixesRoot | reference/python/tfws3/eventlog.py:79-93 | lists that expand to the same perfect tree have one root, whatever the hash function |
| Merkle.RootsAgreeExactly | reference/python/tfws3/eventlog.py:79-93 | two lists, verified or not, have one root exactly when they expand to the same perfect tree, unless two different texts hashed for the two roots collide |
| Merkle.SharedTreeExactly | reference/python/tfws3/eventlog.py:84-93 | another list expands to the tree of a list of pairwise different items exactly when the length of that list is not a power of two |
| Merkle.SharedRootExactly | reference/python/tfws3/eventlog.py:79-93 | a list of pairwise different events shares its root with a longer list when its length is not a power of two, and otherwise with no other list unless a collision is hashed |
| Merkle.RootFixesLog | reference/python/tfws3/eventlog.py:69-93 | two verified lists of any lengths with one root are the same list, or two different texts hashed for the two roots collide |
| Merkle.RepeatedEvent | reference/python/tfws3/eventlog.py:85-86 | one family of lists with one root: any odd list above one, and the same list with its last event repeated, which never verifies |
| Sha256.PadInput | crates/tfws-cli/src/main.rs:154-161 | the growing buffer ends as the padding of FIPS 180-4 section 5.1.1 |
| Sha256.PaddedLength | crates/tfws-cli/src/main.rs:155-161 | padding fills whole blocks and adds between 9 and 72 bytes |
| Sha256.PaddedInjective | crates/tfws-cli/src/main.rs:154-161 | different inputs have different paddings, also where the 64-bit length wraps |
| Sha256.FillWords | crates/tfws-cli/src/main.rs:165-186 | the array of 64 words holds the message schedule of the block |
| Sha256.RunRounds | crates/tfws-cli/src/main.rs:188-209 | the rotation of a to h, with the logical operators of the code, computes the 64 rounds |
| Sha256.AddInPlace | crates/tfws-cli/src/main.rs:211-213 | the working variables are added to `state` word by word |
| Sha256.CompressInPlace | crates/tfws-cli/src/main.rs:188-213 | rounds and addition are the compression of a block |
| Sha256.ComputeDigest | crates/tfws-cli/src/main.rs:136-221 | the whole computation gives the digest of the recursive definition |
| Sha256KnownAnswer.DigestOfAbc | crates/tfws-cli/src/main.rs:436-447 | the digest of "abc" has the 32 bytes that the tests of the code expect |
| Sha256Standard.ChBit | crates/tfws-cli/src/main.rs:191 | each bit of the choice is that of the second word where the first is set, else that of the third |
| Sha256Standard.MajBit | crates/tfws-cli/src/main.rs:198 | where two of three words agree in a bit the majority agrees with them |
| Sha256Standard.BigSigma0Bit | crates/tfws-cli/src/main.rs:197 | each bit is the sum of the bits 2, 13 and 22 places up, around the word |
| Sha256Standard.BigSigma1Bit | crates/tfws-cli/src/main.rs:190 | each bit is the sum of the bits 6, 11 and 25 places up, around the word |
| Sha256Standard.SmallSigma0Bit | crates/tfws-cli/src/main.rs:176-178 | each bit is the sum of the bits 7 and 18 places up, around the word, and 3 places up, within it |
| Sha256Standard.SmallSigma1Bit | crates/tfws-cli/src/main.rs:179-181 | each bit is the sum of the bits 17 and 19 places up, around the word, and 10 places up, within it |
| Sha256Standard.BlockHoldsWords | crates/tfws-cli/src/main.rs:164-174 | a block is read as the sixteen words that its bytes were written from |
| Sha256Standard.HashChains | crates/tfws-cli/src/main.rs:162-214 | blocks are compressed from left to right, each from the value the blocks before it gave |
| Sha256Standard.DigestHoldsWords | crates/tfws-cli/src/main.rs:216-221 | the digest holds the eight words of the last value in order, highest byte first |
| Sha256Standard.PaddingExactly | crates/tfws-cli/src/main.rs:154-161 | the message, a set bit, the fewest zero bytes, and the length in bits modulo 2^64 |
| Sha256Constants.FirstPrimes | crates/tfws-cli/src/main.rs:141-152 | the table of primes lists exactly the first 64 |
| Sha256Constants.RoundConstants | crates/tfws-cli/src/main.rs:141-152 | each round constant is the 32-bit fraction of the cube root of its prime |
| Sha256Constants.InitialValue | crates/tfws-cli/src/main.rs:137-140 | the initial words are the 32-bit fractions of the square roots of the first 8 primes |
| Fixtures.ComputeFixtureSignature | crates/tfws-cli/src/main.rs:120-134 | the cycled and cut digest of the tagged message |
| Fixtures.FixtureBytes | crates/tfws-cli/src/main.rs:120-134 | each byte of a fixture signature is a byte of the digest of the message behind 0x13 or 0x31 |
| Fixtures.FixtureVerdict | crates/tfws-cli/src/main.rs:83-118 | the verdict of the conformance verifier, from the fields of the descriptor |
| Fixtures.FixturesAgree | reference/python/tfws3/crypto.py:396-398 | repeating and slicing the digest gives the bytes that cycling gives in Rust |
| Fixtures.ConformanceRoundTrip | crates/tfws-cli/src/main.rs:83-134 | an envelope signed with fixture signatures verifies and gives back its manifest |
| Fixtures.OneEnvelopePerPayload | crates/tfws-cli/src/main.rs:83-118 | the conformance verifier accepts at most one envelope for each payload |
| SignatureMessages.PythonMessageInjective | reference/python/tfws3/crypto.py:176-190 | two accepted combinations of fields with one message are the same, for every text and every integer |
| SignatureMessages.SignatureMessageInjective | crates/tfws-core/src/lib.rs:265-286 | two accepted combinations of subject, digest, time and epoch with one message are the same |
| SignatureMessages.PrintersAgree | crates/tfws-core/src/lib.rs:282-285 | the format string of Rust and the concatenated lines of Python give the same bytes |
| SignatureMessages.MessagesAgree | crates/tfws-core/src/lib.rs:265-286 | the Rust message exists exactly for well-formed digests and epochs among the Python ones, and is then the same bytes |
| SignatureMessages.MessageReadsBack | reference/python/tfws3/crypto.py:176-190 | a text is the message for some fields exactly when a reader of its seven lines finds these fields in it |
| SignatureMessages.RustMessageReadsBack | crates/tfws-core/src/lib.rs:265-286 | the same for the Rust printer, with its conditions on digest and epoch |
| SignatureMessages.MessageRefused | crates/tfws-core/src/lib.rs:265-281 | when each printer refuses, and with which error |
| Bytes.DecimalReads | reference/python/tfws3/crypto.py:187 | the rendering of a number reads back by place value and has no leading zero |
| Bytes.NumeralIsDecimal | reference/python/tfws3/crypto.py:187 | every numeral without a leading zero is the rendering of its value |
| Bytes.HexReads | reference/python/tfws3/eventlog.py:15 | the digits of a byte string are lower-case, two for each byte, and read back as the bytes |
| Quorum.VerifyWitnessQuorum | reference/python/tfws3/transparency.py:28-57 | the loop with `accepted` and `conflicts` has the stated outcome, errors included |
| Quorum.CheckpointValidExactly | reference/python/tfws3/transparency.py:14-18 | a checkpoint is valid exactly with a log name, a size that is not negative and a root of 64 of the sixteen digits |
| Quorum.QuorumExactly | reference/python/tfws3/transparency.py:28-57 | from the fields alone: a set of witnesses is reported exactly when it is the set of allowed witnesses with a valid signature on the same log, size and root, it has at least the minimum, and no valid signature of an allowed witness is on anything else |
| Quorum.ErrorsExactly | reference/python/tfws3/transparency.py:28-57 | from the fields alone: exactly when each error is raised, and the number that a missed quorum reports |
| Quorum.ConflictsCounted | reference/python/tfws3/transparency.py:45-55 | a split view names each witness as often as it validly signed another log, size or root |
| Quorum.NoConflictExactly | reference/python/tfws3/transparency.py:45-54 | there is no split view exactly when every counted statement agrees with the checkpoint |
| Quorum.DetectExactly | reference/python/tfws3/transparency.py:60-67 | a log is reported as equivocating exactly when the two checkpoints differ in root for one log and one size |
| Quorum.QuorumsIntersect | reference/python/tfws3/transparency.py:28-67 | two quorums that together outnumber the allowed witnesses, for two roots of one log at one size, share an allowed witness with valid signatures on both roots, which `detect_incompatible_checkpoints` reports |
| Quorum.JointListRefused | reference/python/tfws3/transparency.py:28-67 | over the joined statements neither of two incompatible checkpoints has a quorum |
| Quorum.OrderIrrelevant | reference/python/tfws3/transparency.py:40-57 | the order of the statements changes neither success, nor the kind of error, nor the witnesses reported |

## Left out

- minicbor: its source is not part of this model; it is a cursor that peeks at the type of the next item, reads a
  head of any width and fails at the end of the input or on invalid UTF-8. Its 32-bit behaviour on hosts with
  smaller addresses is not modelled.
- serde and serde_json: their source is not part of this model; they are taken to read a struct from an object
  without unknown names or from an array of all its fields, and an absent optional field as null.
- RustCbor.EncodeValue: for a value outside the profile, its error and the bytes already written are not
  described; the code checks the profile first and discards the bytes.
- RustCbor.EncodeArray: the same as for RustCbor.EncodeValue.
- RustCbor.EncodeObject: the same as for RustCbor.EncodeValue.
- RustCbor.SortEntries: an insertion sort on a sequence stands for the in-place sort of the Rust library.
- Maps of serde_json are walked in the bytewise order of their keys, as without its `preserve_order` feature.
- Manifests.Validate: the number profile is checked on the identity, the only part besides the key epoch that can
  hold a number.
- Agreement.DocumentLayersAgree: the categories of errors are compared for truncated documents and for encodings of
  any value (`StrictRefusals.BothAnswerAlike`); on other bytes the two layers check in different orders. The limits are one common record, since the defaults of the two programs differ.
- Limits of canonical.py: constants there, with one bound for lists and dictionaries; here the record of limits
  that the Rust code takes.
- Rust and Python above the document layer: the manifest validators differ (only Rust requires the identity to be
  an object), and so do the checks of COSE headers.
- StrictDecoder: Python recursion limits and memory exhaustion are not modelled.
- URL parsing, `trim` and RFC 3339 timestamps: the first two are predicates of `Manifests.Library`; the code
  checks timestamps as plain strings.
- Signing and verifying algorithms: functions of algorithm, descriptor and message. A signer that draws random
  bits is one such function for each run, because it is called once for each algorithm.
- Error texts: an error is its kind, or its public category where only that is compared.
- EventLog.LogFile.Append: the model keeps the list of events beside the file, because the file may hold JSON texts
  that the log does not write itself. File locking, `fsync` and the drawing of identifiers and times are left out.
- EventLog.ReadsWhatWasWritten: the reader takes texts without white space, fractions, exponents and `\u` escapes
  from 0x80 on, and lines that end in a line feed; canonical texts are of this kind. Strings with lone surrogates,
  which have no UTF-8 form, do not occur.
- Sha256Standard: addition of words is the one of the 32-bit type; it is not tied to integers modulo 2^32.
- Json: conformance to RFC 8785 is not claimed; keys are sorted by code point, as the code sorts them.
- Merkle: inclusion and consistency proofs do not occur in the code.
- Sha256: the schedule adds its four terms in the order of the code; addition of words is commutative.
- Quorum: the sorted lists of witness names in results and messages are kept as a set and a multiset.
- OpenSSL, key files, subprocesses, the command line, WASM, the TypeScript SDK, the JSON schemas and the publisher
  script: input, output and foreign calls.
- `verify_bundle`, network policy, recovery and the two TLA+ modules: thin checks whose properties follow at once.
