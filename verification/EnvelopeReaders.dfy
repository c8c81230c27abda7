/** The Python readers on the envelopes that the Rust parser accepts. */
module EnvelopeReaders {
  import opened Bytes
  import opened CborHeads
  import opened CborValues
  import opened Results
  import opened Cose
  import opened CoseEnvelope
  import opened CoseMessages
  import opened StrictDecoder
  import opened StrictCorrectness
  import opened StrictDocument
  import opened InsertionOrder

  /** What a Python reader should make of the parts of an envelope. */
  function ItemOf(p: ParsedEnvelope): Item
    requires |p.signatures| == 2
  {
    EnvelopeItem(p.bodyProtected, p.payload,
                 EncodedSignature(p.signatures[0].protected, p.signatures[0].signature),
                 EncodedSignature(p.signatures[1].protected, p.signatures[1].signature))
  }

  /** The reference decoder as it reads envelopes: byte strings, tags and null are allowed. */
  function EnvelopeConfig(limits: CborLimits): Config {
    Config(Some(limits), true, true, true, false)
  }

  predicate StringFits(cfg: Config, s: bytes) {
    cfg.allowBytes && StringOk(cfg, |s|) && |s| <= MAX_ARGUMENT
  }

  /** `cfg` has room for the shape of an envelope and for its byte strings. */
  predicate Admits(cfg: Config, p: ParsedEnvelope)
    requires |p.signatures| == 2
  {
    && cfg.allowTags && DepthOk(cfg, 4) && ListOk(cfg, 4)
    && StringFits(cfg, p.bodyProtected) && StringFits(cfg, p.payload)
    && forall i :: 0 <= i < 2 ==>
      StringFits(cfg, p.signatures[i].protected) && StringFits(cfg, p.signatures[i].signature)
  }

  lemma BytesAdmissible(cfg: Config, s: bytes, depth: nat)
    requires DepthOk(cfg, 4) && depth <= 4 && StringFits(cfg, s)
    ensures Admissible(cfg, BytesValue(s), depth)
  {
  }

  lemma EmptyMapAdmissible(cfg: Config, depth: nat)
    requires DepthOk(cfg, 4) && depth <= 4
    ensures Admissible(cfg, DictValue([]), depth)
  {
  }

  lemma ShortListAdmissible(cfg: Config, items: seq<Item>, depth: nat)
    requires DepthOk(cfg, 4) && ListOk(cfg, 4) && depth <= 4 && |items| <= 4
    requires forall i :: 0 <= i < |items| ==> Admissible(cfg, items[i], depth + 1)
    ensures Admissible(cfg, ListValue(items), depth)
  {
    ListAdmissible(cfg, items, depth + 1);
    hide AdmissibleList;
  }

  lemma EntryAdmissible(cfg: Config, protected: bytes, signature: bytes)
    requires DepthOk(cfg, 4) && ListOk(cfg, 4) && StringFits(cfg, protected) && StringFits(cfg, signature)
    ensures Admissible(cfg, EntryItem(protected, signature), 3)
  {
    hide Admissible, DepthOk, ListOk, StringFits;
    BytesAdmissible(cfg, protected, 4);
    EmptyMapAdmissible(cfg, 4);
    BytesAdmissible(cfg, signature, 4);
    ShortListAdmissible(cfg, [BytesValue(protected), DictValue([]), BytesValue(signature)], 3);
  }

  lemma TagAdmissible(cfg: Config, inner: Item)
    requires DepthOk(cfg, 4) && cfg.allowTags && Admissible(cfg, inner, 1)
    ensures Admissible(cfg, TagValue(98, inner), 0)
  {
  }

  lemma ItemAdmissible(cfg: Config, p: ParsedEnvelope)
    requires |p.signatures| == 2 && Admits(cfg, p)
    ensures Admissible(cfg, ItemOf(p), 0)
  {
    hide Admissible, DepthOk, ListOk, StringFits, EntryItem;
    var first, second := p.signatures[0], p.signatures[1];
    EntryAdmissible(cfg, first.protected, first.signature);
    EntryAdmissible(cfg, second.protected, second.signature);
    var entries := [EntryItem(first.protected, first.signature), EntryItem(second.protected, second.signature)];
    ShortListAdmissible(cfg, entries, 2);
    BytesAdmissible(cfg, p.bodyProtected, 2);
    EmptyMapAdmissible(cfg, 2);
    BytesAdmissible(cfg, p.payload, 2);
    var outer := [BytesValue(p.bodyProtected), DictValue([]), BytesValue(p.payload), ListValue(entries)];
    ShortListAdmissible(cfg, outer, 1);
    TagAdmissible(cfg, ListValue(outer));
  }

  lemma ReencodedItem(p: ParsedEnvelope)
    requires |p.signatures| == 2
    ensures Reencode(p) == Ok(EncItem(ItemOf(p)))
  {
    hide EncodeEnvelope, EncItem, EnvelopeItem;
    var first := EncodedSignature(p.signatures[0].protected, p.signatures[0].signature);
    var second := EncodedSignature(p.signatures[1].protected, p.signatures[1].signature);
    EnvelopePrintersAgree(p.bodyProtected, p.payload, first, second);
    assert seq(|p.signatures|, i requires 0 <= i < |p.signatures| =>
                 EncodedSignature(p.signatures[i].protected, p.signatures[i].signature)) == [first, second];
  }

  /** A strict reader with room for the parts reads them from every envelope that the parser accepts. */
  lemma ReadersAgree(input: bytes, limits: CoseLimits, p: ParsedEnvelope, cfg: Config)
    requires ParseEnvelope(input, limits) == Ok(p) && |p.signatures| == 2 && Admits(cfg, p)
    requires cfg.limits.Some? ==> |input| <= cfg.limits.value.maxManifestBytes
    ensures DecodeExact(input, cfg) == Ok(ItemOf(p))
  {
    hide *;
    ParsesExactly(input, limits, p);
    ReencodedItem(p);
    ItemAdmissible(cfg, p);
    AcceptsExactlyEncodings(input, cfg, ItemOf(p));
  }

  lemma PartsWithinArgument(p: ParsedEnvelope, limits: CborLimits)
    requires PartsOk(p, limits)
    ensures |p.signatures| == 2 && Admits(GENERATOR, p)
    ensures Admits(EnvelopeConfig(limits), p) <==>
            limits.maxDepth >= 4 && limits.maxArrayItems >= 4 && |p.payload| <= limits.maxStringBytes
  {
    hide EncodeBodyProtected, EncodeSignatureProtected, ValidUtf8;
  }

  /** The generator reads every accepted envelope as the parser does. So does the reference decoder under the
      parser's own limits, exactly when the payload is within the string limit and the input within the size
      limit of a document. */
  lemma AcceptedEnvelopesAreRead(input: bytes, limits: CoseLimits, p: ParsedEnvelope)
    requires ParseEnvelope(input, limits) == Ok(p)
    ensures |p.signatures| == 2 && GeneratorDecode(input) == Ok(ItemOf(p))
    ensures DecodeExact(input, EnvelopeConfig(limits.cbor)) == Ok(ItemOf(p)) <==>
              |p.payload| <= limits.cbor.maxStringBytes && |input| <= limits.cbor.maxManifestBytes
  {
    hide ParseEnvelope, DecodeExact, GeneratorDecode, PartsOk, Reencode, Admits, ItemOf;
    ParsesExactly(input, limits, p);
    PartsWithinArgument(p, limits.cbor);
    ReadersAgree(input, limits, p, GENERATOR);
    GeneratorCheckNeverFires(input);
    if |p.payload| <= limits.cbor.maxStringBytes && |input| <= limits.cbor.maxManifestBytes {
      ReadersAgree(input, limits, p, EnvelopeConfig(limits.cbor));
    }
    if DecodeExact(input, EnvelopeConfig(limits.cbor)) == Ok(ItemOf(p)) {
      AcceptsExactlyEncodings(input, EnvelopeConfig(limits.cbor), ItemOf(p));
      PayloadFits(EnvelopeConfig(limits.cbor), p);
      EnvelopeLimits(limits.cbor, p.payload);
    }
  }

  lemma {:induction false} AdmissibleAt(cfg: Config, items: seq<Item>, i: nat, depth: nat)
    requires AdmissibleList(cfg, items, depth) && i < |items|
    ensures Admissible(cfg, items[i], depth)
  {
    hide Admissible;
    if i > 0 {
      AdmissibleAt(cfg, items[1..], i - 1, depth);
    }
  }

  lemma PayloadFits(cfg: Config, p: ParsedEnvelope)
    requires |p.signatures| == 2 && Admissible(cfg, ItemOf(p), 0)
    ensures StringFits(cfg, p.payload)
  {
    hide EntryItem;
    var outer := ItemOf(p).inner;
    assert AdmissibleList(cfg, outer.items, 2);
    AdmissibleAt(cfg, outer.items, 2, 2);
  }

  lemma EnvelopeLimits(limits: CborLimits, s: bytes)
    ensures EnvelopeConfig(limits).limits == Some(limits)
    ensures StringFits(EnvelopeConfig(limits), s) ==> |s| <= limits.maxStringBytes
  {
  }
}
