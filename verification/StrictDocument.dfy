/** The strict document layers: `_decode_cbor_document` with `_validate_manifest_cbor_value` of
    canonical.py, and `cbor_decode_exact` of the generator. */
module StrictDocument {
  import opened Bytes
  import opened CborValues
  import opened Results
  import opened StrictDecoder
  import opened StrictCorrectness
  import opened StrictTruncation

  /** `_decode_cbor_document`: one item and nothing after it. */
  function DecodeExact(input: bytes, cfg: Config): (r: Result<Item, Category>) {
    if cfg.limits.Some? && |input| > cfg.limits.value.maxManifestBytes then Err(CatResourceLimit)
    else
      var r :- DecodeItem(input, 0, cfg, 0);
      if r.next != |input| then Err(CatMalformed) else Ok(r.value)
  }

  /** `_validate_manifest_cbor_value` finds nothing to complain about. */
  predicate ManifestItem(v: Item) {
    match v
    case BoolValue(_) | TextValue(_) => true
    case IntValue(n) => SafeInteger(n)
    case ListValue(items) => forall i :: 0 <= i < |items| ==> ManifestItem(items[i])
    case DictValue(pairs) => forall i :: 0 <= i < |pairs| ==> pairs[i].key.TextValue? && ManifestItem(pairs[i].val)
    case NoneItem | BytesValue(_) | TagValue(_, _) => false
  }

  function DecodeManifestItem(input: bytes, limits: CborLimits): (r: Result<Item, Category>) {
    var v :- DecodeExact(input, ManifestConfig(limits));
    if ManifestItem(v) then Ok(v) else Err(CatUnsupportedType)
  }

  /** `cbor_decode_exact`: the strict pass, then the comparison with the re-encoding. */
  function GeneratorDecode(input: bytes): (r: Result<Item, Category>) {
    var v :- DecodeExact(input, GENERATOR);
    if EncItem(v) != input then Err(CatNonDeterministic) else Ok(v)
  }

  /** What a strict decoder accepts: exactly the encodings of its admissible values, each decoded to
      the value it encodes. */
  lemma AcceptsExactlyEncodings(input: bytes, cfg: Config, v: Item)
    ensures DecodeExact(input, cfg) == Ok(v) <==>
            && Admissible(cfg, v, 0) && input == EncItem(v)
            && (cfg.limits.Some? ==> |input| <= cfg.limits.value.maxManifestBytes)
  {
    hide DecodeItem, EncItem, Admissible;
    if DecodeExact(input, cfg) == Ok(v) {
      ItemSound(input, 0, cfg, 0);
      assert input[0..|input|] == input;
    }
    if Admissible(cfg, v, 0) && input == EncItem(v) {
      assert input[0..|input|] == input;
      ItemComplete(input, 0, v, cfg, 0);
    }
  }

  /** The generator's re-encoding check can never fire, whatever the input. */
  lemma GeneratorCheckNeverFires(input: bytes)
    ensures GeneratorDecode(input) == DecodeExact(input, GENERATOR)
  {
    hide DecodeExact, EncItem, Admissible;
    if DecodeExact(input, GENERATOR).Ok? {
      AcceptsExactlyEncodings(input, GENERATOR, DecodeExact(input, GENERATOR).value);
    }
  }

  /** Every proper prefix of an accepted document is malformed, and every extension is rejected. */
  lemma PrefixAndExtensionRejected(input: bytes, cfg: Config, k: nat, suffix: bytes)
    requires DecodeExact(input, cfg).Ok? && k < |input| && suffix != []
    ensures DecodeExact(input[..k], cfg) == Err(CatMalformed)
    ensures DecodeExact(input + suffix, cfg)
         == Err(if cfg.limits.Some? && |input + suffix| > cfg.limits.value.maxManifestBytes
                then CatResourceLimit else CatMalformed)
  {
    hide DecodeItem, EncItem, Admissible;
    var v := DecodeExact(input, cfg).value;
    AcceptsExactlyEncodings(input, cfg, v);
    ItemCut(input, 0, k, cfg, 0);
    assert (input + suffix)[0..|input|] == input;
    ItemComplete(input + suffix, 0, v, cfg, 0);
  }
}
