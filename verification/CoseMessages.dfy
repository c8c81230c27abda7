/** What the two signatures are computed over, and the other printers of the same structures. */
module CoseMessages {
  import opened Bytes
  import opened CborHeads
  import opened Results
  import opened Cose
  import opened CoseEnvelope
  import opened StrictDecoder

  const ANY_LENGTH: usize := 0xFFFF_FFFF_FFFF_FFFF

  // ---------------------------------------------------------------- injectivity

  lemma SameBytesAt(s: bytes, pos: nat, a: bytes, b: bytes)
    requires At(s, pos, EncodeBytes(a)) && At(s, pos, EncodeBytes(b)) && |a| <= MAX_ARGUMENT && |b| <= MAX_ARGUMENT
    ensures a == b
  {
    hide At, EncodeBytes, ReadBytes;
    ReadBytesBack(s, pos, a, ANY_LENGTH);
    ReadBytesBack(s, pos, b, ANY_LENGTH);
  }

  lemma SigStructureParts(body: bytes, protected: bytes, payload: bytes)
    ensures EncodeSigStructure(body, protected, payload)
         == EncodeHead(4, 5) + (EncodeText(Ascii("Signature")) +
            (EncodeBytes(body) + (EncodeBytes(protected) + (EncodeBytes([]) + EncodeBytes(payload)))))
  {
  }

  lemma SigStructureAt(body: bytes, protected: bytes, payload: bytes)
    ensures var s := EncodeSigStructure(body, protected, payload);
            var p := |EncodeHead(4, 5)| + |EncodeText(Ascii("Signature"))|;
            && At(s, p, EncodeBytes(body))
            && At(s, p + |EncodeBytes(body)|, EncodeBytes(protected))
            && At(s, p + |EncodeBytes(body)| + |EncodeBytes(protected)| + |EncodeBytes([])|, EncodeBytes(payload))
  {
    hide *;
    var s := EncodeSigStructure(body, protected, payload);
    var h, t := EncodeHead(4, 5), EncodeText(Ascii("Signature"));
    var b, pr, e, pl := EncodeBytes(body), EncodeBytes(protected), EncodeBytes([]), EncodeBytes(payload);
    SigStructureParts(body, protected, payload);
    AtStart(s);
    AtSplit(s, 0, h, t + (b + (pr + (e + pl))));
    AtSplit(s, |h|, t, b + (pr + (e + pl)));
    AtFour(s, |h| + |t|, b, pr, e, pl);
  }

  /** A Sig_structure determines the body header, the signature header and the payload. */
  lemma SigStructureInjective(b1: bytes, h1: bytes, p1: bytes, b2: bytes, h2: bytes, p2: bytes)
    requires |b1| <= MAX_ARGUMENT && |h1| <= MAX_ARGUMENT && |p1| <= MAX_ARGUMENT
    requires |b2| <= MAX_ARGUMENT && |h2| <= MAX_ARGUMENT && |p2| <= MAX_ARGUMENT
    requires EncodeSigStructure(b1, h1, p1) == EncodeSigStructure(b2, h2, p2)
    ensures b1 == b2 && h1 == h2 && p1 == p2
  {
    hide *;
    SigStructureAt(b1, h1, p1);
    SigStructureAt(b2, h2, p2);
    var s := EncodeSigStructure(b1, h1, p1);
    var p := |EncodeHead(4, 5)| + |EncodeText(Ascii("Signature"))|;
    SameBytesAt(s, p, b1, b2);
    SameBytesAt(s, p + |EncodeBytes(b1)|, h1, h2);
    SameBytesAt(s, p + |EncodeBytes(b1)| + |EncodeBytes(h1)| + |EncodeBytes([])|, p1, p2);
  }

  lemma AlgorithmByte(a: CoseAlgorithm, k: bytes)
    ensures |EncodeSignatureProtected(a, k)| > 2
    ensures EncodeSignatureProtected(a, k)[2] == if a.Ed25519? then 0x32 else 0x38
  {
    hide EncodeBytes;
  }

  lemma HeaderSizes(a: CoseAlgorithm)
    ensures |EncodeHead(5, 2)| == 1 && |EncodeInt(1)| == 1 && |EncodeInt(4)| == 1
    ensures |EncodeInt(a.CoseValue())| == if a.Ed25519? then 1 else 2
  {
  }

  lemma KidAt(a: CoseAlgorithm, k: bytes)
    ensures At(EncodeSignatureProtected(a, k), if a.Ed25519? then 4 else 5, EncodeBytes(k))
  {
    hide *;
    var s := EncodeSignatureProtected(a, k);
    SignatureHeaderParts(a, k);
    HeaderSizes(a);
    AtStart(s);
    AtFive(s, 0, EncodeHead(5, 2), EncodeInt(1), EncodeInt(a.CoseValue()), EncodeInt(4), EncodeBytes(k));
  }

  /** A signature header determines its algorithm and key identifier. */
  lemma SignatureHeaderInjective(a1: CoseAlgorithm, k1: bytes, a2: CoseAlgorithm, k2: bytes)
    requires EncodeSignatureProtected(a1, k1) == EncodeSignatureProtected(a2, k2)
    requires |k1| <= MAX_ARGUMENT && |k2| <= MAX_ARGUMENT
    ensures a1 == a2 && k1 == k2
  {
    hide *;
    var s := EncodeSignatureProtected(a1, k1);
    AlgorithmByte(a1, k1);
    AlgorithmByte(a2, k2);
    KidAt(a1, k1);
    KidAt(a2, k2);
    SameBytesAt(s, if a1.Ed25519? then 4 else 5, k1, k2);
  }

  /** The message that is signed: the fixed body header, the signature header, the payload. */
  function SignedMessage(algorithm: CoseAlgorithm, kid: bytes, payload: bytes): bytes {
    EncodeSigStructure(EncodeBodyProtected(), EncodeSignatureProtected(algorithm, kid), payload)
  }

  /** What is signed determines the algorithm, the key identifier and the payload; in particular an
      Ed25519 message is never an ML-DSA-65 message. */
  lemma SignedMessageInjective(a1: CoseAlgorithm, k1: bytes, p1: bytes, a2: CoseAlgorithm, k2: bytes, p2: bytes)
    requires |k1| <= MAX_ARGUMENT - 14 && |k2| <= MAX_ARGUMENT - 14 && |p1| <= MAX_ARGUMENT && |p2| <= MAX_ARGUMENT
    requires SignedMessage(a1, k1, p1) == SignedMessage(a2, k2, p2)
    ensures a1 == a2 && k1 == k2 && p1 == p2
  {
    hide EncodeSigStructure, EncodeSignatureProtected, EncodeBodyProtected;
    BodyHeaderParts();
    SignatureHeaderParts(a1, k1);
    SignatureHeaderParts(a2, k2);
    var b := EncodeBodyProtected();
    SigStructureInjective(b, EncodeSignatureProtected(a1, k1), p1, b, EncodeSignatureProtected(a2, k2), p2);
    SignatureHeaderInjective(a1, k1, a2, k2);
  }

  // ---------------------------------------------------------------- the Python printers

  /** `_encode_cose_sig_value` of crypto.py, which knows bytes, text and lists only. */
  function EncodeCoseSigValue(v: Item): Option<bytes>
    decreases v, 0
  {
    match v
    case BytesValue(raw) => Some(EncodeHead(2, |raw|) + raw)
    case TextValue(t) => Some(EncodeHead(3, |t|) + t)
    case ListValue(items) =>
      (match EncodeCoseSigValues(items)
       case None => None
       case Some(body) => Some(EncodeHead(4, |items|) + body))
    case _ => None
  }

  function EncodeCoseSigValues(items: seq<Item>): Option<bytes>
    decreases items, 0
  {
    if items == [] then Some([])
    else
      match EncodeCoseSigValue(items[0])
      case None => None
      case Some(first) =>
        match EncodeCoseSigValues(items[1..])
        case None => None
        case Some(rest) => Some(first + rest)
  }

  /** Where `_encode_cose_sig_value` succeeds it prints what the generator prints. */
  lemma {:induction false} SigValueIsEncItem(v: Item)
    ensures EncodeCoseSigValue(v).Some? ==> EncodeCoseSigValue(v).value == EncItem(v)
    decreases v, 1
  {
    if v.ListValue? {
      SigValuesAreEncList(v.items);
    }
  }

  lemma {:induction false} SigValuesAreEncList(items: seq<Item>)
    ensures EncodeCoseSigValues(items).Some? ==> EncodeCoseSigValues(items).value == EncList(items)
    decreases items, 0
  {
    hide EncodeCoseSigValue, EncItem;
    if items != [] {
      SigValueIsEncItem(items[0]);
      SigValuesAreEncList(items[1..]);
    }
  }

  function SigStructureItem(body: bytes, protected: bytes, payload: bytes): Item {
    ListValue([TextValue(Ascii("Signature")), BytesValue(body), BytesValue(protected), BytesValue([]),
      BytesValue(payload)])
  }

  lemma {:induction false} EncListCons(v: Item, rest: seq<Item>)
    ensures EncList([v] + rest) == EncItem(v) + EncList(rest)
  {
    hide EncItem;
    assert ([v] + rest)[1..] == rest;
  }

  lemma EncFive(a: Item, b: Item, c: Item, d: Item, e: Item)
    ensures EncList([a, b, c, d, e]) == EncItem(a) + (EncItem(b) + (EncItem(c) + (EncItem(d) + EncItem(e))))
  {
    hide EncItem;
    EncFour(b, c, d, e);
    assert [a, b, c, d, e] == [a] + [b, c, d, e];
    EncListCons(a, [b, c, d, e]);
  }

  lemma EncFour(a: Item, b: Item, c: Item, d: Item)
    ensures EncList([a, b, c, d]) == EncItem(a) + (EncItem(b) + (EncItem(c) + EncItem(d)))
  {
    hide EncItem;
    EncThree(b, c, d);
    assert [a, b, c, d] == [a] + [b, c, d];
    EncListCons(a, [b, c, d]);
  }

  lemma EncThree(a: Item, b: Item, c: Item)
    ensures EncList([a, b, c]) == EncItem(a) + (EncItem(b) + EncItem(c))
  {
    hide EncItem;
    EncTwo(b, c);
    assert [a, b, c] == [a] + [b, c];
    EncListCons(a, [b, c]);
  }

  lemma EncTwo(a: Item, b: Item)
    ensures EncList([a, b]) == EncItem(a) + EncItem(b)
  {
    hide EncItem;
    assert [a, b] == [a] + [b] && [b] == [b] + [];
    EncListCons(a, [b]);
    EncListCons(b, []);
    assert EncItem(b) + EncList([]) == EncItem(b);
  }

  /** The Rust, the Python reference and the generator printers of the Sig_structure agree. */
  lemma SigStructurePrintersAgree(body: bytes, protected: bytes, payload: bytes)
    ensures EncItem(SigStructureItem(body, protected, payload)) == EncodeSigStructure(body, protected, payload)
    ensures EncodeCoseSigValue(SigStructureItem(body, protected, payload))
        == Some(EncodeSigStructure(body, protected, payload))
  {
    var v := SigStructureItem(body, protected, payload);
    EncFive(v.items[0], v.items[1], v.items[2], v.items[3], v.items[4]);
    SigValueIsEncItem(v);
    SigValueDefined(v);
    hide EncodeHead, EncList, EncodeCoseSigValue, Ascii;
  }

  lemma SigValueDefined(v: Item)
    requires v.ListValue? && forall i :: 0 <= i < |v.items| ==> v.items[i].BytesValue? || v.items[i].TextValue?
    ensures EncodeCoseSigValue(v).Some?
  {
    SigValuesDefined(v.items);
  }

  lemma {:induction false} SigValuesDefined(items: seq<Item>)
    requires forall i :: 0 <= i < |items| ==> items[i].BytesValue? || items[i].TextValue?
    ensures EncodeCoseSigValues(items).Some?
  {
    if items != [] {
      SigValuesDefined(items[1..]);
    }
  }

  /** The headers that the generator's `body_protected` and `signature_protected` encode. */
  function BodyHeaderItem(): Item {
    DictValue([Pair(IntValue(3), TextValue(ContentType())), Pair(IntValue(16), TextValue(EnvelopeType()))])
  }

  function SignatureHeaderItem(algorithm: CoseAlgorithm, kid: bytes): Item {
    DictValue([Pair(IntValue(1), IntValue(algorithm.CoseValue())), Pair(IntValue(4), BytesValue(kid))])
  }

  lemma EncTwoPairs(m: int, v: Item, n: int, w: Item)
    requires 0 <= m < n < 24
    ensures EncItem(DictValue([Pair(IntValue(m), v), Pair(IntValue(n), w)]))
         == EncodeHead(5, 2) + (EncodeInt(m) + (EncItem(v) + (EncodeInt(n) + EncItem(w))))
  {
    var pairs := [Pair(IntValue(m), v), Pair(IntValue(n), w)];
    var a, b := EncodedPair(EncodeInt(m), EncItem(v)), EncodedPair(EncodeInt(n), EncItem(w));
    assert pairs[1..] == [Pair(IntValue(n), w)] && pairs[1..][1..] == [];
    assert EncItem(IntValue(m)) == EncodeInt(m) && EncItem(IntValue(n)) == EncodeInt(n);
    assert EncPairs(pairs[1..][1..]) == [];
    assert EncPairs(pairs[1..]) == [b] + [];
    assert EncPairs(pairs) == [a] + ([b] + []);
    assert SortPairs([b] + []) == [b] by { assert ([b] + [])[1..] == []; }
    assert CompareEncodedKeys(a.key, b.key) == Less;
    assert ([a] + ([b] + []))[1..] == [b] + [];
    assert SortPairs(EncPairs(pairs)) == [a] + [b];
    hide EncPairs, SortPairs, EncodeInt;
    assert ([a] + [b])[1..] == [b] && [b][1..] == [];
    assert Join([b]) == b.key + b.val + [];
    assert b.key + b.val + [] == b.key + b.val;
    assert Join([a] + [b]) == a.key + a.val + (b.key + b.val);
    ConcatAssociative(a.key, a.val, b.key + b.val);
  }

  /** The generator's headers are the Rust headers. */
  lemma HeaderPrintersAgree(algorithm: CoseAlgorithm, kid: bytes)
    ensures EncItem(BodyHeaderItem()) == EncodeBodyProtected()
    ensures EncItem(SignatureHeaderItem(algorithm, kid)) == EncodeSignatureProtected(algorithm, kid)
  {
    hide EncodeHead, ContentType, EnvelopeType, CoseAlgorithm.CoseValue;
    EncTwoPairs(3, TextValue(ContentType()), 16, TextValue(EnvelopeType()));
    EncTwoPairs(1, IntValue(algorithm.CoseValue()), 4, BytesValue(kid));
  }

  function EntryItem(protected: bytes, signature: bytes): Item {
    ListValue([BytesValue(protected), DictValue([]), BytesValue(signature)])
  }

  /** What `make_envelope` encodes for two signatures. */
  function EnvelopeItem(body: bytes, payload: bytes, first: EncodedSignature, second: EncodedSignature): Item {
    TagValue(98, ListValue([BytesValue(body), DictValue([]), BytesValue(payload),
                            ListValue([EntryItem(first.protected, first.signature),
                                       EntryItem(second.protected, second.signature)])]))
  }

  lemma EmptyDict()
    ensures EncItem(DictValue([])) == EncodeHead(5, 0)
  {
    assert EncPairs([]) == [] && SortPairs([]) == [] && Join([]) == [];
  }

  lemma EntryPrintersAgree(protected: bytes, signature: bytes)
    ensures EncItem(EntryItem(protected, signature)) == EncodeEntry(protected, signature)
  {
    EmptyDict();
    var v := EntryItem(protected, signature);
    EncThree(v.items[0], v.items[1], v.items[2]);
    hide EncodeHead, EncList;
  }

  /** The generator's envelope is the Rust envelope. */
  lemma EnvelopePrintersAgree(body: bytes, payload: bytes, first: EncodedSignature, second: EncodedSignature)
    ensures EncodeEnvelope(body, payload, [first, second]) == Ok(EncItem(EnvelopeItem(body, payload, first, second)))
  {
    var v := EnvelopeItem(body, payload, first, second).inner;
    var entries := v.items[3];
    EmptyDict();
    EntryPrintersAgree(first.protected, first.signature);
    EntryPrintersAgree(second.protected, second.signature);
    EncTwo(entries.items[0], entries.items[1]);
    EncFour(v.items[0], v.items[1], v.items[2], v.items[3]);
    assert EncodeHead(6, 98) == TAG;
    hide EncodeHead, EncList, EncodeEntry, EncodeBytes, EntryItem;
    var e := EncItem(entries);
    assert e == EncodeHead(4, 2)
        + (EncodeEntry(first.protected, first.signature) + EncodeEntry(second.protected, second.signature));
    assert EncItem(v) == EncodeOuter(body, payload, first, second);
  }
}
