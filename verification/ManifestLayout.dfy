/** The bytes of an encoded manifest, field by field under the published names, in their deterministic order. */
module ManifestLayout {
  import opened Bytes
  import opened CborHeads
  import opened CborValues
  import opened CborExamples
  import opened Manifests
  import opened ManifestCodec
  import opened Results
  import opened SortedSets

  // ---------------------------------------------------------------- fields in order

  /** A name and what is under it. */
  function Entry(name: string, value: bytes): bytes {
    EncodeText(Ascii(name)) + value
  }

  /** The entry of `f`, or nothing where the field is absent. */
  ghost function Part(fields: map<Field, Value>, f: Field): bytes {
    if f in fields then Entry(Spelling(f), Enc(fields[f])) else []
  }

  ghost function Parts(fields: map<Field, Value>, order: seq<Field>): bytes {
    if order == [] then [] else Part(fields, order[0]) + Parts(fields, order[1..])
  }

  /** The names of the fields that are present, in the given order. */
  function PresentNames(fields: map<Field, Value>, order: seq<Field>): seq<Text> {
    if order == [] then []
    else if order[0] in fields then [NameOf(order[0])] + PresentNames(fields, order[1..])
    else PresentNames(fields, order[1..])
  }

  /** The names of the fields stand in deterministic order. */
  ghost predicate InOrder(order: seq<Field>) {
    forall i, j :: 0 <= i < j < |order| ==> KeyLess(NameOf(order[i]), NameOf(order[j]))
  }

  lemma {:induction false} PresentElements(fields: map<Field, Value>, order: seq<Field>)
    ensures Elements(PresentNames(fields, order)) == set f | f in order && f in fields :: NameOf(f)
  {
    hide NameOf, ValidUtf8;
    if order == [] {
      EmptyElements([]);
    } else {
      PresentElements(fields, order[1..]);
      assert forall f :: f in order <==> f == order[0] || f in order[1..];
      if order[0] in fields {
        ElementsPrepend(NameOf(order[0]), PresentNames(fields, order[1..]));
      }
    }
  }

  lemma {:induction false} PresentAscend(fields: map<Field, Value>, order: seq<Field>)
    requires InOrder(order)
    ensures Ascending(KeyLess, PresentNames(fields, order))
  {
    hide NameOf, KeyLess, ValidUtf8;
    if order != [] {
      var rest := order[1..];
      assert forall i :: 0 <= i < |rest| ==> rest[i] == order[i + 1];
      PresentAscend(fields, rest);
      PresentElements(fields, rest);
      if order[0] in fields {
        forall y | y in Elements(PresentNames(fields, rest)) ensures KeyLess(NameOf(order[0]), y) {
          var f :| f in rest && f in fields && y == NameOf(f);
          var i :| 0 <= i < |rest| && rest[i] == f;
          assert KeyLess(NameOf(order[0]), NameOf(order[i + 1]));
        }
        AscendingPrepend(KeyLess, NameOf(order[0]), PresentNames(fields, rest));
      }
    }
  }

  lemma NamedPresent(fields: map<Field, Value>, f: Field)
    requires f in fields
    ensures NameOf(f) in Named(fields) && Named(fields)[NameOf(f)] == fields[f]
  {
    NamedAt(fields, f);
    hide NameOf;
  }

  lemma PartIs(fields: map<Field, Value>, f: Field, rest: bytes)
    ensures f in fields ==> Part(fields, f) + rest == EncodeText(NameOf(f)) + (Enc(fields[f]) + rest)
    ensures f !in fields ==> Part(fields, f) + rest == rest
  {
    hide Enc, EncodeText, Ascii, Spelling, ValidUtf8;
    if f in fields {
      ConcatAssociative(EncodeText(NameOf(f)), Enc(fields[f]), rest);
    }
  }

  lemma {:induction false} EntriesAreParts(fields: map<Field, Value>, order: seq<Field>)
    ensures Elements(PresentNames(fields, order)) <= Named(fields).Keys
    ensures EncEntries(Object(Named(fields)), PresentNames(fields, order)) == Parts(fields, order)
  {
    PresentElements(fields, order);
    hide NameOf, Enc, EncEntries, Part, ValidUtf8;
    var obj := Object(Named(fields));
    forall f | f in order && f in fields ensures NameOf(f) in Named(fields) {
      NamedPresent(fields, f);
    }
    if order == [] {
      NoEntries(obj);
    } else {
      var f, rest := order[0], order[1..];
      EntriesAreParts(fields, rest);
      PartIs(fields, f, Parts(fields, rest));
      if f in fields {
        NamedPresent(fields, f);
        EntriesCons(obj, NameOf(f), PresentNames(fields, rest));
      }
    }
  }

  lemma PresentCount(fields: map<Field, Value>, order: seq<Field>)
    requires InOrder(order) && forall f :: f in fields ==> f in order
    ensures Elements(PresentNames(fields, order)) == Named(fields).Keys
  {
    PresentElements(fields, order);
    hide NameOf, PresentNames, ValidUtf8;
    forall f | f in fields ensures NameOf(f) in Named(fields) {
      NamedPresent(fields, f);
    }
  }

  /** How many of the fields are present. */
  function Count(fields: map<Field, Value>, order: seq<Field>): nat {
    if order == [] then 0 else (if order[0] in fields then 1 else 0) + Count(fields, order[1..])
  }

  lemma {:induction false} PresentSize(fields: map<Field, Value>, order: seq<Field>)
    ensures |PresentNames(fields, order)| == Count(fields, order)
  {
    hide NameOf, ValidUtf8;
    if order != [] {
      PresentSize(fields, order[1..]);
    }
  }

  /** The encoding of a struct: a head for the number of its fields, and its fields in order. */
  lemma StructIs(fields: map<Field, Value>, order: seq<Field>)
    requires InOrder(order) && forall f :: f in fields ==> f in order
    ensures Enc(Object(Named(fields))) == EncodeHead(5, Count(fields, order)) + Parts(fields, order)
  {
    hide *;
    PresentCount(fields, order);
    PresentAscend(fields, order);
    EntriesAreParts(fields, order);
    ObjectIs(Named(fields), PresentNames(fields, order));
    PresentSize(fields, order);
  }

  // ---------------------------------------------------------------- the order of the published names

  lemma ThreeBytes(s: bytes, t: bytes)
    requires |s| >= 3 && |t| >= 3
    requires s[0] as int * 0x1_0000 + s[1] as int * 0x100 + s[2] as int
           < t[0] as int * 0x1_0000 + t[1] as int * 0x100 + t[2] as int
    ensures LexLess(s, t)
  {
    assert s[1..][0] == s[1] && t[1..][0] == t[1] && s[1..][1..][0] == s[2] && t[1..][1..][0] == t[2];
  }

  lemma CodeParts(m: nat, x: nat, n: nat, y: nat)
    requires m * 0x100_0000 + x < n * 0x100_0000 + y && x < 0x100_0000 && y < 0x100_0000
    ensures m < n || (m == n && x < y)
  {
  }

  function Front(s: string): nat
    requires |s| >= 3
  {
    s[0] as int * 0x1_0000 + s[1] as int * 0x100 + s[2] as int
  }

  lemma CodeSplits(f: Field)
    ensures 3 <= |Spelling(f)| == |NameOf(f)| && Front(Spelling(f)) < 0x100_0000
    ensures CodeOf(f) == |Spelling(f)| * 0x100_0000 + Front(Spelling(f))
    ensures Front(Spelling(f)) == NameOf(f)[0] as int * 0x1_0000 + NameOf(f)[1] as int * 0x100 + NameOf(f)[2] as int
  {
    CodeOfSpelling(f);
    NameBytes(f);
    hide Spelling, CodeOf, NameOf;
  }

  /** The codes of the names are numbered in the deterministic order. */
  lemma LessByCode(f: Field, g: Field)
    requires CodeOf(f) < CodeOf(g)
    ensures KeyLess(NameOf(f), NameOf(g))
  {
    hide *;
    CodeSplits(f);
    CodeSplits(g);
    CodeParts(|Spelling(f)|, Front(Spelling(f)), |Spelling(g)|, Front(Spelling(g)));
    KeyLessByLength(NameOf(f), NameOf(g));
    if |NameOf(f)| == |NameOf(g)| {
      ThreeBytes(NameOf(f), NameOf(g));
    }
  }

  lemma NameBytes(f: Field)
    requires |Spelling(f)| >= 3
    requires Spelling(f)[0] as int < 0x80 && Spelling(f)[1] as int < 0x80 && Spelling(f)[2] as int < 0x80
    ensures |NameOf(f)| == |Spelling(f)|
    ensures NameOf(f)[0] as int == Spelling(f)[0] as int && NameOf(f)[1] as int == Spelling(f)[1] as int
    ensures NameOf(f)[2] as int == Spelling(f)[2] as int
  {
    hide Spelling, ValidUtf8;
  }

  lemma InOrderFirst(f: Field, order: seq<Field>)
    requires InOrder(order) && (order != [] ==> CodeOf(f) < CodeOf(order[0]))
    ensures InOrder([f] + order)
  {
    hide NameOf, KeyLess, CodeOf, ValidUtf8;
    if order != [] {
      LessByCode(f, order[0]);
    }
    KeyOrderIsStrictTotal();
    var longer := [f] + order;
    forall i, j | 0 <= i < j < |longer| ensures KeyLess(NameOf(longer[i]), NameOf(longer[j])) {
      assert longer[j] == order[j - 1];
      if i > 0 {
        assert longer[i] == order[i - 1];
      } else if j > 1 {
        assert KeyLess(NameOf(order[0]), NameOf(order[j - 1]));
      }
    }
  }

  lemma NothingInOrder()
    ensures InOrder([])
  {
  }

  const ROOT_ORDER: seq<Field> := [
    FKeys, FSubject, FIdentity, FOperator, FArtifacts, FKeyEpoch, FExpiresAt, FUpdatedAt, FEnvironment, FCapabilities,
    FVersion, FSignaturePolicy]

  lemma RootInOrder()
    ensures InOrder(ROOT_ORDER)
  {
    hide InOrder;
    NothingInOrder();
    InOrderFirst(FSignaturePolicy, []);
    var o11 := [FSignaturePolicy] + [];
    InOrderFirst(FVersion, o11);
    var o10 := [FVersion] + o11;
    InOrderFirst(FCapabilities, o10);
    var o9 := [FCapabilities] + o10;
    InOrderFirst(FEnvironment, o9);
    var o8 := [FEnvironment] + o9;
    InOrderFirst(FUpdatedAt, o8);
    var o7 := [FUpdatedAt] + o8;
    InOrderFirst(FExpiresAt, o7);
    var o6 := [FExpiresAt] + o7;
    InOrderFirst(FKeyEpoch, o6);
    var o5 := [FKeyEpoch] + o6;
    InOrderFirst(FArtifacts, o5);
    var o4 := [FArtifacts] + o5;
    InOrderFirst(FOperator, o4);
    var o3 := [FOperator] + o4;
    InOrderFirst(FIdentity, o3);
    var o2 := [FIdentity] + o3;
    InOrderFirst(FSubject, o2);
    var o1 := [FSubject] + o2;
    InOrderFirst(FKeys, o1);
    assert ROOT_ORDER == [FKeys] + o1;
  }

  const KEY_ORDER: seq<Field> := [FUsage, FKeyId, FStatus, FAlgorithm, FPublicKeyUri, FPublicKeySha256]

  lemma KeyInOrder()
    ensures InOrder(KEY_ORDER)
  {
    hide InOrder;
    NothingInOrder();
    InOrderFirst(FPublicKeySha256, []);
    var o5 := [FPublicKeySha256] + [];
    InOrderFirst(FPublicKeyUri, o5);
    var o4 := [FPublicKeyUri] + o5;
    InOrderFirst(FAlgorithm, o4);
    var o3 := [FAlgorithm] + o4;
    InOrderFirst(FStatus, o3);
    var o2 := [FStatus] + o3;
    InOrderFirst(FKeyId, o2);
    var o1 := [FKeyId] + o2;
    InOrderFirst(FUsage, o1);
    assert KEY_ORDER == [FUsage] + o1;
  }

  lemma PairInOrder(f: Field, g: Field)
    requires CodeOf(f) < CodeOf(g)
    ensures InOrder([f, g])
  {
    hide InOrder, CodeOf;
    NothingInOrder();
    InOrderFirst(g, []);
    assert [g] + [] == [g] && [f, g] == [f] + [g];
    InOrderFirst(f, [g]);
  }

  // ---------------------------------------------------------------- the structs

  lemma PartsFirst(fields: map<Field, Value>, f: Field, order: seq<Field>)
    ensures Parts(fields, [f] + order) == Part(fields, f) + Parts(fields, order)
    ensures Count(fields, [f] + order) == One(fields, f) + Count(fields, order)
  {
    hide Part;
    assert ([f] + order)[0] == f && ([f] + order)[1..] == order;
  }

  lemma NoParts(fields: map<Field, Value>)
    ensures Parts(fields, []) == [] && Count(fields, []) == 0
  {
  }

  lemma PartHere(fields: map<Field, Value>, f: Field)
    requires f in fields
    ensures Part(fields, f) == Entry(Spelling(f), Enc(fields[f])) && One(fields, f) == 1
  {
    hide Enc;
  }

  function One(fields: map<Field, Value>, f: Field): nat {
    if f in fields then 1 else 0
  }

  lemma PartsPair(fields: map<Field, Value>, f: Field, g: Field)
    ensures Parts(fields, [f, g]) == Part(fields, f) + Part(fields, g)
    ensures Count(fields, [f, g]) == One(fields, f) + One(fields, g)
  {
    hide Part, Parts, Count;
    assert [f, g] == [f] + [g] && [g] == [g] + [];
    PartsFirst(fields, f, [g]);
    PartsFirst(fields, g, []);
    NoParts(fields);
  }

  lemma PairIs(f: Field, v: Value, g: Field, w: Value)
    requires CodeOf(f) < CodeOf(g)
    ensures Enc(Object(Named(map[f := v, g := w]))) ==
            [0xA2] + (Entry(Spelling(f), Enc(v)) + Entry(Spelling(g), Enc(w)))
  {
    hide *;
    var fields := map[f := v, g := w];
    PairInOrder(f, g);
    StructIs(fields, [f, g]);
    PartsPair(fields, f, g);
    PartHere(fields, f);
    PartHere(fields, g);
    ShortHead(5, 2);
  }

  /** A signature policy. */
  lemma PolicyBytes(p: SignaturePolicy)
    ensures Enc(PolicyValue(p)) ==
            [0xA2] + (Entry("policy_id", EncodeText(p.policyId))
                      + Entry("required_algorithms", Enc(Strings(p.requiredAlgorithms))))
  {
    hide Enc, Entry, EncodeText, Strings, Named, ValidUtf8;
    PairIs(FPolicyId, String(p.policyId), FRequiredAlgorithms, Strings(p.requiredAlgorithms));
    TextIs(p.policyId);
  }

  /** Capabilities. */
  lemma CapabilitiesBytes(c: Capabilities)
    ensures Enc(CapabilitiesValue(c)) ==
            [0xA2] + (Entry("optional", Enc(Strings(c.optional))) + Entry("required", Enc(Strings(c.required))))
  {
    hide Enc, Entry, Strings, Named, ValidUtf8;
    PairIs(FOptional, Strings(c.optional), FRequired, Strings(c.required));
    assert map[FRequired := Strings(c.required), FOptional := Strings(c.optional)]
        == map[FOptional := Strings(c.optional), FRequired := Strings(c.required)];
  }

  /** An operator, without a jurisdiction and with one. */
  lemma OperatorBytes(o: Operator)
    ensures o.jurisdiction.None? ==>
              Enc(OperatorValue(o)) == [0xA1] + Entry("name", EncodeText(o.name))
    ensures o.jurisdiction.Some? ==>
              Enc(OperatorValue(o)) ==
              [0xA2] + (Entry("name", EncodeText(o.name)) + Entry("jurisdiction", EncodeText(o.jurisdiction.value)))
  {
    hide Enc, Entry, EncodeText, Named, Part, Parts, InOrder, ValidUtf8;
    var fields := map[FName := String(o.name)] + Optional(FJurisdiction, OptionalString(o.jurisdiction));
    TextIs(o.name);
    if o.jurisdiction.None? {
      assert fields == map[FName := String(o.name)];
      OneIs(FName, String(o.name));
    } else {
      TextIs(o.jurisdiction.value);
      assert fields == map[FName := String(o.name), FJurisdiction := String(o.jurisdiction.value)];
      PairIs(FName, String(o.name), FJurisdiction, String(o.jurisdiction.value));
    }
  }

  lemma OneIs(f: Field, v: Value)
    ensures Enc(Object(Named(map[f := v]))) == [0xA1] + Entry(Spelling(f), Enc(v))
  {
    hide *;
    var fields := map[f := v];
    NothingInOrder();
    InOrderFirst(f, []);
    assert [f] == [f] + [];
    StructIs(fields, [f]);
    PartsFirst(fields, f, []);
    NoParts(fields);
    PartHere(fields, f);
    ShortHead(5, 1);
  }

  lemma ThreeIs(fields: map<Field, Value>, f: Field, g: Field, i: Field)
    requires CodeOf(f) < CodeOf(g) < CodeOf(i) && fields.Keys == {f, g, i}
    ensures Enc(Object(Named(fields))) ==
            [0xA3] + (Entry(Spelling(f), Enc(fields[f]))
                      + (Entry(Spelling(g), Enc(fields[g])) + Entry(Spelling(i), Enc(fields[i]))))
  {
    hide *;
    PairInOrder(g, i);
    InOrderFirst(f, [g, i]);
    assert [f, g, i] == [f] + [g, i];
    StructIs(fields, [f, g, i]);
    PartsFirst(fields, f, [g, i]);
    PartsPair(fields, g, i);
    PartHere(fields, f);
    PartHere(fields, g);
    PartHere(fields, i);
    ShortHead(5, 3);
  }

  lemma ThreeEntries<K, V>(f: K, u: V, g: K, v: V, i: K, w: V)
    requires f != g && f != i && g != i
    ensures var m := map[f := u, g := v, i := w]; m.Keys == {f, g, i} && m[f] == u && m[g] == v && m[i] == w
  {
  }

  lemma ThreeOf(f: Field, u: Value, g: Field, v: Value, i: Field, w: Value)
    requires CodeOf(f) < CodeOf(g) < CodeOf(i)
    ensures Enc(Object(Named(map[f := u, i := w, g := v])))
         == [0xA3] + (Entry(Spelling(f), Enc(u)) + (Entry(Spelling(g), Enc(v)) + Entry(Spelling(i), Enc(w))))
  {
    hide *;
    ThreeEntries(f, u, i, w, g, v);
    ThreeIs(map[f := u, i := w, g := v], f, g, i);
  }

  /** An artifact. */
  lemma ArtifactBytes(a: Artifact)
    ensures Enc(ArtifactValue(a)) ==
            [0xA3] + (Entry("uri", EncodeText(a.uri))
                      + (Entry("sha512", EncodeText(a.sha512)) + Entry("media_type", EncodeText(a.mediaType))))
  {
    hide Enc, Entry, EncodeText, Named, ValidUtf8;
    ThreeOf(FUri, String(a.uri), FSha512, String(a.sha512), FMediaType, String(a.mediaType));
    TextIs(a.uri);
    TextIs(a.sha512);
    TextIs(a.mediaType);
  }

  /** Six fields in order. */
  lemma SixParts(fields: map<Field, Value>, f: Field, g: Field, i: Field, j: Field, k: Field, l: Field)
    ensures Parts(fields, [f, g, i, j, k, l]) ==
            Part(fields, f) + (Part(fields, g) + (Part(fields, i) + (Part(fields, j)
            + (Part(fields, k) + Part(fields, l)))))
    ensures Count(fields, [f, g, i, j, k, l]) ==
            One(fields, f) + One(fields, g) + One(fields, i) + One(fields, j) + One(fields, k) + One(fields, l)
  {
    hide *;
    assert [f, g, i, j, k, l] == [f] + [g, i, j, k, l] && [g, i, j, k, l] == [g] + [i, j, k, l];
    assert [i, j, k, l] == [i] + [j, k, l] && [j, k, l] == [j] + [k, l];
    PartsFirst(fields, f, [g, i, j, k, l]);
    PartsFirst(fields, g, [i, j, k, l]);
    PartsFirst(fields, i, [j, k, l]);
    PartsFirst(fields, j, [k, l]);
    PartsPair(fields, k, l);
  }

  lemma SixEntries<K, V>(f: K, u: V, g: K, v: V, i: K, w: V, j: K, x: V, k: K, y: V, l: K, z: V)
    requires f != g && f != i && f != j && f != k && f != l && g != i && g != j && g != k && g != l
    requires i != j && i != k && i != l && j != k && j != l && k != l
    ensures var m := map[f := u, g := v, i := w, j := x, k := y, l := z];
            && m.Keys == {f, g, i, j, k, l}
            && m[f] == u && m[g] == v && m[i] == w && m[j] == x && m[k] == y && m[l] == z
  {
  }

  lemma KeyFields(k: KeyDescriptor)
    ensures var fields := map[
              FAlgorithm := String(k.algorithm), FKeyId := String(k.keyId), FPublicKeyUri := String(k.publicKeyUri),
              FPublicKeySha256 := String(k.publicKeySha256), FStatus := String(k.status), FUsage := Strings(k.usage)];
            && fields.Keys == {FAlgorithm, FKeyId, FPublicKeyUri, FPublicKeySha256, FStatus, FUsage}
            && fields[FUsage] == Strings(k.usage) && fields[FKeyId] == String(k.keyId)
            && fields[FStatus] == String(k.status) && fields[FAlgorithm] == String(k.algorithm)
            && fields[FPublicKeyUri] == String(k.publicKeyUri)
            && fields[FPublicKeySha256] == String(k.publicKeySha256)
  {
    hide Strings, ValidUtf8;
    SixEntries(FAlgorithm, String(k.algorithm), FKeyId, String(k.keyId), FPublicKeyUri, String(k.publicKeyUri),
               FPublicKeySha256, String(k.publicKeySha256), FStatus, String(k.status), FUsage, Strings(k.usage));
  }

  lemma SixAreKeys(fields: map<Field, Value>)
    requires fields.Keys == {FAlgorithm, FKeyId, FPublicKeyUri, FPublicKeySha256, FStatus, FUsage}
    ensures forall f :: f in fields ==> f in KEY_ORDER
  {
  }

  lemma KeyNames()
    ensures KEY_ORDER == [FUsage, FKeyId, FStatus, FAlgorithm, FPublicKeyUri, FPublicKeySha256]
    ensures Spelling(FUsage) == "usage" && Spelling(FKeyId) == "key_id" && Spelling(FStatus) == "status"
    ensures Spelling(FAlgorithm) == "algorithm" && Spelling(FPublicKeyUri) == "public_key_uri"
    ensures Spelling(FPublicKeySha256) == "public_key_sha256"
  {
  }

  lemma KeyParts(fields: map<Field, Value>)
    requires fields.Keys == {FAlgorithm, FKeyId, FPublicKeyUri, FPublicKeySha256, FStatus, FUsage}
    ensures Enc(Object(Named(fields))) ==
            [0xA6] + (Entry("usage", Enc(fields[FUsage]))
                      + (Entry("key_id", Enc(fields[FKeyId]))
                         + (Entry("status", Enc(fields[FStatus]))
                            + (Entry("algorithm", Enc(fields[FAlgorithm]))
                               + (Entry("public_key_uri", Enc(fields[FPublicKeyUri]))
                                  + Entry("public_key_sha256", Enc(fields[FPublicKeySha256])))))))
  {
    hide *;
    KeyNames();
    SixAreKeys(fields);
    KeyInOrder();
    StructIs(fields, KEY_ORDER);
    SixParts(fields, FUsage, FKeyId, FStatus, FAlgorithm, FPublicKeyUri, FPublicKeySha256);
    ShortHead(5, 6);
    PartHere(fields, FUsage);
    PartHere(fields, FKeyId);
    PartHere(fields, FStatus);
    PartHere(fields, FAlgorithm);
    PartHere(fields, FPublicKeyUri);
    PartHere(fields, FPublicKeySha256);
  }

  /** A key descriptor. */
  lemma KeyBytes(k: KeyDescriptor)
    ensures Enc(KeyValue(k)) ==
            [0xA6] + (Entry("usage", Enc(Strings(k.usage)))
                      + (Entry("key_id", EncodeText(k.keyId))
                         + (Entry("status", EncodeText(k.status))
                            + (Entry("algorithm", EncodeText(k.algorithm))
                               + (Entry("public_key_uri", EncodeText(k.publicKeyUri))
                                  + Entry("public_key_sha256", EncodeText(k.publicKeySha256)))))))
  {
    hide Enc, Entry, EncodeText, Named, Strings, ValidUtf8;
    KeyFields(k);
    KeyParts(map[
      FAlgorithm := String(k.algorithm), FKeyId := String(k.keyId), FPublicKeyUri := String(k.publicKeyUri),
      FPublicKeySha256 := String(k.publicKeySha256), FStatus := String(k.status), FUsage := Strings(k.usage)]);
    TextIs(k.keyId);
    TextIs(k.status);
    TextIs(k.algorithm);
    TextIs(k.publicKeyUri);
    TextIs(k.publicKeySha256);
  }

  // ---------------------------------------------------------------- the manifest

  /** The number of fields of a manifest. */
  function FieldCount(m: Manifest): nat {
    10 + (if m.identity.Some? then 1 else 0) + (if m.expiresAt.Some? then 1 else 0)
  }

  ghost function IdentityPart(o: Option<Value>): bytes {
    if o.Some? then Entry("identity", Enc(o.value)) else []
  }

  function ExpiryPart(o: Option<Text>): bytes {
    if o.Some? then Entry("expires_at", EncodeText(o.value)) else []
  }

  lemma RootMandatory(m: Manifest)
    ensures var fields := Fields(m);
            && Part(fields, FKeys) == Entry("keys", Enc(KeysValue(m.keys))) && One(fields, FKeys) == 1
            && Part(fields, FSubject) == Entry("subject", EncodeText(m.subject)) && One(fields, FSubject) == 1
            && Part(fields, FOperator) == Entry("operator", Enc(OperatorValue(m.operator)))
            && One(fields, FOperator) == 1
            && Part(fields, FArtifacts) == Entry("artifacts", Enc(ArtifactsValue(m.artifacts)))
            && One(fields, FArtifacts) == 1
            && Part(fields, FKeyEpoch) == Entry("key_epoch", EncodeHead(0, m.keyEpoch)) && One(fields, FKeyEpoch) == 1
  {
    hide Enc, Entry, EncodeText, EncodeHead, Fields, OperatorValue, KeysValue, PolicyValue, CapabilitiesValue,
         ArtifactsValue, ValidUtf8;
    MandatoryFields(m);
    TextIs(m.subject);
    NumberIs(m.keyEpoch);
  }

  lemma RootMandatoryToo(m: Manifest)
    ensures var fields := Fields(m);
            && Part(fields, FUpdatedAt) == Entry("updated_at", EncodeText(m.updatedAt)) && One(fields, FUpdatedAt) == 1
            && Part(fields, FEnvironment) == Entry("environment", EncodeText(m.environment))
            && One(fields, FEnvironment) == 1
            && Part(fields, FCapabilities) == Entry("capabilities", Enc(CapabilitiesValue(m.capabilities)))
            && One(fields, FCapabilities) == 1
            && Part(fields, FVersion) == Entry("tfws_version", EncodeText(m.tfwsVersion)) && One(fields, FVersion) == 1
            && Part(fields, FSignaturePolicy) == Entry("signature_policy", Enc(PolicyValue(m.signaturePolicy)))
            && One(fields, FSignaturePolicy) == 1
  {
    hide Enc, Entry, EncodeText, EncodeHead, Fields, OperatorValue, KeysValue, PolicyValue, CapabilitiesValue,
         ArtifactsValue, ValidUtf8;
    MandatoryFields(m);
    TextIs(m.updatedAt);
    TextIs(m.environment);
    TextIs(m.tfwsVersion);
  }

  lemma RootOptional(m: Manifest)
    ensures var fields := Fields(m);
            && Part(fields, FIdentity) == IdentityPart(m.identity)
            && Part(fields, FExpiresAt) == ExpiryPart(m.expiresAt)
            && FieldCount(m) == 10 + One(fields, FIdentity) + One(fields, FExpiresAt)
            && forall f :: f in fields ==> f in ROOT_ORDER
  {
    hide Enc, Entry, EncodeText, Fields, ValidUtf8;
    OptionalFields(m);
    if m.expiresAt.Some? {
      TextIs(m.expiresAt.value);
    }
  }

  lemma NumberIs(n: nat)
    ensures Enc(Int(n)) == EncodeHead(0, n)
  {
    hide EncodeHead;
  }

  /** The whole manifest: the number of its fields, then its fields, each under its published name. */
  lemma ManifestBytes(m: Manifest)
    ensures Enc(ToValue(m)) ==
            [0xA0 + FieldCount(m)]
            + (Entry("keys", Enc(KeysValue(m.keys)))
               + (Entry("subject", EncodeText(m.subject))
                  + (IdentityPart(m.identity)
                     + (Entry("operator", Enc(OperatorValue(m.operator)))
                        + (Entry("artifacts", Enc(ArtifactsValue(m.artifacts)))
                           + (Entry("key_epoch", EncodeHead(0, m.keyEpoch))
                              + (ExpiryPart(m.expiresAt)
                                 + (Entry("updated_at", EncodeText(m.updatedAt))
                                    + (Entry("environment", EncodeText(m.environment))
                                       + (Entry("capabilities", Enc(CapabilitiesValue(m.capabilities)))
                                          + (Entry("tfws_version", EncodeText(m.tfwsVersion))
                                             + Entry("signature_policy", Enc(PolicyValue(m.signaturePolicy))))))))))))))
  {
    hide *;
    var fields := Fields(m);
    RootInOrder();
    RootMandatory(m);
    RootMandatoryToo(m);
    RootOptional(m);
    ManifestObject(m);
    StructIs(fields, ROOT_ORDER);
    RootParts(fields);
    ShortHead(5, Count(fields, ROOT_ORDER));
  }

  lemma ManifestObject(m: Manifest)
    ensures ToValue(m) == Object(Named(Fields(m))) && 10 <= FieldCount(m) <= 12
  {
    hide Named, Fields;
  }

  lemma RootParts(fields: map<Field, Value>)
    ensures Parts(fields, ROOT_ORDER) ==
            Part(fields, FKeys) + (Part(fields, FSubject) + (Part(fields, FIdentity) + (Part(fields, FOperator)
            + (Part(fields, FArtifacts) + (Part(fields, FKeyEpoch) + (Part(fields, FExpiresAt)
            + (Part(fields, FUpdatedAt) + (Part(fields, FEnvironment) + (Part(fields, FCapabilities)
            + (Part(fields, FVersion) + Part(fields, FSignaturePolicy)))))))))))
    ensures Count(fields, ROOT_ORDER) ==
            One(fields, FKeys) + One(fields, FSubject) + One(fields, FIdentity) + One(fields, FOperator)
            + One(fields, FArtifacts) + One(fields, FKeyEpoch) + One(fields, FExpiresAt) + One(fields, FUpdatedAt)
            + One(fields, FEnvironment) + One(fields, FCapabilities) + One(fields, FVersion)
            + One(fields, FSignaturePolicy)
  {
    hide Part, Parts, Count, One;
    var last := [FExpiresAt, FUpdatedAt, FEnvironment, FCapabilities, FVersion, FSignaturePolicy];
    SixParts(fields, FExpiresAt, FUpdatedAt, FEnvironment, FCapabilities, FVersion, FSignaturePolicy);
    var o5 := [FKeyEpoch] + last;
    PartsFirst(fields, FKeyEpoch, last);
    var o4 := [FArtifacts] + o5;
    PartsFirst(fields, FArtifacts, o5);
    var o3 := [FOperator] + o4;
    PartsFirst(fields, FOperator, o4);
    var o2 := [FIdentity] + o3;
    PartsFirst(fields, FIdentity, o3);
    var o1 := [FSubject] + o2;
    PartsFirst(fields, FSubject, o2);
    PartsFirst(fields, FKeys, o1);
    assert ROOT_ORDER == [FKeys] + o1;
  }
}
