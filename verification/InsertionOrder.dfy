/** Python dictionaries in whatever order they were filled: the encoder sorts them, so every encodable value
    is decoded from its encoding, up to the order of its dictionaries. */
module InsertionOrder {
  import opened Bytes
  import opened CborHeads
  import opened Results
  import opened StrictDecoder
  import opened StrictCorrectness
  import opened StrictDocument

  // ---------------------------------------------------------------- sorting

  predicate InOrder(ps: seq<EncodedPair>) {
    forall i :: 0 < i < |ps| ==> CompareEncodedKeys(ps[i - 1].key, ps[i].key) != Greater
  }

  lemma CompareFlips(a: bytes, b: bytes)
    ensures CompareEncodedKeys(a, b) == Greater ==> CompareEncodedKeys(b, a) == Less
    ensures CompareEncodedKeys(a, b) == Equal ==> a == b
  {
    LexTotal(a, b);
  }

  lemma {:induction false} InsertKeepsOrder(p: EncodedPair, ps: seq<EncodedPair>)
    requires InOrder(ps)
    ensures InOrder(InsertPair(p, ps))
  {
    hide CompareEncodedKeys;
    if ps != [] && CompareEncodedKeys(p.key, ps[0].key) == Greater {
      var rest := InsertPair(p, ps[1..]);
      assert forall i :: 0 < i < |ps[1..]| ==> ps[1..][i] == ps[i + 1];
      InsertKeepsOrder(p, ps[1..]);
      CompareFlips(p.key, ps[0].key);
      assert rest[0] == p || rest[0] == ps[1];
    }
  }

  lemma {:induction false} SortOrders(ps: seq<EncodedPair>)
    ensures InOrder(SortPairs(ps))
  {
    hide CompareEncodedKeys;
    if ps != [] {
      SortOrders(ps[1..]);
      InsertKeepsOrder(ps[0], SortPairs(ps[1..]));
    }
  }

  /** Sorting what is in order changes nothing; sorting twice is sorting once. */
  lemma {:induction false} SortIsIdle(ps: seq<EncodedPair>)
    requires InOrder(ps)
    ensures SortPairs(ps) == ps
  {
    hide CompareEncodedKeys;
    if ps != [] {
      assert forall i :: 0 < i < |ps[1..]| ==> ps[1..][i] == ps[i + 1];
      SortIsIdle(ps[1..]);
      assert ps == [ps[0]] + ps[1..];
    }
  }

  /** The same insertion on the pairs themselves. */
  function InsertItem(p: Pair, ps: seq<Pair>): (r: seq<Pair>)
    ensures |r| == |ps| + 1 && forall q :: q in r <==> q == p || q in ps
  {
    if ps == [] || CompareEncodedKeys(EncItem(p.key), EncItem(ps[0].key)) != Greater then [p] + ps
    else
      assert ps == [ps[0]] + ps[1..];
      [ps[0]] + InsertItem(p, ps[1..])
  }

  function SortItems(ps: seq<Pair>): (r: seq<Pair>)
    ensures |r| == |ps| && forall q :: q in r <==> q in ps
  {
    if ps == [] then []
    else
      assert ps == [ps[0]] + ps[1..];
      InsertItem(ps[0], SortItems(ps[1..]))
  }

  function EncPair(p: Pair): EncodedPair {
    EncodedPair(EncItem(p.key), EncItem(p.val))
  }

  lemma EncPairsStep(ps: seq<Pair>)
    ensures EncPairs(ps) == if ps == [] then [] else [EncPair(ps[0])] + EncPairs(ps[1..])
  {
  }

  lemma {:induction false} EncPairAt(ps: seq<Pair>, i: nat)
    requires i < |ps|
    ensures EncPairs(ps)[i] == EncPair(ps[i])
  {
    hide EncPair;
    EncPairsStep(ps);
    if i > 0 {
      EncPairAt(ps[1..], i - 1);
    }
  }

  lemma {:induction false} InsertCommutes(p: Pair, ps: seq<Pair>)
    ensures EncPairs(InsertItem(p, ps)) == InsertPair(EncPair(p), EncPairs(ps))
  {
    hide EncPairs, EncItem, CompareEncodedKeys;
    EncPairsStep(ps);
    EncPairsStep(InsertItem(p, ps));
    if ps == [] || CompareEncodedKeys(EncItem(p.key), EncItem(ps[0].key)) != Greater {
      assert ([p] + ps)[1..] == ps;
    } else {
      InsertCommutes(p, ps[1..]);
      assert ([ps[0]] + InsertItem(p, ps[1..]))[1..] == InsertItem(p, ps[1..]);
      assert EncPairs(ps)[1..] == EncPairs(ps[1..]);
    }
  }

  /** Sorting and encoding can be done in either order. */
  lemma {:induction false} SortCommutes(ps: seq<Pair>)
    ensures EncPairs(SortItems(ps)) == SortPairs(EncPairs(ps))
  {
    hide EncPairs, EncPair, InsertItem, InsertPair;
    EncPairsStep(ps);
    if ps == [] {
      EncPairsStep([]);
    } else {
      SortCommutes(ps[1..]);
      InsertCommutes(ps[0], SortItems(ps[1..]));
      assert EncPairs(ps)[1..] == EncPairs(ps[1..]);
    }
  }

  // ---------------------------------------------------------------- the value that is read back

  /** `v` with every dictionary filled in deterministic order. */
  function Normal(v: Item): Item
    decreases v
  {
    match v
    case ListValue(items) => ListValue(seq(|items|, i requires 0 <= i < |items| => Normal(items[i])))
    case DictValue(pairs) => DictValue(SortItems(NormalPairs(pairs)))
    case TagValue(tag, inner) => TagValue(tag, Normal(inner))
    case _ => v
  }

  function NormalPair(p: Pair): Pair
    decreases p
  {
    Pair(p.key, Normal(p.val))
  }

  function NormalPairs(pairs: seq<Pair>): (r: seq<Pair>)
    ensures |r| == |pairs| && forall i :: 0 <= i < |pairs| ==> r[i] == NormalPair(pairs[i])
    decreases pairs
  {
    seq(|pairs|, i requires 0 <= i < |pairs| => NormalPair(pairs[i]))
  }

  /** Python `==`: dictionaries are equal when they have the same keys with equal values. */
  ghost predicate PySame(v: Item, w: Item)
    decreases v
  {
    match (v, w)
    case (ListValue(a), ListValue(b)) => |a| == |b| && forall i :: 0 <= i < |a| ==> PySame(a[i], b[i])
    case (TagValue(t, x), TagValue(u, y)) => t == u && PySame(x, y)
    case (DictValue(p), DictValue(q)) =>
      && |p| == |q|
      && forall i :: 0 <= i < |p| ==>
        exists j :: 0 <= j < |q| && PyEqual(p[i].key, q[j].key) && PySame(p[i].val, q[j].val)
    case _ => PyEqual(v, w)
  }

  lemma {:induction false} PyEqualReflexive(v: Item)
    ensures PyEqual(v, v)
  {
    if v.TagValue? {
      PyEqualReflexive(v.inner);
    }
  }

  lemma {:induction false} PyEqualSymmetric(v: Item, w: Item)
    requires PyEqual(v, w)
    ensures PyEqual(w, v)
  {
    if v.TagValue? && w.TagValue? {
      PyEqualSymmetric(v.inner, w.inner);
    }
  }

  lemma {:induction false} NormalIsSame(v: Item)
    ensures PySame(v, Normal(v))
    decreases v
  {
    match v
    case ListValue(items) =>
      forall i | 0 <= i < |items| ensures PySame(items[i], Normal(items[i])) {
        NormalIsSame(items[i]);
      }
    case TagValue(_, inner) => NormalIsSame(inner);
    case DictValue(pairs) =>
      var ps := NormalPairs(pairs);
      var q := SortItems(ps);
      forall i | 0 <= i < |pairs|
        ensures exists j :: 0 <= j < |q| && PyEqual(pairs[i].key, q[j].key) && PySame(pairs[i].val, q[j].val)
      {
        assert ps[i] in q;
        var j :| 0 <= j < |q| && q[j] == ps[i];
        PyEqualReflexive(pairs[i].key);
        assert pairs[i].val < pairs[i];
        NormalIsSame(pairs[i].val);
      }
    case _ => PyEqualReflexive(v);
  }

  lemma {:induction false} SameEncodings(ps: seq<Pair>, qs: seq<Pair>)
    requires |ps| == |qs| && forall i :: 0 <= i < |ps| ==> EncPair(ps[i]) == EncPair(qs[i])
    ensures EncPairs(ps) == EncPairs(qs)
  {
    hide EncPair;
    EncPairsStep(ps);
    EncPairsStep(qs);
    if ps != [] {
      SameEncodings(ps[1..], qs[1..]);
    }
  }

  lemma {:induction false} SameList(a: seq<Item>, b: seq<Item>)
    requires |a| == |b| && forall i :: 0 <= i < |a| ==> EncItem(a[i]) == EncItem(b[i])
    ensures EncList(a) == EncList(b)
  {
    hide EncItem;
    if a != [] {
      SameList(a[1..], b[1..]);
    }
  }

  lemma DictEncoding(pairs: seq<Pair>)
    ensures EncItem(DictValue(pairs)) == EncodeHead(5, |pairs|) + Join(SortPairs(EncPairs(pairs)))
  {
    hide SortPairs, Join, EncPairs, EncodeHead;
  }

  /** The order in which dictionaries were filled does not show in the encoding. */
  lemma {:induction false} NormalEncoding(v: Item)
    ensures EncItem(Normal(v)) == EncItem(v)
    decreases v
  {
    match v
    case ListValue(items) =>
      hide EncList, EncodeHead;
      forall i | 0 <= i < |items| ensures EncItem(Normal(items[i])) == EncItem(items[i]) {
        NormalEncoding(items[i]);
      }
      SameList(Normal(v).items, items);
    case TagValue(_, inner) => NormalEncoding(inner);
    case DictValue(pairs) =>
      hide EncPairs, SortPairs, Join, EncodeHead, SortItems;
      var ps := NormalPairs(pairs);
      forall i | 0 <= i < |pairs| ensures EncPair(ps[i]) == EncPair(pairs[i]) {
        assert pairs[i].val < pairs[i];
        NormalEncoding(pairs[i].val);
      }
      SameEncodings(ps, pairs);
      SortCommutes(ps);
      SortOrders(EncPairs(ps));
      SortIsIdle(SortPairs(EncPairs(ps)));
      DictEncoding(pairs);
      DictEncoding(SortItems(ps));
    case _ =>
  }

  // ---------------------------------------------------------------- what can be encoded and read back

  /** No two keys are equal in Python's sense, as in every dictionary. */
  ghost predicate Apart(pairs: seq<Pair>) {
    forall i, j :: 0 <= i < |pairs| && 0 <= j < |pairs| && i != j ==> !PyEqual(pairs[i].key, pairs[j].key)
  }

  /** The values a decoder with configuration `cfg` could return, whatever the order of their dictionaries. */
  ghost predicate Encodable(cfg: Config, v: Item, depth: nat)
    decreases v
  {
    && DepthOk(cfg, depth)
    && match v
       case ListValue(items) =>
         && ListOk(cfg, |items|) && |items| <= MAX_ARGUMENT
         && forall i :: 0 <= i < |items| ==> Encodable(cfg, items[i], depth + 1)
       case DictValue(pairs) =>
         && DictOk(cfg, |pairs|) && |pairs| <= MAX_ARGUMENT && Apart(pairs)
         && forall i :: 0 <= i < |pairs| ==> EncodablePair(cfg, pairs[i], depth + 1)
       case TagValue(tag, inner) => cfg.allowTags && tag <= MAX_ARGUMENT && Encodable(cfg, inner, depth + 1)
       case _ => Admissible(cfg, v, depth)
  }

  ghost predicate EncodablePair(cfg: Config, p: Pair, depth: nat)
    decreases p
  {
    KeyAllowed(cfg, p.key) && Encodable(cfg, p.key, depth) && Encodable(cfg, p.val, depth)
  }

  /** A key holds no dictionary, so nothing in it can be out of order. */
  lemma {:induction false} KeyAdmissible(cfg: Config, key: Item, depth: nat)
    requires Hashable(key) && Encodable(cfg, key, depth)
    ensures Admissible(cfg, key, depth)
  {
    if key.TagValue? {
      KeyAdmissible(cfg, key.inner, depth + 1);
    }
  }

  lemma AllowedIsHashable(cfg: Config, key: Item)
    requires KeyAllowed(cfg, key)
    ensures Hashable(key)
  {
  }

  /** Different keys have different encodings. */
  lemma SameKeys(cfg: Config, a: Item, b: Item, depth: nat)
    requires Admissible(cfg, a, depth) && Admissible(cfg, b, depth) && EncItem(a) == EncItem(b)
    ensures a == b
  {
    hide *;
    WholeAt(EncItem(a));
    ItemComplete(EncItem(a), 0, a, cfg, depth);
    ItemComplete(EncItem(a), 0, b, cfg, depth);
  }

  lemma WholeAt(s: bytes)
    ensures At(s, 0, s)
  {
    assert s[0..|s|] == s;
  }

  /** Pairs that are ready to be read back, but for their order. */
  ghost predicate Ready(cfg: Config, ps: seq<Pair>, depth: nat) {
    forall i :: 0 <= i < |ps| ==>
      KeyAllowed(cfg, ps[i].key) && Admissible(cfg, ps[i].key, depth) && Admissible(cfg, ps[i].val, depth)
  }

  lemma {:induction false} InsertKeepsApart(p: Pair, ps: seq<Pair>)
    requires Apart(ps) && forall q :: q in ps ==> !PyEqual(p.key, q.key) && !PyEqual(q.key, p.key)
    ensures Apart(InsertItem(p, ps))
  {
    hide PyEqual, EncItem, CompareEncodedKeys;
    if ps == [] || CompareEncodedKeys(EncItem(p.key), EncItem(ps[0].key)) != Greater {
      ApartPrepend(p, ps);
    } else {
      var rest := ps[1..];
      assert forall i :: 0 <= i < |rest| ==> rest[i] == ps[i + 1];
      InsertKeepsApart(p, rest);
      forall q | q in InsertItem(p, rest) ensures !PyEqual(ps[0].key, q.key) && !PyEqual(q.key, ps[0].key) {
        assert q == p || q in rest;
        assert ps[0] in ps;
      }
      ApartPrepend(ps[0], InsertItem(p, rest));
    }
  }

  lemma ApartPrepend(p: Pair, ps: seq<Pair>)
    requires Apart(ps) && forall q :: q in ps ==> !PyEqual(p.key, q.key) && !PyEqual(q.key, p.key)
    ensures Apart([p] + ps)
  {
    hide PyEqual;
    var all := [p] + ps;
    assert forall i :: 0 < i < |all| ==> all[i] == ps[i - 1];
  }

  lemma {:induction false} SortKeepsApart(ps: seq<Pair>)
    requires Apart(ps)
    ensures Apart(SortItems(ps))
  {
    hide PyEqual, InsertItem;
    if ps != [] {
      var rest := ps[1..];
      assert forall i :: 0 <= i < |rest| ==> rest[i] == ps[i + 1];
      SortKeepsApart(rest);
      forall q | q in SortItems(rest) ensures !PyEqual(ps[0].key, q.key) && !PyEqual(q.key, ps[0].key) {
        assert q in rest;
        var i :| 0 <= i < |rest| && rest[i] == q;
      }
      InsertKeepsApart(ps[0], SortItems(rest));
    }
  }

  lemma SortKeepsReady(cfg: Config, ps: seq<Pair>, depth: nat)
    requires Ready(cfg, ps, depth)
    ensures Ready(cfg, SortItems(ps), depth)
  {
    hide Admissible, KeyAllowed, SortItems;
    var qs := SortItems(ps);
    forall i | 0 <= i < |qs|
      ensures KeyAllowed(cfg, qs[i].key) && Admissible(cfg, qs[i].key, depth) && Admissible(cfg, qs[i].val, depth)
    {
      assert qs[i] in ps;
    }
  }

  /** Neighbours in sorted pairs are strictly ordered. */
  lemma {:induction false} StrictNeighbours(cfg: Config, ps: seq<Pair>, depth: nat, i: nat)
    requires Ready(cfg, ps, depth) && Apart(ps) && InOrder(EncPairs(ps)) && 0 < i < |ps|
    ensures CompareEncodedKeys(EncItem(ps[i - 1].key), EncItem(ps[i].key)) == Less
  {
    hide Admissible, KeyAllowed, PyEqual, EncItem, CompareEncodedKeys, EncPairs;
    EncPairAt(ps, i - 1);
    EncPairAt(ps, i);
    var a, b := ps[i - 1].key, ps[i].key;
    CompareFlips(EncItem(a), EncItem(b));
    if CompareEncodedKeys(EncItem(a), EncItem(b)) == Equal {
      SameKeys(cfg, a, b, depth);
      PyEqualReflexive(a);
    }
  }

  ghost predicate StrictOrder(ps: seq<Pair>) {
    forall i :: 0 < i < |ps| ==> CompareEncodedKeys(EncItem(ps[i - 1].key), EncItem(ps[i].key)) == Less
  }

  /** Strictly ordered pairs can be read after the pairs before them. */
  lemma {:induction false} ReadyIsAdmissible(cfg: Config, ps: seq<Pair>, n: nat, depth: nat)
    requires n <= |ps| && Ready(cfg, ps, depth) && Apart(ps) && StrictOrder(ps)
    ensures AdmissiblePairs(cfg, ps[..n], if n == 0 then None else Some(EncItem(ps[n - 1].key)), ps[n..], depth)
    decreases |ps| - n
  {
    hide *;
    var previous := if n == 0 then None else Some(EncItem(ps[n - 1].key));
    if n < |ps| {
      ReadyAt(cfg, ps, n, depth);
      assert ps[n..][1..] == ps[n + 1..] && ps[..n] + [ps[n]] == ps[..n + 1];
      ReadyIsAdmissible(cfg, ps, n + 1, depth);
      AdmissibleStep(cfg, ps[..n], previous, ps[n..], depth);
    } else {
      assert ps[n..] == [];
      NoPairs(cfg, ps[..n], previous, depth);
    }
  }

  lemma ReadyAt(cfg: Config, ps: seq<Pair>, n: nat, depth: nat)
    requires n < |ps| && Ready(cfg, ps, depth) && Apart(ps) && StrictOrder(ps)
    ensures Admissible(cfg, ps[n].key, depth) && Admissible(cfg, ps[n].val, depth)
    ensures CheckKey(cfg, ps[n].key, EncItem(ps[n].key), ps[..n],
                     if n == 0 then None else Some(EncItem(ps[n - 1].key))).Ok?
  {
    hide Admissible, KeyAllowed, PyEqual, EncItem, CompareEncodedKeys;
  }

  lemma AdmissibleStep(cfg: Config, acc: seq<Pair>, previous: Option<bytes>, pairs: seq<Pair>, depth: nat)
    requires pairs != [] && Admissible(cfg, pairs[0].key, depth) && Admissible(cfg, pairs[0].val, depth)
    requires CheckKey(cfg, pairs[0].key, EncItem(pairs[0].key), acc, previous).Ok?
    requires AdmissiblePairs(cfg, acc + [pairs[0]], Some(EncItem(pairs[0].key)), pairs[1..], depth)
    ensures AdmissiblePairs(cfg, acc, previous, pairs, depth)
  {
    hide Admissible, CheckKey, EncItem;
  }

  /** Sorting makes pairs readable. */
  lemma SortedPairsAdmissible(cfg: Config, ps: seq<Pair>, depth: nat)
    requires Ready(cfg, ps, depth) && Apart(ps)
    ensures AdmissiblePairs(cfg, [], None, SortItems(ps), depth)
  {
    hide *;
    var qs := SortItems(ps);
    SortKeepsReady(cfg, ps, depth);
    SortKeepsApart(ps);
    SortCommutes(ps);
    SortOrders(EncPairs(ps));
    SortedStrictly(cfg, qs, depth);
    ReadyIsAdmissible(cfg, qs, 0, depth);
    assert qs[..0] == [] && qs[0..] == qs;
  }

  lemma SortedStrictly(cfg: Config, ps: seq<Pair>, depth: nat)
    requires Ready(cfg, ps, depth) && Apart(ps) && InOrder(EncPairs(ps))
    ensures StrictOrder(ps)
  {
    hide Ready, Apart, InOrder, EncPairs, CompareEncodedKeys, EncItem;
    forall i | 0 < i < |ps| ensures CompareEncodedKeys(EncItem(ps[i - 1].key), EncItem(ps[i].key)) == Less {
      StrictNeighbours(cfg, ps, depth, i);
    }
  }

  lemma {:induction false} ListAdmissible(cfg: Config, items: seq<Item>, depth: nat)
    requires forall i :: 0 <= i < |items| ==> Admissible(cfg, items[i], depth)
    ensures AdmissibleList(cfg, items, depth)
  {
    hide Admissible;
    if items != [] {
      ListAdmissible(cfg, items[1..], depth);
    }
  }

  lemma NormalKeepsApart(pairs: seq<Pair>)
    requires Apart(pairs)
    ensures Apart(NormalPairs(pairs))
  {
    hide PyEqual, Normal;
  }

  /** The normal form of an encodable value is admissible. */
  lemma {:induction false} NormalAdmissible(cfg: Config, v: Item, depth: nat)
    requires Encodable(cfg, v, depth)
    ensures Admissible(cfg, Normal(v), depth)
    decreases v
  {
    match v
    case ListValue(items) =>
      hide AdmissibleList;
      forall i | 0 <= i < |items| ensures Admissible(cfg, Normal(items[i]), depth + 1) {
        NormalAdmissible(cfg, items[i], depth + 1);
      }
      ListAdmissible(cfg, Normal(v).items, depth + 1);
    case DictValue(pairs) =>
      hide AdmissiblePairs, SortItems, Apart, KeyAllowed;
      var ps := NormalPairs(pairs);
      forall i | 0 <= i < |pairs|
        ensures KeyAllowed(cfg, ps[i].key) && Admissible(cfg, ps[i].key, depth + 1)
            && Admissible(cfg, ps[i].val, depth + 1)
      {
        assert pairs[i].val < pairs[i];
        assert EncodablePair(cfg, pairs[i], depth + 1);
        AllowedIsHashable(cfg, pairs[i].key);
        KeyAdmissible(cfg, pairs[i].key, depth + 1);
        NormalAdmissible(cfg, pairs[i].val, depth + 1);
      }
      NormalKeepsApart(pairs);
      SortedPairsAdmissible(cfg, ps, depth + 1);
    case TagValue(_, inner) => NormalAdmissible(cfg, inner, depth + 1);
    case _ =>
  }

  // ---------------------------------------------------------------- round trips

  /** Every encodable value within the size limit is decoded from its encoding, as the value that Python
      takes to be equal, its dictionaries filled in deterministic order. */
  lemma EncodingDecodes(v: Item, cfg: Config)
    requires Encodable(cfg, v, 0) && (cfg.limits.Some? ==> |EncItem(v)| <= cfg.limits.value.maxManifestBytes)
    ensures DecodeExact(EncItem(v), cfg) == Ok(Normal(v)) && PySame(v, Normal(v))
  {
    hide *;
    NormalAdmissible(cfg, v, 0);
    NormalEncoding(v);
    NormalIsSame(v);
    AcceptsExactlyEncodings(EncItem(v), cfg, Normal(v));
  }

  /** The generator reads back whatever it can encode. */
  lemma GeneratorRoundTrip(v: Item)
    requires Encodable(GENERATOR, v, 0)
    ensures GeneratorDecode(EncItem(v)) == Ok(Normal(v)) && PySame(v, Normal(v))
  {
    hide DecodeExact, GeneratorDecode, Encodable, EncItem, Normal, PySame;
    EncodingDecodes(v, GENERATOR);
    GeneratorCheckNeverFires(EncItem(v));
  }

  /** Two values have one encoding exactly when they differ in the order of dictionaries only. */
  lemma EncodingForgetsOrderOnly(v: Item, w: Item)
    requires Encodable(GENERATOR, v, 0) && Encodable(GENERATOR, w, 0)
    ensures EncItem(v) == EncItem(w) <==> Normal(v) == Normal(w)
  {
    hide *;
    GeneratorRoundTrip(v);
    GeneratorRoundTrip(w);
    NormalEncoding(v);
    NormalEncoding(w);
  }
}
