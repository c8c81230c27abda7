/** Cutting the input of a strict decode that succeeded is always reported as malformed CBOR. */
module StrictTruncation {
  import opened Bytes
  import opened CborHeads
  import opened CborValues
  import opened Results
  import opened StrictDecoder

  /** The outcome on the first `k` bytes of an input that decoded to `r`. */
  function Cut<T>(r: Read<T>, k: nat): Result<Read<T>, Category> {
    if r.next <= k then Ok(r) else Err(CatMalformed)
  }

  lemma CutMeans<T>(r: Read<T>, k: nat)
    ensures Cut(r, k) == if r.next <= k then Ok(r) else Err(CatMalformed)
  {
  }

  lemma ArgumentCut(s: bytes, pos: nat, k: nat)
    requires pos < k <= |s| && Argument(s, pos).Ok?
    ensures Argument(s[..k], pos) == if Argument(s, pos).value.next <= k then Argument(s, pos) else Err(CatMalformed)
  {
    ReadHeadTruncated(s, pos, k);
    hide ReadHead;
  }

  lemma IntCut(s: bytes, pos: nat, k: nat, cfg: Config)
    requires pos < k <= |s| && DecodeInt(s, pos, cfg).Ok?
    ensures DecodeInt(s[..k], pos, cfg) == Cut(DecodeInt(s, pos, cfg).value, k)
  {
    ArgumentCut(s, pos, k);
    hide Argument;
  }

  lemma StringCut(s: bytes, pos: nat, k: nat, cfg: Config)
    requires pos < k <= |s| && DecodeString(s, pos, cfg).Ok?
    ensures DecodeString(s[..k], pos, cfg) == Cut(DecodeString(s, pos, cfg).value, k)
  {
    ArgumentCut(s, pos, k);
    hide Argument, ValidUtf8;
    var h := Argument(s, pos).value;
    if h.next + h.arg <= k {
      assert s[..k][h.next..h.next + h.arg] == s[h.next..h.next + h.arg];
    }
  }

  lemma SimpleCut(s: bytes, pos: nat, k: nat, cfg: Config)
    requires pos < k <= |s| && DecodeSimple(s, pos, cfg).Ok?
    ensures DecodeSimple(s[..k], pos, cfg) == Cut(DecodeSimple(s, pos, cfg).value, k)
  {
  }

  lemma NothingLeft(s: bytes, pos: nat, cfg: Config, depth: nat)
    requires pos == |s| && DepthOk(cfg, depth)
    ensures DecodeItem(s, pos, cfg, depth) == Err(CatMalformed)
  {
  }

  /** An input cut inside an accepted item is reported as malformed; cut later, the item is decoded
      as before. */
  lemma {:induction false} ItemCut(s: bytes, pos: nat, k: nat, cfg: Config, depth: nat)
    requires pos <= k <= |s| && DecodeItem(s, pos, cfg, depth).Ok?
    ensures DecodeItem(s[..k], pos, cfg, depth) == Cut(DecodeItem(s, pos, cfg, depth).value, k)
    decreases |s| - pos, 0, 0
  {
    hide *;
    AcceptedShallow(s, pos, cfg, depth);
    var r := DecodeItem(s, pos, cfg, depth).value;
    CutMeans(r, k);
    if k == pos {
      NothingLeft(s[..k], pos, cfg, depth);
    } else {
      ItemEquation(s, pos, cfg, depth);
      ItemEquation(s[..k], pos, cfg, depth);
      var major := s[pos] / 32;
      if major <= 1 {
        IntCut(s, pos, k, cfg);
      } else if major <= 3 {
        StringCut(s, pos, k, cfg);
      } else if major == 7 {
        SimpleCut(s, pos, k, cfg);
      } else {
        ArgumentCut(s, pos, k);
        var h := Argument(s, pos).value;
        ContainerEquation(s, h, cfg, depth);
        if h.next <= k {
          ContainerCut(s, h, k, cfg, depth);
        }
      }
    }
  }

  lemma {:induction false} ContainerCut(s: bytes, h: Head, k: nat, cfg: Config, depth: nat)
    requires h.next <= k <= |s| && 4 <= h.major <= 6 && Container(s, h, cfg, depth).Ok?
    ensures Container(s[..k], h, cfg, depth) == Cut(Container(s, h, cfg, depth).value, k)
    decreases |s| - h.next, 2, 0
  {
    hide DecodeItem, DecodeList, DecodeDict, ListOk, DictOk;
    if h.major == 4 {
      ListCut(s, h.next, h.arg, k, cfg, depth + 1, []);
    } else if h.major == 5 {
      DictCut(s, h.next, h.arg, k, cfg, depth + 1, [], None);
    } else {
      ItemCut(s, h.next, k, cfg, depth + 1);
    }
  }

  lemma {:induction false} ListCut(s: bytes, pos: nat, n: nat, k: nat, cfg: Config, depth: nat, acc: seq<Item>)
    requires pos <= k <= |s| && DecodeList(s, pos, n, cfg, depth, acc).Ok?
    ensures DecodeList(s[..k], pos, n, cfg, depth, acc) == Cut(DecodeList(s, pos, n, cfg, depth, acc).value, k)
    decreases |s| - pos, 1, n
  {
    hide DecodeItem;
    if n > 0 {
      var v := DecodeItem(s, pos, cfg, depth).value;
      ItemCut(s, pos, k, cfg, depth);
      if v.next <= k {
        ListCut(s, v.next, n - 1, k, cfg, depth, acc + [v.value]);
      }
    }
  }

  lemma {:induction false} DictCut(s: bytes, pos: nat, n: nat, k: nat, cfg: Config, depth: nat,
                                   acc: seq<Pair>, previous: Option<bytes>)
    requires pos <= k <= |s| && DecodeDict(s, pos, n, cfg, depth, acc, previous).Ok?
    ensures DecodeDict(s[..k], pos, n, cfg, depth, acc, previous)
         == Cut(DecodeDict(s, pos, n, cfg, depth, acc, previous).value, k)
    decreases |s| - pos, 1, n
  {
    hide DecodeItem, CheckKey;
    if n > 0 {
      var key := DecodeItem(s, pos, cfg, depth).value;
      ItemCut(s, pos, k, cfg, depth);
      if key.next <= k {
        assert s[..k][pos..key.next] == s[pos..key.next];
        var v := DecodeItem(s, key.next, cfg, depth).value;
        ItemCut(s, key.next, k, cfg, depth);
        if v.next <= k {
          DictCut(s, v.next, n - 1, k, cfg, depth, acc + [Pair(key.value, v.value)], Some(s[pos..key.next]));
        }
      }
    }
  }
}
