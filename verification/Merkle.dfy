/** The Merkle root of eventlog.py, whose odd layers repeat their last node. */
module Merkle {
  import opened Bytes
  import opened CborValues
  import opened Results
  import opened Json
  import opened JsonReader
  import opened EventLog

  // ---------------------------------------------------------------- the tree

  const NODE_PREFIX: bytes := Ascii("TFWS3-MERKLE-NODE") + [0]

  function NodeInput(left: Digest, right: Digest): bytes {
    NODE_PREFIX + (left + right)
  }

  function Pad(layer: seq<Digest>): (padded: seq<Digest>)
    ensures |padded| % 2 == 0 && layer <= padded && |padded| == 2 * ((|layer| + 1) / 2)
  {
    if |layer| % 2 == 1 then layer + [layer[|layer| - 1]] else layer
  }

  /** The text hashed for node `i` of the next layer. */
  function Input(layer: seq<Digest>, i: nat): bytes
    requires i < (|layer| + 1) / 2
  {
    NodeInput(Pad(layer)[2 * i], Pad(layer)[2 * i + 1])
  }

  function Up(h: Hash, layer: seq<Digest>): (up: seq<Digest>)
    ensures |up| == (|layer| + 1) / 2
    ensures forall i :: 0 <= i < |up| ==> up[i] == h(Input(layer, i))
  {
    seq<Digest>((|layer| + 1) / 2, i requires 0 <= i < (|layer| + 1) / 2 => h(Input(layer, i)))
  }

  function Top(h: Hash, layer: seq<Digest>): Digest
    requires layer != []
    decreases |layer|
  {
    if |layer| == 1 then layer[0] else Top(h, Up(h, layer))
  }

  function Leaves(h: Hash, events: seq<Event>): (r: Result<seq<Digest>, LogError>)
    ensures r.Ok? ==> |r.value| == |events|
  {
    if events == [] then Ok([])
    else
      var last := |events| - 1;
      var before :- Leaves(h, events[..last]);
      var digest :- HashEvent(h, events[last]);
      Ok(before + [digest])
  }

  /** `merkle_root` before it is written in hexadecimal. */
  function Root(h: Hash, events: seq<Event>): Result<Digest, LogError> {
    var leaves :- Leaves(h, events);
    Ok(if leaves == [] then h([]) else Top(h, leaves))
  }

  function RootText(h: Hash, events: seq<Event>): Result<Text, LogError> {
    var root :- Root(h, events);
    Ok(Hex(root))
  }

  /** The list `leaves` that `merkle_root` builds first. */
  method LeafLayer(h: Hash, events: seq<Event>) returns (r: Result<seq<Digest>, LogError>)
    ensures r == Leaves(h, events)
  {
    hide HashEvent;
    var leaves: seq<Digest> := [];
    for i := 0 to |events|
      invariant Leaves(h, events[..i]) == Ok(leaves)
    {
      assert events[..i + 1][..i] == events[..i];
      var digest := HashEvent(h, events[i]);
      if digest.Err? {
        LeavesFail(h, events, i + 1);
        return Err(digest.error);
      }
      leaves := leaves + [digest.value];
    }
    assert events[..|events|] == events;
    return Ok(leaves);
  }

  /** `merkle_root`. */
  method MerkleRoot(h: Hash, events: seq<Event>) returns (r: Result<Text, LogError>)
    ensures r == RootText(h, events)
  {
    hide HashEvent, Hex, Leaves, NodeInput;
    var leaves :- LeafLayer(h, events);
    if leaves == [] {
      return Ok(Hex(h([])));
    }
    var layer := leaves;
    while |layer| > 1
      invariant layer != [] && Top(h, layer) == Top(h, leaves)
      decreases |layer|
    {
      ghost var before := layer;
      if |layer| % 2 != 0 {
        layer := layer + [layer[|layer| - 1]];
      }
      var next: seq<Digest> := [];
      var i := 0;
      while i < |layer|
        invariant 0 <= i <= |layer| && i % 2 == 0 && |next| == i / 2
        invariant forall k :: 0 <= k < |next| ==> next[k] == Up(h, before)[k]
      {
        next := next + [h(NodeInput(layer[i], layer[i + 1]))];
        i := i + 2;
      }
      layer := next;
      assert layer == Up(h, before);
    }
    return Ok(Hex(layer[0]));
  }

  lemma {:induction false} LeavesFail(h: Hash, events: seq<Event>, n: nat)
    requires n <= |events| && Leaves(h, events[..n]).Err?
    ensures Leaves(h, events).Err? && Leaves(h, events).error == Leaves(h, events[..n]).error
    decreases |events|
  {
    hide HashEvent;
    if n == |events| {
      assert events[..n] == events;
    } else {
      var init := events[..|events| - 1];
      assert init[..n] == events[..n];
      LeavesFail(h, init, n);
    }
  }

  lemma {:induction false} LeavesAre(h: Hash, events: seq<Event>)
    ensures Leaves(h, events).Ok? <==> forall i :: 0 <= i < |events| ==> HashEvent(h, events[i]).Ok?
    ensures Leaves(h, events).Ok? ==> forall i :: 0 <= i < |events| ==>
        Ok(Leaves(h, events).value[i]) == HashEvent(h, events[i])
  {
    hide HashEvent;
    if events != [] {
      var init := events[..|events| - 1];
      LeavesAre(h, init);
      assert forall i :: 0 <= i < |init| ==> init[i] == events[i];
      assert forall i :: 0 <= i < |events| ==> events[i] == if i < |init| then init[i] else events[|init|];
    }
  }

  // ---------------------------------------------------------------- what a run hashes

  /** The texts hashed above a layer. */
  ghost predicate HashedAbove(h: Hash, layer: seq<Digest>, x: bytes)
    decreases |layer|
  {
    |layer| > 1 && ((exists i :: 0 <= i < |Up(h, layer)| && x == Input(layer, i)) || HashedAbove(h, Up(h, layer), x))
  }

  /** The texts hashed while computing the root of a list. */
  ghost predicate HashedForRoot(h: Hash, events: seq<Event>, x: bytes) {
    || HashedText(events, x)
    || (events == [] && x == [])
    || (Leaves(h, events).Ok? && HashedAbove(h, Leaves(h, events).value, x))
  }

  ghost predicate HashedForEither(h: Hash, a: seq<Event>, b: seq<Event>, x: bytes) {
    HashedForRoot(h, a, x) || HashedForRoot(h, b, x)
  }

  /** Two different texts, hashed while computing the two roots, have one hash. */
  ghost predicate RootCollision(h: Hash, a: seq<Event>, b: seq<Event>) {
    exists x, y :: HashedForEither(h, a, b, x) && HashedForEither(h, a, b, y) && x != y && h(x) == h(y)
  }

  // ---------------------------------------------------------------- one layer

  /** The hash does not collide on the given texts. */
  ghost predicate Separates(h: Hash, texts: iset<bytes>) {
    forall x, y :: x in texts && y in texts && h(x) == h(y) ==> x == y
  }

  ghost predicate Covers(h: Hash, layer: seq<Digest>, texts: iset<bytes>) {
    forall x :: HashedAbove(h, layer, x) ==> x in texts
  }

  lemma NodeInputParts(a: Digest, b: Digest, c: Digest, d: Digest)
    requires NodeInput(a, b) == NodeInput(c, d)
    ensures a == c && b == d
  {
    SameLength(NODE_PREFIX, NODE_PREFIX, a + b, c + d);
    SameLength(a, c, b, d);
  }

  lemma InputCovered(h: Hash, layer: seq<Digest>, texts: iset<bytes>, i: nat)
    requires |layer| > 1 && Covers(h, layer, texts) && i < |Up(h, layer)|
    ensures Input(layer, i) in texts && Up(h, layer)[i] == h(Input(layer, i))
  {
    hide Input;
    assert HashedAbove(h, layer, Input(layer, i));
  }

  lemma CoversUp(h: Hash, layer: seq<Digest>, texts: iset<bytes>)
    requires |layer| > 1 && Covers(h, layer, texts)
    ensures Covers(h, Up(h, layer), texts)
  {
    hide Input;
    forall x | HashedAbove(h, Up(h, layer), x) ensures x in texts {
      assert HashedAbove(h, layer, x);
    }
  }

  /** Position `k` of a padded layer of `n` nodes. */
  function Clamp(n: nat, k: nat): (i: nat)
    requires n > 0
    ensures i < n
  {
    if k < n then k else n - 1
  }

  lemma PaddedAt(layer: seq<Digest>, k: nat)
    requires k < |Pad(layer)|
    ensures layer != [] && Pad(layer)[k] == layer[Clamp(|layer|, k)]
  {
  }

  lemma InputAt(layer: seq<Digest>, i: nat)
    requires i < (|layer| + 1) / 2
    ensures layer != []
    ensures Input(layer, i) == NodeInput(layer[Clamp(|layer|, 2 * i)], layer[Clamp(|layer|, 2 * i + 1)])
  {
    hide NodeInput, Pad;
    PaddedAt(layer, 2 * i);
    PaddedAt(layer, 2 * i + 1);
  }

  /** Two nodes agree exactly when both of their children do, in `a` and in `b`. */
  lemma {:induction false} NodesAgree(h: Hash, a: seq<Digest>, b: seq<Digest>, i: nat, j: nat, texts: iset<bytes>)
    requires |a| > 1 && |b| > 1 && i < |Up(h, a)| && j < |Up(h, b)|
    requires Separates(h, texts) && Covers(h, a, texts) && Covers(h, b, texts)
    ensures Up(h, a)[i] == Up(h, b)[j] <==>
            && a[Clamp(|a|, 2 * i)] == b[Clamp(|b|, 2 * j)]
            && a[Clamp(|a|, 2 * i + 1)] == b[Clamp(|b|, 2 * j + 1)]
  {
    hide Input, Covers, NodeInput, Clamp;
    InputCovered(h, a, texts, i);
    InputCovered(h, b, texts, j);
    InputAt(a, i);
    InputAt(b, j);
    if Up(h, a)[i] == Up(h, b)[j] {
      NodeInputParts(a[Clamp(|a|, 2 * i)], a[Clamp(|a|, 2 * i + 1)], b[Clamp(|b|, 2 * j)], b[Clamp(|b|, 2 * j + 1)]);
    }
  }

  // ---------------------------------------------------------------- the perfect tree

  function Pow2(k: nat): (p: nat)
    ensures p > 0
  {
    if k == 0 then 1 else 2 * Pow2(k - 1)
  }

  /** The number of turns of the loop over `n` leaves. */
  function Height(n: nat): nat {
    if n <= 1 then 0 else 1 + Height((n + 1) / 2)
  }

  /** The leaf that stands at position `p` of the perfect tree once every odd layer has repeated its last
      node, and with it all the leaves below that node. */
  function LeafAt(n: nat, p: nat): (i: nat)
    requires n > 0
    ensures i < n
  {
    if n == 1 then 0 else Clamp(n, 2 * LeafAt((n + 1) / 2, p / 2) + p % 2)
  }

  /** Two lists that repetition expands to the same perfect tree. */
  ghost predicate SamePerfect<T(!new)>(a: seq<T>, b: seq<T>) {
    if a == [] || b == [] then a == b
    else
      && Height(|a|) == Height(|b|)
      && forall p :: 0 <= p < Pow2(Height(|a|)) ==> a[LeafAt(|a|, p)] == b[LeafAt(|b|, p)]
  }

  lemma {:induction false} FirstPositions(n: nat, p: nat)
    requires p < n
    ensures LeafAt(n, p) == p
  {
    if n > 1 {
      FirstPositions((n + 1) / 2, p / 2);
    }
  }

  lemma {:induction false} TreeSize(n: nat)
    ensures n <= Pow2(Height(n))
  {
    if n > 1 {
      TreeSize((n + 1) / 2);
    }
  }

  lemma {:induction false} FullHeight(k: nat)
    ensures Height(Pow2(k)) == k
  {
    if k > 0 {
      FullHeight(k - 1);
      assert (Pow2(k) + 1) / 2 == Pow2(k - 1);
    }
  }

  // ---------------------------------------------------------------- what a root fixes

  lemma {:induction false} LeafBelow(n: nat, q: nat)
    requires n > 1
    ensures LeafAt(n, 2 * q) == Clamp(n, 2 * LeafAt((n + 1) / 2, q))
    ensures LeafAt(n, 2 * q + 1) == Clamp(n, 2 * LeafAt((n + 1) / 2, q) + 1)
  {
    hide Clamp;
    assert 2 * q / 2 == q && 2 * q % 2 == 0;
    assert (2 * q + 1) / 2 == q && (2 * q + 1) % 2 == 1;
  }

  /** Two positions of the tree above agree exactly when the two positions below each of them do. */
  lemma {:induction false} PositionsBelow(h: Hash, a: seq<Digest>, b: seq<Digest>, texts: iset<bytes>, q: nat)
    requires |a| > 1 && |b| > 1 && Separates(h, texts) && Covers(h, a, texts) && Covers(h, b, texts)
    ensures Up(h, a)[LeafAt(|Up(h, a)|, q)] == Up(h, b)[LeafAt(|Up(h, b)|, q)] <==>
            && a[LeafAt(|a|, 2 * q)] == b[LeafAt(|b|, 2 * q)]
            && a[LeafAt(|a|, 2 * q + 1)] == b[LeafAt(|b|, 2 * q + 1)]
  {
    hide *;
    LeafBelow(|a|, q);
    LeafBelow(|b|, q);
    NodesAgree(h, a, b, LeafAt(|Up(h, a)|, q), LeafAt(|Up(h, b)|, q), texts);
  }

  /** Trees of one height have one root exactly when they expand to the same perfect tree. */
  lemma {:induction false} SameHeight(h: Hash, a: seq<Digest>, b: seq<Digest>, texts: iset<bytes>)
    requires Separates(h, texts) && Covers(h, a, texts) && Covers(h, b, texts)
    requires a != [] && b != [] && Height(|a|) == Height(|b|)
    ensures Top(h, a) == Top(h, b) <==> SamePerfect(a, b)
    decreases |a|
  {
    hide Covers, Separates, Up;
    if |a| == 1 {
      assert |b| == 1;
      assert Pow2(0) == 1 && LeafAt(1, 0) == 0;
    } else {
      assert |b| > 1;
      CoversUp(h, a, texts);
      CoversUp(h, b, texts);
      SameHeight(h, Up(h, a), Up(h, b), texts);
      SameAbove(h, a, b, texts);
    }
  }

  lemma DoubleSize(n: nat)
    requires n > 1
    ensures Height(n) == 1 + Height((n + 1) / 2) && Pow2(Height(n)) == 2 * Pow2(Height((n + 1) / 2))
  {
  }

  lemma {:induction false} SameAbove(h: Hash, a: seq<Digest>, b: seq<Digest>, texts: iset<bytes>)
    requires |a| > 1 && |b| > 1 && Separates(h, texts) && Covers(h, a, texts) && Covers(h, b, texts)
    requires Height(|a|) == Height(|b|)
    ensures SamePerfect(Up(h, a), Up(h, b)) <==> SamePerfect(a, b)
  {
    hide Covers, Separates, Up, LeafAt, Height, Pow2;
    var u, v := Up(h, a), Up(h, b);
    var size := Pow2(Height(|u|));
    DoubleSize(|a|);
    DoubleSize(|b|);
    if SamePerfect(u, v) {
      forall p | 0 <= p < 2 * size ensures a[LeafAt(|a|, p)] == b[LeafAt(|b|, p)] {
        var q := p / 2;
        PositionsBelow(h, a, b, texts, q);
        assert u[LeafAt(|u|, q)] == v[LeafAt(|v|, q)];
        assert p == 2 * q || p == 2 * q + 1;
      }
    }
    if SamePerfect(a, b) {
      forall q | 0 <= q < size ensures u[LeafAt(|u|, q)] == v[LeafAt(|v|, q)] {
        PositionsBelow(h, a, b, texts, q);
        assert a[LeafAt(|a|, 2 * q)] == b[LeafAt(|b|, 2 * q)];
        assert a[LeafAt(|a|, 2 * q + 1)] == b[LeafAt(|b|, 2 * q + 1)];
      }
    }
  }

  /** The perfect tree fixes the root, whatever the hash function. */
  lemma {:induction false} PerfectFixesTop(h: Hash, a: seq<Digest>, b: seq<Digest>)
    requires a != [] && SamePerfect(a, b)
    ensures b != [] && Top(h, a) == Top(h, b)
    decreases |a|
  {
    hide Input, LeafAt;
    if |a| == 1 {
      assert |b| == 1;
      assert LeafAt(1, 0) == 0 && Pow2(0) == 1;
      FirstPositions(1, 0);
      assert a[LeafAt(1, 0)] == b[LeafAt(1, 0)];
    } else {
      assert |b| > 1;
      var u, v := Up(h, a), Up(h, b);
      forall q | 0 <= q < Pow2(Height(|u|)) ensures u[LeafAt(|u|, q)] == v[LeafAt(|v|, q)] {
        PerfectNode(h, a, b, q);
      }
      PerfectFixesTop(h, u, v);
    }
  }

  lemma {:induction false} PerfectNode(h: Hash, a: seq<Digest>, b: seq<Digest>, q: nat)
    requires |a| > 1 && |b| > 1 && SamePerfect(a, b) && q < Pow2(Height(|Up(h, a)|))
    ensures Up(h, a)[LeafAt(|Up(h, a)|, q)] == Up(h, b)[LeafAt(|Up(h, b)|, q)]
  {
    hide Input, NodeInput, LeafAt, Height, Pow2, Clamp;
    DoubleSize(|a|);
    LeafBelow(|a|, q);
    LeafBelow(|b|, q);
    assert a[LeafAt(|a|, 2 * q)] == b[LeafAt(|b|, 2 * q)];
    assert a[LeafAt(|a|, 2 * q + 1)] == b[LeafAt(|b|, 2 * q + 1)];
    InputAt(a, LeafAt(|Up(h, a)|, q));
    InputAt(b, LeafAt(|Up(h, b)|, q));
  }

  lemma InputStarts(layer: seq<Digest>, i: nat)
    requires i < (|layer| + 1) / 2
    ensures Input(layer, i) != [] && Input(layer, i)[0] == 0x54
  {
    hide Pad, ValidUtf8;
  }

  /** The layer of a taller tree at a lower height: its first node is the hash of a node text. */
  lemma {:induction false} Climb(h: Hash, layer: seq<Digest>, height: nat, texts: iset<bytes>)
    returns (upper: seq<Digest>, x: bytes)
    requires Covers(h, layer, texts) && layer != [] && height < Height(|layer|)
    ensures upper != [] && Height(|upper|) == height && Top(h, upper) == Top(h, layer) && Covers(h, upper, texts)
    ensures x in texts && x != [] && x[0] == 0x54 && upper[0] == h(x)
    decreases |layer|
  {
    hide Covers, Up, Input;
    upper := Up(h, layer);
    x := Input(layer, 0);
    CoversUp(h, layer, texts);
    InputCovered(h, layer, texts, 0);
    InputStarts(layer, 0);
    if Height(|upper|) != height {
      upper, x := Climb(h, upper, height, texts);
    }
  }

  // ---------------------------------------------------------------- lists of events

  /** The leaves of a list are the hashes of its canonical texts. */
  ghost predicate Grounded(h: Hash, events: seq<Event>, layer: seq<Digest>, texts: iset<bytes>) {
    && |layer| == |events| && Covers(h, layer, texts)
    && (forall i :: 0 <= i < |events| ==> Canonicalize(Object(events[i])).Some?)
    && (forall i :: 0 <= i < |events| ==>
         var x := Canonicalize(Object(events[i])).value;
         x in texts && x != [] && x[0] == 0x7B && layer[i] == h(x))
  }

  lemma TextStarts(e: Event)
    requires Canonicalize(Object(e)).Some?
    ensures Canonicalize(Object(e)).value != [] && Canonicalize(Object(e)).value[0] == 0x7B
  {
    hide Print, Printable;
    ObjectStarts(Object(e));
  }

  lemma HashMeans(h: Hash, e: Event)
    ensures HashEvent(h, e).Ok? <==> Canonicalize(Object(e)).Some?
    ensures HashEvent(h, e).Ok? ==> HashEvent(h, e).value == h(Canonicalize(Object(e)).value)
  {
    hide Canonicalize;
  }

  lemma LeafTexts(h: Hash, events: seq<Event>)
    requires Leaves(h, events).Ok?
    ensures forall i :: 0 <= i < |events| ==>
              && Canonicalize(Object(events[i])).Some?
              && var x := Canonicalize(Object(events[i])).value;
              && x != [] && x[0] == 0x7B && Leaves(h, events).value[i] == h(x)
  {
    hide *;
    LeavesAre(h, events);
    forall i: nat | i < |events|
      ensures Canonicalize(Object(events[i])).Some?
      ensures var x := Canonicalize(Object(events[i])).value;
              x != [] && x[0] == 0x7B && Leaves(h, events).value[i] == h(x)
    {
      HashMeans(h, events[i]);
      TextStarts(events[i]);
    }
  }

  lemma LeavesGround(h: Hash, events: seq<Event>, texts: iset<bytes>)
    requires Leaves(h, events).Ok? && forall x :: HashedForRoot(h, events, x) ==> x in texts
    ensures Grounded(h, events, Leaves(h, events).value, texts)
  {
    hide HashedAbove, Canonicalize, Leaves;
    LeafTexts(h, events);
    forall i | 0 <= i < |events| ensures Canonicalize(Object(events[i])).value in texts {
      assert HashedText(events, Canonicalize(Object(events[i])).value);
    }
    assert Covers(h, Leaves(h, events).value, texts);
  }

  lemma FirstLeaf<T(!new)>(a: seq<T>, b: seq<T>)
    requires SamePerfect(a, b) && a != []
    ensures b != [] && a[0] == b[0]
  {
    hide LeafAt, Height;
    FirstPositions(|a|, 0);
    FirstPositions(|b|, 0);
    assert a[LeafAt(|a|, 0)] == b[LeafAt(|b|, 0)];
  }

  /** Leaves are hashes of texts that start with a brace, nodes are not: one root means one height. */
  lemma HeightsAgree(h: Hash, a: seq<Event>, x: seq<Digest>, b: seq<Event>, y: seq<Digest>, texts: iset<bytes>)
    requires Separates(h, texts) && Grounded(h, a, x, texts) && Grounded(h, b, y, texts)
    requires a != [] && b != [] && Top(h, x) == Top(h, y)
    ensures Height(|x|) >= Height(|y|)
  {
    hide HashedAbove, Canonicalize, Height, Top, Covers, SamePerfect;
    var leaf := Canonicalize(Object(a[0])).value;
    if Height(|x|) < Height(|y|) {
      var upper, text := Climb(h, y, Height(|x|), texts);
      assert leaf != text;
      SameHeight(h, x, upper, texts);
      FirstLeaf(x, upper);
      assert false;
    }
  }

  /** Leaves agree exactly when their events do. */
  lemma LeavesAgree(h: Hash, a: seq<Event>, x: seq<Digest>, b: seq<Event>, y: seq<Digest>, texts: iset<bytes>, i: nat,
          j: nat)
    requires Separates(h, texts) && Grounded(h, a, x, texts) && Grounded(h, b, y, texts) && i < |a| && j < |b|
    ensures x[i] == y[j] <==> a[i] == b[j]
  {
    hide Covers, Canonicalize;
    if x[i] == y[j] {
      CanonicalInjective(Object(a[i]), Object(b[j]));
    }
  }

  lemma SameTrees(h: Hash, a: seq<Event>, x: seq<Digest>, b: seq<Event>, y: seq<Digest>, texts: iset<bytes>)
    requires Separates(h, texts) && Grounded(h, a, x, texts) && Grounded(h, b, y, texts) && SamePerfect(x, y)
    ensures SamePerfect(a, b)
  {
    hide Covers, Canonicalize, Separates, Height, LeafAt;
    if a != [] && b != [] {
      forall p | 0 <= p < Pow2(Height(|a|)) ensures a[LeafAt(|a|, p)] == b[LeafAt(|b|, p)] {
        assert x[LeafAt(|x|, p)] == y[LeafAt(|y|, p)];
        LeavesAgree(h, a, x, b, y, texts, LeafAt(|a|, p), LeafAt(|b|, p));
      }
    }
  }

  /** The root of a non-empty list is the hash of a non-empty text. */
  lemma TopIsHash(h: Hash, a: seq<Event>, x: seq<Digest>, texts: iset<bytes>) returns (text: bytes)
    requires Grounded(h, a, x, texts) && a != []
    ensures text in texts && text != [] && Top(h, x) == h(text)
  {
    hide HashedAbove, Canonicalize, Covers;
    if |x| == 1 {
      text := Canonicalize(Object(a[0])).value;
    } else {
      var upper;
      upper, text := Climb(h, x, 0, texts);
    }
  }

  lemma RootMeans(h: Hash, events: seq<Event>)
    ensures RootText(h, events).Ok? <==> Leaves(h, events).Ok?
    ensures Leaves(h, events).Ok? ==>
      RootText(h, events) == Ok(Hex(if events == [] then h([]) else Top(h, Leaves(h, events).value)))
  {
    hide Leaves, Top, Hex;
  }

  lemma RootSeparates(h: Hash, a: seq<Event>, b: seq<Event>, texts: iset<bytes>)
    requires RootText(h, a).Ok? && RootText(h, a) == RootText(h, b) && Separates(h, texts)
    requires forall x :: HashedForEither(h, a, b, x) ==> x in texts
    ensures SamePerfect(a, b)
  {
    EmptyText(h, a, b);
    EitherMeans(h, a, b, texts);
    hide *;
    RootMeans(h, a);
    RootMeans(h, b);
    LeavesGround(h, a, texts);
    LeavesGround(h, b, texts);
    var x, y := Leaves(h, a).value, Leaves(h, b).value;
    HexInjective(if a == [] then h([]) else Top(h, x), if b == [] then h([]) else Top(h, y));
    if a == [] || b == [] {
      if a != [] {
        var text := TopIsHash(h, a, x, texts);
        SeparatesMeans(h, texts, text, []);
        assert false;
      }
      if b != [] {
        var text := TopIsHash(h, b, y, texts);
        SeparatesMeans(h, texts, text, []);
        assert false;
      }
      NothingIsPerfect<Event>();
    } else {
      HeightsAgree(h, a, x, b, y, texts);
      HeightsAgree(h, b, y, a, x, texts);
      GroundedMeans(h, a, x, texts);
      GroundedMeans(h, b, y, texts);
      SameHeight(h, x, y, texts);
      SameTrees(h, a, x, b, y, texts);
    }
  }

  lemma NothingIsPerfect<T(!new)>()
    ensures SamePerfect<T>([], [])
  {
  }

  lemma SeparatesMeans(h: Hash, texts: iset<bytes>, x: bytes, y: bytes)
    requires Separates(h, texts) && x in texts && y in texts && h(x) == h(y)
    ensures x == y
  {
  }

  lemma GroundedMeans(h: Hash, events: seq<Event>, layer: seq<Digest>, texts: iset<bytes>)
    requires Grounded(h, events, layer, texts)
    ensures |layer| == |events| && Covers(h, layer, texts)
  {
    hide Covers, Canonicalize;
  }

  lemma EmptyText(h: Hash, a: seq<Event>, b: seq<Event>)
    ensures a == [] || b == [] ==> HashedForEither(h, a, b, [])
  {
    hide HashedAbove, HashedText, Leaves;
  }

  lemma EitherMeans(h: Hash, a: seq<Event>, b: seq<Event>, texts: iset<bytes>)
    requires forall x :: HashedForEither(h, a, b, x) ==> x in texts
    ensures forall x :: HashedForRoot(h, a, x) ==> x in texts
    ensures forall x :: HashedForRoot(h, b, x) ==> x in texts
  {
    hide HashedForRoot;
    assert forall x :: HashedForRoot(h, a, x) || HashedForRoot(h, b, x) ==> HashedForEither(h, a, b, x);
  }

  /** Equal perfect trees of events mean equal roots. */
  lemma PerfectFixesRoot(h: Hash, a: seq<Event>, b: seq<Event>)
    requires RootText(h, a).Ok? && RootText(h, b).Ok? && SamePerfect(a, b)
    ensures RootText(h, a) == RootText(h, b)
  {
    hide Leaves, Top, Hex, RootText, LeafAt, HashEvent, Height;
    RootMeans(h, a);
    RootMeans(h, b);
    if a != [] {
      LeavesAre(h, a);
      LeavesAre(h, b);
      var x, y := Leaves(h, a).value, Leaves(h, b).value;
      forall p | 0 <= p < Pow2(Height(|x|)) ensures x[LeafAt(|x|, p)] == y[LeafAt(|y|, p)] {
        assert a[LeafAt(|a|, p)] == b[LeafAt(|b|, p)];
      }
      PerfectFixesTop(h, x, y);
    }
  }

  /** Two lists that have roots, verified or not, have one root exactly when repetition expands them to the same
      perfect tree, unless two different texts hashed for the two roots collide. */
  lemma RootsAgreeExactly(h: Hash, a: seq<Event>, b: seq<Event>)
    requires RootText(h, a).Ok? && RootText(h, b).Ok?
    ensures SamePerfect(a, b) ==> RootText(h, a) == RootText(h, b)
    ensures RootText(h, a) == RootText(h, b) ==> SamePerfect(a, b) || RootCollision(h, a, b)
  {
    hide RootText, HashedForEither, SamePerfect;
    if SamePerfect(a, b) {
      PerfectFixesRoot(h, a, b);
    }
    if RootText(h, a) == RootText(h, b) && !RootCollision(h, a, b) {
      var texts := iset x | HashedForEither(h, a, b, x);
      assert Separates(h, texts);
      RootSeparates(h, a, b, texts);
    }
  }

  // ---------------------------------------------------------------- verified lists

  /** An event of a verified list tells its position in every verified list. */
  lemma VerifiedPosition(h: Hash, a: seq<Event>, b: seq<Event>, i: nat, j: nat)
    requires Verified(h, a) && Verified(h, b) && i < |a| && j < |b| && a[i] == b[j]
    ensures i == j
  {
    hide *;
    VerifiedExactly(h, a);
    VerifiedExactly(h, b);
    LinkedMeans(h, a, i);
    LinkedMeans(h, b, j);
    SameIndex(Get(a[i], Ascii("sequence")), i, j);
  }

  lemma SamePerfectAt<T(!new)>(a: seq<T>, b: seq<T>, p: nat)
    requires SamePerfect(a, b) && a != [] && p < Pow2(Height(|a|))
    ensures b != [] && a[LeafAt(|a|, p)] == b[LeafAt(|b|, p)]
  {
    hide LeafAt, Height, Pow2;
  }

  /** A verified list and another with the same perfect tree: the first is a prefix of the second. */
  lemma VerifiedPrefix(h: Hash, a: seq<Event>, b: seq<Event>)
    requires Verified(h, a) && Verified(h, b) && SamePerfect(a, b)
    ensures a <= b
  {
    hide *;
    if a != [] {
      TreeSize(|a|);
      forall i | 0 <= i < |a| ensures i < |b| && a[i] == b[i] {
        FirstPositions(|a|, i);
        SamePerfectAt(a, b, i);
        VerifiedPosition(h, a, b, i, LeafAt(|b|, i));
      }
      var last := |a| - 1;
      assert a[last] == a[last] && last < |b|;
      assert a == b[..|a|];
    }
  }

  lemma {:induction false} VerifiedHasRoot(h: Hash, events: seq<Event>)
    requires Verified(h, events)
    ensures RootText(h, events).Ok?
  {
    hide *;
    VerifiedExactly(h, events);
    forall i: nat | i < |events| ensures HashEvent(h, events[i]).Ok? {
      LinkedMeans(h, events, i);
    }
    LeavesAre(h, events);
    RootMeans(h, events);
  }

  lemma SamePerfectFlips<T(!new)>(a: seq<T>, b: seq<T>)
    requires SamePerfect(a, b)
    ensures SamePerfect(b, a)
  {
    hide LeafAt, Height;
  }

  /** Two verified lists of any lengths with one Merkle root are the same list, or two different texts
      hashed while computing the two roots collide. */
  lemma RootFixesLog(h: Hash, a: seq<Event>, b: seq<Event>)
    requires Verified(h, a) && Verified(h, b) && RootText(h, a) == RootText(h, b)
    ensures a == b || RootCollision(h, a, b)
  {
    hide *;
    VerifiedHasRoot(h, a);
    VerifiedHasRoot(h, b);
    RootsAgreeExactly(h, a, b);
    if SamePerfect(a, b) {
      SamePerfectFlips(a, b);
      VerifiedPrefix(h, a, b);
      VerifiedPrefix(h, b, a);
    }
  }

  // ---------------------------------------------------------------- lists that share a root

  ghost predicate PowerOfTwo(n: nat) {
    exists k: nat :: n == Pow2(k)
  }

  /** The leaves of the perfect tree, repetitions included. */
  function Perfect<T(!new)>(a: seq<T>): (b: seq<T>)
    requires a != []
    ensures |b| == Pow2(Height(|a|)) && forall p :: 0 <= p < |b| ==> b[p] == a[LeafAt(|a|, p)]
  {
    seq<T>(Pow2(Height(|a|)), p requires 0 <= p < Pow2(Height(|a|)) => a[LeafAt(|a|, p)])
  }

  lemma PerfectIsSame<T(!new)>(a: seq<T>)
    requires a != []
    ensures SamePerfect(a, Perfect(a))
  {
    hide LeafAt, Height, Pow2;
    var b := Perfect(a);
    FullHeight(Height(|a|));
    forall p | 0 <= p < Pow2(Height(|a|)) ensures a[LeafAt(|a|, p)] == b[LeafAt(|b|, p)] {
      FirstPositions(|b|, p);
    }
  }

  lemma PerfectIsLonger<T(!new)>(a: seq<T>)
    requires a != [] && !PowerOfTwo(|a|)
    ensures |a| < |Perfect(a)|
  {
    hide LeafAt, Height, Pow2;
    TreeSize(|a|);
    assert |a| != Pow2(Height(|a|));
  }

  ghost predicate Different<T(!new)>(a: seq<T>) {
    forall i, j :: 0 <= i < j < |a| ==> a[i] != a[j]
  }

  /** A full list of pairwise different items shares its perfect tree with no other list. */
  lemma FullIsAlone<T(!new)>(a: seq<T>, b: seq<T>)
    requires Different(a) && PowerOfTwo(|a|) && SamePerfect(a, b)
    ensures a == b
  {
    hide LeafAt, Height, Pow2, Different;
    var k: nat :| |a| == Pow2(k);
    FullHeight(k);
    TreeSize(|b|);
    forall p | 0 <= p < |a| ensures a[p] == b[LeafAt(|b|, p)] {
      FirstPositions(|a|, p);
      assert a[LeafAt(|a|, p)] == b[LeafAt(|b|, p)];
    }
    if |b| < |a| {
      var r := LeafAt(|b|, |b|);
      FirstPositions(|b|, r);
      assert a[|b|] == b[r] && a[r] == b[LeafAt(|b|, r)];
      DifferentMeans(a, r, |b|);
      assert false;
    }
    forall p | 0 <= p < |b| ensures a[p] == b[p] {
      FirstPositions(|b|, p);
    }
  }

  lemma DifferentMeans<T(!new)>(a: seq<T>, i: nat, j: nat)
    requires Different(a) && i < j < |a|
    ensures a[i] != a[j]
  {
  }

  /** Another list expands to the tree of a list of pairwise different items exactly when the length of that
      list is not a power of two. */
  lemma SharedTreeExactly<T(!new)>(a: seq<T>)
    requires Different(a) && a != []
    ensures (exists b :: b != a && SamePerfect(a, b)) <==> !PowerOfTwo(|a|)
  {
    hide SamePerfect, PowerOfTwo, Different, Perfect;
    if PowerOfTwo(|a|) {
      forall b | SamePerfect(a, b) ensures a == b {
        FullIsAlone(a, b);
      }
    } else {
      PerfectIsSame(a);
      PerfectIsLonger(a);
    }
  }

  lemma RootOfPart(h: Hash, a: seq<Event>, b: seq<Event>)
    requires RootText(h, a).Ok? && forall e :: e in b ==> e in a
    ensures RootText(h, b).Ok?
  {
    hide RootText, Leaves, HashEvent;
    RootMeans(h, a);
    RootMeans(h, b);
    LeavesAre(h, a);
    LeavesAre(h, b);
    forall i | 0 <= i < |b| ensures HashEvent(h, b[i]).Ok? {
      assert b[i] in a;
    }
  }

  /** A list of pairwise different events that has a root: if its length is a power of two, or zero, no other
      list shares the root without a collision; otherwise a longer list does, whatever the hash function. */
  lemma SharedRootExactly(h: Hash, a: seq<Event>)
    requires RootText(h, a).Ok? && Different(a)
    ensures PowerOfTwo(|a|) || a == [] ==>
              forall b :: RootText(h, b) == RootText(h, a) ==> b == a || RootCollision(h, a, b)
    ensures !PowerOfTwo(|a|) && a != [] ==> exists b :: RootText(h, b) == RootText(h, a) && |b| > |a|
  {
    hide RootText, PowerOfTwo, Different, RootCollision, Height, LeafAt, Pow2;
    if PowerOfTwo(|a|) || a == [] {
      forall b | RootText(h, b) == RootText(h, a) ensures b == a || RootCollision(h, a, b) {
        RootsAgreeExactly(h, a, b);
        if SamePerfect(a, b) && a != [] {
          FullIsAlone(a, b);
        }
      }
    } else {
      var b := Perfect(a);
      PerfectIsSame(a);
      PerfectIsLonger(a);
      RootOfPart(h, a, b);
      RootsAgreeExactly(h, a, b);
    }
  }

  /** Repeating the last of an odd number of items, more than one, leaves the perfect tree as it is. */
  lemma RepeatedLast<T(!new)>(a: seq<T>)
    requires |a| > 1 && |a| % 2 == 1
    ensures SamePerfect(a, a + [a[|a| - 1]])
  {
    var n := |a|;
    var b := a + [a[n - 1]];
    assert (n + 1) / 2 == (n + 2) / 2;
    forall p | 0 <= p < Pow2(Height(n)) ensures a[LeafAt(n, p)] == b[LeafAt(n + 1, p)] {
      var k := 2 * LeafAt((n + 1) / 2, p / 2) + p % 2;
      assert LeafAt(n, p) == Clamp(n, k) && LeafAt(n + 1, p) == Clamp(n + 1, k);
    }
  }

  lemma LeavesAppend(h: Hash, events: seq<Event>, e: Event)
    ensures Leaves(h, events).Err? ==> RootText(h, events + [e]) == RootText(h, events)
  {
    hide HashEvent, Hex, Top;
    assert (events + [e])[..|events|] == events;
  }

  /** One family of lists that share a root: any list of odd length above one, and the same list with its last
      event repeated. The longer list never verifies. */
  lemma RepeatedEvent(h: Hash, events: seq<Event>)
    requires |events| > 1 && |events| % 2 == 1
    ensures RootText(h, events) == RootText(h, events + [events[|events| - 1]])
    ensures !Verified(h, events + [events[|events| - 1]])
  {
    hide RootText, Verified, SamePerfect, Leaves, RootCollision;
    var last := |events| - 1;
    var longer := events + [events[last]];
    RootMeans(h, events);
    if RootText(h, events).Ok? {
      RootOfPart(h, events, longer);
      RepeatedLast(events);
      RootsAgreeExactly(h, events, longer);
    } else {
      LeavesAppend(h, events, events[last]);
    }
    if Verified(h, longer) {
      VerifiedPosition(h, longer, longer, last, last + 1);
    }
  }
}
