/** The Merkle tree from its root down, as an independent definition of what eventlog.py computes layer by layer. */
module MerkleTree {
  import opened Bytes
  import opened CborValues
  import opened Json
  import opened EventLog
  import opened Merkle

  /** The hash of two children: the prefix `TFWS3-MERKLE-NODE` with its zero byte, the left child, the right child. */
  function Parent(h: Hash, left: Digest, right: Digest): Digest {
    h([0x54, 0x46, 0x57, 0x53, 0x33, 0x2D, 0x4D, 0x45, 0x52, 0x4B, 0x4C, 0x45, 0x2D, 0x4E, 0x4F, 0x44, 0x45, 0x00]
      + left + right)
  }

  /** The root of the tree of the given height over `leaves`: the first `2^(height - 1)` leaves are under its left
      child and the others under its right child; when there are no others, the left child is repeated. */
  function TreeRoot(h: Hash, leaves: seq<Digest>, height: nat): Digest
    requires 0 < |leaves| <= Pow2(height)
    decreases height
  {
    if height == 0 then leaves[0]
    else
      var half := Pow2(height - 1);
      if |leaves| <= half then
        var child := TreeRoot(h, leaves, height - 1);
        Parent(h, child, child)
      else
        Parent(h, TreeRoot(h, leaves[..half], height - 1), TreeRoot(h, leaves[half..], height - 1))
  }

  // ---------------------------------------------------------------- one layer

  lemma PrefixBytes()
    ensures NODE_PREFIX
         == [0x54, 0x46, 0x57, 0x53, 0x33, 0x2D, 0x4D, 0x45, 0x52, 0x4B, 0x4C, 0x45, 0x2D, 0x4E, 0x4F, 0x44, 0x45, 0x00]
  {
    hide ValidUtf8;
  }

  lemma ParentInput(h: Hash, left: Digest, right: Digest)
    ensures h(NodeInput(left, right)) == Parent(h, left, right)
  {
    hide NODE_PREFIX;
    PrefixBytes();
    ConcatAssociative(NODE_PREFIX, left, right);
  }

  lemma UpAt(h: Hash, layer: seq<Digest>, i: nat)
    requires i < |Up(h, layer)|
    ensures layer != []
    ensures Up(h, layer)[i] == Parent(h, layer[Clamp(|layer|, 2 * i)], layer[Clamp(|layer|, 2 * i + 1)])
  {
    hide *;
    UpMeans(h, layer, i);
    InputAt(layer, i);
    ParentInput(h, layer[Clamp(|layer|, 2 * i)], layer[Clamp(|layer|, 2 * i + 1)]);
  }

  lemma UpMeans(h: Hash, layer: seq<Digest>, i: nat)
    requires i < |Up(h, layer)|
    ensures i < (|layer| + 1) / 2 && Up(h, layer)[i] == h(Input(layer, i))
  {
    hide Input;
  }

  lemma UpOne(h: Hash, x: Digest)
    ensures Up(h, [x]) == [Parent(h, x, x)]
  {
    hide Up, Parent;
    UpAt(h, [x], 0);
  }

  lemma UpTwo(h: Hash, x: Digest, y: Digest)
    ensures Up(h, [x, y]) == [Parent(h, x, y)]
  {
    hide Up, Parent;
    UpAt(h, [x, y], 0);
  }

  lemma ClampLeft(m: nat, n: nat, k: nat)
    requires k < m
    ensures Clamp(m, k) == k && Clamp(m + n, k) == k
  {
  }

  lemma ClampRight(m: nat, n: nat, k: nat)
    requires n > 0
    ensures Clamp(m + n, m + k) == m + Clamp(n, k)
  {
  }

  lemma UpLeft(h: Hash, a: seq<Digest>, b: seq<Digest>, i: nat)
    requires |a| % 2 == 0 && i < |Up(h, a)|
    ensures i < |Up(h, a + b)| && Up(h, a + b)[i] == Up(h, a)[i]
  {
    UpSize(h, a);
    UpSize(h, a + b);
    hide *;
    UpAt(h, a + b, i);
    UpAt(h, a, i);
    ClampLeft(|a|, |b|, 2 * i);
    ClampLeft(|a|, |b|, 2 * i + 1);
  }

  lemma UpRight(h: Hash, a: seq<Digest>, b: seq<Digest>, i: nat)
    requires |a| % 2 == 0 && i < |Up(h, b)|
    ensures |Up(h, a)| + i < |Up(h, a + b)| && Up(h, a + b)[|Up(h, a)| + i] == Up(h, b)[i]
  {
    UpSize(h, a);
    UpSize(h, b);
    UpSize(h, a + b);
    hide *;
    UpAt(h, a + b, |a| / 2 + i);
    UpAt(h, b, i);
    ClampRight(|a|, |b|, 2 * i);
    ClampRight(|a|, |b|, 2 * i + 1);
  }

  lemma UpSize(h: Hash, a: seq<Digest>)
    ensures |Up(h, a)| == (|a| + 1) / 2
  {
    hide *;
  }

  /** The layer above a concatenation whose first part is even. */
  lemma UpConcat(h: Hash, a: seq<Digest>, b: seq<Digest>)
    requires |a| % 2 == 0
    ensures Up(h, a + b) == Up(h, a) + Up(h, b)
  {
    hide *;
    UpSize(h, a);
    UpSize(h, b);
    UpSize(h, a + b);
    forall i | 0 <= i < |Up(h, a + b)| ensures Up(h, a + b)[i] == (Up(h, a) + Up(h, b))[i] {
      if i < |Up(h, a)| {
        UpLeft(h, a, b, i);
      } else {
        UpRight(h, a, b, i - |Up(h, a)|);
      }
    }
  }

  lemma HalfSize(n: nat, k: nat)
    requires k > 0 && n <= Pow2(k)
    ensures (n + 1) / 2 <= Pow2(k - 1)
  {
  }

  lemma OneOrTwo(h: Hash, leaves: seq<Digest>)
    requires 0 < |leaves| <= 2
    ensures Pow2(0) == 1 && Pow2(1) == 2 && |Up(h, leaves)| == 1
    ensures TreeRoot(h, leaves, 1) == TreeRoot(h, Up(h, leaves), 0)
  {
    hide Up, Parent;
    if |leaves| == 1 {
      UpOne(h, leaves[0]);
      assert leaves == [leaves[0]];
    } else {
      UpTwo(h, leaves[0], leaves[1]);
      assert leaves == [leaves[0], leaves[1]];
      assert leaves[..1] == [leaves[0]] && leaves[1..] == [leaves[1]];
    }
  }

  lemma TreeHalves(h: Hash, leaves: seq<Digest>, height: nat)
    requires height > 0 && Pow2(height - 1) < |leaves| <= Pow2(height)
    ensures Pow2(height) == 2 * Pow2(height - 1)
    ensures TreeRoot(h, leaves, height)
         == Parent(h, TreeRoot(h, leaves[..Pow2(height - 1)], height - 1),
                   TreeRoot(h, leaves[Pow2(height - 1)..], height - 1))
  {
    hide Parent;
  }

  lemma TreeHalf(h: Hash, leaves: seq<Digest>, height: nat)
    requires height > 0 && 0 < |leaves| <= Pow2(height - 1)
    ensures |leaves| <= Pow2(height) == 2 * Pow2(height - 1)
    ensures TreeRoot(h, leaves, height)
         == Parent(h, TreeRoot(h, leaves, height - 1), TreeRoot(h, leaves, height - 1))
  {
    hide Parent;
  }

  /** Building one layer takes one level off the height. */
  lemma {:induction false} TreeAbove(h: Hash, leaves: seq<Digest>, height: nat)
    requires height > 0 && 0 < |leaves| <= Pow2(height)
    ensures 0 < |Up(h, leaves)| <= Pow2(height - 1)
    ensures TreeRoot(h, leaves, height) == TreeRoot(h, Up(h, leaves), height - 1)
    decreases height
  {
    hide Up, Parent, TreeRoot;
    UpSize(h, leaves);
    HalfSize(|leaves|, height);
    if height == 1 {
      OneOrTwo(h, leaves);
    } else if |leaves| <= Pow2(height - 1) {
      TreeAbove(h, leaves, height - 1);
      TreeHalf(h, leaves, height);
      TreeHalf(h, Up(h, leaves), height - 1);
    } else {
      TreeHalves(h, leaves, height);
      UpHalves(h, leaves, height);
      TreeHalves(h, Up(h, leaves), height - 1);
      TreeAbove(h, leaves[..Pow2(height - 1)], height - 1);
      TreeAbove(h, leaves[Pow2(height - 1)..], height - 1);
    }
  }

  /** The layer above two halves is made of the layers above each. */
  lemma UpHalves(h: Hash, leaves: seq<Digest>, height: nat)
    requires height > 1 && Pow2(height - 1) < |leaves| <= Pow2(height)
    ensures Pow2(height - 2) < |Up(h, leaves)| <= Pow2(height - 1)
    ensures Up(h, leaves)[..Pow2(height - 2)] == Up(h, leaves[..Pow2(height - 1)])
    ensures Up(h, leaves)[Pow2(height - 2)..] == Up(h, leaves[Pow2(height - 1)..])
  {
    hide Up;
    var a, b := leaves[..Pow2(height - 1)], leaves[Pow2(height - 1)..];
    assert leaves == a + b;
    UpSize(h, a);
    UpSize(h, b);
    UpConcat(h, a, b);
  }

  /** Building layer after layer until one node is left gives the root of the tree. */
  lemma {:induction false} TopIsRoot(h: Hash, leaves: seq<Digest>)
    requires leaves != []
    ensures |leaves| <= Pow2(Height(|leaves|))
    ensures Top(h, leaves) == TreeRoot(h, leaves, Height(|leaves|))
    decreases |leaves|
  {
    hide Up, Parent;
    TreeSize(|leaves|);
    if |leaves| > 1 {
      TreeAbove(h, leaves, Height(|leaves|));
      TopIsRoot(h, Up(h, leaves));
    }
  }

  /** The height is the least that has room for the leaves. */
  lemma {:induction false} LeastHeight(n: nat, k: nat)
    ensures n <= Pow2(k) <==> Height(n) <= k
    decreases n
  {
    if n > 1 {
      if k > 0 {
        LeastHeight((n + 1) / 2, k - 1);
      }
    }
  }

  // ---------------------------------------------------------------- the recurrence on layers

  /** Two leaves: the left child is hashed before the right child. */
  lemma TwoLeaves(h: Hash, x: Digest, y: Digest)
    ensures Top(h, [x, y]) == h(Ascii("TFWS3-MERKLE-NODE") + [0] + x + y)
  {
    hide Up, ValidUtf8;
    UpTwo(h, x, y);
    PrefixBytes();
  }

  lemma TreeSplits(h: Hash, a: seq<Digest>, b: seq<Digest>, k: nat)
    requires |a| == Pow2(k) && 0 < |b| <= Pow2(k)
    ensures |a + b| <= Pow2(k + 1)
    ensures TreeRoot(h, a + b, k + 1) == Parent(h, TreeRoot(h, a, k), TreeRoot(h, b, k))
  {
    hide Parent;
    assert (a + b)[..Pow2(k)] == a && (a + b)[Pow2(k)..] == b;
  }

  lemma ParentHashes(h: Hash, left: Digest, right: Digest)
    ensures Parent(h, left, right) == h(Ascii("TFWS3-MERKLE-NODE") + [0] + left + right)
  {
    hide ValidUtf8;
    PrefixBytes();
  }

  lemma FullTop(h: Hash, a: seq<Digest>, k: nat)
    requires |a| == Pow2(k)
    ensures Top(h, a) == TreeRoot(h, a, k)
  {
    hide *;
    FullHeight(k);
    TopIsRoot(h, a);
  }

  lemma HeightOfBoth(k: nat, n: nat)
    requires Pow2(k) < n <= 2 * Pow2(k)
    ensures Height(n) == k + 1
  {
    hide Height;
    LeastHeight(n, k);
    LeastHeight(n, k + 1);
  }

  /** A full left half, and what is right of it lifted to the same height by repetition. */
  lemma TopSplits(h: Hash, a: seq<Digest>, b: seq<Digest>, k: nat)
    requires |a| == Pow2(k) && 0 < |b| <= Pow2(k)
    ensures Top(h, a + b) == h(Ascii("TFWS3-MERKLE-NODE") + [0] + Top(h, a) + TreeRoot(h, b, k))
    ensures |b| == Pow2(k) ==> TreeRoot(h, b, k) == Top(h, b)
  {
    hide *;
    HeightOfBoth(k, |a + b|);
    TreeSplits(h, a, b, k);
    TopIsRoot(h, a + b);
    FullTop(h, a, k);
    if |b| == Pow2(k) {
      FullTop(h, b, k);
    }
    ParentHashes(h, TreeRoot(h, a, k), TreeRoot(h, b, k));
  }

  // ---------------------------------------------------------------- the root of a list of events

  /** The leaves are the hashes of the canonical texts. */
  ghost predicate LeafHashes(h: Hash, events: seq<Event>, leaves: seq<Digest>) {
    && |leaves| == |events|
    && forall i :: 0 <= i < |events| ==> Printable(Object(events[i])) && leaves[i] == h(Print(Object(events[i])))
  }

  lemma LeavesHash(h: Hash, events: seq<Event>)
    ensures Leaves(h, events).Ok? <==> forall i :: 0 <= i < |events| ==> Printable(Object(events[i]))
    ensures Leaves(h, events).Ok? ==> LeafHashes(h, events, Leaves(h, events).value)
  {
    hide Leaves, Print, Printable;
    LeavesAre(h, events);
    forall i | 0 <= i < |events|
      ensures HashEvent(h, events[i]).Ok? <==> Printable(Object(events[i]))
      ensures HashEvent(h, events[i]).Ok? ==> HashEvent(h, events[i]).value == h(Print(Object(events[i])))
    {
      HashMeans(h, events[i]);
    }
  }

  lemma {:induction false} OneError(h: Hash, events: seq<Event>)
    ensures Leaves(h, events).Err? ==> Leaves(h, events).error == InvalidValue
  {
    hide Canonicalize;
    if events != [] {
      OneError(h, events[..|events| - 1]);
    }
  }

  /** `merkle_root` is the tree over the hashes of the canonical texts, at the least height that has room for them,
      written as 64 lower-case hexadecimal digits. It fails exactly when some event has no canonical text. */
  lemma RootIsTree(h: Hash, events: seq<Event>, leaves: seq<Digest>)
    ensures (forall i :: 0 <= i < |events| ==> Printable(Object(events[i]))) <==> RootText(h, events).Ok?
    ensures RootText(h, events).Err? ==> RootText(h, events).error == InvalidValue
    ensures RootText(h, events).Ok? ==> LowerHex(RootText(h, events).value, 64)
    ensures events == [] ==> RootText(h, events).Ok? && FromHex(RootText(h, events).value) == h([])
    ensures LeafHashes(h, events, leaves) && events != [] ==>
              && RootText(h, events).Ok? && |leaves| <= Pow2(Height(|leaves|))
              && FromHex(RootText(h, events).value) == TreeRoot(h, leaves, Height(|leaves|))
  {
    hide Leaves, Top, Hex, FromHex, LowerHex, Printable, Print, TreeRoot, Height;
    RootMeans(h, events);
    LeavesHash(h, events);
    OneError(h, events);
    if Leaves(h, events).Ok? {
      HexReads(if events == [] then h([]) else Top(h, Leaves(h, events).value));
    }
    if LeafHashes(h, events, leaves) && events != [] {
      assert leaves == Leaves(h, events).value;
      TopIsRoot(h, leaves);
    }
  }

  // ---------------------------------------------------------------- what a collision is

  /** The text hashed for a parent. */
  function ParentText(left: Digest, right: Digest): bytes {
    Ascii("TFWS3-MERKLE-NODE") + [0] + left + right
  }

  /** `x` is the text hashed for some inner node of the tree. */
  ghost predicate NodeText(h: Hash, leaves: seq<Digest>, height: nat, x: bytes)
    requires 0 < |leaves| <= Pow2(height)
    decreases height
  {
    height > 0 &&
    var half := Pow2(height - 1);
    if |leaves| <= half then
      var child := TreeRoot(h, leaves, height - 1);
      x == ParentText(child, child) || NodeText(h, leaves, height - 1, x)
    else
      || x == ParentText(TreeRoot(h, leaves[..half], height - 1), TreeRoot(h, leaves[half..], height - 1))
      || NodeText(h, leaves[..half], height - 1, x)
      || NodeText(h, leaves[half..], height - 1, x)
  }

  lemma InputIsText(layer: seq<Digest>, i: nat)
    requires i < (|layer| + 1) / 2
    ensures layer != []
    ensures Input(layer, i) == ParentText(layer[Clamp(|layer|, 2 * i)], layer[Clamp(|layer|, 2 * i + 1)])
  {
    hide Input, Clamp, ValidUtf8;
    InputAt(layer, i);
    PrefixBytes();
  }

  lemma NodeHalves(h: Hash, leaves: seq<Digest>, height: nat, x: bytes)
    requires height > 0 && Pow2(height - 1) < |leaves| <= Pow2(height)
    ensures Pow2(height) == 2 * Pow2(height - 1)
    ensures var a, b := leaves[..Pow2(height - 1)], leaves[Pow2(height - 1)..];
            NodeText(h, leaves, height, x) <==>
            || x == ParentText(TreeRoot(h, a, height - 1), TreeRoot(h, b, height - 1))
            || NodeText(h, a, height - 1, x) || NodeText(h, b, height - 1, x)
  {
    hide ParentText, TreeRoot;
  }

  lemma NodeHalf(h: Hash, leaves: seq<Digest>, height: nat, x: bytes)
    requires height > 0 && 0 < |leaves| <= Pow2(height - 1)
    ensures |leaves| <= Pow2(height) == 2 * Pow2(height - 1)
    ensures var child := TreeRoot(h, leaves, height - 1);
            NodeText(h, leaves, height, x) <==> x == ParentText(child, child) || NodeText(h, leaves, height - 1, x)
  {
    hide ParentText, TreeRoot;
  }

  lemma LowestTexts(h: Hash, leaves: seq<Digest>, x: bytes)
    requires 0 < |leaves| <= 2
    ensures Pow2(1) == 2
    ensures NodeText(h, leaves, 1, x) <==> x == ParentText(leaves[0], leaves[|leaves| - 1])
  {
    hide ParentText;
    assert Pow2(0) == 1;
    if |leaves| == 2 {
      assert leaves[..1] == [leaves[0]] && leaves[1..] == [leaves[1]];
    }
  }

  /** `x` is the text of an inner node above the next layer, or of a node of the next layer. */
  ghost predicate Made(h: Hash, leaves: seq<Digest>, height: nat, x: bytes)
    requires height > 0 && 0 < |Up(h, leaves)| <= Pow2(height - 1)
  {
    NodeText(h, Up(h, leaves), height - 1, x) || exists i :: 0 <= i < |Up(h, leaves)| && x == Input(leaves, i)
  }

  /** Every text made while building the layers is the text of an inner node of the tree. */
  lemma {:induction false} NodesAbove(h: Hash, leaves: seq<Digest>, height: nat, x: bytes)
    requires height > 0 && 0 < |leaves| <= Pow2(height) && 0 < |Up(h, leaves)| <= Pow2(height - 1)
    requires Made(h, leaves, height, x)
    ensures NodeText(h, leaves, height, x)
    decreases height
  {
    hide Up, TreeRoot, NodeText, ParentText, Input, Clamp;
    UpSize(h, leaves);
    if height == 1 {
      NothingAtLeaves(h, Up(h, leaves), x);
      InputIsText(leaves, 0);
      ClampEnds(|leaves|);
      LowestTexts(h, leaves, x);
    } else if |leaves| <= Pow2(height - 1) {
      TreeAbove(h, leaves, height - 1);
      NodeHalf(h, leaves, height, x);
      NodeHalf(h, Up(h, leaves), height - 1, x);
      if NodeText(h, Up(h, leaves), height - 2, x) || exists i :: 0 <= i < |Up(h, leaves)| && x == Input(leaves, i) {
        NodesAbove(h, leaves, height - 1, x);
      }
    } else {
      hide Made;
      var a, b := leaves[..Pow2(height - 1)], leaves[Pow2(height - 1)..];
      TreeAbove(h, a, height - 1);
      TreeAbove(h, b, height - 1);
      NodeHalves(h, leaves, height, x);
      MadeInHalf(h, leaves, height, x);
      if Made(h, a, height - 1, x) {
        NodesAbove(h, a, height - 1, x);
      } else if Made(h, b, height - 1, x) {
        NodesAbove(h, b, height - 1, x);
      }
    }
  }

  lemma NothingAtLeaves(h: Hash, leaves: seq<Digest>, x: bytes)
    requires 0 < |leaves| <= Pow2(0)
    ensures !NodeText(h, leaves, 0, x)
  {
  }

  lemma ClampEnds(n: nat)
    requires 0 < n <= 2
    ensures Clamp(n, 0) == 0 && Clamp(n, 1) == n - 1
  {
  }

  lemma MadeInHalf(h: Hash, leaves: seq<Digest>, height: nat, x: bytes)
    requires height > 1 && Pow2(height - 1) < |leaves| <= Pow2(height) && 0 < |Up(h, leaves)| <= Pow2(height - 1)
    requires Made(h, leaves, height, x)
    ensures var a, b := leaves[..Pow2(height - 1)], leaves[Pow2(height - 1)..];
            && 0 < |a| <= Pow2(height - 1) && 0 < |Up(h, a)| <= Pow2(height - 2)
            && 0 < |b| <= Pow2(height - 1) && 0 < |Up(h, b)| <= Pow2(height - 2)
            && (|| x == ParentText(TreeRoot(h, a, height - 1), TreeRoot(h, b, height - 1))
                || Made(h, a, height - 1, x) || Made(h, b, height - 1, x))
  {
    hide Up, TreeRoot, NodeText, ParentText, Input, Made;
    var a, b := leaves[..Pow2(height - 1)], leaves[Pow2(height - 1)..];
    UpHalves(h, leaves, height);
    TreeAbove(h, a, height - 1);
    TreeAbove(h, b, height - 1);
    NodeHalves(h, Up(h, leaves), height - 1, x);
    MadeMeans(h, leaves, height, x);
    MadeOf(h, a, height - 1, x);
    MadeOf(h, b, height - 1, x);
    if !NodeText(h, Up(h, leaves), height - 1, x) {
      var i :| 0 <= i < |Up(h, leaves)| && x == Input(leaves, i);
      assert leaves == a + b;
      InputInHalf(h, a, b, i);
    }
  }

  lemma MadeMeans(h: Hash, leaves: seq<Digest>, height: nat, x: bytes)
    requires height > 0 && 0 < |Up(h, leaves)| <= Pow2(height - 1)
    requires Made(h, leaves, height, x)
    ensures NodeText(h, Up(h, leaves), height - 1, x) || exists i :: 0 <= i < |Up(h, leaves)| && x == Input(leaves, i)
  {
    hide NodeText, Up, Input;
  }

  lemma MadeOf(h: Hash, leaves: seq<Digest>, height: nat, x: bytes)
    requires height > 0 && 0 < |Up(h, leaves)| <= Pow2(height - 1)
    ensures NodeText(h, Up(h, leaves), height - 1, x) ==> Made(h, leaves, height, x)
    ensures forall i :: 0 <= i < |Up(h, leaves)| && x == Input(leaves, i) ==> Made(h, leaves, height, x)
  {
    hide NodeText, Up, Input;
  }

  lemma InputInHalf(h: Hash, a: seq<Digest>, b: seq<Digest>, i: nat)
    requires |a| % 2 == 0 && i < |Up(h, a + b)|
    ensures i < |Up(h, a)| ==> Input(a + b, i) == Input(a, i)
    ensures i >= |Up(h, a)| ==> i - |Up(h, a)| < |Up(h, b)| && Input(a + b, i) == Input(b, i - |Up(h, a)|)
  {
    UpSize(h, a);
    UpSize(h, b);
    UpSize(h, a + b);
    hide *;
    InputIsText(a + b, i);
    if i < |Up(h, a)| {
      InputIsText(a, i);
      ClampLeft(|a|, |b|, 2 * i);
      ClampLeft(|a|, |b|, 2 * i + 1);
    } else {
      InputIsText(b, i - |Up(h, a)|);
      ClampRight(|a|, |b|, 2 * (i - |Up(h, a)|));
      ClampRight(|a|, |b|, 2 * (i - |Up(h, a)|) + 1);
    }
  }

  lemma {:induction false} HashedIsNode(h: Hash, leaves: seq<Digest>, x: bytes)
    requires leaves != [] && HashedAbove(h, leaves, x)
    ensures |leaves| <= Pow2(Height(|leaves|)) && NodeText(h, leaves, Height(|leaves|), x)
    decreases |leaves|
  {
    hide Up, TreeRoot, NodeText, ParentText, Input;
    TreeSize(|leaves|);
    UpSize(h, leaves);
    TreeSize(|Up(h, leaves)|);
    DoubleSize(|leaves|);
    if HashedAbove(h, Up(h, leaves), x) {
      HashedIsNode(h, Up(h, leaves), x);
    }
    NodesAbove(h, leaves, Height(|leaves|), x);
  }

  /** `x` is hashed for the root of `events`: the text of an event, of an inner node, or of an empty list. */
  ghost predicate Hashed(h: Hash, events: seq<Event>, x: bytes) {
    || (exists i :: 0 <= i < |events| && Printable(Object(events[i])) && x == Print(Object(events[i])))
    || (events == [] && x == [])
    || (exists leaves ::
          && LeafHashes(h, events, leaves) && 0 < |leaves| <= Pow2(Height(|leaves|))
          && NodeText(h, leaves, Height(|leaves|), x))
  }

  lemma HashedForRootMeans(h: Hash, events: seq<Event>, x: bytes)
    requires HashedForRoot(h, events, x)
    ensures Hashed(h, events, x)
  {
    hide HashedAbove, Leaves, Print, Printable, LeafHashes, NodeText;
    LeavesHash(h, events);
    if Leaves(h, events).Ok? {
      var leaves := Leaves(h, events).value;
      if HashedAbove(h, leaves, x) {
        SomeLeaves(h, leaves, x);
        HashedIsNode(h, leaves, x);
      }
    }
  }

  lemma SomeLeaves(h: Hash, leaves: seq<Digest>, x: bytes)
    requires HashedAbove(h, leaves, x)
    ensures leaves != []
  {
    hide Up, Input;
  }

  /** A collision is real: two different texts with one hash, each hashed for one of the two roots. */
  lemma CollisionMeans(h: Hash, a: seq<Event>, b: seq<Event>)
    requires RootCollision(h, a, b)
    ensures exists x, y :: x != y && h(x) == h(y) && (Hashed(h, a, x) || Hashed(h, b, x))
              && (Hashed(h, a, y) || Hashed(h, b, y))
  {
    hide HashedForRoot, Hashed;
    var x, y :| HashedForEither(h, a, b, x) && HashedForEither(h, a, b, y) && x != y && h(x) == h(y);
    forall e, z | (e == a || e == b) && HashedForRoot(h, e, z) ensures Hashed(h, e, z) {
      HashedForRootMeans(h, e, z);
    }
  }
}
