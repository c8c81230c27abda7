/** The unique ascending listing of a finite set of byte strings under a strict total order. */
module SortedSets {
  import opened Bytes

  ghost predicate StrictTotal(less: (bytes, bytes) -> bool) {
    && (forall x :: !less(x, x))
    && (forall x, y, z :: less(x, y) && less(y, z) ==> less(x, z))
    && (forall x, y :: x == y || less(x, y) || less(y, x))
  }

  ghost predicate IsLeast(less: (bytes, bytes) -> bool, x: bytes, s: set<bytes>) {
    x in s && forall y :: y in s && y != x ==> less(x, y)
  }

  ghost predicate Ascending(less: (bytes, bytes) -> bool, ks: seq<bytes>) {
    forall i, j :: 0 <= i < j < |ks| ==> less(ks[i], ks[j])
  }

  ghost function Elements(ks: seq<bytes>): set<bytes> {
    set k | k in ks
  }

  ghost predicate Distinct(ks: seq<bytes>) {
    forall i, j :: 0 <= i < j < |ks| ==> ks[i] != ks[j]
  }

  /** The members of `s`, least first. */
  ghost function Sorted(less: (bytes, bytes) -> bool, s: set<bytes>): seq<bytes> {
    if s == {} then []
    else
      var any :| any in s;
      var x :| x in s && ((exists y :: IsLeast(less, y, s)) ==> IsLeast(less, x, s));
      [x] + Sorted(less, s - {x})
  }

  lemma {:induction false} LeastExists(less: (bytes, bytes) -> bool, s: set<bytes>)
    requires StrictTotal(less) && s != {}
    ensures exists x :: IsLeast(less, x, s)
  {
    var a :| a in s;
    if s != {a} {
      var rest := s - {a};
      assert s == {a} + rest;
      LeastExists(less, rest);
      var b :| IsLeast(less, b, rest);
      if less(a, b) {
        forall y | y in s && y != a ensures less(a, y) {
          assert y in rest;
        }
        assert IsLeast(less, a, s);
      } else {
        assert IsLeast(less, b, s);
      }
    } else {
      assert IsLeast(less, a, s);
    }
  }

  lemma AscendingPrepend(less: (bytes, bytes) -> bool, x: bytes, rest: seq<bytes>)
    requires Ascending(less, rest) && forall y :: y in Elements(rest) ==> less(x, y)
    ensures Ascending(less, [x] + rest)
  {
    var ks := [x] + rest;
    forall i, j | 0 <= i < j < |ks| ensures less(ks[i], ks[j]) {
      assert ks[j] == rest[j - 1] && ks[j] in Elements(rest);
      if i > 0 {
        assert ks[i] == rest[i - 1];
      }
    }
  }

  lemma ElementsPrepend(x: bytes, rest: seq<bytes>)
    ensures Elements([x] + rest) == {x} + Elements(rest)
    ensures x !in Elements(rest) && Distinct(rest) ==> Distinct([x] + rest)
    ensures forall y :: y in [x] + rest <==> y == x || y in Elements(rest)
    ensures forall y :: y in rest <==> y in Elements(rest)
  {
  }

  lemma ElementsConcat(a: seq<bytes>, b: seq<bytes>)
    ensures Elements(a + b) == Elements(a) + Elements(b)
  {
  }

  /** Dropping one of several distinct elements. */
  lemma ElementsRemove(ks: seq<bytes>, i: nat)
    requires i < |ks| && Distinct(ks)
    ensures Elements(ks[..i] + ks[i + 1..]) == Elements(ks) - {ks[i]}
    ensures Distinct(ks[..i] + ks[i + 1..])
  {
    var rest := ks[..i] + ks[i + 1..];
    assert forall j :: 0 <= j < |rest| ==> rest[j] == if j < i then ks[j] else ks[j + 1];
    assert forall j :: 0 <= j < |ks| && j != i ==> ks[j] == rest[if j < i then j else j - 1];
  }

  lemma {:induction false} SortedIsAscending(less: (bytes, bytes) -> bool, s: set<bytes>)
    requires StrictTotal(less)
    ensures Ascending(less, Sorted(less, s))
    ensures Elements(Sorted(less, s)) == s
    ensures |Sorted(less, s)| == |s|
  {
    if s == {} {
      EmptyElements([]);
    } else {
      LeastExists(less, s);
      var x := SortedStep(less, s);
      hide *;
      SortedIsAscending(less, s - {x});
      var rest := Sorted(less, s - {x});
      ElementsPrepend(x, rest);
      AscendingPrepend(less, x, rest);
      assert s == {x} + (s - {x});
    }
  }

  lemma SortedStep(less: (bytes, bytes) -> bool, s: set<bytes>) returns (x: bytes)
    requires s != {} && exists y :: IsLeast(less, y, s)
    ensures x in s && Sorted(less, s) == [x] + Sorted(less, s - {x})
    ensures forall y :: y in s - {x} ==> less(x, y)
  {
    x := Sorted(less, s)[0];
    assert IsLeast(less, x, s);
  }

  lemma EmptyElements(ks: seq<bytes>)
    ensures Elements(ks) == {} <==> ks == []
  {
    if ks != [] {
      assert ks[0] in Elements(ks);
    }
  }

  /** Two ascending sequences with the same members are the same sequence. */
  lemma {:induction false} AscendingIsUnique(less: (bytes, bytes) -> bool, a: seq<bytes>, b: seq<bytes>)
    requires StrictTotal(less) && Ascending(less, a) && Ascending(less, b)
    requires Elements(a) == Elements(b)
    ensures a == b
  {
    EmptyElements(a);
    EmptyElements(b);
    if a != [] {
      assert a[0] in Elements(b) && b[0] in Elements(a);
      assert a[0] == b[0];
      forall k ensures k in a[1..] <==> k in b[1..] {
        if k in a[1..] {
          var i :| 0 < i < |a| && a[i] == k;
          assert less(a[0], k) && k in Elements(b);
        }
        if k in b[1..] {
          var i :| 0 < i < |b| && b[i] == k;
          assert less(b[0], k) && k in Elements(a);
        }
      }
      AscendingIsUnique(less, a[1..], b[1..]);
      assert a == [a[0]] + a[1..] && b == [b[0]] + b[1..];
    }
  }

  lemma {:induction false} DistinctSize(ks: seq<bytes>)
    requires Distinct(ks)
    ensures |Elements(ks)| == |ks|
  {
    if ks == [] {
      EmptyElements(ks);
    } else {
      DistinctSize(ks[1..]);
      assert ks == [ks[0]] + ks[1..];
      ElementsPrepend(ks[0], ks[1..]);
    }
  }

  // ---------------------------------------------------------------- bytewise order

  lemma LexIsStrictTotal()
    ensures StrictTotal(LexLess)
  {
    forall x ensures !LexLess(x, x) {
      LexIrreflexive(x);
    }
    forall x, y, z | LexLess(x, y) && LexLess(y, z) ensures LexLess(x, z) {
      LexTransitive(x, y, z);
    }
    forall x, y ensures x == y || LexLess(x, y) || LexLess(y, x) {
      LexTotal(x, y);
    }
  }

  lemma LeastKey(keys: set<Text>)
    requires keys != {}
    ensures exists k :: k in keys && forall y :: y in keys && y != k ==> LexLess(k, y)
    ensures forall j, k :: j in keys && k in keys && LexLess(j, k) ==> !LexLess(k, j)
  {
    hide *;
    LexIsStrictTotal();
    LeastExists(LexLess, keys);
    var k :| IsLeast(LexLess, k, keys);
    LeastMeans(k, keys);
    forall i, j | i in keys && j in keys && LexLess(i, j) ensures !LexLess(j, i) {
      LexAsymmetric(i, j);
    }
  }

  lemma LeastMeans(k: bytes, keys: set<Text>)
    requires IsLeast(LexLess, k, keys)
    ensures k in keys && forall y :: y in keys && y != k ==> LexLess(k, y)
  {
    hide LexLess;
  }

  /** The keys in bytewise order: the order of a `BTreeMap`, and of `sort_keys`, because for UTF-8 it is the
      order by code point. */
  function SortedKeys(keys: set<Text>): (ks: seq<Text>)
    ensures Elements(ks) == keys && Ascending(LexLess, ks)
  {
    if keys == {} then
      EmptyElements([]);
      []
    else
      LeastKey(keys);
      var k :| k in keys && forall y :: y in keys && y != k ==> LexLess(k, y);
      var rest := SortedKeys(keys - {k});
      ElementsPrepend(k, rest);
      AscendingPrepend(LexLess, k, rest);
      [k] + rest
  }
}
