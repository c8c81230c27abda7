/** Witness quorums over transparency checkpoints (transparency.py). */
module Quorum {
  import opened Bytes
  import opened Results

  datatype Checkpoint = Checkpoint(logId: Text, treeSize: int, rootHash: Text, timestamp: Text) {
    /** `validate` returns rather than raises. */
    predicate Valid() {
      logId != [] && treeSize >= 0 && LowerHex(rootHash, 64)
    }

    predicate SameView(other: Checkpoint) {
      logId == other.logId && treeSize == other.treeSize && rootHash == other.rootHash
    }
  }

  datatype Statement = Statement(witnessId: Text, checkpoint: Checkpoint, validSignature: bool)

  /** `InvalidCheckpoint` is the ValidationError; the others are the PolicyErrors, with what they report. */
  datatype QuorumError =
    | InvalidCheckpoint
    | InvalidPolicy
    | SplitView(witnesses: multiset<Text>)
    | NotMet(accepted: nat)

  predicate Counted(s: Statement, allowed: set<Text>) {
    s.witnessId in allowed && s.validSignature
  }

  function Supporters(checkpoint: Checkpoint, statements: seq<Statement>, allowed: set<Text>): set<Text> {
    set s | s in statements && Counted(s, allowed) && s.checkpoint.SameView(checkpoint) :: s.witnessId
  }

  /** The witnesses of conflicting statements, once for each such statement. */
  function Conflicts(checkpoint: Checkpoint, statements: seq<Statement>, allowed: set<Text>): multiset<Text> {
    if statements == [] then multiset{}
    else
      var last := statements[|statements| - 1];
      var before := Conflicts(checkpoint, statements[..|statements| - 1], allowed);
      if Counted(last, allowed) && !last.checkpoint.SameView(checkpoint) then before + multiset{last.witnessId}
      else before
  }

  predicate AllValid(statements: seq<Statement>, allowed: set<Text>) {
    forall s :: s in statements && Counted(s, allowed) ==> s.checkpoint.Valid()
  }

  /** The outcome of `verify_witness_quorum`: the accepted witnesses, or the exception. */
  function Outcome(checkpoint: Checkpoint, statements: seq<Statement>, minimum: int, allowed: set<Text>)
    : Result<set<Text>, QuorumError>
  {
    if !checkpoint.Valid() then Err(InvalidCheckpoint)
    else if minimum < 1 || minimum > |allowed| then Err(InvalidPolicy)
    else if !AllValid(statements, allowed) then Err(InvalidCheckpoint)
    else
      var conflicts := Conflicts(checkpoint, statements, allowed);
      var supporters := Supporters(checkpoint, statements, allowed);
      if conflicts != multiset{} then Err(SplitView(conflicts))
      else if |supporters| < minimum then Err(NotMet(|supporters|))
      else Ok(supporters)
  }

  /** `verify_witness_quorum`. */
  method VerifyWitnessQuorum(checkpoint: Checkpoint, statements: seq<Statement>, minimum: int, allowed: set<Text>)
    returns (r: Result<set<Text>, QuorumError>)
    ensures r == Outcome(checkpoint, statements, minimum, allowed)
  {
    if !checkpoint.Valid() {
      return Err(InvalidCheckpoint);
    }
    if minimum < 1 || minimum > |allowed| {
      return Err(InvalidPolicy);
    }
    var accepted: set<Text> := {};
    var conflicts: seq<Text> := [];
    for i := 0 to |statements|
      invariant AllValid(statements[..i], allowed)
      invariant accepted == Supporters(checkpoint, statements[..i], allowed)
      invariant multiset(conflicts) == Conflicts(checkpoint, statements[..i], allowed)
    {
      var statement := statements[i];
      var candidate := statement.checkpoint;
      assert statements[..i + 1] == statements[..i] + [statement];
      NextStatement(checkpoint, statements[..i], statement, allowed);
      if statement.witnessId !in allowed || !statement.validSignature {
        continue;
      }
      if !candidate.Valid() {
        assert statement in statements;
        return Err(InvalidCheckpoint);
      }
      if candidate.logId != checkpoint.logId || candidate.treeSize != checkpoint.treeSize
          || candidate.rootHash != checkpoint.rootHash {
        conflicts := conflicts + [statement.witnessId];
        continue;
      }
      accepted := accepted + {statement.witnessId};
    }
    assert statements[..|statements|] == statements;
    if |conflicts| > 0 {
      assert conflicts[0] in multiset(conflicts);
      return Err(SplitView(multiset(conflicts)));
    }
    if |accepted| < minimum {
      return Err(NotMet(|accepted|));
    }
    return Ok(accepted);
  }

  /** How one more statement changes what the loop keeps. */
  lemma NextStatement(checkpoint: Checkpoint, statements: seq<Statement>, s: Statement, allowed: set<Text>)
    ensures AllValid(statements + [s], allowed) <==>
        AllValid(statements, allowed) && (Counted(s, allowed) ==> s.checkpoint.Valid())
    ensures Supporters(checkpoint, statements + [s], allowed)
         == Supporters(checkpoint, statements, allowed)
            + if Counted(s, allowed) && s.checkpoint.SameView(checkpoint) then {s.witnessId} else {}
    ensures Conflicts(checkpoint, statements + [s], allowed)
         == Conflicts(checkpoint, statements, allowed)
            + if Counted(s, allowed) && !s.checkpoint.SameView(checkpoint) then multiset{s.witnessId} else multiset{}
  {
    var longer := statements + [s];
    assert forall x :: x in longer <==> x in statements || x == s;
    assert longer[..|longer| - 1] == statements;
  }

  // ---------------------------------------------------------------- what a quorum means

  /** `validate` passes exactly for a named log, a size that is not negative, and a root of 64 of the sixteen
      lower-case digits. */
  lemma CheckpointValidExactly(c: Checkpoint)
    ensures c.Valid() <==>
            && c.logId != [] && c.treeSize >= 0
            && |c.rootHash| == 64 && forall b :: b in c.rootHash ==> b in Ascii("0123456789abcdef")
  {
    hide ValidUtf8;
    forall b: byte
      ensures b in Ascii("0123456789abcdef") <==> Digit(b) || 0x61 <= b <= 0x66
    {
      HexDigits(b);
    }
  }

  lemma HexDigits(b: byte)
    ensures b in Ascii("0123456789abcdef") <==> Digit(b) || 0x61 <= b <= 0x66
  {
    hide ValidUtf8;
    var digits := "0123456789abcdef";
    assert forall i :: 0 <= i < 16 ==> Ascii(digits)[i] == AsciiByte(digits[i]);
    if 0x30 <= b <= 0x39 {
      assert Ascii(digits)[b - 0x30] == b;
    } else if 0x61 <= b <= 0x66 {
      assert Ascii(digits)[b - 0x61 + 10] == b;
    }
  }

  /** An allowed witness validly signed a checkpoint with the log, the size and the root of `c`. */
  ghost predicate Backed(c: Checkpoint, statements: seq<Statement>, allowed: set<Text>, w: Text) {
    w in allowed && exists s ::
      && s in statements && s.witnessId == w && s.validSignature
      && s.checkpoint.logId == c.logId && s.checkpoint.treeSize == c.treeSize && s.checkpoint.rootHash == c.rootHash
  }

  lemma SupportersAre(c: Checkpoint, statements: seq<Statement>, allowed: set<Text>, w: Text)
    ensures w in Supporters(c, statements, allowed) <==> Backed(c, statements, allowed, w)
  {
    hide ValidUtf8, LowerHex;
  }

  /** A quorum is reported exactly when the checkpoint and the policy are valid, every valid signature of an allowed
      witness is on a valid checkpoint with the same log, size and root, and the witnesses behind such signatures
      are at least the minimum; the report is those witnesses. */
  lemma QuorumExactly(c: Checkpoint, statements: seq<Statement>, minimum: int, allowed: set<Text>, ws: set<Text>)
    ensures Outcome(c, statements, minimum, allowed) == Ok(ws) <==>
            && c.Valid() && 1 <= minimum <= |ws| <= |allowed|
            && (forall s :: s in statements && s.witnessId in allowed && s.validSignature ==>
                  && s.checkpoint.Valid() && s.checkpoint.logId == c.logId
                  && s.checkpoint.treeSize == c.treeSize && s.checkpoint.rootHash == c.rootHash)
            && (forall w :: w in ws <==> w in allowed && exists s ::
                  && s in statements && s.witnessId == w && s.validSignature
                  && s.checkpoint.logId == c.logId && s.checkpoint.treeSize == c.treeSize
                  && s.checkpoint.rootHash == c.rootHash)
  {
    hide ValidUtf8, LowerHex, Conflicts, Supporters;
    NoConflictExactly(c, statements, allowed);
    forall w ensures w in Supporters(c, statements, allowed) <==> Backed(c, statements, allowed, w) {
      SupportersAre(c, statements, allowed, w);
    }
    if forall w :: w in ws <==> Backed(c, statements, allowed, w) {
      assert ws == Supporters(c, statements, allowed);
      assert ws <= allowed;
      SubsetSize(ws, allowed);
    }
    SubsetSize(Supporters(c, statements, allowed), allowed);
  }

  /** When each error is raised: an invalid checkpoint, here or behind a valid signature of an allowed witness once
      the policy is valid; a minimum outside 1 to the number of allowed witnesses; a valid signature of an allowed
      witness on another log, size or root; too few witnesses. */
  lemma ErrorsExactly(c: Checkpoint, statements: seq<Statement>, minimum: int, allowed: set<Text>, ws: set<Text>)
    requires forall w :: w in ws <==> w in allowed && exists s ::
                  && s in statements && s.witnessId == w && s.validSignature
                  && s.checkpoint.logId == c.logId && s.checkpoint.treeSize == c.treeSize
                  && s.checkpoint.rootHash == c.rootHash
    ensures var r := Outcome(c, statements, minimum, allowed);
            var policy := 1 <= minimum <= |allowed|;
            var bad := exists s :: s in statements && s.witnessId in allowed && s.validSignature
                                   && !s.checkpoint.Valid();
            var split := exists s :: s in statements && s.witnessId in allowed && s.validSignature
                                     && (s.checkpoint.logId != c.logId || s.checkpoint.treeSize != c.treeSize
                                         || s.checkpoint.rootHash != c.rootHash);
            && (r == Err(InvalidCheckpoint) <==> !c.Valid() || (policy && bad))
            && (r == Err(InvalidPolicy) <==> c.Valid() && !policy)
            && (r.Err? && r.error.SplitView? <==> c.Valid() && policy && !bad && split)
            && (r == Err(NotMet(|ws|)) <==> c.Valid() && policy && !bad && !split && |ws| < minimum)
            && (r.Err? && r.error.NotMet? ==> r.error.accepted == |ws|)
  {
    hide ValidUtf8, LowerHex, Conflicts, Supporters;
    NoConflictExactly(c, statements, allowed);
    forall w ensures w in Supporters(c, statements, allowed) <==> w in ws {
      SupportersAre(c, statements, allowed, w);
    }
    assert ws == Supporters(c, statements, allowed);
  }

  /** `s` is a valid signature of the allowed witness `w` on another log, size or root. */
  predicate SplitBy(c: Checkpoint, s: Statement, allowed: set<Text>, w: Text) {
    && s.witnessId == w && w in allowed && s.validSignature
    && (s.checkpoint.logId != c.logId || s.checkpoint.treeSize != c.treeSize || s.checkpoint.rootHash != c.rootHash)
  }

  function SplitsBy(c: Checkpoint, statements: seq<Statement>, allowed: set<Text>, w: Text): set<nat> {
    set i | 0 <= i < |statements| && SplitBy(c, statements[i], allowed, w) :: i
  }

  /** The report of a split view names a witness as often as it validly signed another log, size or root. */
  lemma {:induction false} ConflictsCounted(c: Checkpoint, statements: seq<Statement>, allowed: set<Text>, w: Text)
    ensures Conflicts(c, statements, allowed)[w] == |SplitsBy(c, statements, allowed, w)|
  {
    hide ValidUtf8, LowerHex, SplitBy;
    if statements == [] {
      assert SplitsBy(c, [], allowed, w) == {};
    } else {
      var n := |statements| - 1;
      var xs, ys := SplitsBy(c, statements[..n], allowed, w), SplitsBy(c, statements, allowed, w);
      ConflictsCounted(c, statements[..n], allowed, w);
      assert ys == if SplitBy(c, statements[n], allowed, w) then xs + {n} else xs;
      SplitMeans(c, statements[n], allowed, w);
    }
  }

  lemma SplitMeans(c: Checkpoint, s: Statement, allowed: set<Text>, w: Text)
    ensures SplitBy(c, s, allowed, w) <==>
            s.witnessId == w && Counted(s, allowed) && !s.checkpoint.SameView(c)
  {
    hide ValidUtf8, LowerHex;
  }

  /** There is no conflict exactly when every counted statement agrees with the checkpoint. */
  lemma {:induction false} NoConflictExactly(checkpoint: Checkpoint, statements: seq<Statement>, allowed: set<Text>)
    ensures Conflicts(checkpoint, statements, allowed) == multiset{} <==>
            forall s :: s in statements && Counted(s, allowed) ==> s.checkpoint.SameView(checkpoint)
  {
    if statements != [] {
      var before, last := statements[..|statements| - 1], statements[|statements| - 1];
      assert statements == before + [last];
      NoConflictExactly(checkpoint, before, allowed);
      assert forall x :: x in statements <==> x in before || x == last;
      if Counted(last, allowed) && !last.checkpoint.SameView(checkpoint) {
        assert last.witnessId in Conflicts(checkpoint, statements, allowed);
      }
    }
  }

  /** `detect_incompatible_checkpoints`. */
  function DetectIncompatible(left: Checkpoint, right: Checkpoint): Result<bool, QuorumError> {
    if !left.Valid() || !right.Valid() then Err(InvalidCheckpoint)
    else Ok(left.logId == right.logId && left.treeSize == right.treeSize && left.rootHash != right.rootHash)
  }

  /** Two valid checkpoints are incompatible exactly when they give one log two roots at one size. */
  lemma DetectExactly(left: Checkpoint, right: Checkpoint)
    ensures DetectIncompatible(left, right) == Ok(true) <==>
            && left.Valid() && right.Valid()
            && left.logId == right.logId && left.treeSize == right.treeSize && left.rootHash != right.rootHash
    ensures DetectIncompatible(left, right).Err? <==> !left.Valid() || !right.Valid()
  {
    hide LowerHex, ValidUtf8;
  }

  lemma TooManyForOneSet<T>(a: set<T>, b: set<T>, all: set<T>)
    requires a <= all && b <= all && |a| + |b| > |all|
    ensures exists x :: x in a && x in b
  {
    if a !! b {
      assert |a + b| == |a| + |b|;
      SubsetSize(a + b, all);
    }
  }

  lemma {:induction false} SubsetSize<T>(a: set<T>, b: set<T>)
    requires a <= b
    ensures |a| <= |b|
  {
    if a != {} {
      var x :| x in a;
      SubsetSize(a - {x}, b - {x});
    }
  }

  /** Two quorums that together outnumber the allowed witnesses, for two roots of one log at one size, share an
      allowed witness whose signatures on both roots are valid, and `detect_incompatible_checkpoints` convicts it. */
  lemma QuorumsIntersect(a: Checkpoint, s: seq<Statement>, m: int, b: Checkpoint, t: seq<Statement>, n: int,
          allowed: set<Text>)
    requires Outcome(a, s, m, allowed).Ok? && Outcome(b, t, n, allowed).Ok? && m + n > |allowed|
    requires a.logId == b.logId && a.treeSize == b.treeSize && a.rootHash != b.rootHash
    ensures exists x, y ::
              && x in s && y in t && x.witnessId == y.witnessId && x.witnessId in allowed
              && x.validSignature && y.validSignature
              && x.checkpoint.logId == y.checkpoint.logId == a.logId
              && x.checkpoint.treeSize == y.checkpoint.treeSize == a.treeSize
              && x.checkpoint.rootHash == a.rootHash && y.checkpoint.rootHash == b.rootHash
              && DetectIncompatible(x.checkpoint, y.checkpoint) == Ok(true)
  {
    hide LowerHex, Conflicts, ValidUtf8;
    var left, right := Supporters(a, s, allowed), Supporters(b, t, allowed);
    TooManyForOneSet(left, right, allowed);
    var w :| w in left && w in right;
    var x :| x in s && Counted(x, allowed) && x.checkpoint.SameView(a) && x.witnessId == w;
    var y :| y in t && Counted(y, allowed) && y.checkpoint.SameView(b) && y.witnessId == w;
    assert DetectIncompatible(x.checkpoint, y.checkpoint) == Ok(true);
  }

  lemma SupporterExists(a: Checkpoint, s: seq<Statement>, m: int, allowed: set<Text>) returns (x: Statement)
    requires Outcome(a, s, m, allowed).Ok?
    ensures a.Valid() && AllValid(s, allowed) && x in s && Counted(x, allowed) && x.checkpoint.SameView(a)
  {
    hide LowerHex, Conflicts, ValidUtf8;
    var supporters := Supporters(a, s, allowed);
    assert supporters != {};
    var w :| w in supporters;
    x :| x in s && Counted(x, allowed) && x.checkpoint.SameView(a) && x.witnessId == w;
  }

  /** Over the statements of both quorums neither checkpoint has a quorum, whatever the minimum: each is
      refused, as a split view unless the minimum itself is invalid. */
  lemma JointListRefused(a: Checkpoint, s: seq<Statement>, m: int, b: Checkpoint, t: seq<Statement>, n: int,
          minimum: int, allowed: set<Text>)
    requires Outcome(a, s, m, allowed).Ok? && Outcome(b, t, n, allowed).Ok?
    requires a.logId == b.logId && a.treeSize == b.treeSize && a.rootHash != b.rootHash
    ensures Outcome(a, s + t, minimum, allowed).Err? && Outcome(b, s + t, minimum, allowed).Err?
    ensures 1 <= minimum <= |allowed| ==>
              Outcome(a, s + t, minimum, allowed).error.SplitView?
                && Outcome(b, s + t, minimum, allowed).error.SplitView?
  {
    hide LowerHex, Conflicts, Supporters, ValidUtf8;
    var x := SupporterExists(a, s, m, allowed);
    var y := SupporterExists(b, t, n, allowed);
    NoConflictExactly(a, s + t, allowed);
    NoConflictExactly(b, s + t, allowed);
    assert x in s + t && y in s + t;
    assert !y.checkpoint.SameView(a) && !x.checkpoint.SameView(b);
  }

  // ---------------------------------------------------------------- the order of statements

  lemma {:induction false} ConflictsConcat(checkpoint: Checkpoint, s: seq<Statement>, t: seq<Statement>,
          allowed: set<Text>)
    ensures Conflicts(checkpoint, s + t, allowed)
        == Conflicts(checkpoint, s, allowed) + Conflicts(checkpoint, t, allowed)
    decreases |t|
  {
    if t == [] {
      assert s + t == s;
    } else {
      var before, last := t[..|t| - 1], t[|t| - 1];
      assert (s + t)[..|s + t| - 1] == s + before;
      ConflictsConcat(checkpoint, s, before, allowed);
    }
  }

  lemma {:induction false} DropLast<T>(s: seq<T>)
    requires s != []
    ensures multiset(s[..|s| - 1]) == multiset(s) - multiset{s[|s| - 1]}
  {
    assert s == s[..|s| - 1] + [s[|s| - 1]];
  }

  lemma {:induction false} DropAt<T>(t: seq<T>, i: nat)
    requires i < |t|
    ensures multiset(t[..i] + t[i + 1..]) == multiset(t) - multiset{t[i]}
  {
    assert t == t[..i] + ([t[i]] + t[i + 1..]);
  }

  lemma {:induction false} LastElsewhere<T>(s: seq<T>, t: seq<T>) returns (i: nat)
    requires multiset(s) == multiset(t) && s != []
    ensures i < |t| && t[i] == s[|s| - 1]
    ensures multiset(s[..|s| - 1]) == multiset(t[..i] + t[i + 1..])
  {
    var last := s[|s| - 1];
    assert last in s;
    assert last in multiset(t);
    i :| 0 <= i < |t| && t[i] == last;
    DropLast(s);
    DropAt(t, i);
  }

  lemma {:induction false} ConflictsPermute(checkpoint: Checkpoint, s: seq<Statement>, t: seq<Statement>,
          allowed: set<Text>)
    requires multiset(s) == multiset(t)
    ensures Conflicts(checkpoint, s, allowed) == Conflicts(checkpoint, t, allowed)
    decreases |s|
  {
    hide Conflicts;
    if s == [] {
      assert |multiset(t)| == 0;
    } else {
      var last := s[|s| - 1];
      assert s == s[..|s| - 1] + [last];
      var i := LastElsewhere(s, t);
      assert t == t[..i] + ([last] + t[i + 1..]);
      var rest := t[..i] + t[i + 1..];
      ConflictsPermute(checkpoint, s[..|s| - 1], rest, allowed);
      ConflictsConcat(checkpoint, t[..i], t[i + 1..], allowed);
      ConflictsConcat(checkpoint, t[..i], [last] + t[i + 1..], allowed);
      ConflictsConcat(checkpoint, [last], t[i + 1..], allowed);
      ConflictsConcat(checkpoint, s[..|s| - 1], [last], allowed);
    }
  }

  /** The order of the statements does not matter: not to success, not to the kind of error, and not to
      the witnesses that either reports. */
  lemma OrderIrrelevant(checkpoint: Checkpoint, s: seq<Statement>, t: seq<Statement>, minimum: int, allowed: set<Text>)
    requires multiset(s) == multiset(t)
    ensures Outcome(checkpoint, s, minimum, allowed) == Outcome(checkpoint, t, minimum, allowed)
  {
    hide Conflicts, LowerHex, ValidUtf8;
    ConflictsPermute(checkpoint, s, t, allowed);
    assert forall x :: x in s <==> x in multiset(s);
    assert forall x :: x in t <==> x in multiset(t);
    assert forall x :: x in s <==> x in t;
    assert Supporters(checkpoint, s, allowed) == Supporters(checkpoint, t, allowed);
  }
}
