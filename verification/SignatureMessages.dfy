/** The newline-delimited text that a manifest signature covers. */
module SignatureMessages {
  import opened Bytes
  import opened CborValues
  import opened Results
  import opened Json

  datatype MessageError = NewlineInMetadata | InvalidMetadata

  datatype Fields = Fields(subject: Text, digest: Text, created: Text, keyEpoch: int)

  predicate OneLine(s: bytes) {
    0x0A !in s && 0x0D !in s
  }

  /** The seven lines that crypto.py concatenates, each with its line break. */
  function Lines(m: Fields): bytes {
    Line(Ascii("TFWS3-SIGNATURE-V1"),
      Line(Ascii("subject=") + m.subject,
        Line(Ascii("media_type=application/tfws+json"),
          Line(Ascii("payload_sha512=") + m.digest,
            Line(Ascii("created=") + m.created,
              Line(Ascii("key_epoch=") + PrintInt(m.keyEpoch),
                Line(Ascii("policy=tfws.hybrid.baseline.v1"), [])))))))
  }

  /** `signature_message` of crypto.py, which checks the line breaks only. */
  function PythonMessage(m: Fields): Result<bytes, MessageError> {
    if !OneLine(m.subject) || !OneLine(m.digest) || !OneLine(m.created) then Err(NewlineInMetadata) else Ok(Lines(m))
  }

  predicate IsU64(n: int) {
    0 <= n < 0x1_0000_0000_0000_0000
  }

  const BASELINE_POLICY: bytes := Ascii("tfws.hybrid.baseline.v1")

  /** The names that the format string of lib.rs has in braces. */
  datatype Placeholder = Subject | Digest | Created | KeyEpoch | Policy

  datatype Piece = Literal(text: string) | Hole(name: Placeholder)

  /** The format string of lib.rs, cut at its placeholders and before its line breaks. */
  const FORMAT: seq<Piece> := [
    Literal("TFWS3-SIGNATURE-V1"),
    Literal("\nsubject="), Hole(Subject),
    Literal("\nmedia_type=application/tfws+json"),
    Literal("\npayload_sha512="), Hole(Digest),
    Literal("\ncreated="), Hole(Created),
    Literal("\nkey_epoch="), Hole(KeyEpoch),
    Literal("\npolicy="), Hole(Policy),
    Literal("\n")]

  function Fill(m: Fields, name: Placeholder): bytes
    requires IsU64(m.keyEpoch)
  {
    match name
    case Subject => m.subject
    case Digest => m.digest
    case Created => m.created
    case KeyEpoch => Decimal(m.keyEpoch)
    case Policy => BASELINE_POLICY
  }

  function Render(m: Fields, piece: Piece): bytes
    requires IsU64(m.keyEpoch)
  {
    match piece
    case Literal(text) => Ascii(text)
    case Hole(name) => Fill(m, name)
  }

  /** `format!`: the pieces from left to right. */
  function Format(m: Fields, pieces: seq<Piece>): bytes
    requires IsU64(m.keyEpoch)
  {
    if pieces == [] then [] else Render(m, pieces[0]) + Format(m, pieces[1..])
  }

  /** `signature_message` of lib.rs. */
  function SignatureMessage(m: Fields): Result<bytes, MessageError>
    requires IsU64(m.keyEpoch)
  {
    if !OneLine(m.subject) || !OneLine(m.created) || !OneLine(m.digest) then Err(NewlineInMetadata)
    else if !LowerHex(m.digest, 128) || m.keyEpoch == 0 || m.keyEpoch > MAX_SAFE_INTEGER then Err(InvalidMetadata)
    else Ok(Format(m, FORMAT))
  }

  lemma NumberIsOneLine(n: int)
    ensures 0x0A !in PrintInt(n)
  {
  }

  lemma LabelIsOneLine(s: string)
    requires forall i :: 0 <= i < |s| ==> s[i] >= ' '
    ensures 0x0A !in Ascii(s)
  {
    hide ValidUtf8;
    var t := Ascii(s);
    forall i | 0 <= i < |t| ensures t[i] != 0x0A {
      assert t[i] == AsciiByte(s[i]);
    }
  }

  // ---------------------------------------------------------------- the Rust printer

  lemma NewlineByte()
    ensures Ascii("\n") == [0x0A] && Ascii("") == []
  {
    hide ValidUtf8;
  }

  lemma FormatStep(m: Fields, piece: Piece, rest: seq<Piece>)
    requires IsU64(m.keyEpoch)
    ensures Format(m, [piece] + rest) == Render(m, piece) + Format(m, rest)
  {
    hide Render;
    assert ([piece] + rest)[1..] == rest;
  }

  /** A literal, a value, and what the rest of the format gives. */
  lemma FormatField(m: Fields, literal: string, name: Placeholder, rest: seq<Piece>)
    requires IsU64(m.keyEpoch)
    ensures Format(m, [Literal(literal)] + ([Hole(name)] + rest)) == Ascii(literal) + (Fill(m, name) + Format(m, rest))
  {
    hide Format, Ascii, Fill, ValidUtf8;
    FormatStep(m, Literal(literal), [Hole(name)] + rest);
    FormatStep(m, Hole(name), rest);
  }

  lemma FormatEnd(m: Fields)
    requires IsU64(m.keyEpoch)
    ensures Format(m, [Literal("\n")]) == Ascii("\n") + []
  {
    hide Ascii, Fill, ValidUtf8;
    assert [Literal("\n")][1..] == [];
  }

  /** A piece that starts with a line break ends the line before it. */
  lemma BreakEnds(before: bytes, next: string, rest: bytes)
    ensures before + (Ascii("\n" + next) + rest) == Line(before, Ascii(next) + rest)
  {
    hide Ascii, ValidUtf8;
    AsciiConcat("\n", next);
    NewlineByte();
    ConcatAssociative([0x0A], Ascii(next), rest);
  }

  lemma BreakAfterValue(name: string, value: bytes, next: string, rest: bytes)
    ensures Ascii(name) + (value + (Ascii("\n" + next) + rest)) == Line(Ascii(name) + value, Ascii(next) + rest)
  {
    hide *;
    BreakEnds(Ascii(name) + value, next, rest);
    ConcatAssociative(Ascii(name), value, Ascii("\n" + next) + rest);
  }

  lemma PolicyLine()
    ensures Ascii("policy=") + BASELINE_POLICY == Ascii("policy=tfws.hybrid.baseline.v1")
  {
    hide Ascii, ValidUtf8;
    AsciiConcat("policy=", "tfws.hybrid.baseline.v1");
    assert "policy=" + "tfws.hybrid.baseline.v1" == "policy=tfws.hybrid.baseline.v1";
  }

  lemma Labels()
    ensures "\n" + "" == "\n" && "\n" + "policy=" == "\npolicy=" && "\n" + "key_epoch=" == "\nkey_epoch="
    ensures "\n" + "created=" == "\ncreated=" && "\n" + "subject=" == "\nsubject="
  {
  }

  lemma LongLabels()
    ensures "\n" + "payload_sha512=" == "\npayload_sha512="
    ensures "\n" + "media_type=application/tfws+json" == "\nmedia_type=application/tfws+json"
  {
  }

  /** The pieces of the format, filled and nested to the right, are the seven lines. */
  lemma FilledLines(m: Fields)
    requires IsU64(m.keyEpoch)
    ensures var r5 := BASELINE_POLICY + (Ascii("\n") + []);
            var r4 := Decimal(m.keyEpoch) + (Ascii("\npolicy=") + r5);
            var r3 := m.created + (Ascii("\nkey_epoch=") + r4);
            var r2 := m.digest + (Ascii("\ncreated=") + r3);
            var r1 := Ascii("\nmedia_type=application/tfws+json") + (Ascii("\npayload_sha512=") + r2);
            Ascii("TFWS3-SIGNATURE-V1") + (Ascii("\nsubject=") + (m.subject + r1)) == Lines(m)
  {
    hide Ascii, Decimal, ValidUtf8, Line, BASELINE_POLICY;
    var r5 := BASELINE_POLICY + (Ascii("\n") + []);
    var r4 := Decimal(m.keyEpoch) + (Ascii("\npolicy=") + r5);
    var r3 := m.created + (Ascii("\nkey_epoch=") + r4);
    var r2 := m.digest + (Ascii("\ncreated=") + r3);
    var media := Ascii("\npayload_sha512=") + r2;
    Labels();
    LongLabels();
    NewlineByte();
    PolicyLine();
    assert Ascii("") + [] == [];
    BreakAfterValue("policy=", BASELINE_POLICY, "", []);
    BreakAfterValue("key_epoch=", Decimal(m.keyEpoch), "policy=", r5);
    BreakAfterValue("created=", m.created, "key_epoch=", r4);
    BreakAfterValue("payload_sha512=", m.digest, "created=", r3);
    BreakEnds(Ascii("media_type=application/tfws+json"), "payload_sha512=", r2);
    BreakAfterValue("subject=", m.subject, "media_type=application/tfws+json", media);
    BreakEnds(Ascii("TFWS3-SIGNATURE-V1"), "subject=",
              m.subject + (Ascii("\nmedia_type=application/tfws+json") + media));
  }

  /** The format string of Rust and the concatenated lines of Python give the same bytes. */
  lemma PrintersAgree(m: Fields)
    requires IsU64(m.keyEpoch)
    ensures Format(m, FORMAT) == Lines(m)
  {
    hide Ascii, Decimal, ValidUtf8, Line, Lines, Format, BASELINE_POLICY;
    var p5 := [Literal("\n")];
    var p4 := [Literal("\npolicy=")] + ([Hole(Policy)] + p5);
    var p3 := [Literal("\nkey_epoch=")] + ([Hole(KeyEpoch)] + p4);
    var p2 := [Literal("\ncreated=")] + ([Hole(Created)] + p3);
    var p1 := [Literal("\npayload_sha512=")] + ([Hole(Digest)] + p2);
    var p0 := [Literal("\nmedia_type=application/tfws+json")] + p1;
    var ps := [Literal("\nsubject=")] + ([Hole(Subject)] + p0);
    assert FORMAT == [Literal("TFWS3-SIGNATURE-V1")] + ps;
    FormatStep(m, Literal("TFWS3-SIGNATURE-V1"), ps);
    FormatField(m, "\nsubject=", Subject, p0);
    FormatStep(m, Literal("\nmedia_type=application/tfws+json"), p1);
    FormatField(m, "\npayload_sha512=", Digest, p2);
    FormatField(m, "\ncreated=", Created, p3);
    FormatField(m, "\nkey_epoch=", KeyEpoch, p4);
    FormatField(m, "\npolicy=", Policy, p5);
    FormatEnd(m);
    FilledLines(m);
  }

  /** The Rust message exists exactly for a digest of 128 lower-case hexadecimal digits and a positive
      safe epoch among the fields the Python message exists for, and is then the same bytes. */
  lemma MessagesAgree(m: Fields)
    requires IsU64(m.keyEpoch)
    ensures SignatureMessage(m).Ok? <==>
            PythonMessage(m).Ok? && LowerHex(m.digest, 128) && 1 <= m.keyEpoch <= MAX_SAFE_INTEGER
    ensures SignatureMessage(m).Ok? ==> SignatureMessage(m) == PythonMessage(m)
  {
    hide Lines, Format, FORMAT;
    PrintersAgree(m);
  }

  // ---------------------------------------------------------------- reading a message back

  lemma {:induction false} FirstOfLines(s: bytes)
    requires |SplitLines(s)| > 1
    ensures exists rest :: s == Line(SplitLines(s)[0], rest) && SplitLines(rest) == SplitLines(s)[1..]
    ensures 0x0A !in SplitLines(s)[0]
  {
    if s[0] == 0x0A {
      assert s == Line([], s[1..]);
    } else {
      FirstOfLines(s[1..]);
      var rest :| s[1..] == Line(SplitLines(s[1..])[0], rest) && SplitLines(rest) == SplitLines(s[1..])[1..];
      assert s == [s[0]] + s[1..];
      assert s == Line(SplitLines(s)[0], rest);
    }
  }

  lemma {:induction false} LastOfLines(s: bytes)
    requires |SplitLines(s)| == 1
    ensures s == SplitLines(s)[0]
  {
    if s != [] {
      LastOfLines(s[1..]);
      assert s == [s[0]] + s[1..];
    }
  }

  /** What stands behind `name` in a line. */
  function Behind(name: bytes, line: bytes): Option<bytes> {
    if name <= line then Some(line[|name|..]) else None
  }

  /** A metadata value: text on one line, without a carriage return. */
  function ReadValue(name: bytes, line: bytes): Option<Text> {
    match Behind(name, line)
    case Some(v) => if ValidUtf8(v) && OneLine(v) then Some(v) else None
    case None => None
  }

  function ReadEpoch(name: bytes, line: bytes): Option<int> {
    match Behind(name, line)
    case Some(v) => ReadInt(v)
    case None => None
  }

  /** The fields of a message, found line by line. */
  function ReadMessage(s: bytes): Option<Fields> {
    var lines := SplitLines(s);
    if |lines| != 8 || lines[7] != [] then None
    else if lines[0] != Ascii("TFWS3-SIGNATURE-V1") then None
    else if lines[2] != Ascii("media_type=application/tfws+json") then None
    else if lines[6] != Ascii("policy=tfws.hybrid.baseline.v1") then None
    else
      match (ReadValue(Ascii("subject="), lines[1]), ReadValue(Ascii("payload_sha512="), lines[3]),
             ReadValue(Ascii("created="), lines[4]), ReadEpoch(Ascii("key_epoch="), lines[5]))
      case (Some(subject), Some(digest), Some(created), Some(epoch)) => Some(Fields(subject, digest, created, epoch))
      case _ => None
  }

  lemma BehindMeans(name: bytes, line: bytes, v: bytes)
    ensures Behind(name, line) == Some(v) <==> line == name + v
  {
  }

  lemma ValueMeans(name: bytes, line: bytes, v: Text)
    ensures ReadValue(name, line) == Some(v) <==> line == name + v && OneLine(v)
  {
    hide Behind, ValidUtf8, OneLine;
    BehindMeans(name, line, v);
  }

  lemma EpochMeans(name: bytes, line: bytes, n: int)
    ensures ReadEpoch(name, line) == Some(n) <==> line == name + PrintInt(n)
  {
    hide Behind, ReadInt, PrintInt;
    match Behind(name, line)
    case Some(v) =>
      BehindMeans(name, line, v);
      ReadsPrintedInt(v, n);
      if line == name + PrintInt(n) {
        SameLength(name, name, v, PrintInt(n));
      }
    case None =>
      BehindMeans(name, line, PrintInt(n));
  }

  /** The seven lines of `m` and the empty one behind them. */
  ghost predicate LinesOf(lines: seq<bytes>, m: Fields) {
    && |lines| == 8
    && lines[0] == Ascii("TFWS3-SIGNATURE-V1") && lines[1] == Ascii("subject=") + m.subject
    && lines[2] == Ascii("media_type=application/tfws+json") && lines[3] == Ascii("payload_sha512=") + m.digest
    && lines[4] == Ascii("created=") + m.created && lines[5] == Ascii("key_epoch=") + PrintInt(m.keyEpoch)
    && lines[6] == Ascii("policy=tfws.hybrid.baseline.v1") && lines[7] == []
  }

  lemma ReadMeans(s: bytes, m: Fields)
    ensures ReadMessage(s) == Some(m) <==>
            LinesOf(SplitLines(s), m) && OneLine(m.subject) && OneLine(m.digest) && OneLine(m.created)
  {
    hide SplitLines, ReadValue, ReadEpoch, Ascii, PrintInt, OneLine, ValidUtf8;
    var lines := SplitLines(s);
    if |lines| == 8 {
      ValueMeans(Ascii("subject="), lines[1], m.subject);
      ValueMeans(Ascii("payload_sha512="), lines[3], m.digest);
      ValueMeans(Ascii("created="), lines[4], m.created);
      EpochMeans(Ascii("key_epoch="), lines[5], m.keyEpoch);
    }
  }

  lemma LabelledIsOneLine(name: string, v: bytes)
    requires (forall i :: 0 <= i < |name| ==> name[i] >= ' ') && 0x0A !in v
    ensures 0x0A !in Ascii(name) + v
  {
    hide Ascii, ValidUtf8;
    LabelIsOneLine(name);
  }

  lemma MessageSplits(m: Fields)
    requires OneLine(m.subject) && OneLine(m.digest) && OneLine(m.created)
    ensures LinesOf(SplitLines(Lines(m)), m)
  {
    hide Line, SplitLines, Ascii, PrintInt, ValidUtf8;
    LabelIsOneLine("TFWS3-SIGNATURE-V1");
    LabelledIsOneLine("subject=", m.subject);
    LabelIsOneLine("media_type=application/tfws+json");
    LabelledIsOneLine("payload_sha512=", m.digest);
    LabelledIsOneLine("created=", m.created);
    NumberIsOneLine(m.keyEpoch);
    LabelledIsOneLine("key_epoch=", PrintInt(m.keyEpoch));
    LabelIsOneLine("policy=tfws.hybrid.baseline.v1");
    var l6 := Line(Ascii("policy=tfws.hybrid.baseline.v1"), []);
    var l5 := Line(Ascii("key_epoch=") + PrintInt(m.keyEpoch), l6);
    var l4 := Line(Ascii("created=") + m.created, l5);
    var l3 := Line(Ascii("payload_sha512=") + m.digest, l4);
    var l2 := Line(Ascii("media_type=application/tfws+json"), l3);
    var l1 := Line(Ascii("subject=") + m.subject, l2);
    SplitFirst(Ascii("TFWS3-SIGNATURE-V1"), l1);
    SplitFirst(Ascii("subject=") + m.subject, l2);
    SplitFirst(Ascii("media_type=application/tfws+json"), l3);
    SplitFirst(Ascii("payload_sha512=") + m.digest, l4);
    SplitFirst(Ascii("created=") + m.created, l5);
    SplitFirst(Ascii("key_epoch=") + PrintInt(m.keyEpoch), l6);
    SplitFirst(Ascii("policy=tfws.hybrid.baseline.v1"), []);
    NothingToSplit();
  }

  /** The text whose lines are given, the last one without a break. */
  function JoinLines(lines: seq<bytes>): bytes
    requires lines != []
  {
    if |lines| == 1 then lines[0] else Line(lines[0], JoinLines(lines[1..]))
  }

  lemma {:induction false} SplitThenJoin(s: bytes)
    ensures JoinLines(SplitLines(s)) == s
    decreases |s|
  {
    hide SplitLines;
    if |SplitLines(s)| == 1 {
      LastOfLines(s);
    } else {
      FirstOfLines(s);
      var rest :| s == Line(SplitLines(s)[0], rest) && SplitLines(rest) == SplitLines(s)[1..];
      SplitThenJoin(rest);
    }
  }

  lemma JoinStep(lines: seq<bytes>, i: nat)
    requires i + 1 < |lines|
    ensures JoinLines(lines[i..]) == Line(lines[i], JoinLines(lines[i + 1..]))
  {
    hide Line;
    assert lines[i..][1..] == lines[i + 1..];
  }

  lemma LinesJoin(lines: seq<bytes>, m: Fields)
    requires LinesOf(lines, m)
    ensures JoinLines(lines) == Lines(m)
  {
    hide Line, Ascii, PrintInt, ValidUtf8, JoinLines;
    assert lines[0..] == lines;
    JoinStep(lines, 0);
    JoinStep(lines, 1);
    JoinStep(lines, 2);
    JoinStep(lines, 3);
    JoinStep(lines, 4);
    JoinStep(lines, 5);
    JoinStep(lines, 6);
    assert lines[7..] == [[]];
    JoinNothing();
  }

  lemma JoinNothing()
    ensures JoinLines([[]]) == []
  {
  }

  /** A text is the message for `m` exactly when its lines read back as `m`. */
  lemma MessageReadsBack(s: bytes, m: Fields)
    ensures PythonMessage(m) == Ok(s) <==> ReadMessage(s) == Some(m)
  {
    hide Lines, LinesOf, ReadMessage, OneLine, SplitLines, JoinLines;
    ReadMeans(s, m);
    if PythonMessage(m) == Ok(s) {
      MessageSplits(m);
    }
    if ReadMessage(s) == Some(m) {
      SplitThenJoin(s);
      LinesJoin(SplitLines(s), m);
    }
  }

  /** The same for the Rust printer, which refuses some of the fields. */
  lemma RustMessageReadsBack(s: bytes, m: Fields)
    requires IsU64(m.keyEpoch)
    ensures SignatureMessage(m) == Ok(s) <==>
            ReadMessage(s) == Some(m) && LowerHex(m.digest, 128) && 1 <= m.keyEpoch <= MAX_SAFE_INTEGER
  {
    hide ReadMessage, PythonMessage, LowerHex, SignatureMessage;
    MessagesAgree(m);
    MessageReadsBack(s, m);
  }

  /** When the two printers refuse: a line feed or a carriage return in one of the texts; and, for Rust alone, a digest
      that is not 128 lower-case hexadecimal digits or an epoch outside 1 to 2^53 - 1. */
  lemma MessageRefused(m: Fields)
    ensures var broken := exists b :: b in {0x0A, 0x0D} && (b in m.subject || b in m.digest || b in m.created);
            && (PythonMessage(m) == Err(NewlineInMetadata) <==> broken) && (PythonMessage(m).Err? <==> broken)
            && (IsU64(m.keyEpoch) ==>
                  && (SignatureMessage(m) == Err(NewlineInMetadata) <==> broken)
                  && (SignatureMessage(m) == Err(InvalidMetadata) <==>
                       !broken && !(LowerHex(m.digest, 128) && 1 <= m.keyEpoch <= 9007199254740991)))
  {
    hide Lines, Format, LowerHex, ValidUtf8;
    var cr, lf: byte := 0x0D, 0x0A;
    assert cr in {0x0A, 0x0D} && lf in {0x0A, 0x0D};
  }

  /** Messages that are equal cover equal fields, whatever text and whatever integer they hold. */
  lemma PythonMessageInjective(m: Fields, n: Fields)
    requires PythonMessage(m).Ok? && PythonMessage(m) == PythonMessage(n)
    ensures m == n
  {
    hide *;
    var s := PythonMessage(m).value;
    MessageReadsBack(s, m);
    MessageReadsBack(s, n);
  }

  /** Two accepted combinations of subject, digest, time and epoch with one message are the same. */
  lemma SignatureMessageInjective(m: Fields, n: Fields)
    requires IsU64(m.keyEpoch) && IsU64(n.keyEpoch) && SignatureMessage(m).Ok?
        && SignatureMessage(m) == SignatureMessage(n)
    ensures m == n
  {
    hide SignatureMessage, PythonMessage, LowerHex;
    MessagesAgree(m);
    MessagesAgree(n);
    PythonMessageInjective(m, n);
  }
}
