/** The SHA-256 digest of "abc", worked out step by step. */
module Sha256KnownAnswer {
  import opened Bytes
  import opened Sha256
  import opened Sha256Constants

  const ABC: bytes := [0x61, 0x62, 0x63]

  /** The one block of the padded message. */
  const BLOCK: seq<word> :=
    [0x61626380, 0x00000000, 0x00000000, 0x00000000, 0x00000000, 0x00000000, 0x00000000, 0x00000000] +
    [0x00000000, 0x00000000, 0x00000000, 0x00000000, 0x00000000, 0x00000000, 0x00000000, 0x00000018]

  lemma PaddedAbc()
    ensures ZeroCount(3) == 52 && BitLength(3) == 24
    ensures Padded(ABC) == ABC + ([0x80] + (Zeros(52) + [0, 0, 0, 0, 0, 0, 0, 24]))
    ensures |Padded(ABC)| == 64
  {
    assert BigEndian(24, 8) == [0, 0, 0, 0, 0, 0, 0, 24] by { ShortLength(); }
  }

  lemma ShortLength()
    ensures BigEndian(24, 8) == [0, 0, 0, 0, 0, 0, 0, 24]
  {
    ZeroBytes(7);
    assert BigEndian(24, 8) == BigEndian(0, 7) + [24];
  }

  lemma {:induction false} ZeroBytes(w: nat)
    ensures BigEndian(0, w) == Zeros(w)
  {
    if w > 0 {
      ZeroBytes(w - 1);
    }
  }

  lemma PaddedByte(i: nat)
    requires i < 64
    ensures |Padded(ABC)| == 64
    ensures Padded(ABC)[i] == if i < 3 then ABC[i] else if i == 3 then 0x80 else if i == 63 then 24 else 0
  {
    hide Padded, ZeroCount, BitLength;
    PaddedAbc();
  }

  lemma WordValue(s: bytes, i: nat, a: byte, b: byte, c: byte, d: byte)
    requires i + 4 <= |s| && s[i] == a && s[i + 1] == b && s[i + 2] == c && s[i + 3] == d
    ensures FromBigEndian(s[i..i + 4]) == 0x100_0000 * a + 0x1_0000 * b + 0x100 * c + d
  {
    var t := s[i..i + 4];
    assert t == [a, b, c, d];
    assert t[..3] == [a, b, c] && [a, b, c][..2] == [a, b] && [a, b][..1] == [a] && [a][..0] == [];
    assert FromBigEndian([a]) == a;
    assert FromBigEndian([a, b]) == 0x100 * a + b;
    assert FromBigEndian([a, b, c]) == 0x1_0000 * a + 0x100 * b + c;
  }

  lemma WordFrom(s: bytes, i: nat, w: word)
    requires i + 4 <= |s| && FromBigEndian(s[i..i + 4]) == w as int
    ensures WordAt(s, i) == w
  {
    hide FromBigEndian;
  }

  lemma FirstWord()
    ensures |Padded(ABC)| == 64 && WordAt(Padded(ABC), 0) == 0x61626380
  {
    hide Padded, FromBigEndian, WordAt, ABC;
    AbcBytes();
    PaddedByte(0);
    PaddedByte(1);
    PaddedByte(2);
    PaddedByte(3);
    WordValue(Padded(ABC), 0, 0x61, 0x62, 0x63, 0x80);
    WordFrom(Padded(ABC), 0, 0x61626380);
  }

  lemma MiddleWord(i: nat)
    requires 0 < i < 15
    ensures |Padded(ABC)| == 64 && WordAt(Padded(ABC), 4 * i) == 0
  {
    hide Padded, FromBigEndian, WordAt, ABC;
    PaddedByte(4 * i);
    PaddedByte(4 * i + 1);
    PaddedByte(4 * i + 2);
    PaddedByte(4 * i + 3);
    WordValue(Padded(ABC), 4 * i, 0, 0, 0, 0);
    WordFrom(Padded(ABC), 4 * i, 0);
  }

  lemma LastWord()
    ensures |Padded(ABC)| == 64 && WordAt(Padded(ABC), 60) == 0x18
  {
    hide Padded, FromBigEndian, WordAt, ABC;
    PaddedByte(60);
    PaddedByte(61);
    PaddedByte(62);
    PaddedByte(63);
    WordValue(Padded(ABC), 60, 0, 0, 0, 24);
    WordFrom(Padded(ABC), 60, 24);
  }

  lemma WordsOfAbc(i: nat)
    requires i < 16
    ensures |Padded(ABC)| == 64 && |BLOCK| == 16 && WordAt(Padded(ABC), 4 * i) == BLOCK[i]
  {
    hide *;
    FirstWord();
    LastWord();
    BlockAt(i);
    if 0 < i < 15 {
      MiddleWord(i);
    }
  }

  lemma AbcBytes()
    ensures ABC[0] == 0x61 && ABC[1] == 0x62 && ABC[2] == 0x63
  {
  }

  lemma BlockAt(i: nat)
    requires i < 16
    ensures |BLOCK| == 16 && BLOCK[i] == if i == 0 then 0x61626380 else if i == 15 then 0x18 else 0
  {
  }

  lemma BlockOfAbc()
    ensures |Padded(ABC)| == 64 && Block(Padded(ABC), 0) == BLOCK
  {
    hide Padded, WordAt, BLOCK;
    PaddedAbc();
    WordsOfAbc(0);
    forall i | 0 <= i < 16 ensures Block(Padded(ABC), 0)[i] == BLOCK[i] {
      WordsOfAbc(i);
    }
  }

  // ---------------------------------------------------------------- the message schedule

  lemma FirstWords()
    ensures |BLOCK| == 16
    ensures Schedule(BLOCK, 0) == 0x61626380 && Schedule(BLOCK, 15) == 0x18
    ensures forall t :: 0 < t < 15 ==> Schedule(BLOCK, t) == 0
  {
    hide BLOCK;
    BlockAt(0);
    forall t: nat | t < 16 ensures Schedule(BLOCK, t) == BLOCK[t] {
    }
    forall t: nat | t < 16 ensures BLOCK[t] == if t == 0 then 0x61626380 else if t == 15 then 0x18 else 0 {
      BlockAt(t);
    }
  }

  lemma ScheduleStep(block: seq<word>, t: nat, a: word, b: word, c: word, d: word)
    requires |block| == 16 && t >= 16
    requires Schedule(block, t - 16) == a && Schedule(block, t - 15) == b
    requires Schedule(block, t - 7) == c && Schedule(block, t - 2) == d
    ensures Schedule(block, t) ==
            WrappingAdd(WrappingAdd(WrappingAdd(a, SmallSigma0(b)), c), SmallSigma1(d))
  {
    hide WrappingAdd, SmallSigma0, SmallSigma1;
  }

  lemma Words16()
    ensures |BLOCK| == 16
    ensures Schedule(BLOCK, 16) == 0x61626380 && Schedule(BLOCK, 17) == 0x000f0000
    ensures Schedule(BLOCK, 18) == 0x7da86405 && Schedule(BLOCK, 19) == 0x600003c6
    ensures Schedule(BLOCK, 20) == 0x3e9d7b78 && Schedule(BLOCK, 21) == 0x0183fc00
    ensures Schedule(BLOCK, 22) == 0x12dcbfdb && Schedule(BLOCK, 23) == 0xe2e2c38e
  {
    hide Schedule, BLOCK;
    FirstWords();
    ScheduleStep(BLOCK, 16, 0x61626380, 0x00000000, 0x00000000, 0x00000000);
    ScheduleStep(BLOCK, 17, 0x00000000, 0x00000000, 0x00000000, 0x00000018);
    ScheduleStep(BLOCK, 18, 0x00000000, 0x00000000, 0x00000000, 0x61626380);
    ScheduleStep(BLOCK, 19, 0x00000000, 0x00000000, 0x00000000, 0x000f0000);
    ScheduleStep(BLOCK, 20, 0x00000000, 0x00000000, 0x00000000, 0x7da86405);
    ScheduleStep(BLOCK, 21, 0x00000000, 0x00000000, 0x00000000, 0x600003c6);
    ScheduleStep(BLOCK, 22, 0x00000000, 0x00000000, 0x00000018, 0x3e9d7b78);
    ScheduleStep(BLOCK, 23, 0x00000000, 0x00000000, 0x61626380, 0x0183fc00);
  }

  lemma Words24()
    ensures |BLOCK| == 16
    ensures Schedule(BLOCK, 24) == 0xc8215c1a && Schedule(BLOCK, 25) == 0xb73679a2
    ensures Schedule(BLOCK, 26) == 0xe5bc3909 && Schedule(BLOCK, 27) == 0x32663c5b
    ensures Schedule(BLOCK, 28) == 0x9d209d67 && Schedule(BLOCK, 29) == 0xec8726cb
    ensures Schedule(BLOCK, 30) == 0x702138a4 && Schedule(BLOCK, 31) == 0xd3b7973b
  {
    hide Schedule, BLOCK;
    FirstWords();
    Words16();
    ScheduleStep(BLOCK, 24, 0x00000000, 0x00000000, 0x000f0000, 0x12dcbfdb);
    ScheduleStep(BLOCK, 25, 0x00000000, 0x00000000, 0x7da86405, 0xe2e2c38e);
    ScheduleStep(BLOCK, 26, 0x00000000, 0x00000000, 0x600003c6, 0xc8215c1a);
    ScheduleStep(BLOCK, 27, 0x00000000, 0x00000000, 0x3e9d7b78, 0xb73679a2);
    ScheduleStep(BLOCK, 28, 0x00000000, 0x00000000, 0x0183fc00, 0xe5bc3909);
    ScheduleStep(BLOCK, 29, 0x00000000, 0x00000000, 0x12dcbfdb, 0x32663c5b);
    ScheduleStep(BLOCK, 30, 0x00000000, 0x00000018, 0xe2e2c38e, 0x9d209d67);
    ScheduleStep(BLOCK, 31, 0x00000018, 0x61626380, 0xc8215c1a, 0xec8726cb);
  }

  lemma Words32()
    ensures |BLOCK| == 16
    ensures Schedule(BLOCK, 32) == 0x93f5997f && Schedule(BLOCK, 33) == 0x3b68ba73
    ensures Schedule(BLOCK, 34) == 0xaff4ffc1 && Schedule(BLOCK, 35) == 0xf10a5c62
    ensures Schedule(BLOCK, 36) == 0x0a8b3996 && Schedule(BLOCK, 37) == 0x72af830a
    ensures Schedule(BLOCK, 38) == 0x9409e33e && Schedule(BLOCK, 39) == 0x24641522
  {
    hide Schedule, BLOCK;
    FirstWords();
    Words16();
    Words24();
    ScheduleStep(BLOCK, 32, 0x61626380, 0x000f0000, 0xb73679a2, 0x702138a4);
    ScheduleStep(BLOCK, 33, 0x000f0000, 0x7da86405, 0xe5bc3909, 0xd3b7973b);
    ScheduleStep(BLOCK, 34, 0x7da86405, 0x600003c6, 0x32663c5b, 0x93f5997f);
    ScheduleStep(BLOCK, 35, 0x600003c6, 0x3e9d7b78, 0x9d209d67, 0x3b68ba73);
    ScheduleStep(BLOCK, 36, 0x3e9d7b78, 0x0183fc00, 0xec8726cb, 0xaff4ffc1);
    ScheduleStep(BLOCK, 37, 0x0183fc00, 0x12dcbfdb, 0x702138a4, 0xf10a5c62);
    ScheduleStep(BLOCK, 38, 0x12dcbfdb, 0xe2e2c38e, 0xd3b7973b, 0x0a8b3996);
    ScheduleStep(BLOCK, 39, 0xe2e2c38e, 0xc8215c1a, 0x93f5997f, 0x72af830a);
  }

  lemma Words40()
    ensures |BLOCK| == 16
    ensures Schedule(BLOCK, 40) == 0x9f47bf94 && Schedule(BLOCK, 41) == 0xf0a64f5a
    ensures Schedule(BLOCK, 42) == 0x3e246a79 && Schedule(BLOCK, 43) == 0x27333ba3
    ensures Schedule(BLOCK, 44) == 0x0c4763f2 && Schedule(BLOCK, 45) == 0x840abf27
    ensures Schedule(BLOCK, 46) == 0x7a290d5d && Schedule(BLOCK, 47) == 0x065c43da
  {
    hide Schedule, BLOCK;
    FirstWords();
    Words24();
    Words32();
    ScheduleStep(BLOCK, 40, 0xc8215c1a, 0xb73679a2, 0x3b68ba73, 0x9409e33e);
    ScheduleStep(BLOCK, 41, 0xb73679a2, 0xe5bc3909, 0xaff4ffc1, 0x24641522);
    ScheduleStep(BLOCK, 42, 0xe5bc3909, 0x32663c5b, 0xf10a5c62, 0x9f47bf94);
    ScheduleStep(BLOCK, 43, 0x32663c5b, 0x9d209d67, 0x0a8b3996, 0xf0a64f5a);
    ScheduleStep(BLOCK, 44, 0x9d209d67, 0xec8726cb, 0x72af830a, 0x3e246a79);
    ScheduleStep(BLOCK, 45, 0xec8726cb, 0x702138a4, 0x9409e33e, 0x27333ba3);
    ScheduleStep(BLOCK, 46, 0x702138a4, 0xd3b7973b, 0x24641522, 0x0c4763f2);
    ScheduleStep(BLOCK, 47, 0xd3b7973b, 0x93f5997f, 0x9f47bf94, 0x840abf27);
  }

  lemma Words48()
    ensures |BLOCK| == 16
    ensures Schedule(BLOCK, 48) == 0xfb3e89cb && Schedule(BLOCK, 49) == 0xcc7617db
    ensures Schedule(BLOCK, 50) == 0xb9e66c34 && Schedule(BLOCK, 51) == 0xa9993667
    ensures Schedule(BLOCK, 52) == 0x84badedd && Schedule(BLOCK, 53) == 0xc21462bc
    ensures Schedule(BLOCK, 54) == 0x1487472c && Schedule(BLOCK, 55) == 0xb20f7a99
  {
    hide Schedule, BLOCK;
    FirstWords();
    Words32();
    Words40();
    ScheduleStep(BLOCK, 48, 0x93f5997f, 0x3b68ba73, 0xf0a64f5a, 0x7a290d5d);
    ScheduleStep(BLOCK, 49, 0x3b68ba73, 0xaff4ffc1, 0x3e246a79, 0x065c43da);
    ScheduleStep(BLOCK, 50, 0xaff4ffc1, 0xf10a5c62, 0x27333ba3, 0xfb3e89cb);
    ScheduleStep(BLOCK, 51, 0xf10a5c62, 0x0a8b3996, 0x0c4763f2, 0xcc7617db);
    ScheduleStep(BLOCK, 52, 0x0a8b3996, 0x72af830a, 0x840abf27, 0xb9e66c34);
    ScheduleStep(BLOCK, 53, 0x72af830a, 0x9409e33e, 0x7a290d5d, 0xa9993667);
    ScheduleStep(BLOCK, 54, 0x9409e33e, 0x24641522, 0x065c43da, 0x84badedd);
    ScheduleStep(BLOCK, 55, 0x24641522, 0x9f47bf94, 0xfb3e89cb, 0xc21462bc);
  }

  lemma Words56()
    ensures |BLOCK| == 16
    ensures Schedule(BLOCK, 56) == 0xef57b9cd && Schedule(BLOCK, 57) == 0xebe6b238
    ensures Schedule(BLOCK, 58) == 0x9fe3095e && Schedule(BLOCK, 59) == 0x78bc8d4b
    ensures Schedule(BLOCK, 60) == 0xa43fcf15 && Schedule(BLOCK, 61) == 0x668b2ff8
    ensures Schedule(BLOCK, 62) == 0xeeaba2cc && Schedule(BLOCK, 63) == 0x12b1edeb
  {
    hide Schedule, BLOCK;
    FirstWords();
    Words40();
    Words48();
    ScheduleStep(BLOCK, 56, 0x9f47bf94, 0xf0a64f5a, 0xcc7617db, 0x1487472c);
    ScheduleStep(BLOCK, 57, 0xf0a64f5a, 0x3e246a79, 0xb9e66c34, 0xb20f7a99);
    ScheduleStep(BLOCK, 58, 0x3e246a79, 0x27333ba3, 0xa9993667, 0xef57b9cd);
    ScheduleStep(BLOCK, 59, 0x27333ba3, 0x0c4763f2, 0x84badedd, 0xebe6b238);
    ScheduleStep(BLOCK, 60, 0x0c4763f2, 0x840abf27, 0xc21462bc, 0x9fe3095e);
    ScheduleStep(BLOCK, 61, 0x840abf27, 0x7a290d5d, 0x1487472c, 0x78bc8d4b);
    ScheduleStep(BLOCK, 62, 0x7a290d5d, 0x065c43da, 0xb20f7a99, 0xa43fcf15);
    ScheduleStep(BLOCK, 63, 0x065c43da, 0xfb3e89cb, 0xef57b9cd, 0x668b2ff8);
  }

  // ---------------------------------------------------------------- the rounds

  lemma RoundsStep(block: seq<word>, s: Working, t: nat, before: Working, k: word, w: word)
    requires |block| == 16 && t < 64 && Rounds(block, s, t) == before && Schedule(block, t) == w && ROUND[t] == k
    ensures Rounds(block, s, t + 1) == Round(before, k, w)
  {
    hide Schedule, Round, ROUND;
  }

  lemma Rounds0()
    ensures |BLOCK| == 16
    ensures Rounds(BLOCK, INITIAL, 8) ==
            Working(0x85a07b5f, 0xe5030380, 0x2b4209f5, 0x04409a6a,
                    0x0c657a79, 0x9b27a401, 0x714260ad, 0x43ada245)
  {
    hide Schedule, Rounds, BLOCK, ROUND;
    Constants0();
    FirstWords();
    NoRounds();
    RoundsStep(BLOCK, INITIAL, 0,
      Working(0x6a09e667, 0xbb67ae85, 0x3c6ef372, 0xa54ff53a, 0x510e527f, 0x9b05688c, 0x1f83d9ab, 0x5be0cd19),
      0x428a2f98, 0x61626380);
    RoundsStep(BLOCK, INITIAL, 1,
      Working(0x5d6aebcd, 0x6a09e667, 0xbb67ae85, 0x3c6ef372, 0xfa2a4622, 0x510e527f, 0x9b05688c, 0x1f83d9ab),
      0x71374491, 0x00000000);
    RoundsStep(BLOCK, INITIAL, 2,
      Working(0x5a6ad9ad, 0x5d6aebcd, 0x6a09e667, 0xbb67ae85, 0x78ce7989, 0xfa2a4622, 0x510e527f, 0x9b05688c),
      0xb5c0fbcf, 0x00000000);
    RoundsStep(BLOCK, INITIAL, 3,
      Working(0xc8c347a7, 0x5a6ad9ad, 0x5d6aebcd, 0x6a09e667, 0xf92939eb, 0x78ce7989, 0xfa2a4622, 0x510e527f),
      0xe9b5dba5, 0x00000000);
    RoundsStep(BLOCK, INITIAL, 4,
      Working(0xd550f666, 0xc8c347a7, 0x5a6ad9ad, 0x5d6aebcd, 0x24e00850, 0xf92939eb, 0x78ce7989, 0xfa2a4622),
      0x3956c25b, 0x00000000);
    RoundsStep(BLOCK, INITIAL, 5,
      Working(0x04409a6a, 0xd550f666, 0xc8c347a7, 0x5a6ad9ad, 0x43ada245, 0x24e00850, 0xf92939eb, 0x78ce7989),
      0x59f111f1, 0x00000000);
    RoundsStep(BLOCK, INITIAL, 6,
      Working(0x2b4209f5, 0x04409a6a, 0xd550f666, 0xc8c347a7, 0x714260ad, 0x43ada245, 0x24e00850, 0xf92939eb),
      0x923f82a4, 0x00000000);
    RoundsStep(BLOCK, INITIAL, 7,
      Working(0xe5030380, 0x2b4209f5, 0x04409a6a, 0xd550f666, 0x9b27a401, 0x714260ad, 0x43ada245, 0x24e00850),
      0xab1c5ed5, 0x00000000);
  }

  lemma Rounds8()
    ensures |BLOCK| == 16
    ensures Rounds(BLOCK, INITIAL, 16) ==
            Working(0xb0fa238e, 0xc0645fde, 0xd932eb16, 0x87912990,
                    0x07590dcd, 0x0b92f20c, 0x745a48de, 0x1e578218)
  {
    hide Schedule, Rounds, BLOCK, ROUND;
    Constants8();
    FirstWords();
    Rounds0();
    RoundsStep(BLOCK, INITIAL, 8,
      Working(0x85a07b5f, 0xe5030380, 0x2b4209f5, 0x04409a6a, 0x0c657a79, 0x9b27a401, 0x714260ad, 0x43ada245),
      0xd807aa98, 0x00000000);
    RoundsStep(BLOCK, INITIAL, 9,
      Working(0x8e04ecb9, 0x85a07b5f, 0xe5030380, 0x2b4209f5, 0x32ca2d8c, 0x0c657a79, 0x9b27a401, 0x714260ad),
      0x12835b01, 0x00000000);
    RoundsStep(BLOCK, INITIAL, 10,
      Working(0x8c87346b, 0x8e04ecb9, 0x85a07b5f, 0xe5030380, 0x1cc92596, 0x32ca2d8c, 0x0c657a79, 0x9b27a401),
      0x243185be, 0x00000000);
    RoundsStep(BLOCK, INITIAL, 11,
      Working(0x4798a3f4, 0x8c87346b, 0x8e04ecb9, 0x85a07b5f, 0x436b23e8, 0x1cc92596, 0x32ca2d8c, 0x0c657a79),
      0x550c7dc3, 0x00000000);
    RoundsStep(BLOCK, INITIAL, 12,
      Working(0xf71fc5a9, 0x4798a3f4, 0x8c87346b, 0x8e04ecb9, 0x816fd6e9, 0x436b23e8, 0x1cc92596, 0x32ca2d8c),
      0x72be5d74, 0x00000000);
    RoundsStep(BLOCK, INITIAL, 13,
      Working(0x87912990, 0xf71fc5a9, 0x4798a3f4, 0x8c87346b, 0x1e578218, 0x816fd6e9, 0x436b23e8, 0x1cc92596),
      0x80deb1fe, 0x00000000);
    RoundsStep(BLOCK, INITIAL, 14,
      Working(0xd932eb16, 0x87912990, 0xf71fc5a9, 0x4798a3f4, 0x745a48de, 0x1e578218, 0x816fd6e9, 0x436b23e8),
      0x9bdc06a7, 0x00000000);
    RoundsStep(BLOCK, INITIAL, 15,
      Working(0xc0645fde, 0xd932eb16, 0x87912990, 0xf71fc5a9, 0x0b92f20c, 0x745a48de, 0x1e578218, 0x816fd6e9),
      0xc19bf174, 0x00000018);
  }

  lemma Rounds16()
    ensures |BLOCK| == 16
    ensures Rounds(BLOCK, INITIAL, 24) ==
            Working(0xc5d53d8d, 0xa7a3623f, 0xc2606d6d, 0x9dc68b63,
                    0xaa47c347, 0x49f5114a, 0xe1257970, 0x8ada8930)
  {
    hide Schedule, Rounds, BLOCK, ROUND;
    Constants16();
    Words16();
    Rounds8();
    RoundsStep(BLOCK, INITIAL, 16,
      Working(0xb0fa238e, 0xc0645fde, 0xd932eb16, 0x87912990, 0x07590dcd, 0x0b92f20c, 0x745a48de, 0x1e578218),
      0xe49b69c1, 0x61626380);
    RoundsStep(BLOCK, INITIAL, 17,
      Working(0x21da9a9b, 0xb0fa238e, 0xc0645fde, 0xd932eb16, 0x8034229c, 0x07590dcd, 0x0b92f20c, 0x745a48de),
      0xefbe4786, 0x000f0000);
    RoundsStep(BLOCK, INITIAL, 18,
      Working(0xc2fbd9d1, 0x21da9a9b, 0xb0fa238e, 0xc0645fde, 0x846ee454, 0x8034229c, 0x07590dcd, 0x0b92f20c),
      0x0fc19dc6, 0x7da86405);
    RoundsStep(BLOCK, INITIAL, 19,
      Working(0xfe777bbf, 0xc2fbd9d1, 0x21da9a9b, 0xb0fa238e, 0xcc899961, 0x846ee454, 0x8034229c, 0x07590dcd),
      0x240ca1cc, 0x600003c6);
    RoundsStep(BLOCK, INITIAL, 20,
      Working(0xe1f20c33, 0xfe777bbf, 0xc2fbd9d1, 0x21da9a9b, 0xb0638179, 0xcc899961, 0x846ee454, 0x8034229c),
      0x2de92c6f, 0x3e9d7b78);
    RoundsStep(BLOCK, INITIAL, 21,
      Working(0x9dc68b63, 0xe1f20c33, 0xfe777bbf, 0xc2fbd9d1, 0x8ada8930, 0xb0638179, 0xcc899961, 0x846ee454),
      0x4a7484aa, 0x0183fc00);
    RoundsStep(BLOCK, INITIAL, 22,
      Working(0xc2606d6d, 0x9dc68b63, 0xe1f20c33, 0xfe777bbf, 0xe1257970, 0x8ada8930, 0xb0638179, 0xcc899961),
      0x5cb0a9dc, 0x12dcbfdb);
    RoundsStep(BLOCK, INITIAL, 23,
      Working(0xa7a3623f, 0xc2606d6d, 0x9dc68b63, 0xe1f20c33, 0x49f5114a, 0xe1257970, 0x8ada8930, 0xb0638179),
      0x76f988da, 0xe2e2c38e);
  }

  lemma Rounds24()
    ensures |BLOCK| == 16
    ensures Rounds(BLOCK, INITIAL, 32) ==
            Working(0x73b33bf5, 0xea992a22, 0xa0060b30, 0x363482c9,
                    0xba591112, 0x0109ab3a, 0xade79437, 0x6112a3b7)
  {
    hide Schedule, Rounds, BLOCK, ROUND;
    Constants24();
    Words24();
    Rounds16();
    RoundsStep(BLOCK, INITIAL, 24,
      Working(0xc5d53d8d, 0xa7a3623f, 0xc2606d6d, 0x9dc68b63, 0xaa47c347, 0x49f5114a, 0xe1257970, 0x8ada8930),
      0x983e5152, 0xc8215c1a);
    RoundsStep(BLOCK, INITIAL, 25,
      Working(0x1c2c2838, 0xc5d53d8d, 0xa7a3623f, 0xc2606d6d, 0x2823ef91, 0xaa47c347, 0x49f5114a, 0xe1257970),
      0xa831c66d, 0xb73679a2);
    RoundsStep(BLOCK, INITIAL, 26,
      Working(0xcde8037d, 0x1c2c2838, 0xc5d53d8d, 0xa7a3623f, 0x14383d8e, 0x2823ef91, 0xaa47c347, 0x49f5114a),
      0xb00327c8, 0xe5bc3909);
    RoundsStep(BLOCK, INITIAL, 27,
      Working(0xb62ec4bc, 0xcde8037d, 0x1c2c2838, 0xc5d53d8d, 0xc74c6516, 0x14383d8e, 0x2823ef91, 0xaa47c347),
      0xbf597fc7, 0x32663c5b);
    RoundsStep(BLOCK, INITIAL, 28,
      Working(0x77d37528, 0xb62ec4bc, 0xcde8037d, 0x1c2c2838, 0xedffbff8, 0xc74c6516, 0x14383d8e, 0x2823ef91),
      0xc6e00bf3, 0x9d209d67);
    RoundsStep(BLOCK, INITIAL, 29,
      Working(0x363482c9, 0x77d37528, 0xb62ec4bc, 0xcde8037d, 0x6112a3b7, 0xedffbff8, 0xc74c6516, 0x14383d8e),
      0xd5a79147, 0xec8726cb);
    RoundsStep(BLOCK, INITIAL, 30,
      Working(0xa0060b30, 0x363482c9, 0x77d37528, 0xb62ec4bc, 0xade79437, 0x6112a3b7, 0xedffbff8, 0xc74c6516),
      0x06ca6351, 0x702138a4);
    RoundsStep(BLOCK, INITIAL, 31,
      Working(0xea992a22, 0xa0060b30, 0x363482c9, 0x77d37528, 0x0109ab3a, 0xade79437, 0x6112a3b7, 0xedffbff8),
      0x14292967, 0xd3b7973b);
  }

  lemma Rounds32()
    ensures |BLOCK| == 16
    ensures Rounds(BLOCK, INITIAL, 40) ==
            Working(0x79ea687a, 0x6dc57a8a, 0x34df1604, 0x41a65cb1,
                    0x1efbc0a0, 0xf0781bc8, 0xa507a53d, 0x0772a26b)
  {
    hide Schedule, Rounds, BLOCK, ROUND;
    Constants32();
    Words32();
    Rounds24();
    RoundsStep(BLOCK, INITIAL, 32,
      Working(0x73b33bf5, 0xea992a22, 0xa0060b30, 0x363482c9, 0xba591112, 0x0109ab3a, 0xade79437, 0x6112a3b7),
      0x27b70a85, 0x93f5997f);
    RoundsStep(BLOCK, INITIAL, 33,
      Working(0x98e12507, 0x73b33bf5, 0xea992a22, 0xa0060b30, 0x9cd9f5f6, 0xba591112, 0x0109ab3a, 0xade79437),
      0x2e1b2138, 0x3b68ba73);
    RoundsStep(BLOCK, INITIAL, 34,
      Working(0xfe604df5, 0x98e12507, 0x73b33bf5, 0xea992a22, 0x59249dd3, 0x9cd9f5f6, 0xba591112, 0x0109ab3a),
      0x4d2c6dfc, 0xaff4ffc1);
    RoundsStep(BLOCK, INITIAL, 35,
      Working(0xa9a7738c, 0xfe604df5, 0x98e12507, 0x73b33bf5, 0x085f3833, 0x59249dd3, 0x9cd9f5f6, 0xba591112),
      0x53380d13, 0xf10a5c62);
    RoundsStep(BLOCK, INITIAL, 36,
      Working(0x65a0cfe4, 0xa9a7738c, 0xfe604df5, 0x98e12507, 0xf4b002d6, 0x085f3833, 0x59249dd3, 0x9cd9f5f6),
      0x650a7354, 0x0a8b3996);
    RoundsStep(BLOCK, INITIAL, 37,
      Working(0x41a65cb1, 0x65a0cfe4, 0xa9a7738c, 0xfe604df5, 0x0772a26b, 0xf4b002d6, 0x085f3833, 0x59249dd3),
      0x766a0abb, 0x72af830a);
    RoundsStep(BLOCK, INITIAL, 38,
      Working(0x34df1604, 0x41a65cb1, 0x65a0cfe4, 0xa9a7738c, 0xa507a53d, 0x0772a26b, 0xf4b002d6, 0x085f3833),
      0x81c2c92e, 0x9409e33e);
    RoundsStep(BLOCK, INITIAL, 39,
      Working(0x6dc57a8a, 0x34df1604, 0x41a65cb1, 0x65a0cfe4, 0xf0781bc8, 0xa507a53d, 0x0772a26b, 0xf4b002d6),
      0x92722c85, 0x24641522);
  }

  lemma Rounds40()
    ensures |BLOCK| == 16
    ensures Rounds(BLOCK, INITIAL, 48) ==
            Working(0x4172328d, 0xa14c14b0, 0x72ab4b91, 0x26628815,
                    0xfecf0bc6, 0xd57b94a9, 0xb7755da1, 0xa80f11f0)
  {
    hide Schedule, Rounds, BLOCK, ROUND;
    Constants40();
    Words40();
    Rounds32();
    RoundsStep(BLOCK, INITIAL, 40,
      Working(0x79ea687a, 0x6dc57a8a, 0x34df1604, 0x41a65cb1, 0x1efbc0a0, 0xf0781bc8, 0xa507a53d, 0x0772a26b),
      0xa2bfe8a1, 0x9f47bf94);
    RoundsStep(BLOCK, INITIAL, 41,
      Working(0xd6670766, 0x79ea687a, 0x6dc57a8a, 0x34df1604, 0x26352d63, 0x1efbc0a0, 0xf0781bc8, 0xa507a53d),
      0xa81a664b, 0xf0a64f5a);
    RoundsStep(BLOCK, INITIAL, 42,
      Working(0xdf46652f, 0xd6670766, 0x79ea687a, 0x6dc57a8a, 0x838b2711, 0x26352d63, 0x1efbc0a0, 0xf0781bc8),
      0xc24b8b70, 0x3e246a79);
    RoundsStep(BLOCK, INITIAL, 43,
      Working(0x17aa0dfe, 0xdf46652f, 0xd6670766, 0x79ea687a, 0xdecd4715, 0x838b2711, 0x26352d63, 0x1efbc0a0),
      0xc76c51a3, 0x27333ba3);
    RoundsStep(BLOCK, INITIAL, 44,
      Working(0x9d4baf93, 0x17aa0dfe, 0xdf46652f, 0xd6670766, 0xfda24c2e, 0xdecd4715, 0x838b2711, 0x26352d63),
      0xd192e819, 0x0c4763f2);
    RoundsStep(BLOCK, INITIAL, 45,
      Working(0x26628815, 0x9d4baf93, 0x17aa0dfe, 0xdf46652f, 0xa80f11f0, 0xfda24c2e, 0xdecd4715, 0x838b2711),
      0xd6990624, 0x840abf27);
    RoundsStep(BLOCK, INITIAL, 46,
      Working(0x72ab4b91, 0x26628815, 0x9d4baf93, 0x17aa0dfe, 0xb7755da1, 0xa80f11f0, 0xfda24c2e, 0xdecd4715),
      0xf40e3585, 0x7a290d5d);
    RoundsStep(BLOCK, INITIAL, 47,
      Working(0xa14c14b0, 0x72ab4b91, 0x26628815, 0x9d4baf93, 0xd57b94a9, 0xb7755da1, 0xa80f11f0, 0xfda24c2e),
      0x106aa070, 0x065c43da);
  }

  lemma Rounds48()
    ensures |BLOCK| == 16
    ensures Rounds(BLOCK, INITIAL, 56) ==
            Working(0x38cc9913, 0x3ec45cdb, 0xf5702fdb, 0x101fd28f,
                    0x54cb266b, 0xe50e1b4f, 0x9f4787c3, 0x529e7d00)
  {
    hide Schedule, Rounds, BLOCK, ROUND;
    Constants48();
    Words48();
    Rounds40();
    RoundsStep(BLOCK, INITIAL, 48,
      Working(0x4172328d, 0xa14c14b0, 0x72ab4b91, 0x26628815, 0xfecf0bc6, 0xd57b94a9, 0xb7755da1, 0xa80f11f0),
      0x19a4c116, 0xfb3e89cb);
    RoundsStep(BLOCK, INITIAL, 49,
      Working(0x05757ceb, 0x4172328d, 0xa14c14b0, 0x72ab4b91, 0xbd714038, 0xfecf0bc6, 0xd57b94a9, 0xb7755da1),
      0x1e376c08, 0xcc7617db);
    RoundsStep(BLOCK, INITIAL, 50,
      Working(0xf11bfaa8, 0x05757ceb, 0x4172328d, 0xa14c14b0, 0x6e5c390c, 0xbd714038, 0xfecf0bc6, 0xd57b94a9),
      0x2748774c, 0xb9e66c34);
    RoundsStep(BLOCK, INITIAL, 51,
      Working(0x7a0508a1, 0xf11bfaa8, 0x05757ceb, 0x4172328d, 0x52f1ccf7, 0x6e5c390c, 0xbd714038, 0xfecf0bc6),
      0x34b0bcb5, 0xa9993667);
    RoundsStep(BLOCK, INITIAL, 52,
      Working(0x886e7a22, 0x7a0508a1, 0xf11bfaa8, 0x05757ceb, 0x49231c1e, 0x52f1ccf7, 0x6e5c390c, 0xbd714038),
      0x391c0cb3, 0x84badedd);
    RoundsStep(BLOCK, INITIAL, 53,
      Working(0x101fd28f, 0x886e7a22, 0x7a0508a1, 0xf11bfaa8, 0x529e7d00, 0x49231c1e, 0x52f1ccf7, 0x6e5c390c),
      0x4ed8aa4a, 0xc21462bc);
    RoundsStep(BLOCK, INITIAL, 54,
      Working(0xf5702fdb, 0x101fd28f, 0x886e7a22, 0x7a0508a1, 0x9f4787c3, 0x529e7d00, 0x49231c1e, 0x52f1ccf7),
      0x5b9cca4f, 0x1487472c);
    RoundsStep(BLOCK, INITIAL, 55,
      Working(0x3ec45cdb, 0xf5702fdb, 0x101fd28f, 0x886e7a22, 0xe50e1b4f, 0x9f4787c3, 0x529e7d00, 0x49231c1e),
      0x682e6ff3, 0xb20f7a99);
  }

  lemma Rounds56()
    ensures |BLOCK| == 16
    ensures Rounds(BLOCK, INITIAL, 64) ==
            Working(0x506e3058, 0xd39a2165, 0x04d24d6c, 0xb85e2ce9,
                    0x5ef50f24, 0xfb121210, 0x948d25b6, 0x961f4894)
  {
    hide Schedule, Rounds, BLOCK, ROUND;
    Constants56();
    Words56();
    Rounds48();
    RoundsStep(BLOCK, INITIAL, 56,
      Working(0x38cc9913, 0x3ec45cdb, 0xf5702fdb, 0x101fd28f, 0x54cb266b, 0xe50e1b4f, 0x9f4787c3, 0x529e7d00),
      0x748f82ee, 0xef57b9cd);
    RoundsStep(BLOCK, INITIAL, 57,
      Working(0xfcd1887b, 0x38cc9913, 0x3ec45cdb, 0xf5702fdb, 0x9b5e906c, 0x54cb266b, 0xe50e1b4f, 0x9f4787c3),
      0x78a5636f, 0xebe6b238);
    RoundsStep(BLOCK, INITIAL, 58,
      Working(0xc062d46f, 0xfcd1887b, 0x38cc9913, 0x3ec45cdb, 0x7e44008e, 0x9b5e906c, 0x54cb266b, 0xe50e1b4f),
      0x84c87814, 0x9fe3095e);
    RoundsStep(BLOCK, INITIAL, 59,
      Working(0xffb70472, 0xc062d46f, 0xfcd1887b, 0x38cc9913, 0x6d83bfc6, 0x7e44008e, 0x9b5e906c, 0x54cb266b),
      0x8cc70208, 0x78bc8d4b);
    RoundsStep(BLOCK, INITIAL, 60,
      Working(0xb6ae8fff, 0xffb70472, 0xc062d46f, 0xfcd1887b, 0xb21bad3d, 0x6d83bfc6, 0x7e44008e, 0x9b5e906c),
      0x90befffa, 0xa43fcf15);
    RoundsStep(BLOCK, INITIAL, 61,
      Working(0xb85e2ce9, 0xb6ae8fff, 0xffb70472, 0xc062d46f, 0x961f4894, 0xb21bad3d, 0x6d83bfc6, 0x7e44008e),
      0xa4506ceb, 0x668b2ff8);
    RoundsStep(BLOCK, INITIAL, 62,
      Working(0x04d24d6c, 0xb85e2ce9, 0xb6ae8fff, 0xffb70472, 0x948d25b6, 0x961f4894, 0xb21bad3d, 0x6d83bfc6),
      0xbef9a3f7, 0xeeaba2cc);
    RoundsStep(BLOCK, INITIAL, 63,
      Working(0xd39a2165, 0x04d24d6c, 0xb85e2ce9, 0xb6ae8fff, 0xfb121210, 0x948d25b6, 0x961f4894, 0xb21bad3d),
      0xc67178f2, 0x12b1edeb);
  }

  lemma NoRounds()
    ensures |BLOCK| == 16 && Rounds(BLOCK, INITIAL, 0) == INITIAL
  {
  }

  lemma CompressedAbc()
    ensures |BLOCK| == 16
    ensures Compress(INITIAL, BLOCK) ==
            Working(0xba7816bf, 0x8f01cfea, 0x414140de, 0x5dae2223,
                    0xb00361a3, 0x96177a9c, 0xb410ff61, 0xf20015ad)
  {
    hide Rounds, BLOCK;
    Rounds56();
  }

  lemma HashedAbc()
    ensures |Padded(ABC)| == 64 && |BLOCK| == 16
    ensures HashBlocks(Padded(ABC), 1) == Compress(INITIAL, BLOCK)
  {
    hide Padded, Compress, Block, BLOCK, INITIAL;
    BlockOfAbc();
  }

  lemma Digits(n: nat, a: byte, b: byte, c: byte, d: byte)
    requires n == 0x100_0000 * a + 0x1_0000 * b + 0x100 * c + d
    ensures BigEndian(n, 4) == [a, b, c, d]
  {
    hide BigEndian;
    NoDigits();
    NextDigit(0, 0, a);
    NextDigit(a, 1, b);
    NextDigit(0x100 * a + b, 2, c);
    NextDigit(0x1_0000 * a + 0x100 * b + c, 3, d);
  }

  lemma Bytes4(w: word, n: nat, a: byte, b: byte, c: byte, d: byte)
    requires w as int == n == 0x100_0000 * a + 0x1_0000 * b + 0x100 * c + d
    ensures WordBytes(w) == [a, b, c, d]
  {
    hide BigEndian;
    Digits(n, a, b, c, d);
  }

  lemma Output0()
    ensures WordBytes(0xba7816bf) == [0xba, 0x78, 0x16, 0xbf]
    ensures WordBytes(0x8f01cfea) == [0x8f, 0x01, 0xcf, 0xea]
    ensures WordBytes(0x414140de) == [0x41, 0x41, 0x40, 0xde]
    ensures WordBytes(0x5dae2223) == [0x5d, 0xae, 0x22, 0x23]
  {
    hide WordBytes;
    Bytes4(0xba7816bf, 0xba7816bf, 0xba, 0x78, 0x16, 0xbf);
    Bytes4(0x8f01cfea, 0x8f01cfea, 0x8f, 0x01, 0xcf, 0xea);
    Bytes4(0x414140de, 0x414140de, 0x41, 0x41, 0x40, 0xde);
    Bytes4(0x5dae2223, 0x5dae2223, 0x5d, 0xae, 0x22, 0x23);
  }

  lemma Output4()
    ensures WordBytes(0xb00361a3) == [0xb0, 0x03, 0x61, 0xa3]
    ensures WordBytes(0x96177a9c) == [0x96, 0x17, 0x7a, 0x9c]
    ensures WordBytes(0xb410ff61) == [0xb4, 0x10, 0xff, 0x61]
    ensures WordBytes(0xf20015ad) == [0xf2, 0x00, 0x15, 0xad]
  {
    hide WordBytes;
    Bytes4(0xb00361a3, 0xb00361a3, 0xb0, 0x03, 0x61, 0xa3);
    Bytes4(0x96177a9c, 0x96177a9c, 0x96, 0x17, 0x7a, 0x9c);
    Bytes4(0xb410ff61, 0xb410ff61, 0xb4, 0x10, 0xff, 0x61);
    Bytes4(0xf20015ad, 0xf20015ad, 0xf2, 0x00, 0x15, 0xad);
  }

  lemma OutputOfAbc()
    ensures Output(
              Working(0xba7816bf, 0x8f01cfea, 0x414140de, 0x5dae2223,
                      0xb00361a3, 0x96177a9c, 0xb410ff61, 0xf20015ad)) == [
              0xba, 0x78, 0x16, 0xbf, 0x8f, 0x01, 0xcf, 0xea, 0x41, 0x41, 0x40, 0xde, 0x5d, 0xae, 0x22, 0x23,
              0xb0, 0x03, 0x61, 0xa3, 0x96, 0x17, 0x7a, 0x9c, 0xb4, 0x10, 0xff, 0x61, 0xf2, 0x00, 0x15, 0xad]
  {
    hide WordBytes;
    Output0();
    Output4();
  }

  /** The digest that the Rust tests expect for "abc", which is the example of the standard. */
  lemma DigestOfAbc()
    ensures Digest([0x61, 0x62, 0x63]) == [
              0xba, 0x78, 0x16, 0xbf, 0x8f, 0x01, 0xcf, 0xea, 0x41, 0x41, 0x40, 0xde, 0x5d, 0xae, 0x22, 0x23,
              0xb0, 0x03, 0x61, 0xa3, 0x96, 0x17, 0x7a, 0x9c, 0xb4, 0x10, 0xff, 0x61, 0xf2, 0x00, 0x15, 0xad]
  {
    hide Padded, HashBlocks, Compress, Output, BLOCK, INITIAL;
    PaddedAbc();
    HashedAbc();
    CompressedAbc();
    OutputOfAbc();
  }
}
