/** What SHA-256 is by FIPS 180-4, stated apart from the definitions: its logical functions bit by bit (section
    4.1.2), its blocks (section 5.2.1), its chaining and its digest (section 6.2.2). */
module Sha256Standard {
  import opened Bytes
  import opened Sha256

  // ---------------------------------------------------------------- logical functions

  function BitValue(x: word, i: word): word
    requires i < 32
  {
    (x >> i) & 1
  }

  /** Bit `i` of a word, counted from the least significant. */
  predicate Bit(x: word, i: word)
    requires i < 32
  {
    BitValue(x, i) == 1
  }

  lemma BitIsZeroOrOne(x: word, i: word)
    requires i < 32
    ensures BitValue(x, i) <= 1
  {
  }

  lemma XorValue(x: word, y: word, i: word)
    requires i < 32
    ensures BitValue(Xor(x, y), i) == BitValue(x, i) ^ BitValue(y, i)
  {
  }

  lemma XorBit(x: word, y: word, i: word)
    requires i < 32
    ensures Bit(Xor(x, y), i) <==> Bit(x, i) != Bit(y, i)
  {
    hide BitValue, Xor;
    XorValue(x, y, i);
    BitIsZeroOrOne(x, i);
    BitIsZeroOrOne(y, i);
  }

  function And(x: word, y: word): word {
    x & y
  }

  function Not(x: word): word {
    !x
  }

  lemma AndValue(x: word, y: word, i: word)
    requires i < 32
    ensures BitValue(And(x, y), i) == BitValue(x, i) & BitValue(y, i)
  {
  }

  lemma AndBit(x: word, y: word, i: word)
    requires i < 32
    ensures Bit(And(x, y), i) <==> Bit(x, i) && Bit(y, i)
  {
    hide BitValue, And;
    AndValue(x, y, i);
    BitIsZeroOrOne(x, i);
    BitIsZeroOrOne(y, i);
  }

  lemma NotValue(x: word, i: word)
    requires i < 32
    ensures BitValue(Not(x), i) == 1 ^ BitValue(x, i)
  {
  }

  lemma NotBit(x: word, i: word)
    requires i < 32
    ensures Bit(Not(x), i) <==> !Bit(x, i)
  {
    hide BitValue, Not;
    NotValue(x, i);
    BitIsZeroOrOne(x, i);
  }

  lemma ChParts(x: word, y: word, z: word)
    ensures Ch(x, y, z) == Xor(And(x, y), And(Not(x), z))
  {
  }

  lemma MajParts(x: word, y: word, z: word)
    ensures Maj(x, y, z) == Xor(Xor(And(x, y), And(x, z)), And(y, z))
  {
  }

  /** Where `x` is set the choice is `y`, elsewhere `z`. */
  lemma ChBit(x: word, y: word, z: word, i: word)
    requires i < 32
    ensures Bit(Ch(x, y, z), i) <==> if Bit(x, i) then Bit(y, i) else Bit(z, i)
  {
    hide *;
    ChParts(x, y, z);
    XorBit(And(x, y), And(Not(x), z), i);
    AndBit(x, y, i);
    AndBit(Not(x), z, i);
    NotBit(x, i);
  }

  lemma ChMasks(x: word, y: word, z: word)
    ensures Ch(x, y, z) & x == y & x && Ch(x, y, z) & !x == z & !x
  {
  }

  /** The majority is the bit that two of the three have. */
  lemma MajBit(x: word, y: word, z: word, i: word)
    requires i < 32
    ensures Bit(x, i) == Bit(y, i) ==> Bit(Maj(x, y, z), i) == Bit(x, i)
    ensures Bit(x, i) == Bit(z, i) ==> Bit(Maj(x, y, z), i) == Bit(x, i)
    ensures Bit(y, i) == Bit(z, i) ==> Bit(Maj(x, y, z), i) == Bit(y, i)
  {
    hide *;
    MajParts(x, y, z);
    XorBit(Xor(And(x, y), And(x, z)), And(y, z), i);
    XorBit(And(x, y), And(x, z), i);
    AndBit(x, y, i);
    AndBit(x, z, i);
    AndBit(y, z, i);
  }

  lemma Rotr2Bit(x: word, i: word)
    requires i < 32
    ensures Bit(Rotr(x, 2), i) <==> Bit(x, (i + 2) % 32)
  {
  }

  lemma Rotr6Bit(x: word, i: word)
    requires i < 32
    ensures Bit(Rotr(x, 6), i) <==> Bit(x, (i + 6) % 32)
  {
  }

  lemma Rotr7Bit(x: word, i: word)
    requires i < 32
    ensures Bit(Rotr(x, 7), i) <==> Bit(x, (i + 7) % 32)
  {
  }

  lemma Rotr11Bit(x: word, i: word)
    requires i < 32
    ensures Bit(Rotr(x, 11), i) <==> Bit(x, (i + 11) % 32)
  {
  }

  lemma Rotr13Bit(x: word, i: word)
    requires i < 32
    ensures Bit(Rotr(x, 13), i) <==> Bit(x, (i + 13) % 32)
  {
  }

  lemma Rotr17Bit(x: word, i: word)
    requires i < 32
    ensures Bit(Rotr(x, 17), i) <==> Bit(x, (i + 17) % 32)
  {
  }

  lemma Rotr18Bit(x: word, i: word)
    requires i < 32
    ensures Bit(Rotr(x, 18), i) <==> Bit(x, (i + 18) % 32)
  {
  }

  lemma Rotr19Bit(x: word, i: word)
    requires i < 32
    ensures Bit(Rotr(x, 19), i) <==> Bit(x, (i + 19) % 32)
  {
  }

  lemma Rotr22Bit(x: word, i: word)
    requires i < 32
    ensures Bit(Rotr(x, 22), i) <==> Bit(x, (i + 22) % 32)
  {
  }

  lemma Rotr25Bit(x: word, i: word)
    requires i < 32
    ensures Bit(Rotr(x, 25), i) <==> Bit(x, (i + 25) % 32)
  {
  }

  lemma Shr3Bit(x: word, i: word)
    requires i < 32
    ensures Bit(Shr(x, 3), i) <==> i < 29 && Bit(x, i + 3)
  {
  }

  lemma Shr10Bit(x: word, i: word)
    requires i < 32
    ensures Bit(Shr(x, 10), i) <==> i < 22 && Bit(x, i + 10)
  {
  }

  /** Rotations by 2, 13 and 22. */
  lemma BigSigma0Bit(x: word, i: word)
    requires i < 32
    ensures Bit(BigSigma0(x), i) <==> (Bit(x, (i + 2) % 32) != Bit(x, (i + 13) % 32)) != Bit(x, (i + 22) % 32)
  {
    hide Bit, Xor, Rotr, Shr;
    XorBit(Xor(Rotr(x, 2), Rotr(x, 13)), Rotr(x, 22), i);
    XorBit(Rotr(x, 2), Rotr(x, 13), i);
    Rotr2Bit(x, i);
    Rotr13Bit(x, i);
    Rotr22Bit(x, i);
  }

  /** Rotations by 6, 11 and 25. */
  lemma BigSigma1Bit(x: word, i: word)
    requires i < 32
    ensures Bit(BigSigma1(x), i) <==> (Bit(x, (i + 6) % 32) != Bit(x, (i + 11) % 32)) != Bit(x, (i + 25) % 32)
  {
    hide Bit, Xor, Rotr, Shr;
    XorBit(Xor(Rotr(x, 6), Rotr(x, 11)), Rotr(x, 25), i);
    XorBit(Rotr(x, 6), Rotr(x, 11), i);
    Rotr6Bit(x, i);
    Rotr11Bit(x, i);
    Rotr25Bit(x, i);
  }

  /** Rotations by 7 and 18, and a shift by 3. */
  lemma SmallSigma0Bit(x: word, i: word)
    requires i < 32
    ensures Bit(SmallSigma0(x), i) <==> (Bit(x, (i + 7) % 32) != Bit(x, (i + 18) % 32)) != (i < 29 && Bit(x, i + 3))
  {
    hide Bit, Xor, Rotr, Shr;
    XorBit(Xor(Rotr(x, 7), Rotr(x, 18)), Shr(x, 3), i);
    XorBit(Rotr(x, 7), Rotr(x, 18), i);
    Rotr7Bit(x, i);
    Rotr18Bit(x, i);
    Shr3Bit(x, i);
  }

  /** Rotations by 17 and 19, and a shift by 10. */
  lemma SmallSigma1Bit(x: word, i: word)
    requires i < 32
    ensures Bit(SmallSigma1(x), i) <==> (Bit(x, (i + 17) % 32) != Bit(x, (i + 19) % 32)) != (i < 22 && Bit(x, i + 10))
  {
    hide Bit, Xor, Rotr, Shr;
    XorBit(Xor(Rotr(x, 17), Rotr(x, 19)), Shr(x, 10), i);
    XorBit(Rotr(x, 17), Rotr(x, 19), i);
    Rotr17Bit(x, i);
    Rotr19Bit(x, i);
    Shr10Bit(x, i);
  }

  // ---------------------------------------------------------------- blocks and chaining

  /** A word is read from four bytes with the first one in its highest bits. */
  lemma WordHoldsBytes(s: bytes, i: nat, w: word)
    requires i + 4 <= |s| && WordBytes(w) == s[i..i + 4]
    ensures WordAt(s, i) == w
  {
    hide BigEndian, FromBigEndian;
    WordReads(w);
  }

  lemma {:induction false} WordsAt(ws: seq<word>, k: nat)
    requires k < |ws|
    ensures |Words(ws)| == 4 * |ws| && Words(ws)[4 * k..4 * k + 4] == WordBytes(ws[k])
  {
    hide WordBytes;
    var before := ws[..|ws| - 1];
    if k < |before| {
      WordsAt(before, k);
      assert Words(ws)[4 * k..4 * k + 4] == Words(before)[4 * k..4 * k + 4];
    } else if before != [] {
      WordsAt(before, 0);
    }
  }

  /** The sixteen words of a block are those its 64 bytes were written from. */
  lemma BlockHoldsWords(ws: seq<word>)
    requires |ws| == 16
    ensures |Words(ws)| == 64 && Block(Words(ws), 0) == ws
  {
    hide WordBytes, WordAt, Words;
    WordsAt(ws, 0);
    forall i | 0 <= i < 16 ensures WordAt(Words(ws), 4 * i) == ws[i] {
      WordsAt(ws, i);
      WordHoldsBytes(Words(ws), 4 * i, ws[i]);
    }
  }

  lemma BlockOfPart(s: bytes, t: bytes, n: nat)
    requires 64 * n + 64 <= |s|
    ensures Block(s + t, n) == Block(s, n)
  {
    hide WordAt;
    forall i | 0 <= i < 16 ensures WordAt(s + t, 64 * n + 4 * i) == WordAt(s, 64 * n + 4 * i) {
      SameWord(s + t, s, 64 * n + 4 * i);
    }
  }

  lemma SameWord(s: bytes, t: bytes, i: nat)
    requires i + 4 <= |s| && i + 4 <= |t| && s[i..i + 4] == t[i..i + 4]
    ensures WordAt(s, i) == WordAt(t, i)
  {
    hide FromBigEndian;
  }

  lemma {:induction false} HashOfPart(s: bytes, t: bytes, n: nat)
    requires 64 * n <= |s|
    ensures HashBlocks(s + t, n) == HashBlocks(s, n)
  {
    hide Compress, Block;
    if n > 0 {
      HashOfPart(s, t, n - 1);
      BlockOfPart(s, t, n - 1);
    }
  }

  lemma LastBlock(s: bytes, t: bytes, n: nat)
    requires |s| == 64 * n && |t| == 64
    ensures Block(s + t, n) == Block(t, 0)
  {
    hide WordAt;
    forall i | 0 <= i < 16 ensures WordAt(s + t, 64 * n + 4 * i) == WordAt(t, 4 * i) {
      ShiftedWord(s, t, 4 * i);
    }
  }

  lemma ShiftedWord(s: bytes, t: bytes, i: nat)
    requires i + 4 <= |t|
    ensures WordAt(s + t, |s| + i) == WordAt(t, i)
  {
    hide FromBigEndian;
    assert (s + t)[|s| + i..|s| + i + 4] == t[i..i + 4];
  }

  /** Blocks are compressed from left to right, each starting from what the blocks before it gave. */
  lemma HashChains(s: bytes, t: bytes, n: nat)
    requires |s| == 64 * n && |t| == 64
    ensures HashBlocks(s + t, n + 1) == Compress(HashBlocks(s, n), Block(t, 0))
    ensures HashBlocks([], 0) == INITIAL
  {
    hide Compress, Block, INITIAL;
    HashOfPart(s, t, n);
    LastBlock(s, t, n);
  }

  /** Word `k` of the last hash value. */
  function WordOf(s: Working, k: nat): word
    requires k < 8
  {
    [s.a, s.b, s.c, s.d, s.e, s.f, s.g, s.h][k]
  }

  /** The digest holds the eight words of the last hash value in order, highest byte first. */
  lemma DigestHoldsWords(input: bytes, k: nat)
    requires k < 8
    ensures |Padded(input)| % 64 == 0
    ensures FromBigEndian(Digest(input)[4 * k..4 * k + 4])
         == WordOf(HashBlocks(Padded(input), |Padded(input)| / 64), k) as int
  {
    hide WordBytes, HashBlocks, Padded, FromBigEndian, Words, Output;
    PaddedLength(input);
    var s := HashBlocks(Padded(input), |Padded(input)| / 64);
    var ws := [s.a, s.b, s.c, s.d, s.e, s.f, s.g, s.h];
    EightWords(ws);
    WordsAt(ws, k);
    WordReads(ws[k]);
  }

  lemma WordReads(w: word)
    ensures FromBigEndian(WordBytes(w)) == w as int
  {
    hide BigEndian, FromBigEndian;
    Pow256Values();
    BigEndianThenBack(w as int, 4);
  }

  /** The padding of section 5.1.1: the message, a byte with the highest bit set, the fewest zero bytes that leave
      eight for whole blocks, and the length in bits modulo 2^64, highest byte first. */
  lemma PaddingExactly(input: bytes, n: nat)
    ensures var p, m := Padded(input), |input|;
            && p[..m] == input && p[m] == 0x80
            && (m < n < |p| - 8 ==> p[n] == 0)
            && |p| % 64 == 0 && |p| - m - 9 < 64
            && FromBigEndian(p[|p| - 8..]) == 8 * m % 0x1_0000_0000_0000_0000
  {
    hide BigEndian, FromBigEndian, ZeroCount;
    PaddedLength(input);
    LastEight(input);
    Pow256Values();
    BigEndianThenBack(BitLength(|input|), 8);
  }
}
