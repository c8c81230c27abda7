/** SHA-256 as main.rs computes it, against FIPS 180-4. */
module Sha256 {
  import opened Bytes

  type word = bv32

  // ---------------------------------------------------------------- the functions of section 4.1.2

  function Rotr(x: word, n: word): word
    requires 0 < n < 32
  {
    (x >> n) | (x << (32 - n))
  }

  function Shr(x: word, n: word): word
    requires 0 < n < 32
  {
    x >> n
  }

  /** Rust's `rotate_right` and `wrapping_add`. */
  function RotateRight(x: word, n: nat): word
    requires 0 < n < 32
  {
    x.RotateRight(n)
  }

  function WrappingAdd(x: word, y: word): word {
    x + y
  }

  function Xor(x: word, y: word): word {
    x ^ y
  }

  function Ch(x: word, y: word, z: word): word {
    Xor(x & y, !x & z)
  }

  function Maj(x: word, y: word, z: word): word {
    Xor(Xor(x & y, x & z), y & z)
  }

  function BigSigma0(x: word): word {
    Xor(Xor(Rotr(x, 2), Rotr(x, 13)), Rotr(x, 22))
  }

  function BigSigma1(x: word): word {
    Xor(Xor(Rotr(x, 6), Rotr(x, 11)), Rotr(x, 25))
  }

  function SmallSigma0(x: word): word {
    Xor(Xor(Rotr(x, 7), Rotr(x, 18)), Shr(x, 3))
  }

  function SmallSigma1(x: word): word {
    Xor(Xor(Rotr(x, 17), Rotr(x, 19)), Shr(x, 10))
  }

  /** Rust's rotation is the one of the standard, for each amount that is used. */
  lemma RotationsAgree(x: word)
    ensures RotateRight(x, 2) == Rotr(x, 2) && RotateRight(x, 13) == Rotr(x, 13) && RotateRight(x, 22) == Rotr(x, 22)
    ensures RotateRight(x, 6) == Rotr(x, 6) && RotateRight(x, 11) == Rotr(x, 11) && RotateRight(x, 25) == Rotr(x, 25)
    ensures RotateRight(x, 7) == Rotr(x, 7) && RotateRight(x, 18) == Rotr(x, 18)
    ensures RotateRight(x, 17) == Rotr(x, 17) && RotateRight(x, 19) == Rotr(x, 19)
  {
  }

  const ROUND: seq<word> :=
    [0x428a2f98, 0x71374491, 0xb5c0fbcf, 0xe9b5dba5, 0x3956c25b, 0x59f111f1, 0x923f82a4, 0xab1c5ed5] +
    [0xd807aa98, 0x12835b01, 0x243185be, 0x550c7dc3, 0x72be5d74, 0x80deb1fe, 0x9bdc06a7, 0xc19bf174] +
    [0xe49b69c1, 0xefbe4786, 0x0fc19dc6, 0x240ca1cc, 0x2de92c6f, 0x4a7484aa, 0x5cb0a9dc, 0x76f988da] +
    [0x983e5152, 0xa831c66d, 0xb00327c8, 0xbf597fc7, 0xc6e00bf3, 0xd5a79147, 0x06ca6351, 0x14292967] +
    [0x27b70a85, 0x2e1b2138, 0x4d2c6dfc, 0x53380d13, 0x650a7354, 0x766a0abb, 0x81c2c92e, 0x92722c85] +
    [0xa2bfe8a1, 0xa81a664b, 0xc24b8b70, 0xc76c51a3, 0xd192e819, 0xd6990624, 0xf40e3585, 0x106aa070] +
    [0x19a4c116, 0x1e376c08, 0x2748774c, 0x34b0bcb5, 0x391c0cb3, 0x4ed8aa4a, 0x5b9cca4f, 0x682e6ff3] +
    [0x748f82ee, 0x78a5636f, 0x84c87814, 0x8cc70208, 0x90befffa, 0xa4506ceb, 0xbef9a3f7, 0xc67178f2]

  // ---------------------------------------------------------------- section 6.2.2

  /** The working variables, and also the eight words of an intermediate hash value. */
  datatype Working = Working(a: word, b: word, c: word, d: word, e: word, f: word, g: word, h: word)

  const INITIAL: Working := Working(
    0x6a09e667, 0xbb67ae85, 0x3c6ef372, 0xa54ff53a, 0x510e527f, 0x9b05688c, 0x1f83d9ab, 0x5be0cd19)

  /** Word `t` of the message schedule of a block; the standard adds the same four terms from the last to
      the first. */
  function Schedule(block: seq<word>, t: nat): word
    requires |block| == 16
  {
    if t < 16 then block[t]
    else
      WrappingAdd(WrappingAdd(WrappingAdd(
        Schedule(block, t - 16), SmallSigma0(Schedule(block, t - 15))), Schedule(block, t - 7)),
          SmallSigma1(Schedule(block, t - 2)))
  }

  function Round(s: Working, k: word, w: word): Working {
    var t1 := WrappingAdd(WrappingAdd(WrappingAdd(WrappingAdd(s.h, BigSigma1(s.e)), Ch(s.e, s.f, s.g)), k), w);
    var t2 := WrappingAdd(BigSigma0(s.a), Maj(s.a, s.b, s.c));
    Working(WrappingAdd(t1, t2), s.a, s.b, s.c, WrappingAdd(s.d, t1), s.e, s.f, s.g)
  }

  function Rounds(block: seq<word>, s: Working, t: nat): Working
    requires |block| == 16 && t <= 64
  {
    if t == 0 then s else Round(Rounds(block, s, t - 1), ROUND[t - 1], Schedule(block, t - 1))
  }

  function Add(s: Working, t: Working): Working {
    Working(WrappingAdd(s.a, t.a), WrappingAdd(s.b, t.b), WrappingAdd(s.c, t.c), WrappingAdd(s.d, t.d),
            WrappingAdd(s.e, t.e), WrappingAdd(s.f, t.f), WrappingAdd(s.g, t.g), WrappingAdd(s.h, t.h))
  }

  function Compress(s: Working, block: seq<word>): Working
    requires |block| == 16
  {
    Add(s, Rounds(block, s, 64))
  }

  // ---------------------------------------------------------------- sections 5.1.1 and 5.2.1

  function Zeros(n: nat): (s: bytes)
    ensures |s| == n && forall i :: 0 <= i < n ==> s[i] == 0
  {
    seq<byte>(n, i => 0)
  }

  /** The least number of zero bytes after which the length modulo 64 is 56. */
  function ZeroCount(length: nat): (n: nat)
    ensures n < 64 && (length + 1 + n) % 64 == 56
  {
    (119 - length % 64) % 64
  }

  /** The length in bits, as a wrapping u64. */
  function BitLength(length: nat): nat {
    length * 8 % 0x1_0000_0000_0000_0000
  }

  function Padded(input: bytes): bytes {
    input + ([0x80] + (Zeros(ZeroCount(|input|)) + BigEndian(BitLength(|input|), 8)))
  }

  /** Padding fills whole blocks and adds between 9 and 72 bytes. */
  lemma PaddedLength(input: bytes)
    ensures |Padded(input)| % 64 == 0 && |input| + 9 <= |Padded(input)| <= |input| + 72
  {
    hide ZeroCount;
    WholeBlocks(|input| + 1 + ZeroCount(|input|));
  }

  lemma WholeBlocks(n: nat)
    requires n % 64 == 56
    ensures (n + 8) % 64 == 0
  {
  }

  lemma SameBitLength(m: nat, n: nat)
    requires BitLength(m) == BitLength(n) && m <= n < m + 64
    ensures m == n
  {
    var q, r := m * 8 / 0x1_0000_0000_0000_0000, n * 8 / 0x1_0000_0000_0000_0000;
    assert n * 8 - m * 8 == (r - q) * 0x1_0000_0000_0000_0000;
  }

  lemma LastEight(input: bytes)
    ensures var p := Padded(input); |p| >= 8 && p[|p| - 8..] == BigEndian(BitLength(|input|), 8)
  {
  }

  /** Different inputs have different paddings, also those whose bit length wraps. */
  lemma PaddedInjective(x: bytes, y: bytes)
    requires Padded(x) == Padded(y)
    ensures x == y
  {
    hide Padded, BitLength;
    PaddedLength(x);
    PaddedLength(y);
    LastEight(x);
    LastEight(y);
    Pow256Values();
    BitLengthBound(|x|);
    BitLengthBound(|y|);
    BigEndianThenBack(BitLength(|x|), 8);
    BigEndianThenBack(BitLength(|y|), 8);
    if |x| <= |y| {
      SameBitLength(|x|, |y|);
    } else {
      SameBitLength(|y|, |x|);
    }
    PaddedStarts(x);
    PaddedStarts(y);
  }

  lemma BitLengthBound(n: nat)
    ensures BitLength(n) < 0x1_0000_0000_0000_0000
  {
  }

  lemma PaddedStarts(input: bytes)
    ensures |input| <= |Padded(input)| && Padded(input)[..|input|] == input
  {
  }

  /** The big-endian word at byte `i`. */
  function WordAt(s: bytes, i: nat): word
    requires i + 4 <= |s|
  {
    FromBigEndianBound(s[i..i + 4]);
    Pow256Values();
    FromBigEndian(s[i..i + 4]) as word
  }

  /** The sixteen words of block `n` of the padded input. */
  function Block(padded: bytes, n: nat): (block: seq<word>)
    requires 64 * n + 64 <= |padded|
    ensures |block| == 16
  {
    seq<word>(16, i requires 0 <= i < 16 => WordAt(padded, 64 * n + 4 * i))
  }

  /** The hash value after the first `n` blocks. */
  function HashBlocks(padded: bytes, n: nat): Working
    requires 64 * n <= |padded|
  {
    if n == 0 then INITIAL else Compress(HashBlocks(padded, n - 1), Block(padded, n - 1))
  }

  function WordBytes(w: word): (s: bytes)
    ensures |s| == 4
  {
    BigEndian(w as int, 4)
  }

  function Output(s: Working): (digest: bytes)
    ensures |digest| == 32
  {
    WordBytes(s.a) + WordBytes(s.b) + WordBytes(s.c) + WordBytes(s.d)
    + WordBytes(s.e) + WordBytes(s.f) + WordBytes(s.g) + WordBytes(s.h)
  }

  /** SHA-256 of `input`. */
  function Digest(input: bytes): (digest: bytes)
    ensures |digest| == 32
  {
    PaddedLength(input);
    Output(HashBlocks(Padded(input), |Padded(input)| / 64))
  }

  // ---------------------------------------------------------------- the imperative computation

  function FromWords(s: seq<word>): Working
    requires |s| == 8
  {
    Working(s[0], s[1], s[2], s[3], s[4], s[5], s[6], s[7])
  }

  /** The two loops that fill `words`. */
  method FillWords(padded: bytes, n: nat, words: array<word>)
    requires 64 * n + 64 <= |padded| && words.Length == 64
    modifies words
    ensures forall t :: 0 <= t < 64 ==> words[t] == Schedule(Block(padded, n), t)
  {
    hide SmallSigma0, SmallSigma1, Rotr, RotateRight, WrappingAdd, Xor, WordAt;
    ghost var block := Block(padded, n);
    var index := 0;
    while index < 16
      invariant 0 <= index <= 16
      invariant forall t :: 0 <= t < index ==> words[t] == Schedule(block, t)
    {
      words[index] := WordAt(padded, 64 * n + index * 4);
      index := index + 1;
    }
    while index < 64
      invariant 16 <= index <= 64
      invariant forall t :: 0 <= t < index ==> words[t] == Schedule(block, t)
    {
      var early, late := words[index - 15], words[index - 2];
      var s0 := Xor(Xor(RotateRight(early, 7), RotateRight(early, 18)), early >> 3);
      var s1 := Xor(Xor(RotateRight(late, 17), RotateRight(late, 19)), late >> 10);
      SmallSigmas(early, late);
      words[index] := WrappingAdd(WrappingAdd(WrappingAdd(words[index - 16], s0), words[index - 7]), s1);
      index := index + 1;
    }
  }

  lemma SmallSigmas(x: word, y: word)
    ensures Xor(Xor(RotateRight(x, 7), RotateRight(x, 18)), x >> 3) == SmallSigma0(x)
    ensures Xor(Xor(RotateRight(y, 17), RotateRight(y, 19)), y >> 10) == SmallSigma1(y)
  {
    hide RotateRight, Rotr, Xor;
    RotationsAgree(x);
    RotationsAgree(y);
  }

  /** The loop over the rounds, from the words of `start`. */
  method RunRounds(start: Working, words: array<word>, ghost block: seq<word>) returns (final: Working)
    requires words.Length == 64 && |block| == 16
    requires forall t :: 0 <= t < 64 ==> words[t] == Schedule(block, t)
    ensures final == Rounds(block, start, 64)
  {
    hide Schedule, RotateRight, Rotr, WrappingAdd, Xor, Ch, Maj, BigSigma0, BigSigma1;
    var a, b, c, d := start.a, start.b, start.c, start.d;
    var e, f, g, h := start.e, start.f, start.g, start.h;
    for index := 0 to 64
      invariant Working(a, b, c, d, e, f, g, h) == Rounds(block, start, index)
    {
      var sigma1 := Xor(Xor(RotateRight(e, 6), RotateRight(e, 11)), RotateRight(e, 25));
      var choose := Xor(e & f, !e & g);
      var temp1 := WrappingAdd(WrappingAdd(WrappingAdd(WrappingAdd(h, sigma1), choose), ROUND[index]), words[index]);
      var sigma0 := Xor(Xor(RotateRight(a, 2), RotateRight(a, 13)), RotateRight(a, 22));
      var majority := Xor(Xor(a & b, a & c), b & c);
      var temp2 := WrappingAdd(sigma0, majority);
      BigSigmas(a, e);
      Choices(a, b, c, e, f, g);
      h := g;
      g := f;
      f := e;
      e := WrappingAdd(d, temp1);
      d := c;
      c := b;
      b := a;
      a := WrappingAdd(temp1, temp2);
    }
    return Working(a, b, c, d, e, f, g, h);
  }

  /** The loop that adds the working variables to `state`. */
  method AddInPlace(state: array<word>, w: Working)
    requires state.Length == 8
    modifies state
    ensures FromWords(state[..]) == Add(FromWords(old(state[..])), w)
  {
    hide WrappingAdd;
    state[0] := WrappingAdd(state[0], w.a);
    state[1] := WrappingAdd(state[1], w.b);
    state[2] := WrappingAdd(state[2], w.c);
    state[3] := WrappingAdd(state[3], w.d);
    state[4] := WrappingAdd(state[4], w.e);
    state[5] := WrappingAdd(state[5], w.f);
    state[6] := WrappingAdd(state[6], w.g);
    state[7] := WrappingAdd(state[7], w.h);
  }

  /** The rounds on a block and the addition to `state`. */
  method CompressInPlace(state: array<word>, words: array<word>, ghost block: seq<word>)
    requires state.Length == 8 && words.Length == 64 && state != words && |block| == 16
    requires forall t :: 0 <= t < 64 ==> words[t] == Schedule(block, t)
    modifies state
    ensures FromWords(state[..]) == Compress(FromWords(old(state[..])), block)
  {
    hide Schedule, Rounds, Add, FromWords;
    var start := FromWords(state[..]);
    var final := RunRounds(start, words, block);
    AddInPlace(state, final);
  }

  lemma BigSigmas(x: word, y: word)
    ensures Xor(Xor(RotateRight(x, 2), RotateRight(x, 13)), RotateRight(x, 22)) == BigSigma0(x)
    ensures Xor(Xor(RotateRight(y, 6), RotateRight(y, 11)), RotateRight(y, 25)) == BigSigma1(y)
  {
    hide RotateRight, Rotr, Xor;
    RotationsAgree(x);
    RotationsAgree(y);
  }

  lemma Choices(a: word, b: word, c: word, e: word, f: word, g: word)
    ensures Xor(e & f, !e & g) == Ch(e, f, g) && Xor(Xor(a & b, a & c), b & c) == Maj(a, b, c)
  {
    hide Xor;
  }

  /** The growing `padded` buffer. */
  method PadInput(input: bytes) returns (padded: bytes)
    ensures padded == Padded(input)
  {
    var bitLength := BitLength(|input|);
    padded := input + [0x80];
    ghost var zeros := 0;
    while |padded| % 64 != 56
      invariant zeros <= ZeroCount(|input|) && padded == input + [0x80] + Zeros(zeros)
      decreases ZeroCount(|input|) - zeros
    {
      FewerZeros(|input|, zeros);
      padded := padded + [0];
      zeros := zeros + 1;
    }
    EnoughZeros(|input|, zeros);
    padded := padded + BigEndian(bitLength, 8);
    AppendThree(input, [0x80], Zeros(zeros), BigEndian(bitLength, 8));
  }

  lemma FewerZeros(length: nat, zeros: nat)
    requires zeros <= ZeroCount(length) && (length + 1 + zeros) % 64 != 56
    ensures zeros < ZeroCount(length)
  {
  }

  lemma EnoughZeros(length: nat, zeros: nat)
    requires zeros <= ZeroCount(length) && (length + 1 + zeros) % 64 == 56
    ensures zeros == ZeroCount(length)
  {
  }

  /** `sha256`. */
  method ComputeDigest(input: bytes) returns (digest: bytes)
    ensures digest == Digest(input)
  {
    hide Padded, Compress, Block, Schedule, WordBytes, Output;
    var padded := PadInput(input);
    PaddedLength(input);
    var state := new word[8];
    state[0], state[1], state[2], state[3] := 0x6a09e667, 0xbb67ae85, 0x3c6ef372, 0xa54ff53a;
    state[4], state[5], state[6], state[7] := 0x510e527f, 0x9b05688c, 0x1f83d9ab, 0x5be0cd19;
    for n := 0 to |padded| / 64
      invariant FromWords(state[..]) == HashBlocks(padded, n)
    {
      var words := new word[64];
      FillWords(padded, n, words);
      CompressInPlace(state, words, Block(padded, n));
    }
    digest := WriteDigest(state);
  }

  /** The loop that writes `state` into `digest`. */
  method WriteDigest(state: array<word>) returns (digest: bytes)
    requires state.Length == 8
    ensures digest == Output(FromWords(state[..]))
  {
    hide WordBytes, Output, FromWords;
    digest := [];
    for i := 0 to 8
      invariant digest == Words(state[..i])
    {
      assert state[..i + 1][..i] == state[..i];
      digest := digest + WordBytes(state[i]);
    }
    assert state[..8] == state[..];
    EightWords(state[..]);
  }

  function Words(s: seq<word>): bytes {
    if s == [] then [] else Words(s[..|s| - 1]) + WordBytes(s[|s| - 1])
  }

  lemma EightWords(s: seq<word>)
    requires |s| == 8
    ensures Words(s) == Output(FromWords(s))
  {
    hide WordBytes;
    var seven, six, five, four := s[..7], s[..6], s[..5], s[..4];
    assert seven[..6] == six && six[..5] == five && five[..4] == four;
    assert four[..3] == s[..3] && s[..3][..2] == s[..2] && s[..2][..1] == s[..1] && s[..1][..0] == [];
    assert Words(s[..1]) == WordBytes(s[0]);
    assert Words(s[..2]) == WordBytes(s[0]) + WordBytes(s[1]);
    assert Words(s[..3]) == WordBytes(s[0]) + WordBytes(s[1]) + WordBytes(s[2]);
    assert Words(four) == WordBytes(s[0]) + WordBytes(s[1]) + WordBytes(s[2]) + WordBytes(s[3]);
    assert Words(five) == Words(four) + WordBytes(s[4]);
    assert Words(six) == Words(five) + WordBytes(s[5]);
    assert Words(seven) == Words(six) + WordBytes(s[6]);
  }
}
