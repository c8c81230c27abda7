/** The constants of SHA-256 from the roots of the first primes (FIPS 180-4 sections 4.2.2 and 5.3.3). */
module Sha256Constants {
  import opened Sha256

  // ---------------------------------------------------------------- the first primes

  predicate Divides(d: nat, n: nat)
    requires d > 0
  {
    n % d == 0
  }

  predicate Prime(n: nat) {
    n > 1 && forall d :: 1 < d < n ==> !Divides(d, n)
  }

  /** No prime below 18 is a proper divisor. */
  predicate Sieved(n: nat) {
    && n > 1
    && (n == 2 || n % 2 != 0) && (n == 3 || n % 3 != 0) && (n == 5 || n % 5 != 0) && (n == 7 || n % 7 != 0)
    && (n == 11 || n % 11 != 0) && (n == 13 || n % 13 != 0) && (n == 17 || n % 17 != 0)
  }

  lemma AtLeastOnce(k: nat, m: int)
    requires m > 0
    ensures k * m >= k
  {
    assert k * m == k * (m - 1) + k;
    assert k * (m - 1) >= 0;
  }

  lemma Distributes(k: nat, e: int, q: int)
    ensures k * (e - q) == k * e - k * q && k * (q - e) == k * q - k * e
  {
  }

  lemma SameRemainder(k: nat, e: nat, q: int, r: int)
    requires k * e == k * q + r && 0 <= r < k
    ensures r == 0
  {
    Distributes(k, e, q);
    if e > q {
      AtLeastOnce(k, e - q);
    } else if q > e {
      AtLeastOnce(k, q - e);
    }
  }

  lemma ModZero(k: nat, e: nat)
    requires k > 0
    ensures (k * e) % k == 0
  {
    var n := k * e;
    SameRemainder(k, e, n / k, n % k);
  }

  /** The smaller of two factors of a number below `18 * 18`. */
  lemma SmallFactor(n: nat, d: nat) returns (e: nat)
    requires 1 < d < n < 324 && n % d == 0
    ensures 1 < e < 18 && e < n && n % e == 0
  {
    if d < 18 {
      e := d;
    } else {
      e := n / d;
      assert n == d * e;
      TwoFactors(d, e);
      ModZero(e, d);
      assert e * d == n;
    }
  }

  lemma LargeProduct(d: nat, e: nat)
    requires d >= 18 && e >= 18
    ensures d * e >= 324
  {
    assert d * e >= 18 * e;
  }

  lemma TwoFactors(d: nat, e: nat)
    requires 18 <= d < d * e < 324
    ensures 1 < e < 18
  {
    if e >= 18 {
      LargeProduct(d, e);
      assert false;
    }
  }

  lemma FactorSieved(n: nat, e: nat)
    requires 1 < e < 18 && e < n && n % e == 0
    ensures !Sieved(n)
  {
    var k := n / e;
    assert n == e * k;
    if e % 2 == 0 {
      assert n % 2 == 0 by { Multiple(e, k, 2); }
    } else if e % 3 == 0 {
      assert n % 3 == 0 by { Multiple(e, k, 3); }
    } else {
      assert e == 5 || e == 7 || e == 11 || e == 13 || e == 17;
    }
  }

  lemma Multiple(e: nat, k: nat, p: nat)
    requires p > 0 && e % p == 0
    ensures (e * k) % p == 0
  {
    var q := e / p;
    assert e * k == p * (q * k);
    ModZero(p, q * k);
  }

  lemma PrimeSieved(n: nat)
    requires n < 324
    ensures Prime(n) <==> Sieved(n)
  {
    if !Prime(n) && n > 1 {
      var d :| 1 < d < n && Divides(d, n);
      var e := SmallFactor(n, d);
      FactorSieved(n, e);
    }
    if !Sieved(n) && n > 1 {
      var d := if n % 2 == 0 then 2 else if n % 3 == 0 then 3 else if n % 5 == 0 then 5 else if n % 7 == 0 then 7
               else if n % 11 == 0 then 11 else if n % 13 == 0 then 13 else 17;
      assert Divides(d, n);
    }
  }

  const PRIMES: seq<nat> :=
    [2, 3, 5, 7, 11, 13, 17, 19] +
    [23, 29, 31, 37, 41, 43, 47, 53] +
    [59, 61, 67, 71, 73, 79, 83, 89] +
    [97, 101, 103, 107, 109, 113, 127, 131] +
    [137, 139, 149, 151, 157, 163, 167, 173] +
    [179, 181, 191, 193, 197, 199, 211, 223] +
    [227, 229, 233, 239, 241, 251, 257, 263] +
    [269, 271, 277, 281, 283, 293, 307, 311]

  lemma Sieve2(n: nat)
    requires 1 < n <= 13
    ensures Sieved(n) <==> n == 2 || n == 3 || n == 5 || n == 7 || n == 11 || n == 13
  {
    assert n == 2 || n == 3 || n == 4 || n == 5 || n == 6 || n == 7 || n == 8 || n == 9 || n == 10
        || n == 11 || n == 12 || n == 13;
  }

  lemma Sieve14(n: nat)
    requires 13 < n <= 23
    ensures Sieved(n) <==> n == 17 || n == 19 || n == 23
  {
    assert n == 14 || n == 15 || n == 16 || n == 17 || n == 18 || n == 19 || n == 20 || n == 21 || n == 22
        || n == 23;
  }

  lemma Sieve24(n: nat)
    requires 23 < n <= 31
    ensures Sieved(n) <==> n == 29 || n == 31
  {
    assert n == 24 || n == 25 || n == 26 || n == 27 || n == 28 || n == 29 || n == 30 || n == 31;
  }

  lemma Sieve32(n: nat)
    requires 31 < n <= 43
    ensures Sieved(n) <==> n == 37 || n == 41 || n == 43
  {
    assert n == 32 || n == 33 || n == 34 || n == 35 || n == 36 || n == 37 || n == 38 || n == 39 || n == 40
        || n == 41 || n == 42 || n == 43;
  }

  lemma Sieve44(n: nat)
    requires 43 < n <= 53
    ensures Sieved(n) <==> n == 47 || n == 53
  {
    assert n == 44 || n == 45 || n == 46 || n == 47 || n == 48 || n == 49 || n == 50 || n == 51 || n == 52
        || n == 53;
  }

  lemma Sieve54(n: nat)
    requires 53 < n <= 61
    ensures Sieved(n) <==> n == 59 || n == 61
  {
    assert n == 54 || n == 55 || n == 56 || n == 57 || n == 58 || n == 59 || n == 60 || n == 61;
  }

  lemma Sieve62(n: nat)
    requires 61 < n <= 73
    ensures Sieved(n) <==> n == 67 || n == 71 || n == 73
  {
    assert n == 62 || n == 63 || n == 64 || n == 65 || n == 66 || n == 67 || n == 68 || n == 69 || n == 70
        || n == 71 || n == 72 || n == 73;
  }

  lemma Sieve74(n: nat)
    requires 73 < n <= 83
    ensures Sieved(n) <==> n == 79 || n == 83
  {
    assert n == 74 || n == 75 || n == 76 || n == 77 || n == 78 || n == 79 || n == 80 || n == 81 || n == 82
        || n == 83;
  }

  lemma Sieve84(n: nat)
    requires 83 < n <= 89
    ensures Sieved(n) <==> n == 89
  {
    assert n == 84 || n == 85 || n == 86 || n == 87 || n == 88 || n == 89;
  }

  lemma Sieve90(n: nat)
    requires 89 < n <= 101
    ensures Sieved(n) <==> n == 97 || n == 101
  {
    assert n == 90 || n == 91 || n == 92 || n == 93 || n == 94 || n == 95 || n == 96 || n == 97 || n == 98
        || n == 99 || n == 100 || n == 101;
  }

  lemma Sieve102(n: nat)
    requires 101 < n <= 113
    ensures Sieved(n) <==> n == 103 || n == 107 || n == 109 || n == 113
  {
    assert n == 102 || n == 103 || n == 104 || n == 105 || n == 106 || n == 107 || n == 108 || n == 109 || n == 110
        || n == 111 || n == 112 || n == 113;
  }

  lemma Sieve114(n: nat)
    requires 113 < n <= 127
    ensures Sieved(n) <==> n == 127
  {
    assert n == 114 || n == 115 || n == 116 || n == 117 || n == 118 || n == 119 || n == 120 || n == 121 || n == 122
        || n == 123 || n == 124 || n == 125 || n == 126 || n == 127;
  }

  lemma Sieve128(n: nat)
    requires 127 < n <= 139
    ensures Sieved(n) <==> n == 131 || n == 137 || n == 139
  {
    assert n == 128 || n == 129 || n == 130 || n == 131 || n == 132 || n == 133 || n == 134 || n == 135 || n == 136
        || n == 137 || n == 138 || n == 139;
  }

  lemma Sieve140(n: nat)
    requires 139 < n <= 151
    ensures Sieved(n) <==> n == 149 || n == 151
  {
    assert n == 140 || n == 141 || n == 142 || n == 143 || n == 144 || n == 145 || n == 146 || n == 147 || n == 148
        || n == 149 || n == 150 || n == 151;
  }

  lemma Sieve152(n: nat)
    requires 151 < n <= 163
    ensures Sieved(n) <==> n == 157 || n == 163
  {
    assert n == 152 || n == 153 || n == 154 || n == 155 || n == 156 || n == 157 || n == 158 || n == 159 || n == 160
        || n == 161 || n == 162 || n == 163;
  }

  lemma Sieve164(n: nat)
    requires 163 < n <= 173
    ensures Sieved(n) <==> n == 167 || n == 173
  {
    assert n == 164 || n == 165 || n == 166 || n == 167 || n == 168 || n == 169 || n == 170 || n == 171 || n == 172
        || n == 173;
  }

  lemma Sieve174(n: nat)
    requires 173 < n <= 181
    ensures Sieved(n) <==> n == 179 || n == 181
  {
    assert n == 174 || n == 175 || n == 176 || n == 177 || n == 178 || n == 179 || n == 180 || n == 181;
  }

  lemma Sieve182(n: nat)
    requires 181 < n <= 193
    ensures Sieved(n) <==> n == 191 || n == 193
  {
    assert n == 182 || n == 183 || n == 184 || n == 185 || n == 186 || n == 187 || n == 188 || n == 189 || n == 190
        || n == 191 || n == 192 || n == 193;
  }

  lemma Sieve194(n: nat)
    requires 193 < n <= 199
    ensures Sieved(n) <==> n == 197 || n == 199
  {
    assert n == 194 || n == 195 || n == 196 || n == 197 || n == 198 || n == 199;
  }

  lemma Sieve200(n: nat)
    requires 199 < n <= 211
    ensures Sieved(n) <==> n == 211
  {
    assert n == 200 || n == 201 || n == 202 || n == 203 || n == 204 || n == 205 || n == 206 || n == 207 || n == 208
        || n == 209 || n == 210 || n == 211;
  }

  lemma Sieve212(n: nat)
    requires 211 < n <= 223
    ensures Sieved(n) <==> n == 223
  {
    assert n == 212 || n == 213 || n == 214 || n == 215 || n == 216 || n == 217 || n == 218 || n == 219 || n == 220
        || n == 221 || n == 222 || n == 223;
  }

  lemma Sieve224(n: nat)
    requires 223 < n <= 233
    ensures Sieved(n) <==> n == 227 || n == 229 || n == 233
  {
    assert n == 224 || n == 225 || n == 226 || n == 227 || n == 228 || n == 229 || n == 230 || n == 231 || n == 232
        || n == 233;
  }

  lemma Sieve234(n: nat)
    requires 233 < n <= 241
    ensures Sieved(n) <==> n == 239 || n == 241
  {
    assert n == 234 || n == 235 || n == 236 || n == 237 || n == 238 || n == 239 || n == 240 || n == 241;
  }

  lemma Sieve242(n: nat)
    requires 241 < n <= 251
    ensures Sieved(n) <==> n == 251
  {
    assert n == 242 || n == 243 || n == 244 || n == 245 || n == 246 || n == 247 || n == 248 || n == 249 || n == 250
        || n == 251;
  }

  lemma Sieve252(n: nat)
    requires 251 < n <= 263
    ensures Sieved(n) <==> n == 257 || n == 263
  {
    assert n == 252 || n == 253 || n == 254 || n == 255 || n == 256 || n == 257 || n == 258 || n == 259 || n == 260
        || n == 261 || n == 262 || n == 263;
  }

  lemma Sieve264(n: nat)
    requires 263 < n <= 271
    ensures Sieved(n) <==> n == 269 || n == 271
  {
    assert n == 264 || n == 265 || n == 266 || n == 267 || n == 268 || n == 269 || n == 270 || n == 271;
  }

  lemma Sieve272(n: nat)
    requires 271 < n <= 283
    ensures Sieved(n) <==> n == 277 || n == 281 || n == 283
  {
    assert n == 272 || n == 273 || n == 274 || n == 275 || n == 276 || n == 277 || n == 278 || n == 279 || n == 280
        || n == 281 || n == 282 || n == 283;
  }

  lemma Sieve284(n: nat)
    requires 283 < n <= 293
    ensures Sieved(n) <==> n == 293
  {
    assert n == 284 || n == 285 || n == 286 || n == 287 || n == 288 || n == 289 || n == 290 || n == 291 || n == 292
        || n == 293;
  }

  lemma Sieve294(n: nat)
    requires 293 < n <= 307
    ensures Sieved(n) <==> n == 307
  {
    assert n == 294 || n == 295 || n == 296 || n == 297 || n == 298 || n == 299 || n == 300 || n == 301 || n == 302
        || n == 303 || n == 304 || n == 305 || n == 306 || n == 307;
  }

  lemma Sieve308(n: nat)
    requires 307 < n <= 311
    ensures Sieved(n) <==> n == 311
  {
    assert n == 308 || n == 309 || n == 310 || n == 311;
  }

  /** The numbers of the table. */
  predicate Listed(n: nat) {
    || n == 2 || n == 3 || n == 5 || n == 7 || n == 11 || n == 13 || n == 17 || n == 19
    || n == 23 || n == 29 || n == 31 || n == 37 || n == 41 || n == 43 || n == 47 || n == 53
    || n == 59 || n == 61 || n == 67 || n == 71 || n == 73 || n == 79 || n == 83 || n == 89
    || n == 97 || n == 101 || n == 103 || n == 107 || n == 109 || n == 113 || n == 127 || n == 131
    || n == 137 || n == 139 || n == 149 || n == 151 || n == 157 || n == 163 || n == 167 || n == 173
    || n == 179 || n == 181 || n == 191 || n == 193 || n == 197 || n == 199 || n == 211 || n == 223
    || n == 227 || n == 229 || n == 233 || n == 239 || n == 241 || n == 251 || n == 257 || n == 263
    || n == 269 || n == 271 || n == 277 || n == 281 || n == 283 || n == 293 || n == 307 || n == 311
  }

  lemma SieveIsTable(n: nat)
    requires n <= 311
    ensures Sieved(n) <==> Listed(n)
  {
    hide Sieved;
    if n <= 1 {
      NotSieved(n);
    } else if n <= 13 {
      Sieve2(n);
    } else if n <= 23 {
      Sieve14(n);
    } else if n <= 31 {
      Sieve24(n);
    } else if n <= 43 {
      Sieve32(n);
    } else if n <= 53 {
      Sieve44(n);
    } else if n <= 61 {
      Sieve54(n);
    } else if n <= 73 {
      Sieve62(n);
    } else if n <= 83 {
      Sieve74(n);
    } else if n <= 89 {
      Sieve84(n);
    } else if n <= 101 {
      Sieve90(n);
    } else if n <= 113 {
      Sieve102(n);
    } else if n <= 127 {
      Sieve114(n);
    } else if n <= 139 {
      Sieve128(n);
    } else if n <= 151 {
      Sieve140(n);
    } else if n <= 163 {
      Sieve152(n);
    } else if n <= 173 {
      Sieve164(n);
    } else if n <= 181 {
      Sieve174(n);
    } else if n <= 193 {
      Sieve182(n);
    } else if n <= 199 {
      Sieve194(n);
    } else if n <= 211 {
      Sieve200(n);
    } else if n <= 223 {
      Sieve212(n);
    } else if n <= 233 {
      Sieve224(n);
    } else if n <= 241 {
      Sieve234(n);
    } else if n <= 251 {
      Sieve242(n);
    } else if n <= 263 {
      Sieve252(n);
    } else if n <= 271 {
      Sieve264(n);
    } else if n <= 283 {
      Sieve272(n);
    } else if n <= 293 {
      Sieve284(n);
    } else if n <= 307 {
      Sieve294(n);
    } else {
      Sieve308(n);
    }
  }

  lemma NotSieved(n: nat)
    requires n <= 1
    ensures !Sieved(n)
  {
  }

  lemma ListedSmall(n: nat)
    requires Listed(n)
    ensures n <= 311
  {
  }

  lemma Table0()
    ensures PRIMES[0] == 2 && PRIMES[1] == 3 && PRIMES[2] == 5 && PRIMES[3] == 7
    ensures PRIMES[4] == 11 && PRIMES[5] == 13 && PRIMES[6] == 17 && PRIMES[7] == 19
  {
  }

  lemma Table8()
    ensures PRIMES[8] == 23 && PRIMES[9] == 29 && PRIMES[10] == 31 && PRIMES[11] == 37
    ensures PRIMES[12] == 41 && PRIMES[13] == 43 && PRIMES[14] == 47 && PRIMES[15] == 53
  {
  }

  lemma Table16()
    ensures PRIMES[16] == 59 && PRIMES[17] == 61 && PRIMES[18] == 67 && PRIMES[19] == 71
    ensures PRIMES[20] == 73 && PRIMES[21] == 79 && PRIMES[22] == 83 && PRIMES[23] == 89
  {
  }

  lemma Table24()
    ensures PRIMES[24] == 97 && PRIMES[25] == 101 && PRIMES[26] == 103 && PRIMES[27] == 107
    ensures PRIMES[28] == 109 && PRIMES[29] == 113 && PRIMES[30] == 127 && PRIMES[31] == 131
  {
  }

  lemma Table32()
    ensures PRIMES[32] == 137 && PRIMES[33] == 139 && PRIMES[34] == 149 && PRIMES[35] == 151
    ensures PRIMES[36] == 157 && PRIMES[37] == 163 && PRIMES[38] == 167 && PRIMES[39] == 173
  {
  }

  lemma Table40()
    ensures PRIMES[40] == 179 && PRIMES[41] == 181 && PRIMES[42] == 191 && PRIMES[43] == 193
    ensures PRIMES[44] == 197 && PRIMES[45] == 199 && PRIMES[46] == 211 && PRIMES[47] == 223
  {
  }

  lemma Table48()
    ensures PRIMES[48] == 227 && PRIMES[49] == 229 && PRIMES[50] == 233 && PRIMES[51] == 239
    ensures PRIMES[52] == 241 && PRIMES[53] == 251 && PRIMES[54] == 257 && PRIMES[55] == 263
  {
  }

  lemma Table56()
    ensures PRIMES[56] == 269 && PRIMES[57] == 271 && PRIMES[58] == 277 && PRIMES[59] == 281
    ensures PRIMES[60] == 283 && PRIMES[61] == 293 && PRIMES[62] == 307 && PRIMES[63] == 311
  {
  }

  lemma TableIsListed(n: nat)
    requires Listed(n)
    ensures n in PRIMES
  {
    hide PRIMES;
    TableSizes();
    Table0();
    Table8();
    Table16();
    Table24();
    Table32();
    Table40();
    Table48();
    Table56();
  }

  lemma TableAscends(i: nat)
    requires i < 64
    ensures |PRIMES| == 64 && Listed(PRIMES[i]) && (i > 0 ==> PRIMES[i - 1] < PRIMES[i])
  {
    hide PRIMES;
    TableSizes();
    if i < 8 {
      Table0();
    } else if i < 16 {
      Table0();
      Table8();
    } else if i < 24 {
      Table8();
      Table16();
    } else if i < 32 {
      Table16();
      Table24();
    } else if i < 40 {
      Table24();
      Table32();
    } else if i < 48 {
      Table32();
      Table40();
    } else if i < 56 {
      Table40();
      Table48();
    } else {
      Table48();
      Table56();
    }
  }

  /** The table lists the first 64 primes: all primes up to 311 and no other number, in ascending order. */
  lemma FirstPrimes()
    ensures |PRIMES| == 64
    ensures forall n: nat :: n in PRIMES <==> n <= 311 && Prime(n)
    ensures forall i :: 0 < i < 64 ==> PRIMES[i - 1] < PRIMES[i]
  {
    hide *;
    TableSizes();
    forall i: nat | i < 64 ensures Listed(PRIMES[i]) && (i > 0 ==> PRIMES[i - 1] < PRIMES[i]) {
      TableAscends(i);
    }
    forall n: nat ensures n in PRIMES <==> n <= 311 && Prime(n) {
      if n in PRIMES {
        ListedSmall(n);
      }
      if n <= 311 {
        PrimeSieved(n);
        SieveIsTable(n);
        if Listed(n) {
          TableIsListed(n);
        }
      }
    }
  }

  // ---------------------------------------------------------------- the constants

  /** `w` holds the first 32 bits of the fractional part of the cube root of `p`. */
  ghost predicate CubeRootFraction(w: word, p: nat) {
    exists q: nat :: CubeRootAt(q * 0x1_0000_0000 + w as int, p)
  }

  /** `x` is the integer part of the cube root of `p` shifted by 32 bits. */
  predicate CubeRootAt(x: nat, p: nat) {
    x * x * x <= p * 0x1_0000_0000_0000_0000_0000_0000 < (x + 1) * (x + 1) * (x + 1)
  }

  ghost predicate SquareRootFraction(w: word, p: nat) {
    exists q: nat :: SquareRootAt(q * 0x1_0000_0000 + w as int, p)
  }

  predicate SquareRootAt(x: nat, p: nat) {
    x * x <= p * 0x1_0000_0000_0000_0000 < (x + 1) * (x + 1)
  }

  lemma CubeRoot(w: word, p: nat, q: nat)
    requires CubeRootAt(q * 0x1_0000_0000 + w as int, p)
    ensures CubeRootFraction(w, p)
  {
    hide CubeRootAt;
  }

  lemma SquareRoot(w: word, p: nat, q: nat)
    requires SquareRootAt(q * 0x1_0000_0000 + w as int, p)
    ensures SquareRootFraction(w, p)
  {
    hide SquareRootAt;
  }

  lemma Constants0()
    ensures ROUND[0] == 0x428a2f98 && ROUND[1] == 0x71374491 && ROUND[2] == 0xb5c0fbcf && ROUND[3] == 0xe9b5dba5
    ensures ROUND[4] == 0x3956c25b && ROUND[5] == 0x59f111f1 && ROUND[6] == 0x923f82a4 && ROUND[7] == 0xab1c5ed5
  {
  }

  lemma Round0(i: nat)
    requires 0 <= i < 8
    ensures |ROUND| == |PRIMES| == 64 && CubeRootFraction(ROUND[i], PRIMES[i])
  {
    hide PRIMES, ROUND, CubeRootFraction;
    TableSizes();
    Table0();
    Constants0();
    CubeRoot(0x428a2f98, 2, 1);
    CubeRoot(0x71374491, 3, 1);
    CubeRoot(0xb5c0fbcf, 5, 1);
    CubeRoot(0xe9b5dba5, 7, 1);
    CubeRoot(0x3956c25b, 11, 2);
    CubeRoot(0x59f111f1, 13, 2);
    CubeRoot(0x923f82a4, 17, 2);
    CubeRoot(0xab1c5ed5, 19, 2);
  }

  lemma Constants8()
    ensures ROUND[8] == 0xd807aa98 && ROUND[9] == 0x12835b01 && ROUND[10] == 0x243185be && ROUND[11] == 0x550c7dc3
    ensures ROUND[12] == 0x72be5d74 && ROUND[13] == 0x80deb1fe && ROUND[14] == 0x9bdc06a7 && ROUND[15] == 0xc19bf174
  {
  }

  lemma Round8(i: nat)
    requires 8 <= i < 16
    ensures |ROUND| == |PRIMES| == 64 && CubeRootFraction(ROUND[i], PRIMES[i])
  {
    hide PRIMES, ROUND, CubeRootFraction;
    TableSizes();
    Table8();
    Constants8();
    CubeRoot(0xd807aa98, 23, 2);
    CubeRoot(0x12835b01, 29, 3);
    CubeRoot(0x243185be, 31, 3);
    CubeRoot(0x550c7dc3, 37, 3);
    CubeRoot(0x72be5d74, 41, 3);
    CubeRoot(0x80deb1fe, 43, 3);
    CubeRoot(0x9bdc06a7, 47, 3);
    CubeRoot(0xc19bf174, 53, 3);
  }

  lemma Constants16()
    ensures ROUND[16] == 0xe49b69c1 && ROUND[17] == 0xefbe4786 && ROUND[18] == 0x0fc19dc6 && ROUND[19] == 0x240ca1cc
    ensures ROUND[20] == 0x2de92c6f && ROUND[21] == 0x4a7484aa && ROUND[22] == 0x5cb0a9dc && ROUND[23] == 0x76f988da
  {
  }

  lemma Round16(i: nat)
    requires 16 <= i < 24
    ensures |ROUND| == |PRIMES| == 64 && CubeRootFraction(ROUND[i], PRIMES[i])
  {
    hide PRIMES, ROUND, CubeRootFraction;
    TableSizes();
    Table16();
    Constants16();
    CubeRoot(0xe49b69c1, 59, 3);
    CubeRoot(0xefbe4786, 61, 3);
    CubeRoot(0x0fc19dc6, 67, 4);
    CubeRoot(0x240ca1cc, 71, 4);
    CubeRoot(0x2de92c6f, 73, 4);
    CubeRoot(0x4a7484aa, 79, 4);
    CubeRoot(0x5cb0a9dc, 83, 4);
    CubeRoot(0x76f988da, 89, 4);
  }

  lemma Constants24()
    ensures ROUND[24] == 0x983e5152 && ROUND[25] == 0xa831c66d && ROUND[26] == 0xb00327c8 && ROUND[27] == 0xbf597fc7
    ensures ROUND[28] == 0xc6e00bf3 && ROUND[29] == 0xd5a79147 && ROUND[30] == 0x06ca6351 && ROUND[31] == 0x14292967
  {
  }

  lemma Round24(i: nat)
    requires 24 <= i < 32
    ensures |ROUND| == |PRIMES| == 64 && CubeRootFraction(ROUND[i], PRIMES[i])
  {
    hide PRIMES, ROUND, CubeRootFraction;
    TableSizes();
    Table24();
    Constants24();
    CubeRoot(0x983e5152, 97, 4);
    CubeRoot(0xa831c66d, 101, 4);
    CubeRoot(0xb00327c8, 103, 4);
    CubeRoot(0xbf597fc7, 107, 4);
    CubeRoot(0xc6e00bf3, 109, 4);
    CubeRoot(0xd5a79147, 113, 4);
    CubeRoot(0x06ca6351, 127, 5);
    CubeRoot(0x14292967, 131, 5);
  }

  lemma Constants32()
    ensures ROUND[32] == 0x27b70a85 && ROUND[33] == 0x2e1b2138 && ROUND[34] == 0x4d2c6dfc && ROUND[35] == 0x53380d13
    ensures ROUND[36] == 0x650a7354 && ROUND[37] == 0x766a0abb && ROUND[38] == 0x81c2c92e && ROUND[39] == 0x92722c85
  {
  }

  lemma Round32(i: nat)
    requires 32 <= i < 40
    ensures |ROUND| == |PRIMES| == 64 && CubeRootFraction(ROUND[i], PRIMES[i])
  {
    hide PRIMES, ROUND, CubeRootFraction;
    TableSizes();
    Table32();
    Constants32();
    CubeRoot(0x27b70a85, 137, 5);
    CubeRoot(0x2e1b2138, 139, 5);
    CubeRoot(0x4d2c6dfc, 149, 5);
    CubeRoot(0x53380d13, 151, 5);
    CubeRoot(0x650a7354, 157, 5);
    CubeRoot(0x766a0abb, 163, 5);
    CubeRoot(0x81c2c92e, 167, 5);
    CubeRoot(0x92722c85, 173, 5);
  }

  lemma Constants40()
    ensures ROUND[40] == 0xa2bfe8a1 && ROUND[41] == 0xa81a664b && ROUND[42] == 0xc24b8b70 && ROUND[43] == 0xc76c51a3
    ensures ROUND[44] == 0xd192e819 && ROUND[45] == 0xd6990624 && ROUND[46] == 0xf40e3585 && ROUND[47] == 0x106aa070
  {
  }

  lemma Round40(i: nat)
    requires 40 <= i < 48
    ensures |ROUND| == |PRIMES| == 64 && CubeRootFraction(ROUND[i], PRIMES[i])
  {
    hide PRIMES, ROUND, CubeRootFraction;
    TableSizes();
    Table40();
    Constants40();
    CubeRoot(0xa2bfe8a1, 179, 5);
    CubeRoot(0xa81a664b, 181, 5);
    CubeRoot(0xc24b8b70, 191, 5);
    CubeRoot(0xc76c51a3, 193, 5);
    CubeRoot(0xd192e819, 197, 5);
    CubeRoot(0xd6990624, 199, 5);
    CubeRoot(0xf40e3585, 211, 5);
    CubeRoot(0x106aa070, 223, 6);
  }

  lemma Constants48()
    ensures ROUND[48] == 0x19a4c116 && ROUND[49] == 0x1e376c08 && ROUND[50] == 0x2748774c && ROUND[51] == 0x34b0bcb5
    ensures ROUND[52] == 0x391c0cb3 && ROUND[53] == 0x4ed8aa4a && ROUND[54] == 0x5b9cca4f && ROUND[55] == 0x682e6ff3
  {
  }

  lemma Round48(i: nat)
    requires 48 <= i < 56
    ensures |ROUND| == |PRIMES| == 64 && CubeRootFraction(ROUND[i], PRIMES[i])
  {
    hide PRIMES, ROUND, CubeRootFraction;
    TableSizes();
    Table48();
    Constants48();
    CubeRoot(0x19a4c116, 227, 6);
    CubeRoot(0x1e376c08, 229, 6);
    CubeRoot(0x2748774c, 233, 6);
    CubeRoot(0x34b0bcb5, 239, 6);
    CubeRoot(0x391c0cb3, 241, 6);
    CubeRoot(0x4ed8aa4a, 251, 6);
    CubeRoot(0x5b9cca4f, 257, 6);
    CubeRoot(0x682e6ff3, 263, 6);
  }

  lemma Constants56()
    ensures ROUND[56] == 0x748f82ee && ROUND[57] == 0x78a5636f && ROUND[58] == 0x84c87814 && ROUND[59] == 0x8cc70208
    ensures ROUND[60] == 0x90befffa && ROUND[61] == 0xa4506ceb && ROUND[62] == 0xbef9a3f7 && ROUND[63] == 0xc67178f2
  {
  }

  lemma Round56(i: nat)
    requires 56 <= i < 64
    ensures |ROUND| == |PRIMES| == 64 && CubeRootFraction(ROUND[i], PRIMES[i])
  {
    hide PRIMES, ROUND, CubeRootFraction;
    TableSizes();
    Table56();
    Constants56();
    CubeRoot(0x748f82ee, 269, 6);
    CubeRoot(0x78a5636f, 271, 6);
    CubeRoot(0x84c87814, 277, 6);
    CubeRoot(0x8cc70208, 281, 6);
    CubeRoot(0x90befffa, 283, 6);
    CubeRoot(0xa4506ceb, 293, 6);
    CubeRoot(0xbef9a3f7, 307, 6);
    CubeRoot(0xc67178f2, 311, 6);
  }

  /** The round constants are the fractions of the cube roots of the first 64 primes. */
  lemma RoundConstants()
    ensures |ROUND| == |PRIMES| == 64 && forall i :: 0 <= i < 64 ==> CubeRootFraction(ROUND[i], PRIMES[i])
  {
    hide *;
    TableSizes();
    forall i: nat | i < 64 ensures CubeRootFraction(ROUND[i], PRIMES[i]) {
      if i < 8 {
        Round0(i);
      } else if i < 16 {
        Round8(i);
      } else if i < 24 {
        Round16(i);
      } else if i < 32 {
        Round24(i);
      } else if i < 40 {
        Round32(i);
      } else if i < 48 {
        Round40(i);
      } else if i < 56 {
        Round48(i);
      } else {
        Round56(i);
      }
    }
  }

  lemma TableSizes()
    ensures |ROUND| == |PRIMES| == 64
  {
  }

  /** The initial hash value consists of the fractions of the square roots of the first 8 primes. */
  lemma InitialValue()
    ensures var s := INITIAL;
            && SquareRootFraction(s.a, PRIMES[0]) && SquareRootFraction(s.b, PRIMES[1])
            && SquareRootFraction(s.c, PRIMES[2]) && SquareRootFraction(s.d, PRIMES[3])
            && SquareRootFraction(s.e, PRIMES[4]) && SquareRootFraction(s.f, PRIMES[5])
            && SquareRootFraction(s.g, PRIMES[6]) && SquareRootFraction(s.h, PRIMES[7])
  {
    hide PRIMES, SquareRootFraction;
    Table0();
    SquareRoot(0x6a09e667, 2, 1);
    SquareRoot(0xbb67ae85, 3, 1);
    SquareRoot(0x3c6ef372, 5, 2);
    SquareRoot(0xa54ff53a, 7, 2);
    SquareRoot(0x510e527f, 11, 3);
    SquareRoot(0x9b05688c, 13, 3);
    SquareRoot(0x1f83d9ab, 17, 4);
    SquareRoot(0x5be0cd19, 19, 4);
  }
}
