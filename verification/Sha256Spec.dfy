/** SHA-256 as FIPS 180-4 gives it, on unsigned 32-bit words and bytes. */
module Sha256Spec {
  import opened Common
  import opened Arithmetic
  import opened Bits

  // ---------- Operations on words (section 2.2.2) ----------

  function WordAnd(x: Word, y: Word): Word {
    Pow2Of32();
    AndBound(x, y, 32);
    And(x, y)
  }

  function WordXor(x: Word, y: Word): Word {
    Pow2Of32();
    XorBound(x, y, 32);
    Xor(x, y)
  }

  function WordNot(x: Word): Word {
    TWO32 - 1 - x
  }

  lemma RotateBound(x: nat, p: nat, q: nat)
    requires p > 0 && q > 0 && x < p * q
    ensures x / p < q && x / p + x % p * q < p * q
  {
    assert x == x / p * p + x % p;
    if x / p >= q {
      MulMonotone(q, x / p, p);
    }
    MulMonotone(x % p, p - 1, q);
    assert (p - 1) * q == p * q - q;
  }

  lemma MulMonotone(a: nat, b: nat, m: nat)
    requires a <= b
    ensures a * m <= b * m
  {
  }

  lemma Halves(x: Word, n: nat)
    requires 0 < n < 32
    ensures Pow2(n) * Pow2(32 - n) == TWO32
    ensures x / Pow2(n) < Pow2(32 - n)
    ensures x / Pow2(n) + x % Pow2(n) * Pow2(32 - n) < TWO32
  {
    Pow2Adds(n, 32 - n);
    Pow2Of32();
    RotateBound(x, Pow2(n), Pow2(32 - n));
  }

  lemma {:induction false} Pow2Adds(m: nat, n: nat)
    ensures Pow2(m + n) == Pow2(m) * Pow2(n)
  {
    if m > 0 {
      Pow2Adds(m - 1, n);
    }
  }

  lemma DivAtMost(x: nat, p: nat)
    requires p > 0
    ensures 0 <= x / p <= x
  {
    assert x == x / p * p + x % p;
    MulMonotone(1, p, x / p);
  }

  /** SHR^n (section 3.2). */
  function Shr(x: Word, n: nat): Word {
    DivAtMost(x, Pow2(n));
    x / Pow2(n)
  }

  /** ROTR^n (section 3.2): the low n bits become the high ones. */
  function Rotr(x: Word, n: nat): Word
    requires 0 < n < 32
  {
    hide Pow2;
    Halves(x, n);
    x / Pow2(n) + x % Pow2(n) * Pow2(32 - n)
  }

  // ---------- Functions (section 4.1.2) ----------

  function Ch(x: Word, y: Word, z: Word): Word {
    WordXor(WordAnd(x, y), WordAnd(WordNot(x), z))
  }

  function Maj(x: Word, y: Word, z: Word): Word {
    WordXor(WordXor(WordAnd(x, y), WordAnd(x, z)), WordAnd(y, z))
  }

  function BigSigma0(x: Word): Word {
    WordXor(WordXor(Rotr(x, 2), Rotr(x, 13)), Rotr(x, 22))
  }

  function BigSigma1(x: Word): Word {
    WordXor(WordXor(Rotr(x, 6), Rotr(x, 11)), Rotr(x, 25))
  }

  function SmallSigma0(x: Word): Word {
    WordXor(WordXor(Rotr(x, 7), Rotr(x, 18)), Shr(x, 3))
  }

  function SmallSigma1(x: Word): Word {
    WordXor(WordXor(Rotr(x, 17), Rotr(x, 19)), Shr(x, 10))
  }

  // ---------- Constants (sections 4.2.2 and 5.3.3) ----------

  // The round constants, in order, by the whole part of the cube root they are the fraction of.
  const K_1: seq<Word> := [
    0x428a2f98, 0x71374491, 0xb5c0fbcf, 0xe9b5dba5
  ]
  const K_2: seq<Word> := [
    0x3956c25b, 0x59f111f1, 0x923f82a4, 0xab1c5ed5, 0xd807aa98
  ]
  const K_3: seq<Word> := [
    0x12835b01, 0x243185be, 0x550c7dc3, 0x72be5d74, 0x80deb1fe, 0x9bdc06a7, 0xc19bf174, 0xe49b69c1,
    0xefbe4786
  ]
  const K_4: seq<Word> := [
    0x0fc19dc6, 0x240ca1cc, 0x2de92c6f, 0x4a7484aa, 0x5cb0a9dc, 0x76f988da, 0x983e5152, 0xa831c66d,
    0xb00327c8, 0xbf597fc7, 0xc6e00bf3, 0xd5a79147
  ]
  const K_5: seq<Word> := [
    0x06ca6351, 0x14292967, 0x27b70a85, 0x2e1b2138, 0x4d2c6dfc, 0x53380d13, 0x650a7354, 0x766a0abb,
    0x81c2c92e, 0x92722c85, 0xa2bfe8a1, 0xa81a664b, 0xc24b8b70, 0xc76c51a3, 0xd192e819, 0xd6990624,
    0xf40e3585
  ]
  const K_6: seq<Word> := [
    0x106aa070, 0x19a4c116, 0x1e376c08, 0x2748774c, 0x34b0bcb5, 0x391c0cb3, 0x4ed8aa4a, 0x5b9cca4f,
    0x682e6ff3, 0x748f82ee, 0x78a5636f, 0x84c87814, 0x8cc70208, 0x90befffa, 0xa4506ceb, 0xbef9a3f7,
    0xc67178f2
  ]

  const K: seq<Word> := K_1 + K_2 + K_3 + K_4 + K_5 + K_6

  const H0 := Eight(
    0x6a09e667, 0xbb67ae85, 0x3c6ef372, 0xa54ff53a, 0x510e527f, 0x9b05688c, 0x1f83d9ab, 0x5be0cd19)

  // ---------- Hash computation (section 6.2.2) ----------

  datatype Eight = Eight(a: Word, b: Word, c: Word, d: Word, e: Word, f: Word, g: Word, h: Word)

  /** W_t of the message schedule for the block `m`. */
  function Schedule(m: seq<Word>, t: nat): Word
    requires |m| == 16
  {
    if t < 16 then m[t]
    else (SmallSigma1(Schedule(m, t - 2)) + Schedule(m, t - 7) + SmallSigma0(Schedule(m, t - 15)) + Schedule(m, t - 16)) % TWO32
  }

  function Round(v: Eight, k: Word, w: Word): Eight {
    var t1 := (v.h + BigSigma1(v.e) + Ch(v.e, v.f, v.g) + k + w) % TWO32;
    var t2 := (BigSigma0(v.a) + Maj(v.a, v.b, v.c)) % TWO32;
    Eight((t1 + t2) % TWO32, v.a, v.b, v.c, (v.d + t1) % TWO32, v.e, v.f, v.g)
  }

  /** The working variables after `t` rounds. */
  function Rounds(v: Eight, m: seq<Word>, t: nat): Eight
    requires |m| == 16 && t <= 64
  {
    if t == 0 then v else Round(Rounds(v, m, t - 1), K[t - 1], Schedule(m, t - 1))
  }

  function Plus(x: Word, y: Word): Word {
    (x + y) % TWO32
  }

  /** The hash value after the block `m`. */
  function Compress(h: Eight, m: seq<Word>): Eight
    requires |m| == 16
  {
    var v := Rounds(h, m, 64);
    Eight(Plus(h.a, v.a), Plus(h.b, v.b), Plus(h.c, v.c), Plus(h.d, v.d),
          Plus(h.e, v.e), Plus(h.f, v.f), Plus(h.g, v.g), Plus(h.h, v.h))
  }

  /** Four bytes, most significant first (section 3.1). */
  function WordAt(bytes: seq<Byte>, i: nat): Word
    requires i + 4 <= |bytes|
  {
    var b0: int, b1: int, b2: int, b3: int := bytes[i], bytes[i + 1], bytes[i + 2], bytes[i + 3];
    b0 * 0x100_0000 + b1 * 0x1_0000 + b2 * 0x100 + b3
  }

  /** The sixteen words of block number `n` (section 5.2.1). */
  function Block(padded: seq<Byte>, n: nat): (m: seq<Word>)
    requires 64 * n + 64 <= |padded|
    ensures |m| == 16
  {
    seq(16, i requires 0 <= i < 16 => WordAt(padded, 64 * n + 4 * i))
  }

  /** The hash value after the first `n` blocks. */
  function HashAfter(padded: seq<Byte>, n: nat): Eight
    requires 64 * n <= |padded|
  {
    if n == 0 then H0 else Compress(HashAfter(padded, n - 1), Block(padded, n - 1))
  }

  // ---------- Padding (section 5.1.1) ----------

  function BigEndian64(n: nat): seq<Byte>
    requires n < TWO32 * TWO32
  {
    var hi, lo := n / TWO32, n % TWO32;
    BigEndian(hi) + BigEndian(lo)
  }

  function BigEndian(w: Word): (bytes: seq<Byte>)
    ensures |bytes| == 4
  {
    [w / 0x100_0000, w / 0x1_0000 % 0x100, w / 0x100 % 0x100, w % 0x100]
  }

  /**
   * `padded` is `message`, the bit 1, the least number of bits 0 that leaves 64
   * bits short of whole blocks, and the length in bits as a 64-bit number.
   */
  predicate IsPadding(message: seq<Byte>, padded: seq<Byte>) {
    && 8 * |message| < TWO32 * TWO32
    && |padded| % 64 == 0 && |message| + 9 <= |padded| < |message| + 9 + 64
    && padded[..|message|] == message
    && padded[|message|] == 0x80
    && (forall i :: |message| < i < |padded| - 8 ==> padded[i] == 0)
    && padded[|padded| - 8..] == BigEndian64(8 * |message|)
  }

  /** In bits: one 1 and k zeros, where k is the least solution of l + 1 + k = 448 modulo 512. */
  lemma PaddingIsMinimal(message: seq<Byte>, padded: seq<Byte>, j: nat)
    requires IsPadding(message, padded)
    ensures var l, k := 8 * |message|, 8 * (|padded| - |message| - 9) + 7;
            (l + 1 + k) % 512 == 448 && ((l + 1 + j) % 512 == 448 ==> k <= j)
  {
    var n, l := |padded| / 64, 8 * |message|;
    var k := 8 * (|padded| - |message| - 9) + 7;
    assert |padded| == 64 * n;
    ModUnique(l + 1 + k, 512, n - 1, 448);
    if (l + 1 + j) % 512 == 448 {
      NextResidue(l + 1 + j, n - 1);
    }
  }

  lemma NextResidue(x: nat, m: int)
    requires x % 512 == 448 && x > 512 * (m - 1) + 448
    ensures x >= 512 * m + 448
  {
    assert x == 512 * (x / 512) + 448;
  }

  lemma SameBlocks(n: nat, x: nat, y: nat)
    requires x % 64 == 0 && y % 64 == 0 && n <= x < n + 64 && n <= y < n + 64
    ensures x == y
  {
    var p, q := x / 64, y / 64;
    assert x == 64 * p && y == 64 * q;
  }

  lemma PaddingIsUnique(message: seq<Byte>, x: seq<Byte>, y: seq<Byte>)
    requires IsPadding(message, x) && IsPadding(message, y)
    ensures x == y
  {
    SameBlocks(|message| + 9, |x|, |y|);
    var n, m := |message|, |x| - 8;
    forall i | 0 <= i < |x|
      ensures x[i] == y[i]
    {
      if i < n {
        assert x[i] == x[..n][i] && y[i] == y[..n][i];
      } else if i >= m {
        assert x[i] == x[m..][i - m] && y[i] == y[m..][i - m];
      }
    }
  }

  ghost predicate IsDigest(message: seq<Byte>, digest: Eight) {
    exists padded :: IsPadding(message, padded) && digest == HashAfter(padded, |padded| / 64)
  }

  /** A message has at most one digest: the padding leaves no choice. */
  lemma DigestIsUnique(message: seq<Byte>, x: Eight, y: Eight)
    requires IsDigest(message, x) && IsDigest(message, y)
    ensures x == y
  {
    var p :| IsPadding(message, p) && x == HashAfter(p, |p| / 64);
    var q :| IsPadding(message, q) && y == HashAfter(q, |q| / 64);
    PaddingIsUnique(message, p, q);
  }
}
