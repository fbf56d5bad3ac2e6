/**
 * The last line of `sha256Hex` (plugins/sub-rosa/index.ts), and where the constants
 * of SHA-256 come from.
 */
module Sha256Hex {
  import opened Common
  import opened Bits
  import opened Radix
  import opened Primes
  import opened Sha256Spec
  import opened Sha256
  import opened Utf8

  // ---------- Hexadecimal text ----------

  const HEX_DIGITS := "0123456789abcdef"

  function HexChars(digits: seq<nat>): (text: string)
    requires AreDigits(digits, 16)
    ensures |text| == |digits|
    ensures forall i :: 0 <= i < |digits| ==> text[i] == HEX_DIGITS[digits[i]]
  {
    seq(|digits|, i requires 0 <= i < |digits| => HEX_DIGITS[digits[i]])
  }

  lemma HexCharsDiffer(a: nat, b: nat)
    requires a < 16 && b < 16 && HEX_DIGITS[a] == HEX_DIGITS[b]
    ensures a == b
  {
  }

  lemma HexCharsAreInjective(x: seq<nat>, y: seq<nat>)
    requires AreDigits(x, 16) && AreDigits(y, 16) && HexChars(x) == HexChars(y)
    ensures x == y
  {
    assert |x| == |HexChars(x)| == |HexChars(y)| == |y|;
    forall i | 0 <= i < |x|
      ensures x[i] == y[i]
    {
      assert HexChars(x)[i] == HexChars(y)[i];
      HexCharsDiffer(x[i], y[i]);
    }
  }

  /** `toString(16)`: the shortest numeral, and "0" for zero. */
  function ShortHex(n: nat): (digits: seq<nat>)
    ensures AreDigits(digits, 16)
  {
    DigitsOf(n, 16);
    if n == 0 then [0] else Digits(n, 16)
  }

  lemma ShortHexFits(w: Word)
    ensures |ShortHex(w)| <= 8 && Value(ShortHex(w), 16) == w
  {
    DigitsOf(w, 16);
    if w == 0 {
      assert Value([0], 16) == 0;
    } else if |ShortHex(w)| > 8 {
      ValueAtLeast(ShortHex(w), 16);
      PowMonotone(16, 8, |ShortHex(w)| - 1);
      SixteenToTheEighth();
    }
  }

  lemma SixteenToTheEighth()
    ensures Pow(16, 8) == TWO32
  {
    assert Pow(16, 4) == 0x1_0000;
    PowAdds(16, 4, 4);
  }

  /** `padStart(8, '0')`. */
  function Padded(digits: seq<nat>): seq<nat> {
    if |digits| >= 8 then digits else Zeros(8 - |digits|) + digits
  }

  function HexDigits(w: Word): (digits: seq<nat>)
    ensures AreDigits(digits, 16)
  {
    Padded(ShortHex(w))
  }

  /** Eight digits, and the word they spell. */
  lemma HexDigitsSpell(w: Word)
    ensures |HexDigits(w)| == 8 && Value(HexDigits(w), 16) == w
  {
    ShortHexFits(w);
    if |ShortHex(w)| < 8 {
      LeadingZeros(8 - |ShortHex(w)|, ShortHex(w), 16);
    }
  }

  function DigestDigits(h: Eight): (digits: seq<nat>)
    ensures AreDigits(digits, 16)
  {
    hide HexDigits;
    Four(h.a, h.b, h.c, h.d) + Four(h.e, h.f, h.g, h.h)
  }

  function Four(a: Word, b: Word, c: Word, d: Word): (digits: seq<nat>)
    ensures AreDigits(digits, 16)
  {
    hide HexDigits;
    HexDigits(a) + HexDigits(b) + HexDigits(c) + HexDigits(d)
  }

  /** `h.map(...).join('')`. */
  function DigestText(h: Eight): string {
    HexChars(DigestDigits(h))
  }

  lemma FirstHalf(h: Eight)
    ensures |DigestDigits(h)| == 64
    ensures DigestDigits(h)[..8] == HexDigits(h.a) && DigestDigits(h)[8..16] == HexDigits(h.b)
    ensures DigestDigits(h)[16..24] == HexDigits(h.c) && DigestDigits(h)[24..32] == HexDigits(h.d)
  {
    hide HexDigits;
    EightEach(h);
  }

  lemma SecondHalf(h: Eight)
    ensures |DigestDigits(h)| == 64
    ensures DigestDigits(h)[32..40] == HexDigits(h.e) && DigestDigits(h)[40..48] == HexDigits(h.f)
    ensures DigestDigits(h)[48..56] == HexDigits(h.g) && DigestDigits(h)[56..] == HexDigits(h.h)
  {
    hide HexDigits;
    EightEach(h);
  }

  lemma EightEach(h: Eight)
    ensures |HexDigits(h.a)| == |HexDigits(h.b)| == |HexDigits(h.c)| == |HexDigits(h.d)| == 8
    ensures |HexDigits(h.e)| == |HexDigits(h.f)| == |HexDigits(h.g)| == |HexDigits(h.h)| == 8
  {
    hide HexDigits;
    HexDigitsSpell(h.a);
    HexDigitsSpell(h.b);
    HexDigitsSpell(h.c);
    HexDigitsSpell(h.d);
    HexDigitsSpell(h.e);
    HexDigitsSpell(h.f);
    HexDigitsSpell(h.g);
    HexDigitsSpell(h.h);
  }

  lemma SameDigitsSameWord(x: Word, y: Word)
    requires HexDigits(x) == HexDigits(y)
    ensures x == y
  {
    hide HexDigits;
    HexDigitsSpell(x);
    HexDigitsSpell(y);
  }

  /** The text is 64 digits long and gives the eight words back. */
  lemma DigestTextDeterminesWords(x: Eight, y: Eight)
    requires DigestText(x) == DigestText(y)
    ensures x == y && |DigestText(x)| == 64
  {
    hide HexDigits, DigestDigits, HexChars;
    HexCharsAreInjective(DigestDigits(x), DigestDigits(y));
    FirstHalf(x);
    FirstHalf(y);
    SecondHalf(x);
    SecondHalf(y);
    SameDigitsSameWord(x.a, y.a);
    SameDigitsSameWord(x.b, y.b);
    SameDigitsSameWord(x.c, y.c);
    SameDigitsSameWord(x.d, y.d);
    SameDigitsSameWord(x.e, y.e);
    SameDigitsSameWord(x.f, y.f);
    SameDigitsSameWord(x.g, y.g);
    SameDigitsSameWord(x.h, y.h);
  }

  /** The digits are written 0 to 9 and a to f. */
  lemma DigestTextSpells(h: Eight, i: nat)
    requires i < |DigestText(h)|
    ensures i < |DigestDigits(h)| && DigestDigits(h)[i] < 16
    ensures var d := DigestDigits(h)[i];
            DigestText(h)[i] as int == if d < 10 then '0' as int + d else 'a' as int + d - 10
  {
    hide HexDigits, DigestDigits;
    HexCharIs(DigestDigits(h)[i]);
  }

  lemma HexCharIs(d: nat)
    requires d < 16
    ensures HEX_DIGITS[d] as int == if d < 10 then '0' as int + d else 'a' as int + d - 10
  {
  }

  ghost predicate IsHexDigest(bytes: seq<Byte>, hex: string) {
    exists h :: IsDigest(bytes, h) && hex == DigestText(h)
  }

  /** `sha256Hex`: the hexadecimal SHA-256 of the text's UTF-8. */
  method Sha256OfText(text: seq<Unit>) returns (hex: string)
    requires 8 * |Encode(CodePoints(text))| < MAX_EXACT
    ensures |hex| == 64
    ensures IsHexDigest(Encode(CodePoints(text)), hex)
  {
    hide IsDigest, HexChars;
    var bytes := Utf8.Utf8(text);
    var h := Digest(bytes);
    hex := DigestText(h);
    FirstHalf(h);
  }

  // ---------- The constants (sections 4.2.2 and 5.3.3 of FIPS 180-4) ----------

  /** `k` is the first 32 bits of the fraction of the cube root of `p`, whose whole part is `a`. */
  predicate CubeRootBits(p: nat, a: nat, k: Word) {
    var x := a * TWO32 + k;
    x * x * x <= p * TWO32 * TWO32 * TWO32 < (x + 1) * (x + 1) * (x + 1)
  }

  predicate SquareRootBits(p: nat, a: nat, k: Word) {
    var x := a * TWO32 + k;
    x * x <= p * TWO32 * TWO32 < (x + 1) * (x + 1)
  }

  predicate AreCubeRoots(ps: seq<nat>, a: nat, ks: seq<Word>) {
    |ps| == |ks| && forall i :: 0 <= i < |ps| ==> CubeRootBits(ps[i], a, ks[i])
  }

  lemma Roots1()
    ensures AreCubeRoots(PRIMES_1, 1, K_1)
  {
  }

  lemma Roots2()
    ensures AreCubeRoots(PRIMES_2, 2, K_2)
  {
  }

  lemma Roots3()
    ensures AreCubeRoots(PRIMES_3, 3, K_3)
  {
  }

  lemma Roots4()
    ensures AreCubeRoots(PRIMES_4, 4, K_4)
  {
  }

  lemma Roots5()
    ensures AreCubeRoots(PRIMES_5, 5, K_5)
  {
  }

  lemma Roots6()
    ensures AreCubeRoots(PRIMES_6, 6, K_6)
  {
  }

  ghost predicate IsRoundConstant(p: nat, k: Word) {
    exists a: nat :: CubeRootBits(p, a, k)
  }

  lemma RootsJoin(ps: seq<nat>, ks: seq<Word>, a: nat, ps': seq<nat>, ks': seq<Word>)
    requires |ps| == |ks| && forall i :: 0 <= i < |ps| ==> IsRoundConstant(ps[i], ks[i])
    requires AreCubeRoots(ps', a, ks')
    ensures |ps + ps'| == |ks + ks'| && forall i :: 0 <= i < |ps + ps'| ==> IsRoundConstant((ps + ps')[i], (ks + ks')[i])
  {
    hide CubeRootBits;
  }

  /** The round constants are the first bits of the cube roots of the first 64 primes. */
  lemma RoundConstants()
    ensures |K| == |PRIMES| == 64 && FirstPrimes(PRIMES)
    ensures forall i :: 0 <= i < 64 ==> IsRoundConstant(PRIMES[i], K[i])
  {
    hide IsRoundConstant, AreCubeRoots, FirstPrimes;
    PrimesAreTheFirst();
    Roots1();
    Roots2();
    Roots3();
    Roots4();
    Roots5();
    Roots6();
    RootsJoin([], [], 1, PRIMES_1, K_1);
    assert [] + PRIMES_1 == PRIMES_1 && [] + K_1 == K_1;
    var p2, k2 := PRIMES_1 + PRIMES_2, K_1 + K_2;
    RootsJoin(PRIMES_1, K_1, 2, PRIMES_2, K_2);
    RootsJoin(p2, k2, 3, PRIMES_3, K_3);
    RootsJoin(p2 + PRIMES_3, k2 + K_3, 4, PRIMES_4, K_4);
    RootsJoin(p2 + PRIMES_3 + PRIMES_4, k2 + K_3 + K_4, 5, PRIMES_5, K_5);
    RootsJoin(p2 + PRIMES_3 + PRIMES_4 + PRIMES_5, k2 + K_3 + K_4 + K_5, 6, PRIMES_6, K_6);
  }

  /** The initial hash value is the square roots of the first eight. */
  lemma InitialHash()
    ensures PRIMES[..8] == [2, 3, 5, 7, 11, 13, 17, 19]
    ensures SquareRootBits(2, 1, H0.a) && SquareRootBits(3, 1, H0.b) && SquareRootBits(5, 2, H0.c)
    ensures SquareRootBits(7, 2, H0.d) && SquareRootBits(11, 3, H0.e) && SquareRootBits(13, 3, H0.f)
    ensures SquareRootBits(17, 4, H0.g) && SquareRootBits(19, 4, H0.h)
  {
  }
}
