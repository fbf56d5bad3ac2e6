/**
 * The plugin's SHA-256 (plugins/sub-rosa/index.ts), with JavaScript's numbers:
 * sums are checked to stay exact in a float64, and words move between signed and
 * unsigned 32-bit form as the operators leave them.
 */
module Sha256 {
  import opened Common
  import opened Arithmetic
  import opened Bits
  import opened Sha256Spec
  import opened Utf8

  const MAX_EXACT := 0x20_0000_0000_0000  // 2^53

  /** `x + y` on numbers: asked only where both operands and the sum are exact. */
  function JsAdd(x: int, y: int): int
    requires -MAX_EXACT < x < MAX_EXACT && -MAX_EXACT < y < MAX_EXACT
    requires -MAX_EXACT < x + y < MAX_EXACT
  {
    x + y
  }

  // ---------- The operators, as operations on words ----------

  /** `x` holds the word `w`, signed or unsigned. */
  predicate Holds(x: int, w: Word) {
    x == w || x == w - TWO32
  }

  lemma HeldWord(x: int, w: Word)
    requires Holds(x, w)
    ensures ToUint32(x) == w
  {
    if x != w {
      ModUnique(x, TWO32, -1, w);
    }
  }

  lemma XorHolds(x: int, a: Word, y: int, b: Word)
    requires Holds(x, a) && Holds(y, b)
    ensures Holds(JsXor(x, y), WordXor(a, b))
  {
    HeldWord(x, a);
    HeldWord(y, b);
  }

  lemma AndHolds(x: int, a: Word, y: int, b: Word)
    requires Holds(x, a) && Holds(y, b)
    ensures Holds(JsAnd(x, y), WordAnd(a, b))
  {
    HeldWord(x, a);
    HeldWord(y, b);
  }

  lemma NotHolds(x: int, a: Word)
    requires Holds(x, a)
    ensures Holds(JsNot(x), WordNot(a))
  {
    HeldWord(x, a);
  }

  /** `rotr`. */
  function JsRotr(x: int, n: nat): int
    requires 0 < n < 32
  {
    JsOr(JsShiftRight(x, n), JsShiftLeft(x, 32 - n))
  }

  lemma {:induction false} OrCommutes(x: nat, y: nat)
    ensures Or(x, y) == Or(y, x)
  {
    if x != 0 && y != 0 {
      OrCommutes(x / 2, y / 2);
    }
  }

  /** What `<<` keeps: the low n bits, moved up. */
  lemma ShiftedOut(w: nat, p: nat, q: nat)
    requires p > 0 && q > 0
    ensures w * q % (p * q) == w % p * q
  {
    var d, r := w / p, w % p;
    assert w == d * p + r;
    assert w * q == d * (p * q) + r * q;
    MulMonotone(r, p - 1, q);
    assert (p - 1) * q == p * q - q;
    ModUnique(w * q, p * q, d, r * q);
  }

  lemma OrHolds(x: int, a: Word, y: int, b: Word, r: Word)
    requires Holds(x, a) && Holds(y, b) && Or(a, b) == r
    ensures Holds(JsOr(x, y), r)
  {
    hide Or;
    HeldWord(x, a);
    HeldWord(y, b);
  }

  lemma OrOfHalves(low: Word, top: nat, k: nat)
    requires low < Pow2(k)
    ensures Or(low, top * Pow2(k)) == low + top * Pow2(k)
  {
    hide Or;
    OrCommutes(low, top * Pow2(k));
    OrAdds(top, low, k);
  }

  lemma ShiftsHold(x: int, w: Word, n: nat)
    requires 0 < n < 32 && Holds(x, w)
    ensures JsShiftRight(x, n) == w / Pow2(n)
    ensures w % Pow2(n) * Pow2(32 - n) < TWO32
    ensures Holds(JsShiftLeft(x, 32 - n), w % Pow2(n) * Pow2(32 - n))
  {
    hide Pow2;
    HeldWord(x, w);
    Halves(w, n);
    ShiftedOut(w, Pow2(n), Pow2(32 - n));
  }

  lemma RotrHolds(x: int, w: Word, n: nat)
    requires 0 < n < 32 && Holds(x, w)
    ensures Holds(JsRotr(x, n), Rotr(w, n))
  {
    hide Pow2, Or, JsOr, JsShiftLeft, JsShiftRight;
    Halves(w, n);
    ShiftsHold(x, w, n);
    OrOfHalves(w / Pow2(n), w % Pow2(n), 32 - n);
    OrHolds(JsShiftRight(x, n), w / Pow2(n), JsShiftLeft(x, 32 - n), w % Pow2(n) * Pow2(32 - n), Rotr(w, n));
  }

  /** `>>> 0` of a sum whose parts hold words: addition modulo 2^32. */
  lemma SumHolds(x: int, a: Word, y: int, b: Word, rest: int)
    requires Holds(x, a) && Holds(y, b)
    ensures ToUint32(x + y + rest) == (a + b + rest) % TWO32
  {
  }

  // ---------- The schedule ----------

  function JsSmall0(x: int): int {
    JsXor(JsXor(JsRotr(x, 7), JsRotr(x, 18)), JsShiftRight(x, 3))
  }

  function JsSmall1(x: int): int {
    JsXor(JsXor(JsRotr(x, 17), JsRotr(x, 19)), JsShiftRight(x, 10))
  }

  lemma SmallsHold(w: Word)
    ensures Holds(JsSmall0(w), SmallSigma0(w)) && Holds(JsSmall1(w), SmallSigma1(w))
  {
    RotrHolds(w, w, 7);
    RotrHolds(w, w, 18);
    RotrHolds(w, w, 17);
    RotrHolds(w, w, 19);
    HeldWord(w, w);
    XorHolds(JsRotr(w, 7), Rotr(w, 7), JsRotr(w, 18), Rotr(w, 18));
    XorHolds(JsRotr(w, 17), Rotr(w, 17), JsRotr(w, 19), Rotr(w, 19));
    XorHolds(JsXor(JsRotr(w, 7), JsRotr(w, 18)), WordXor(Rotr(w, 7), Rotr(w, 18)), JsShiftRight(w, 3), Shr(w, 3));
    XorHolds(JsXor(JsRotr(w, 17), JsRotr(w, 19)), WordXor(Rotr(w, 17), Rotr(w, 19)), JsShiftRight(w, 10), Shr(w, 10));
  }

  method NextWord(w16: Word, w15: Word, w7: Word, w2: Word) returns (w: Word)
    ensures w == (SmallSigma1(w2) + w7 + SmallSigma0(w15) + w16) % TWO32
  {
    hide JsSmall0, JsSmall1, SmallSigma0, SmallSigma1;
    var s0, s1 := JsSmall0(w15), JsSmall1(w2);
    SmallsHold(w15);
    SmallsHold(w2);
    w := ToUint32(JsAdd(JsAdd(JsAdd(w16, s0), w7), s1));
    SumHolds(s0, SmallSigma0(w15), s1, SmallSigma1(w2), w16 + w7);
  }

  method Expand(m: seq<Word>) returns (w: array<Word>)
    requires |m| == 16
    ensures fresh(w) && w.Length == 64
    ensures forall t :: 0 <= t < 64 ==> w[t] == Schedule(m, t)
  {
    hide SmallSigma0, SmallSigma1;
    w := new Word[64](_ => 0);
    for i := 0 to 16
      invariant forall t :: 0 <= t < i ==> w[t] == m[t]
    {
      w[i] := m[i];
    }
    for i := 16 to 64
      invariant forall t :: 0 <= t < i ==> w[t] == Schedule(m, t)
    {
      var next := NextWord(w[i - 16], w[i - 15], w[i - 7], w[i - 2]);
      w[i] := next;
    }
  }

  // ---------- The rounds ----------

  function JsBig0(a: int): int {
    JsXor(JsXor(JsRotr(a, 2), JsRotr(a, 13)), JsRotr(a, 22))
  }

  function JsBig1(e: int): int {
    JsXor(JsXor(JsRotr(e, 6), JsRotr(e, 11)), JsRotr(e, 25))
  }

  lemma BigsHold(w: Word)
    ensures Holds(JsBig0(w), BigSigma0(w)) && Holds(JsBig1(w), BigSigma1(w))
  {
    RotrHolds(w, w, 2);
    RotrHolds(w, w, 13);
    RotrHolds(w, w, 22);
    RotrHolds(w, w, 6);
    RotrHolds(w, w, 11);
    RotrHolds(w, w, 25);
    XorHolds(JsRotr(w, 2), Rotr(w, 2), JsRotr(w, 13), Rotr(w, 13));
    XorHolds(JsRotr(w, 6), Rotr(w, 6), JsRotr(w, 11), Rotr(w, 11));
    XorHolds(JsXor(JsRotr(w, 2), JsRotr(w, 13)), WordXor(Rotr(w, 2), Rotr(w, 13)), JsRotr(w, 22), Rotr(w, 22));
    XorHolds(JsXor(JsRotr(w, 6), JsRotr(w, 11)), WordXor(Rotr(w, 6), Rotr(w, 11)), JsRotr(w, 25), Rotr(w, 25));
  }

  function JsChoice(e: int, f: int, g: int): int {
    JsXor(JsAnd(e, f), JsAnd(JsNot(e), g))
  }

  function JsMajority(a: int, b: int, c: int): int {
    JsXor(JsXor(JsAnd(a, b), JsAnd(a, c)), JsAnd(b, c))
  }

  lemma ChoiceHolds(e: Word, f: Word, g: Word)
    ensures Holds(JsChoice(e, f, g), Ch(e, f, g))
  {
    AndHolds(e, e, f, f);
    NotHolds(e, e);
    AndHolds(JsNot(e), WordNot(e), g, g);
    XorHolds(JsAnd(e, f), WordAnd(e, f), JsAnd(JsNot(e), g), WordAnd(WordNot(e), g));
  }

  lemma MajorityHolds(a: Word, b: Word, c: Word)
    ensures Holds(JsMajority(a, b, c), Maj(a, b, c))
  {
    AndHolds(a, a, b, b);
    AndHolds(a, a, c, c);
    AndHolds(b, b, c, c);
    XorHolds(JsAnd(a, b), WordAnd(a, b), JsAnd(a, c), WordAnd(a, c));
    XorHolds(JsXor(JsAnd(a, b), JsAnd(a, c)), WordXor(WordAnd(a, b), WordAnd(a, c)), JsAnd(b, c), WordAnd(b, c));
  }

  method Temporary1(e: Word, f: Word, g: Word, k: Word, constant: Word, w: Word) returns (t1: Word)
    ensures t1 == (k + BigSigma1(e) + Ch(e, f, g) + constant + w) % TWO32
  {
    hide JsBig1, JsChoice, BigSigma1, Ch, ToUint32, Rotr, And, Xor, WordXor, WordAnd, Pow2, ToInt32, JsXor, JsAnd, JsRotr;
    var s1, choice := JsBig1(e), JsChoice(e, f, g);
    BigsHold(e);
    ChoiceHolds(e, f, g);
    var sum := JsAdd(JsAdd(JsAdd(JsAdd(k, s1), choice), constant), w);
    assert sum == s1 + choice + (k + constant + w);
    t1 := ToUint32(sum);
    SumHolds(s1, BigSigma1(e), choice, Ch(e, f, g), k + constant + w);
  }

  method Temporary2(a: Word, b: Word, c: Word) returns (t2: Word)
    ensures t2 == (BigSigma0(a) + Maj(a, b, c)) % TWO32
  {
    hide JsBig0, JsMajority, BigSigma0, Maj, ToUint32, Rotr, And, Xor, WordXor, WordAnd, Pow2, ToInt32, JsXor, JsAnd, JsRotr;
    var s0, majority := JsBig0(a), JsMajority(a, b, c);
    BigsHold(a);
    MajorityHolds(a, b, c);
    var sum := JsAdd(s0, majority);
    assert sum == s0 + majority + 0;
    t2 := ToUint32(sum);
    SumHolds(s0, BigSigma0(a), majority, Maj(a, b, c), 0);
  }

  method RunRounds(h: Eight, ghost m: seq<Word>, w: array<Word>) returns (v: Eight)
    requires |m| == 16 && w.Length == 64 && forall t :: 0 <= t < 64 ==> w[t] == Schedule(m, t)
    ensures v == Rounds(h, m, 64)
  {
    hide BigSigma0, BigSigma1, Ch, Maj, Schedule;
    var a, b, c, d, e, f, g, k := h.a, h.b, h.c, h.d, h.e, h.f, h.g, h.h;
    for i := 0 to 64
      invariant Eight(a, b, c, d, e, f, g, k) == Rounds(h, m, i)
    {
      var t1 := Temporary1(e, f, g, k, K[i], w[i]);
      var t2 := Temporary2(a, b, c);
      k := g;
      g := f;
      f := e;
      e := ToUint32(JsAdd(d, t1));
      d := c;
      c := b;
      b := a;
      a := ToUint32(JsAdd(t1, t2));
    }
    v := Eight(a, b, c, d, e, f, g, k);
  }

  method Absorb(h: Eight, m: seq<Word>) returns (h': Eight)
    requires |m| == 16
    ensures h' == Compress(h, m)
  {
    hide Rounds, Schedule;
    var w := Expand(m);
    var v := RunRounds(h, m, w);
    h' := Eight(
      ToUint32(JsAdd(h.a, v.a)), ToUint32(JsAdd(h.b, v.b)), ToUint32(JsAdd(h.c, v.c)), ToUint32(JsAdd(h.d, v.d)),
      ToUint32(JsAdd(h.e, v.e)), ToUint32(JsAdd(h.f, v.f)), ToUint32(JsAdd(h.g, v.g)), ToUint32(JsAdd(h.h, v.h)));
  }

  // ---------- Padding and blocks ----------

  /** `DataView.setUint32`, big-endian. */
  method SetUint32(buffer: array<Byte>, at: nat, value: int)
    requires at + 4 <= buffer.Length
    modifies buffer
    ensures buffer[at..at + 4] == BigEndian(ToUint32(value))
    ensures forall i :: 0 <= i < buffer.Length && !(at <= i < at + 4) ==> buffer[i] == old(buffer[i])
  {
    var bytes := BigEndian(ToUint32(value));
    buffer[at], buffer[at + 1], buffer[at + 2], buffer[at + 3] := bytes[0], bytes[1], bytes[2], bytes[3];
  }

  /** `Math.ceil(n / 64)`. */
  function CeilBlocks(n: nat): (blocks: nat)
    ensures n <= 64 * blocks < n + 64
  {
    (n + 63) / 64
  }

  method Pad(message: seq<Byte>) returns (padded: array<Byte>)
    requires 8 * |message| < MAX_EXACT
    ensures fresh(padded) && IsPadding(message, padded[..])
  {
    hide BigEndian, BigEndian64, ToUint32;
    var n := |message|;
    var blocks := CeilBlocks(n + 9);
    padded := new Byte[64 * blocks](_ => 0);
    for i := 0 to n
      invariant forall j :: 0 <= j < i ==> padded[j] == message[j]
      invariant forall j :: i <= j < padded.Length ==> padded[j] == 0
    {
      padded[i] := message[i];
    }
    padded[n] := 0x80;
    var bits := 8 * n;
    ghost var tail := padded.Length - 8;
    SetUint32(padded, padded.Length - 8, bits / TWO32);
    ghost var high := padded[tail..tail + 4];
    SetUint32(padded, padded.Length - 4, ToUint32(bits));
    assert padded[tail..tail + 4] == high;
    LengthBytes(bits, high, padded[tail + 4..tail + 8]);
    assert padded[..][tail..] == high + padded[tail + 4..tail + 8];
    assert padded[..][..n] == message;
  }

  lemma LengthBytes(bits: nat, high: seq<Byte>, low: seq<Byte>)
    requires bits < MAX_EXACT
    requires high == BigEndian(ToUint32(bits / TWO32)) && low == BigEndian(ToUint32(ToUint32(bits)))
    ensures high + low == BigEndian64(bits)
  {
    hide BigEndian;
    HighWord(bits);
    ModUnique(bits % TWO32, TWO32, 0, bits % TWO32);
  }

  lemma HighWord(bits: nat)
    requires bits < MAX_EXACT
    ensures ToUint32(bits / TWO32) == bits / TWO32
  {
    var high := bits / TWO32;
    assert bits == high * TWO32 + bits % TWO32;
    ModUnique(high, TWO32, 0, high);
  }

  method WordsOf(padded: array<Byte>, offset: nat) returns (m: seq<Word>)
    requires offset % 64 == 0 && offset + 64 <= padded.Length
    ensures m == Block(padded[..], offset / 64)
  {
    m := [];
    for i := 0 to 16
      invariant |m| == i
      invariant forall j :: 0 <= j < i ==> m[j] == WordAt(padded[..], offset + 4 * j)
    {
      m := m + [WordAt(padded[..], offset + 4 * i)];
    }
  }

  lemma WholeBlocks(message: seq<Byte>, padded: seq<Byte>)
    requires IsPadding(message, padded)
    ensures |padded| % 64 == 0
  {
  }

  /** `sha256Hex` up to the hexadecimal text. */
  method Digest(message: seq<Byte>) returns (h: Eight)
    requires 8 * |message| < MAX_EXACT
    ensures IsDigest(message, h)
  {
    hide Compress, Block, IsPadding;
    var padded := Pad(message);
    ghost var bytes := padded[..];
    WholeBlocks(message, bytes);
    h := H0;
    var offset := 0;
    ghost var n := 0;
    while offset < padded.Length
      invariant padded[..] == bytes
      invariant offset == 64 * n <= padded.Length && h == HashAfter(bytes, n)
      decreases padded.Length - offset
    {
      assert offset / 64 == n;
      var m := WordsOf(padded, offset);
      h := Absorb(h, m);
      offset, n := offset + 64, n + 1;
    }
    assert n == |bytes| / 64;
    assert IsPadding(message, bytes) && h == HashAfter(bytes, |bytes| / 64);
  }
}
