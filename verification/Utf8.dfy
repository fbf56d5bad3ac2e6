/**
 * The plugin's UTF-8 encoder (plugins/sub-rosa/index.ts) against RFC 3629. A
 * JavaScript string is a sequence of 16-bit code units, well-formed UTF-16 or not.
 */
module Utf8 {
  import opened Common
  import opened Arithmetic
  import opened Bits

  type Unit = u: int | 0 <= u < 0x1_0000

  /** A Unicode scalar value: a code point that is no surrogate. */
  type Scalar = c: int | 0 <= c < 0xD800 || 0xE000 <= c < 0x11_0000

  const REPLACEMENT: Scalar := 0xFFFD

  predicate High(u: Unit) { 0xD800 <= u <= 0xDBFF }
  predicate Low(u: Unit) { 0xDC00 <= u <= 0xDFFF }

  // ---------- UTF-16 ----------

  predicate StartsPair(text: seq<Unit>) {
    |text| >= 2 && High(text[0]) && Low(text[1])
  }

  function Paired(high: Unit, low: Unit): (c: Scalar)
    requires High(high) && Low(low)
    ensures c >= 0x1_0000
  {
    0x1_0000 + (high - 0xD800) * 0x400 + (low - 0xDC00)
  }

  /** The code points of `text`, each lone surrogate as U+FFFD. */
  function CodePoints(text: seq<Unit>): seq<Scalar> {
    if text == [] then []
    else if StartsPair(text) then [Paired(text[0], text[1])] + CodePoints(text[2..])
    else if High(text[0]) || Low(text[0]) then [REPLACEMENT] + CodePoints(text[1..])
    else [text[0]] + CodePoints(text[1..])
  }

  function UnitsOf(c: Scalar): seq<Unit> {
    if c < 0x1_0000 then [c] else [0xD800 + (c - 0x1_0000) / 0x400, 0xDC00 + (c - 0x1_0000) % 0x400]
  }

  function Utf16(points: seq<Scalar>): seq<Unit> {
    if points == [] then [] else UnitsOf(points[0]) + Utf16(points[1..])
  }

  /** No lone surrogate. */
  predicate WellFormed16(text: seq<Unit>) {
    text == []
    || (StartsPair(text) && WellFormed16(text[2..]))
    || (!High(text[0]) && !Low(text[0]) && WellFormed16(text[1..]))
  }

  lemma {:induction false} Utf16OfCodePoints(text: seq<Unit>)
    requires WellFormed16(text)
    ensures Utf16(CodePoints(text)) == text
  {
    if text != [] {
      if StartsPair(text) {
        Utf16OfCodePoints(text[2..]);
        var c: int := Paired(text[0], text[1]);
        ModUnique(c - 0x1_0000, 0x400, text[0] - 0xD800, text[1] - 0xDC00);
        assert CodePoints(text)[0] == c && CodePoints(text)[1..] == CodePoints(text[2..]);
        assert text == [text[0], text[1]] + text[2..];
      } else {
        Utf16OfCodePoints(text[1..]);
        assert CodePoints(text)[1..] == CodePoints(text[1..]);
        assert text == [text[0]] + text[1..];
      }
    }
  }

  // ---------- UTF-8, as RFC 3629 gives it ----------

  predicate Tail(b: Byte) { 0x80 <= b <= 0xBF }

  /** Section 4's UTF8-1 to UTF8-4: the length of the character `bytes` starts with, or 0. */
  function CharLength(bytes: seq<Byte>): nat {
    if |bytes| >= 1 && bytes[0] <= 0x7F then 1
    else if |bytes| >= 2 && 0xC2 <= bytes[0] <= 0xDF && Tail(bytes[1]) then 2
    else if |bytes| >= 3 && Tail(bytes[2])
            && ((bytes[0] == 0xE0 && 0xA0 <= bytes[1] <= 0xBF)
                || (0xE1 <= bytes[0] <= 0xEC && Tail(bytes[1]))
                || (bytes[0] == 0xED && 0x80 <= bytes[1] <= 0x9F)
                || (0xEE <= bytes[0] <= 0xEF && Tail(bytes[1]))) then 3
    else if |bytes| >= 4 && Tail(bytes[2]) && Tail(bytes[3])
            && ((bytes[0] == 0xF0 && 0x90 <= bytes[1] <= 0xBF)
                || (0xF1 <= bytes[0] <= 0xF3 && Tail(bytes[1]))
                || (bytes[0] == 0xF4 && 0x80 <= bytes[1] <= 0x8F)) then 4
    else 0
  }

  /** Section 3's table, read from the octets to the character number. */
  function CharNumber(bytes: seq<Byte>): (c: Scalar)
    requires CharLength(bytes) > 0
  {
    var n, b0: int := CharLength(bytes), bytes[0];
    if n == 1 then b0
    else
      var b1: int := bytes[1];
      if n == 2 then (b0 - 0xC0) * 0x40 + (b1 - 0x80)
      else
        var b2: int := bytes[2];
        if n == 3 then (b0 - 0xE0) * 0x1000 + (b1 - 0x80) * 0x40 + (b2 - 0x80)
        else
          var b3: int := bytes[3];
          (b0 - 0xF0) * 0x4_0000 + (b1 - 0x80) * 0x1000 + (b2 - 0x80) * 0x40 + (b3 - 0x80)
  }

  /** The characters of well-formed UTF-8, and None for anything else. */
  function Decode(bytes: seq<Byte>): Option<seq<Scalar>>
    decreases |bytes|
  {
    if bytes == [] then Some([])
    else if CharLength(bytes) == 0 then None
    else
      match Decode(bytes[CharLength(bytes)..])
      case None => None
      case Some(rest) => Some([CharNumber(bytes)] + rest)
  }

  predicate Encodes(bytes: seq<Byte>, c: Scalar) {
    CharLength(bytes) == |bytes| > 0 && CharNumber(bytes) == c
  }

  /** A character followed by anything is read back as that character. */
  lemma CharThenRest(ch: seq<Byte>, rest: seq<Byte>)
    requires CharLength(ch) == |ch| > 0
    ensures CharLength(ch + rest) == |ch| && CharNumber(ch + rest) == CharNumber(ch)
    ensures Decode(ch + rest) == (if Decode(rest).None? then None else Some([CharNumber(ch)] + Decode(rest).value))
  {
    assert forall i :: 0 <= i < |ch| ==> (ch + rest)[i] == ch[i];
    assert (ch + rest)[|ch|..] == rest;
  }

  /** Section 3's table, from the character number to the octets. */
  function EncodePoint(c: Scalar): seq<Byte> {
    if c < 0x80 then [c]
    else if c < 0x800 then [0xC0 + c / 0x40, 0x80 + c % 0x40]
    else if c < 0x1_0000 then [0xE0 + c / 0x40 / 0x40, 0x80 + c / 0x40 % 0x40, 0x80 + c % 0x40]
    else [0xF0 + c / 0x40 / 0x40 / 0x40, 0x80 + c / 0x40 / 0x40 % 0x40, 0x80 + c / 0x40 % 0x40, 0x80 + c % 0x40]
  }

  /** What section 3 writes, section 4 accepts, and it reads back. */
  lemma PointReadsBack(c: Scalar)
    ensures Encodes(EncodePoint(c), c)
  {
  }

  function FlatMap<A, B>(f: A -> seq<B>, xs: seq<A>): seq<B> {
    if xs == [] then [] else f(xs[0]) + FlatMap(f, xs[1..])
  }

  lemma {:induction false} FlatMapAppend<A, B>(f: A -> seq<B>, xs: seq<A>, x: A)
    ensures FlatMap(f, xs + [x]) == FlatMap(f, xs) + f(x)
  {
    if xs == [] {
      assert xs + [x] == [x] && f(x) + [] == f(x);
    } else {
      FlatMapAppend(f, xs[1..], x);
      assert (xs + [x])[1..] == xs[1..] + [x];
    }
  }

  function Encode(points: seq<Scalar>): seq<Byte> {
    FlatMap(EncodePoint, points)
  }

  /** The encoding is well-formed, and reads back as what was encoded. */
  lemma {:induction false} DecodeEncode(points: seq<Scalar>)
    ensures Decode(Encode(points)) == Some(points)
  {
    if points != [] {
      DecodeEncode(points[1..]);
      PointReadsBack(points[0]);
      CharThenRest(EncodePoint(points[0]), Encode(points[1..]));
      assert points == [points[0]] + points[1..];
    }
  }

  // ---------- The encoder ----------

  /** `cp >> n` of a code point. */
  lemma ShiftIsDivision(cp: int, n: nat)
    requires 0 <= cp < 0x11_0000 && n < 32
    ensures JsShiftRightSigned(cp, n) == cp / Pow2(n)
  {
    Small(cp);
  }

  lemma DivideAgain(cp: nat)
    ensures cp / 0x40 / 0x40 == cp / 0x1000 && cp / 0x1000 / 0x40 == cp / 0x4_0000
  {
  }

  lemma Shifts(cp: int)
    requires 0 <= cp < 0x11_0000
    ensures JsShiftRightSigned(cp, 6) == cp / 0x40
    ensures JsShiftRightSigned(cp, 12) == cp / 0x40 / 0x40
    ensures JsShiftRightSigned(cp, 18) == cp / 0x40 / 0x40 / 0x40
  {
    assert Pow2(6) == 0x40 && Pow2(12) == 0x1000 && Pow2(18) == 0x4_0000;
    ShiftIsDivision(cp, 6);
    ShiftIsDivision(cp, 12);
    ShiftIsDivision(cp, 18);
    DivideAgain(cp);
  }

  lemma MaskIsRemainder(x: int)
    requires 0 <= x < 0x11_0000
    ensures JsAnd(x, 0x3F) == x % 0x40
  {
    assert Pow2(6) == 0x40;
    AndMask(x, 6);
    SmallAnd(x, 0x3F, x % 0x40);
  }

  lemma SmallAnd(x: nat, y: nat, z: nat)
    requires x < 0x11_0000 && y < 0x100 && z < 0x100 && And(x, y) == z
    ensures JsAnd(x, y) == z
  {
    Small(x);
    Small(y);
    Small(z);
  }

  /** `lead | bits`, where the lead byte ends in `k` zeros. */
  lemma LeadPlusBits(lead: int, bits: int, k: nat, a: nat)
    requires lead == a * Pow2(k) && lead < 0x100 && 0 <= bits < Pow2(k) && bits < 0x100
    ensures JsOr(lead, bits) == lead + bits
  {
    OrOf(lead, bits, k, a);
    SmallOr(lead, bits, lead + bits);
  }

  lemma OrOf(lead: nat, bits: nat, k: nat, a: nat)
    requires lead == a * Pow2(k) && bits < Pow2(k)
    ensures Or(lead, bits) == lead + bits
  {
    OrAdds(a, bits, k);
  }

  lemma SmallOr(x: nat, y: nat, z: nat)
    requires x < 0x100 && y < 0x100 && z < 0x200 && Or(x, y) == z
    ensures JsOr(x, y) == z
  {
    Small(x);
    Small(y);
    Small(z);
  }

  method Continuation(x: int) returns (b: Byte)
    requires 0 <= x < 0x11_0000
    ensures b == 0x80 + x % 0x40
  {
    MaskIsRemainder(x);
    assert Pow2(6) == 0x40;
    LeadPlusBits(0x80, x % 0x40, 6, 2);
    b := JsOr(0x80, JsAnd(x, 0x3F));
  }

  method LeadByte(lead: int, bits: int, k: nat, ghost a: nat) returns (b: Byte)
    requires lead == a * Pow2(k) && lead + bits < 0x100 && 0 <= bits < Pow2(k)
    ensures b == lead + bits
  {
    assert a * Pow2(k) >= 0;
    LeadPlusBits(lead, bits, k, a);
    b := JsOr(lead, bits);
  }

  /** `cp >> 6`, `cp >> 12` and `cp >> 18`. */
  method Shifted(cp: int) returns (six: int, twelve: int, eighteen: int)
    requires 0 <= cp < 0x11_0000
    ensures six == cp / 0x40 && twelve == cp / 0x40 / 0x40 && eighteen == cp / 0x40 / 0x40 / 0x40
  {
    Shifts(cp);
    six, twelve, eighteen := JsShiftRightSigned(cp, 6), JsShiftRightSigned(cp, 12), JsShiftRightSigned(cp, 18);
  }

  method PushTwo(cp: Scalar) returns (bytes: seq<Byte>)
    requires 0x80 <= cp < 0x800
    ensures bytes == EncodePoint(cp)
  {
    assert Pow2(6) == 0x40;
    var six, _, _ := Shifted(cp);
    var lead := LeadByte(0xC0, six, 6, 3);
    var last := Continuation(cp);
    bytes := [lead, last];
  }

  method PushThree(cp: Scalar) returns (bytes: seq<Byte>)
    requires 0x800 <= cp < 0x1_0000
    ensures bytes == EncodePoint(cp)
  {
    assert Pow2(4) == 0x10;
    var six, twelve, _ := Shifted(cp);
    var lead := LeadByte(0xE0, twelve, 4, 14);
    var middle := Continuation(six);
    var last := Continuation(cp);
    bytes := [lead, middle, last];
  }

  method PushFour(cp: Scalar) returns (bytes: seq<Byte>)
    requires 0x1_0000 <= cp
    ensures bytes == EncodePoint(cp)
  {
    assert Pow2(3) == 8;
    var six, twelve, eighteen := Shifted(cp);
    var lead := LeadByte(0xF0, eighteen, 3, 30);
    var second := Continuation(twelve);
    var third := Continuation(six);
    var last := Continuation(cp);
    bytes := [lead, second, third, last];
  }

  method PushPoint(cp: Scalar) returns (bytes: seq<Byte>)
    ensures bytes == EncodePoint(cp)
  {
    if cp < 0x80 {
      bytes := [cp];
    } else if cp < 0x800 {
      bytes := PushTwo(cp);
    } else if cp < 0x1_0000 {
      bytes := PushThree(cp);
    } else {
      bytes := PushFour(cp);
    }
  }

  lemma Head(text: seq<Unit>, i: nat)
    requires i < |text|
    ensures CodePoints(text[i..])
         == if StartsPair(text[i..]) then [Paired(text[i], text[i + 1])] + CodePoints(text[i + 2..])
            else [if High(text[i]) || Low(text[i]) then REPLACEMENT else text[i]] + CodePoints(text[i + 1..])
  {
    assert text[i..][1..] == text[i + 1..];
    if i + 1 < |text| {
      assert text[i..][2..] == text[i + 2..];
    }
  }

  lemma ShiftTen(high: Unit)
    requires High(high)
    ensures JsShiftLeft(high - 0xD800, 10) == (high - 0xD800) * 0x400
  {
    assert Pow2(10) == 0x400;
    Small(high - 0xD800);
    Small((high - 0xD800) * 0x400);
  }

  /** The code point at `i`, a lone surrogate replaced, and the index after it. */
  method PointAt(text: seq<Unit>, i: nat) returns (cp: Scalar, next: nat)
    requires i < |text|
    ensures i < next <= |text| && CodePoints(text[i..]) == [cp] + CodePoints(text[next..])
  {
    Head(text, i);
    var c: int := text[i];
    next := i + 1;
    if 0xD800 <= c <= 0xDBFF && i + 1 < |text| {
      var low := text[i + 1];
      if 0xDC00 <= low <= 0xDFFF {
        ShiftTen(c);
        c := 0x1_0000 + JsShiftLeft(c - 0xD800, 10) + (low - 0xDC00);
        next := i + 2;
      }
    }
    if 0xD800 <= c <= 0xDFFF {
      c := REPLACEMENT;
    }
    cp := c;
  }

  lemma OneMore<A, B>(f: A -> seq<B>, done: seq<A>, x: A, after: seq<A>, rest: seq<A>, all: seq<A>, out: seq<B>)
    requires out == FlatMap(f, done) && done + rest == all && rest == [x] + after
    ensures out + f(x) == FlatMap(f, done + [x]) && done + [x] + after == all
  {
    FlatMapAppend(f, done, x);
  }

  /** `utf8`: always well-formed, and it decodes to the code points of the text. */
  method Utf8(text: seq<Unit>) returns (bytes: seq<Byte>)
    ensures bytes == Encode(CodePoints(text))
    ensures Decode(bytes) == Some(CodePoints(text))
  {
    bytes := [];
    var i := 0;
    ghost var done: seq<Scalar>, rest, all := [], CodePoints(text), CodePoints(text);
    assert text[0..] == text;
    while i < |text|
      invariant 0 <= i <= |text|
      invariant rest == CodePoints(text[i..])
      invariant bytes == FlatMap(EncodePoint, done) && done + rest == all
      decreases |text| - i
    {
      var cp, next := PointAt(text, i);
      var ch := PushPoint(cp);
      ghost var after := CodePoints(text[next..]);
      OneMore(EncodePoint, done, cp, after, rest, all, bytes);
      bytes, i := bytes + ch, next;
      done, rest := done + [cp], after;
    }
    assert done == all;
    DecodeEncode(done);
  }
}
