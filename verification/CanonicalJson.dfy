/**
 * The JSON text `canonicalItemRef` hashes (plugins/sub-rosa/index.ts), as
 * `JSON.stringify` writes it, and why two RFQs never have the same bytes.
 */
module CanonicalJson {
  import opened Common
  import opened Radix
  import opened Utf8
  import opened Sha256Hex

  const MAX_UNIX_SECONDS := 253_402_300_799

  /** A deadline `unixSeconds` let through. */
  type Seconds = n: nat | 1 <= n <= MAX_UNIX_SECONDS witness 1

  datatype Rfq = Rfq(
    rfqId: seq<Unit>, title: seq<Unit>, description: Option<seq<Unit>>, commitDeadline: Seconds, revealDeadline: Seconds)

  predicate IsAscii(s: string) {
    forall i :: 0 <= i < |s| ==> s[i] < 128 as char
  }

  function Ascii(s: string): (units: seq<Unit>)
    requires IsAscii(s)
    ensures |units| == |s|
    ensures forall i :: 0 <= i < |s| ==> units[i] == s[i] as int
  {
    seq(|s|, i requires 0 <= i < |s| => s[i] as int)
  }

  const QUOTE: Unit := 0x22
  const BACKSLASH: Unit := 0x5C
  const COLON: Unit := 0x3A
  const COMMA: Unit := 0x2C
  const OPENING: Unit := 0x7B
  const CLOSING: Unit := 0x7D

  // ---------- Strings ----------

  /** A lower-case hexadecimal digit. */
  function HexUnit(d: nat): Unit
    requires d < 16
  {
    if d < 10 then 0x30 + d else 0x61 + d - 10
  }

  function HexValue(u: Unit): Option<nat> {
    if 0x30 <= u <= 0x39 then Some(u - 0x30) else if 0x61 <= u <= 0x66 then Some(u - 0x61 + 10) else None
  }

  function UnicodeEscape(u: Unit): seq<Unit> {
    [BACKSLASH, 0x75, HexUnit(u / 16 / 16 / 16), HexUnit(u / 16 / 16 % 16), HexUnit(u / 16 % 16), HexUnit(u % 16)]
  }

  /** The letter of a two-unit escape, and the unit it stands for. */
  function ShortEscape(u: Unit): Option<Unit> {
    if u == QUOTE then Some(QUOTE)
    else if u == BACKSLASH then Some(BACKSLASH)
    else if u == 0x08 then Some(0x62)
    else if u == 0x0C then Some(0x66)
    else if u == 0x0A then Some(0x6E)
    else if u == 0x0D then Some(0x72)
    else if u == 0x09 then Some(0x74)
    else None
  }

  function Unescaped(letter: Unit): Option<Unit> {
    if letter == QUOTE then Some(QUOTE)
    else if letter == BACKSLASH then Some(BACKSLASH)
    else if letter == 0x62 then Some(0x08)
    else if letter == 0x66 then Some(0x0C)
    else if letter == 0x6E then Some(0x0A)
    else if letter == 0x72 then Some(0x0D)
    else if letter == 0x74 then Some(0x09)
    else None
  }

  function QuoteUnit(u: Unit): seq<Unit> {
    if ShortEscape(u).Some? then [BACKSLASH, ShortEscape(u).value]
    else if u < 0x20 || High(u) || Low(u) then UnicodeEscape(u)
    else [u]
  }

  /**
   * `JSON.stringify` of one code unit: a backslash before a quote and a backslash, five
   * letters, four lower-case hexadecimal digits for any other control and for a lone
   * surrogate, and the unit itself otherwise.
   */
  lemma QuotesAsStringify(u: Unit)
    ensures var q := QuoteUnit(u);
            if u == 0x22 then q == Ascii("\\\"") else if u == 0x5C then q == Ascii("\\\\")
            else if u == 8 then q == Ascii("\\b") else if u == 9 then q == Ascii("\\t") else if u == 10 then q == Ascii("\\n")
            else if u == 12 then q == Ascii("\\f") else if u == 13 then q == Ascii("\\r")
            else if u < 32 || 0xD800 <= u <= 0xDFFF then
              q == [0x5C, 0x75, LowerHex(u / 16 / 16 / 16), LowerHex(u / 16 / 16 % 16), LowerHex(u / 16 % 16), LowerHex(u % 16)]
            else q == [u]
  {
    hide HexUnit, LowerHex;
    HexUnitIs(u / 16 / 16 / 16);
    HexUnitIs(u / 16 / 16 % 16);
    HexUnitIs(u / 16 % 16);
    HexUnitIs(u % 16);
  }

  function LowerHex(d: nat): Unit
    requires d < 16
  {
    "0123456789abcdef"[d] as int
  }

  lemma HexUnitIs(d: nat)
    requires d < 16
    ensures HexUnit(d) == LowerHex(d)
  {
  }

  /** Between the quotes: a surrogate pair stays, a lone surrogate is escaped. */
  function QuoteBody(text: seq<Unit>): seq<Unit> {
    if text == [] then []
    else if StartsPair(text) then [text[0], text[1]] + QuoteBody(text[2..])
    else QuoteUnit(text[0]) + QuoteBody(text[1..])
  }

  /** What a JSON reader makes of `s`: the units up to the closing quote, and what follows it. */
  function ReadBody(s: seq<Unit>): (read: Option<(seq<Unit>, seq<Unit>)>)
    ensures read.Some? ==> |read.value.1| < |s|
  {
    if s == [] then None
    else if s[0] == QUOTE then Some(([], s[1..]))
    else if s[0] != BACKSLASH then Then(s[0], ReadBody(s[1..]))
    else if |s| >= 2 && Unescaped(s[1]).Some? then Then(Unescaped(s[1]).value, ReadBody(s[2..]))
    else if |s| >= 6 && s[1] == 0x75 && ReadHex(s[2..6]).Some? then Then(ReadHex(s[2..6]).value, ReadBody(s[6..]))
    else None
  }

  function Then(u: Unit, read: Option<(seq<Unit>, seq<Unit>)>): Option<(seq<Unit>, seq<Unit>)> {
    if read.None? then None else Some(([u] + read.value.0, read.value.1))
  }

  function ReadHex(digits: seq<Unit>): Option<Unit>
    requires |digits| == 4
  {
    var a, b, c, d := HexValue(digits[0]), HexValue(digits[1]), HexValue(digits[2]), HexValue(digits[3]);
    if a.Some? && b.Some? && c.Some? && d.Some?
    then Some(a.value * 0x1000 + b.value * 0x100 + c.value * 0x10 + d.value)
    else None
  }

  lemma HexUnitReadsBack(d: nat)
    requires d < 16
    ensures HexValue(HexUnit(d)) == Some(d)
  {
  }

  lemma HexReadsBack(u: Unit)
    ensures ReadHex(UnicodeEscape(u)[2..6]) == Some(u)
  {
    hide HexUnit, HexValue;
    var a, b, c, d := u / 16 / 16 / 16, u / 16 / 16 % 16, u / 16 % 16, u % 16;
    HexUnitReadsBack(a);
    HexUnitReadsBack(b);
    HexUnitReadsBack(c);
    HexUnitReadsBack(d);
    FourDigits(u);
    assert UnicodeEscape(u)[2..6] == [HexUnit(a), HexUnit(b), HexUnit(c), HexUnit(d)];
  }

  lemma FourDigits(u: Unit)
    ensures u == u / 16 / 16 / 16 * 0x1000 + u / 16 / 16 % 16 * 0x100 + u / 16 % 16 * 0x10 + u % 16
  {
  }

  lemma PlainReadsBack(u: Unit, rest: seq<Unit>)
    requires u != QUOTE && u != BACKSLASH
    ensures ReadBody([u] + rest) == Then(u, ReadBody(rest))
  {
    hide Then;
    assert ([u] + rest)[1..] == rest;
  }

  lemma ShortReadsBack(u: Unit, rest: seq<Unit>)
    requires ShortEscape(u).Some?
    ensures ReadBody([BACKSLASH, ShortEscape(u).value] + rest) == Then(u, ReadBody(rest))
  {
    hide Then, ReadHex;
    var s := [BACKSLASH, ShortEscape(u).value] + rest;
    assert Unescaped(ShortEscape(u).value) == Some(u);
    assert s[1] == ShortEscape(u).value && s[2..] == rest;
  }

  lemma EscapeReadsBack(u: Unit, rest: seq<Unit>)
    ensures ReadBody(UnicodeEscape(u) + rest) == Then(u, ReadBody(rest))
  {
    hide Then, ReadHex, HexUnit;
    HexReadsBack(u);
    var e := UnicodeEscape(u);
    var s := e + rest;
    assert s[0] == BACKSLASH && s[1] == 0x75 && Unescaped(0x75).None?;
    assert s[2..6] == e[2..6] && s[6..] == rest;
  }

  lemma UnitReadsBack(u: Unit, rest: seq<Unit>)
    ensures ReadBody(QuoteUnit(u) + rest) == Then(u, ReadBody(rest))
  {
    hide ReadBody, Then, UnicodeEscape;
    if ShortEscape(u).Some? {
      ShortReadsBack(u, rest);
    } else if u < 0x20 || High(u) || Low(u) {
      EscapeReadsBack(u, rest);
    } else {
      PlainReadsBack(u, rest);
    }
  }

  lemma PairReadsBack(high: Unit, low: Unit, rest: seq<Unit>)
    requires High(high) && Low(low)
    ensures ReadBody([high, low] + rest) == Then(high, Then(low, ReadBody(rest)))
  {
    hide ReadBody, Then;
    assert [high, low] + rest == [high] + ([low] + rest);
    PlainReadsBack(high, [low] + rest);
    PlainReadsBack(low, rest);
  }

  lemma Ends(rest: seq<Unit>)
    ensures ReadBody([QUOTE] + rest) == Some(([], rest))
  {
    assert ([QUOTE] + rest)[1..] == rest;
  }

  /** A quoted string reads back as itself, whatever follows its closing quote. */
  lemma {:induction false} StringReadsBack(text: seq<Unit>, rest: seq<Unit>)
    ensures ReadBody(QuoteBody(text) + ([QUOTE] + rest)) == Some((text, rest))
  {
    hide ReadBody, QuoteUnit;
    var tail := [QUOTE] + rest;
    if text == [] {
      Ends(rest);
      assert QuoteBody(text) + tail == tail;
    } else if StartsPair(text) {
      StringReadsBack(text[2..], rest);
      PairReadsBack(text[0], text[1], QuoteBody(text[2..]) + tail);
      assert QuoteBody(text) + tail == [text[0], text[1]] + (QuoteBody(text[2..]) + tail);
      assert text == [text[0]] + ([text[1]] + text[2..]);
    } else {
      StringReadsBack(text[1..], rest);
      UnitReadsBack(text[0], QuoteBody(text[1..]) + tail);
      assert QuoteBody(text) + tail == QuoteUnit(text[0]) + (QuoteBody(text[1..]) + tail);
      assert text == [text[0]] + text[1..];
    }
  }

  // ---------- The text ----------

  function DecimalUnits(n: nat): (units: seq<Unit>)
    ensures |units| == |Digits(n, 10)|
    ensures forall i :: 0 <= i < |units| ==> 0x30 <= units[i] <= 0x39 && units[i] == 0x30 + Digits(n, 10)[i]
  {
    DigitsOf(n, 10);
    var digits := Digits(n, 10);
    seq(|digits|, i requires 0 <= i < |digits| => 0x30 + digits[i])
  }

  /** `JSON.stringify` of a deadline: every one prints as a plain decimal. */
  lemma DecimalDeterminesNumber(n: nat, m: nat)
    requires DecimalUnits(n) == DecimalUnits(m)
    ensures n == m
  {
    var x, y := Digits(n, 10), Digits(m, 10);
    assert |x| == |DecimalUnits(n)| == |DecimalUnits(m)| == |y|;
    forall i | 0 <= i < |x|
      ensures x[i] == y[i]
    {
      assert DecimalUnits(n)[i] == DecimalUnits(m)[i];
    }
    assert x == y;
    DigitsOf(n, 10);
    DigitsOf(m, 10);
  }

  function Quoted(text: seq<Unit>): seq<Unit> {
    [QUOTE] + QuoteBody(text) + [QUOTE]
  }

  function DescriptionUnits(description: Option<seq<Unit>>): seq<Unit> {
    match description
    case None => Ascii("null")
    case Some(text) => Quoted(text)
  }

  /** A key, up to its value. */
  function Key(name: string): seq<Unit>
    requires IsAscii(name)
  {
    [QUOTE] + Ascii(name) + [QUOTE, COLON]
  }

  // The fixed text between the values: the keys, in sorted order, and no whitespace.
  const COMMIT := [OPENING] + Key("commitDeadline")
  const DESCRIPTION := [COMMA] + Key("description")
  const REVEAL := [COMMA] + Key("revealDeadline")
  const RFQ_ID := [COMMA] + Key("rfqId")
  const SCHEMA := Ascii("cosmos-pay:") + Ascii("sub-rosa-rfq:v1")
  const TITLE := [COMMA] + Key("schema") + [QUOTE] + SCHEMA + [QUOTE, COMMA] + Key("title")
  const CLOSE := [CLOSING]

  function FromTitle(rfq: Rfq): seq<Unit> {
    TITLE + Quoted(rfq.title) + CLOSE
  }

  function FromRfqId(rfq: Rfq): seq<Unit> {
    RFQ_ID + Quoted(rfq.rfqId) + FromTitle(rfq)
  }

  function FromReveal(rfq: Rfq): seq<Unit> {
    REVEAL + DecimalUnits(rfq.revealDeadline) + FromRfqId(rfq)
  }

  function FromDescription(rfq: Rfq): seq<Unit> {
    DESCRIPTION + DescriptionUnits(rfq.description) + FromReveal(rfq)
  }

  function Canonical(rfq: Rfq): seq<Unit> {
    COMMIT + DecimalUnits(rfq.commitDeadline) + FromDescription(rfq)
  }

  // ---------- Different RFQs, different text ----------

  lemma Grouped(p: seq<Unit>, x: seq<Unit>, y: seq<Unit>)
    ensures p + x + y == p + (x + y)
  {
  }

  predicate IsDigit(u: Unit) { 0x30 <= u <= 0x39 }

  /** Digits end where the first non-digit is. */
  lemma NumberEnds(x: seq<Unit>, r: seq<Unit>, y: seq<Unit>, s: seq<Unit>)
    requires forall i :: 0 <= i < |x| ==> IsDigit(x[i])
    requires forall i :: 0 <= i < |y| ==> IsDigit(y[i])
    requires r != [] && s != [] && !IsDigit(r[0]) && !IsDigit(s[0])
    requires x + r == y + s
    ensures x == y && r == s
  {
    var t := x + r;
    assert t[|x|] == r[0] && t[|y|] == s[0];
    assert forall i :: 0 <= i < |x| ==> t[i] == x[i];
    assert forall i :: 0 <= i < |y| ==> t[i] == y[i];
    assert x == t[..|x|] && y == t[..|y|];
    assert r == t[|x|..] && s == t[|y|..];
  }

  lemma NumbersAgree(p: seq<Unit>, n: nat, r: seq<Unit>, m: nat, s: seq<Unit>)
    requires r != [] && s != [] && !IsDigit(r[0]) && !IsDigit(s[0])
    requires p + DecimalUnits(n) + r == p + DecimalUnits(m) + s
    ensures n == m && r == s
  {
    Grouped(p, DecimalUnits(n), r);
    Grouped(p, DecimalUnits(m), s);
    SamePrefix(p, DecimalUnits(n) + r, DecimalUnits(m) + s);
    NumberEnds(DecimalUnits(n), r, DecimalUnits(m), s);
    DecimalDeterminesNumber(n, m);
  }

  lemma QuotedAgree(x: seq<Unit>, r: seq<Unit>, y: seq<Unit>, s: seq<Unit>)
    requires Quoted(x) + r == Quoted(y) + s
    ensures x == y && r == s
  {
    var a, b := QuoteBody(x) + ([QUOTE] + r), QuoteBody(y) + ([QUOTE] + s);
    assert Quoted(x) + r == [QUOTE] + a && Quoted(y) + s == [QUOTE] + b;
    SamePrefix([QUOTE], a, b);
    StringReadsBack(x, r);
    StringReadsBack(y, s);
  }

  lemma StringsAgree(p: seq<Unit>, x: seq<Unit>, r: seq<Unit>, y: seq<Unit>, s: seq<Unit>)
    requires p + Quoted(x) + r == p + Quoted(y) + s
    ensures x == y && r == s
  {
    hide Quoted;
    Grouped(p, Quoted(x), r);
    Grouped(p, Quoted(y), s);
    SamePrefix(p, Quoted(x) + r, Quoted(y) + s);
    QuotedAgree(x, r, y, s);
  }

  lemma DescriptionsAgree(p: seq<Unit>, x: Option<seq<Unit>>, r: seq<Unit>, y: Option<seq<Unit>>, s: seq<Unit>)
    requires p + DescriptionUnits(x) + r == p + DescriptionUnits(y) + s
    ensures x == y && r == s
  {
    hide QuoteBody;
    var dx, dy := DescriptionUnits(x), DescriptionUnits(y);
    Grouped(p, dx, r);
    Grouped(p, dy, s);
    SamePrefix(p, dx + r, dy + s);
    assert (dx + r)[0] == dx[0] && (dy + s)[0] == dy[0];
    if x.Some? && y.Some? {
      QuotedAgree(x.value, r, y.value, s);
    } else if x == y {
      SamePrefix(dx, r, s);
    }
  }

  lemma FirstUnits(rfq: Rfq)
    ensures FromDescription(rfq) != [] && !IsDigit(FromDescription(rfq)[0])
    ensures FromRfqId(rfq) != [] && !IsDigit(FromRfqId(rfq)[0])
  {
    assert DESCRIPTION[0] == COMMA && RFQ_ID[0] == COMMA;
  }

  /** RFQs that differ in any field differ in their canonical text. */
  lemma CanonicalDeterminesRfq(a: Rfq, b: Rfq)
    requires Canonical(a) == Canonical(b)
    ensures a == b
  {
    FirstUnits(a);
    FirstUnits(b);
    NumbersAgree(COMMIT, a.commitDeadline, FromDescription(a), b.commitDeadline, FromDescription(b));
    DescriptionsAgree(DESCRIPTION, a.description, FromReveal(a), b.description, FromReveal(b));
    NumbersAgree(REVEAL, a.revealDeadline, FromRfqId(a), b.revealDeadline, FromRfqId(b));
    StringsAgree(RFQ_ID, a.rfqId, FromTitle(a), b.rfqId, FromTitle(b));
    StringsAgree(TITLE, a.title, CLOSE, b.title, CLOSE);
  }

  // ---------- Different text, different bytes ----------

  lemma {:induction false} WellFormedJoins(x: seq<Unit>, y: seq<Unit>)
    requires WellFormed16(x) && WellFormed16(y)
    ensures WellFormed16(x + y)
  {
    if x == [] {
      assert x + y == y;
    } else if StartsPair(x) && WellFormed16(x[2..]) {
      WellFormedJoins(x[2..], y);
      assert (x + y)[2..] == x[2..] + y;
    } else {
      WellFormedJoins(x[1..], y);
      assert (x + y)[1..] == x[1..] + y;
    }
  }

  lemma {:induction false} NoSurrogates(x: seq<Unit>)
    requires forall i :: 0 <= i < |x| ==> !High(x[i]) && !Low(x[i])
    ensures WellFormed16(x)
  {
    if x != [] {
      NoSurrogates(x[1..]);
    }
  }

  /** A lone surrogate is escaped, so what is written is well-formed UTF-16. */
  lemma {:induction false} QuoteBodyWellFormed(text: seq<Unit>)
    ensures WellFormed16(QuoteBody(text))
  {
    if text != [] {
      if StartsPair(text) {
        var pair := [text[0], text[1]];
        QuoteBodyWellFormed(text[2..]);
        assert pair[2..] == [];
        WellFormedJoins(pair, QuoteBody(text[2..]));
      } else {
        QuoteBodyWellFormed(text[1..]);
        NoSurrogates(QuoteUnit(text[0]));
        WellFormedJoins(QuoteUnit(text[0]), QuoteBody(text[1..]));
      }
    }
  }

  lemma QuotedWellFormed(text: seq<Unit>)
    ensures WellFormed16(Quoted(text))
  {
    QuoteBodyWellFormed(text);
    NoSurrogates([QUOTE]);
    WellFormedJoins([QUOTE], QuoteBody(text));
    WellFormedJoins([QUOTE] + QuoteBody(text), [QUOTE]);
  }

  lemma ThreeJoin(x: seq<Unit>, y: seq<Unit>, z: seq<Unit>)
    requires WellFormed16(x) && WellFormed16(y) && WellFormed16(z)
    ensures WellFormed16(x + y + z)
  {
    WellFormedJoins(x, y);
    WellFormedJoins(x + y, z);
  }

  lemma DescriptionWellFormed(description: Option<seq<Unit>>)
    ensures WellFormed16(DescriptionUnits(description))
  {
    match description {
      case None => NoSurrogates(Ascii("null"));
      case Some(text) => QuotedWellFormed(text);
    }
  }

  lemma FixedTextWellFormed()
    ensures WellFormed16(COMMIT) && WellFormed16(DESCRIPTION) && WellFormed16(REVEAL) && WellFormed16(RFQ_ID)
    ensures WellFormed16(TITLE) && WellFormed16(CLOSE)
  {
    hide WellFormed16;
    NoSurrogates(COMMIT);
    NoSurrogates(DESCRIPTION);
    NoSurrogates(REVEAL);
    NoSurrogates(RFQ_ID);
    NoSurrogates(TITLE);
    NoSurrogates(CLOSE);
  }

  lemma CanonicalWellFormed(rfq: Rfq)
    ensures WellFormed16(Canonical(rfq))
  {
    hide WellFormed16, Quoted, DescriptionUnits;
    FixedTextWellFormed();
    NoSurrogates(DecimalUnits(rfq.commitDeadline));
    NoSurrogates(DecimalUnits(rfq.revealDeadline));
    DescriptionWellFormed(rfq.description);
    QuotedWellFormed(rfq.title);
    QuotedWellFormed(rfq.rfqId);
    ThreeJoin(TITLE, Quoted(rfq.title), CLOSE);
    ThreeJoin(RFQ_ID, Quoted(rfq.rfqId), FromTitle(rfq));
    ThreeJoin(REVEAL, DecimalUnits(rfq.revealDeadline), FromRfqId(rfq));
    ThreeJoin(DESCRIPTION, DescriptionUnits(rfq.description), FromReveal(rfq));
    ThreeJoin(COMMIT, DecimalUnits(rfq.commitDeadline), FromDescription(rfq));
  }

  function CanonicalBytes(rfq: Rfq): seq<Byte> {
    Encode(CodePoints(Canonical(rfq)))
  }

  /** RFQs that differ in id, title, description or a deadline differ in the bytes that are hashed. */
  lemma BytesDetermineRfq(a: Rfq, b: Rfq)
    requires CanonicalBytes(a) == CanonicalBytes(b)
    ensures a == b
  {
    hide Canonical, Encode, CodePoints, WellFormed16;
    DecodeEncode(CodePoints(Canonical(a)));
    DecodeEncode(CodePoints(Canonical(b)));
    CanonicalWellFormed(a);
    CanonicalWellFormed(b);
    Utf16OfCodePoints(Canonical(a));
    Utf16OfCodePoints(Canonical(b));
    CanonicalDeterminesRfq(a, b);
  }

  // ---------- `canonicalItemRef` ----------

  /** The lengths the input readers let through. */
  predicate Bounded(rfq: Rfq) {
    |rfq.rfqId| <= 36 && |rfq.title| <= 160 && (rfq.description.Some? ==> |rfq.description.value| <= 1000)
  }

  lemma {:induction false} BytesPerUnit(text: seq<Unit>)
    ensures |Encode(CodePoints(text))| <= 3 * |text|
  {
    if text != [] {
      var points := CodePoints(text);
      if StartsPair(text) {
        BytesPerUnit(text[2..]);
        assert points[1..] == CodePoints(text[2..]);
      } else {
        BytesPerUnit(text[1..]);
        assert points[1..] == CodePoints(text[1..]);
      }
      assert Encode(points) == EncodePoint(points[0]) + Encode(points[1..]);
    }
  }

  lemma {:induction false} UnitsPerQuoted(text: seq<Unit>)
    ensures |QuoteBody(text)| <= 6 * |text|
  {
    if text != [] {
      if StartsPair(text) {
        UnitsPerQuoted(text[2..]);
      } else {
        UnitsPerQuoted(text[1..]);
      }
    }
  }

  lemma DeadlineDigits(n: Seconds)
    ensures |DecimalUnits(n)| <= 12
  {
    DigitsOf(n, 10);
    assert Pow(10, 6) == 1_000_000;
    PowAdds(10, 6, 6);
    ValueAtLeast(Digits(n, 10), 10);
    if |Digits(n, 10)| > 12 {
      PowMonotone(10, 12, |Digits(n, 10)| - 1);
    }
  }

  lemma CanonicalIsShort(rfq: Rfq)
    requires Bounded(rfq)
    ensures |CanonicalBytes(rfq)| <= 30_000
  {
    hide QuoteBody, DecimalUnits, Encode, CodePoints;
    UnitsPerQuoted(rfq.rfqId);
    UnitsPerQuoted(rfq.title);
    if rfq.description.Some? {
      UnitsPerQuoted(rfq.description.value);
    }
    DeadlineDigits(rfq.commitDeadline);
    DeadlineDigits(rfq.revealDeadline);
    BytesPerUnit(Canonical(rfq));
  }
}
