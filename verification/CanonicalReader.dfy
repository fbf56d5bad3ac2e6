/**
 * A reader of JSON objects (RFC 8259, without white space, fractions or nesting), and
 * what it reads from the text `canonicalItemRef` hashes.
 */
module CanonicalReader {
  import opened Common
  import opened Radix
  import opened Utf8
  import opened Sha256Hex
  import opened CanonicalJson

  datatype Json = Null | Number(value: nat) | Text(units: seq<Unit>)

  datatype Member = Member(key: seq<Unit>, value: Json)

  // ---------- The reader ----------

  /** How many digits `s` begins with. */
  function DigitRun(s: seq<Unit>): (n: nat)
    ensures n <= |s| && (forall i :: 0 <= i < n ==> IsDigit(s[i])) && (n < |s| ==> !IsDigit(s[n]))
  {
    if s == [] || !IsDigit(s[0]) then 0 else 1 + DigitRun(s[1..])
  }

  function DigitsValue(s: seq<Unit>): nat
    requires forall i :: 0 <= i < |s| ==> IsDigit(s[i])
  {
    if s == [] then 0
    else
      assert IsDigit(s[|s| - 1]);
      var last: int := s[|s| - 1];
      DigitsValue(s[..|s| - 1]) * 10 + (last - 0x30)
  }

  /** A string, a whole number without superfluous zeros, or `null`, and what follows it. */
  function ReadValue(s: seq<Unit>): (read: Option<(Json, seq<Unit>)>)
    ensures read.Some? ==> |read.value.1| < |s|
  {
    if s == [] then None
    else if s[0] == QUOTE then (
      match ReadBody(s[1..])
      case None => None
      case Some((units, rest)) => Some((Text(units), rest)))
    else if IsDigit(s[0]) then
      var n := DigitRun(s);
      if s[0] == 0x30 && n > 1 then None else Some((Number(DigitsValue(s[..n])), s[n..]))
    else if |s| >= 4 && s[..4] == [0x6E, 0x75, 0x6C, 0x6C] then Some((Null, s[4..]))
    else None
  }

  function ReadMember(s: seq<Unit>): (read: Option<(Member, seq<Unit>)>)
    ensures read.Some? ==> |read.value.1| < |s|
  {
    if s == [] || s[0] != QUOTE then None
    else
      match ReadBody(s[1..])
      case None => None
      case Some((key, rest)) =>
        if rest == [] || rest[0] != COLON then None
        else
          match ReadValue(rest[1..])
          case None => None
          case Some((value, after)) => Some((Member(key, value), after))
  }

  /** Members up to the closing brace, and what follows it. */
  function ReadMembers(s: seq<Unit>): Option<(seq<Member>, seq<Unit>)>
    decreases |s|
  {
    match ReadMember(s)
    case None => None
    case Some((member, rest)) =>
      if rest == [] then None
      else if rest[0] == CLOSING then Some(([member], rest[1..]))
      else if rest[0] != COMMA then None
      else
        match ReadMembers(rest[1..])
        case None => None
        case Some((members, after)) => Some(([member] + members, after))
  }

  /** The members of the object `s` is, in the order they stand. */
  function ReadObject(s: seq<Unit>): Option<seq<Member>> {
    if s == [] || s[0] != OPENING then None
    else
      match ReadMembers(s[1..])
      case None => None
      case Some((members, rest)) => if rest == [] then Some(members) else None
  }

  // ---------- What it reads back ----------

  /** Neither quoted nor escaped. */
  predicate IsPlain(text: seq<Unit>) {
    forall i :: 0 <= i < |text| ==> 0x20 <= text[i] < 0x7F && text[i] != QUOTE && text[i] != BACKSLASH
  }

  lemma {:induction false} PlainIsAsIs(text: seq<Unit>)
    requires IsPlain(text)
    ensures QuoteBody(text) == text
  {
    if text != [] {
      PlainIsAsIs(text[1..]);
      assert QuoteUnit(text[0]) == [text[0]];
      assert text == [text[0]] + text[1..];
    }
  }

  lemma KeyReads(name: string, value: seq<Unit>, json: Json, rest: seq<Unit>)
    requires IsAscii(name) && IsPlain(Ascii(name)) && ReadValue(value + rest) == Some((json, rest))
    ensures ReadMember(Key(name) + (value + rest)) == Some((Member(Ascii(name), json), rest))
  {
    hide ReadValue, ReadBody, QuoteBody, IsPlain;
    var key := Ascii(name);
    var s, tail := Key(name) + (value + rest), [COLON] + (value + rest);
    PlainIsAsIs(key);
    StringReadsBack(key, tail);
    assert s[1..] == key + ([QUOTE] + tail);
    assert tail[1..] == value + rest;
  }

  lemma StringReads(text: seq<Unit>, rest: seq<Unit>)
    ensures ReadValue(Quoted(text) + rest) == Some((Json.Text(text), rest))
  {
    hide ReadBody, QuoteBody;
    StringReadsBack(text, rest);
    assert (Quoted(text) + rest)[1..] == QuoteBody(text) + ([QUOTE] + rest);
  }

  lemma {:induction false} DigitsValueIs(ds: seq<nat>, s: seq<Unit>)
    requires |s| == |ds| && forall i :: 0 <= i < |ds| ==> ds[i] < 10 && s[i] == 0x30 + ds[i]
    ensures DigitsValue(s) == Value(ds, 10)
  {
    if ds != [] {
      DigitsValueIs(ds[..|ds| - 1], s[..|s| - 1]);
    }
  }

  lemma {:induction false} RunEnds(x: seq<Unit>, rest: seq<Unit>)
    requires forall i :: 0 <= i < |x| ==> IsDigit(x[i])
    requires rest != [] && !IsDigit(rest[0])
    ensures DigitRun(x + rest) == |x|
  {
    if x == [] {
      assert x + rest == rest;
    } else {
      RunEnds(x[1..], rest);
      assert (x + rest)[1..] == x[1..] + rest;
    }
  }

  lemma NumberReads(n: nat, rest: seq<Unit>)
    requires n > 0 && rest != [] && !IsDigit(rest[0])
    ensures ReadValue(DecimalUnits(n) + rest) == Some((Number(n), rest))
  {
    hide ReadBody, DigitRun, DigitsValue, Digits, Value;
    var ds, x := Digits(n, 10), DecimalUnits(n);
    var s := x + rest;
    DigitsOf(n, 10);
    DigitsValueIs(ds, x);
    RunEnds(x, rest);
    NonEmpty(n);
    assert s[0] == x[0] && ds[0] != 0;
    assert s[..|x|] == x && s[|x|..] == rest;
  }

  lemma NonEmpty(n: nat)
    requires n > 0
    ensures Digits(n, 10) != []
  {
  }

  lemma DescriptionReads(description: Option<seq<Unit>>, rest: seq<Unit>)
    ensures ReadValue(DescriptionUnits(description) + rest)
         == Some((match description case None => Null case Some(text) => Json.Text(text), rest))
  {
    hide ReadBody, QuoteBody, DigitRun;
    match description {
      case None =>
        var s := Ascii("null") + rest;
        assert s[..4] == [0x6E, 0x75, 0x6C, 0x6C] && s[4..] == rest;
      case Some(text) => StringReads(text, rest);
    }
  }

  lemma OneMember(s: seq<Unit>, member: Member, rest: seq<Unit>, members: seq<Member>, after: seq<Unit>)
    requires ReadMember(s) == Some((member, [COMMA] + rest)) && ReadMembers(rest) == Some((members, after))
    ensures ReadMembers(s) == Some(([member] + members, after))
  {
    hide ReadMember;
    assert ([COMMA] + rest)[1..] == rest;
  }

  lemma LastMember(s: seq<Unit>, member: Member, after: seq<Unit>)
    requires ReadMember(s) == Some((member, [CLOSING] + after))
    ensures ReadMembers(s) == Some(([member], after))
  {
    hide ReadMember;
    assert ([CLOSING] + after)[1..] == after;
  }

  // ---------- What the hashed text says ----------

  /** The six members, in the order of their keys. */
  function Members(rfq: Rfq): seq<Member> {
    [Member(Ascii("commitDeadline"), Number(rfq.commitDeadline)),
     Member(Ascii("description"), match rfq.description case None => Null case Some(text) => Json.Text(text)),
     Member(Ascii("revealDeadline"), Number(rfq.revealDeadline)),
     Member(Ascii("rfqId"), Json.Text(rfq.rfqId)),
     Member(Ascii("schema"), Json.Text(Ascii("cosmos-pay:") + Ascii("sub-rosa-rfq:v1"))),
     Member(Ascii("title"), Json.Text(rfq.title))]
  }

  lemma KeysArePlain()
    ensures IsPlain(Ascii("commitDeadline")) && IsPlain(Ascii("description")) && IsPlain(Ascii("revealDeadline"))
    ensures IsPlain(Ascii("rfqId")) && IsPlain(Ascii("schema")) && IsPlain(Ascii("title"))
  {
  }

  lemma SchemaReads(rest: seq<Unit>)
    ensures ReadValue([QUOTE] + SCHEMA + [QUOTE] + rest) == Some((Json.Text(SCHEMA), rest))
  {
    hide ReadValue, QuoteBody;
    assert IsPlain(Ascii("cosmos-pay:")) && IsPlain(Ascii("sub-rosa-rfq:v1"));
    PlainIsAsIs(SCHEMA);
    StringReads(SCHEMA, rest);
  }

  /** One member more in front: `v` is its value's text, and `s` the members after it. */
  lemma MemberBefore(name: string, v: seq<Unit>, json: Json, s: seq<Unit>, members: seq<Member>)
    requires IsAscii(name) && IsPlain(Ascii(name))
    requires ReadValue(v + ([COMMA] + s)) == Some((json, [COMMA] + s)) && ReadMembers(s) == Some((members, []))
    ensures ReadMembers(Key(name) + (v + ([COMMA] + s))) == Some(([Member(Ascii(name), json)] + members, []))
  {
    hide ReadValue, ReadMember, ReadMembers, Key, IsPlain;
    KeyReads(name, v, json, [COMMA] + s);
    OneMember(Key(name) + (v + ([COMMA] + s)), Member(Ascii(name), json), s, members, []);
  }

  lemma Chained(front: seq<Unit>, key: seq<Unit>, v: seq<Unit>, rest: seq<Unit>)
    ensures front + key + v + rest == front + (key + (v + rest))
  {
  }

  lemma TitleMembers(rfq: Rfq) returns (s: seq<Unit>)
    ensures FromTitle(rfq) == [COMMA] + s && ReadMembers(s) == Some((Members(rfq)[4..], []))
  {
    hide ReadValue, ReadMember, ReadMembers, Quoted, Key, IsPlain, SCHEMA;
    KeysArePlain();
    var title := Key("title") + (Quoted(rfq.title) + [CLOSING]);
    StringReads(rfq.title, [CLOSING]);
    KeyReads("title", Quoted(rfq.title), Json.Text(rfq.title), [CLOSING]);
    assert [CLOSING] + [] == [CLOSING];
    LastMember(title, Member(Ascii("title"), Json.Text(rfq.title)), []);
    var v := [QUOTE] + SCHEMA + [QUOTE];
    SchemaReads([COMMA] + title);
    s := Key("schema") + (v + ([COMMA] + title));
    var last := Member(Ascii("title"), Json.Text(rfq.title));
    MemberBefore("schema", v, Json.Text(SCHEMA), title, [last]);
    SchemaIs();
    assert Members(rfq)[4..] == [Member(Ascii("schema"), Json.Text(SCHEMA))] + [last];
    TitleSplit(rfq, v, title);
  }

  lemma SchemaIs()
    ensures SCHEMA == Ascii("cosmos-pay:") + Ascii("sub-rosa-rfq:v1")
  {
  }

  lemma TitleSplit(rfq: Rfq, v: seq<Unit>, title: seq<Unit>)
    requires v == [QUOTE] + SCHEMA + [QUOTE] && title == Key("title") + (Quoted(rfq.title) + [CLOSING])
    ensures FromTitle(rfq) == [COMMA] + (Key("schema") + (v + ([COMMA] + title)))
  {
    hide Quoted, Key, SCHEMA;
    assert TITLE == [COMMA] + Key("schema") + v + ([COMMA] + Key("title"));
  }

  lemma RfqIdMembers(rfq: Rfq) returns (s: seq<Unit>)
    ensures FromRfqId(rfq) == [COMMA] + s && ReadMembers(s) == Some((Members(rfq)[3..], []))
  {
    hide ReadValue, ReadMember, ReadMembers, Quoted, Key, IsPlain, FromTitle;
    var rest := TitleMembers(rfq);
    KeysArePlain();
    StringReads(rfq.rfqId, [COMMA] + rest);
    MemberBefore("rfqId", Quoted(rfq.rfqId), Json.Text(rfq.rfqId), rest, Members(rfq)[4..]);
    s := Key("rfqId") + (Quoted(rfq.rfqId) + ([COMMA] + rest));
    Chained([COMMA], Key("rfqId"), Quoted(rfq.rfqId), [COMMA] + rest);
    assert Members(rfq)[3..] == [Members(rfq)[3]] + Members(rfq)[4..];
  }

  lemma RevealMembers(rfq: Rfq) returns (s: seq<Unit>)
    ensures FromReveal(rfq) == [COMMA] + s && ReadMembers(s) == Some((Members(rfq)[2..], []))
  {
    hide ReadValue, ReadMember, ReadMembers, DecimalUnits, Key, IsPlain, FromRfqId;
    var rest := RfqIdMembers(rfq);
    KeysArePlain();
    NumberReads(rfq.revealDeadline, [COMMA] + rest);
    MemberBefore("revealDeadline", DecimalUnits(rfq.revealDeadline), Number(rfq.revealDeadline), rest, Members(rfq)[3..]);
    s := Key("revealDeadline") + (DecimalUnits(rfq.revealDeadline) + ([COMMA] + rest));
    Chained([COMMA], Key("revealDeadline"), DecimalUnits(rfq.revealDeadline), [COMMA] + rest);
    assert Members(rfq)[2..] == [Members(rfq)[2]] + Members(rfq)[3..];
  }

  lemma DescriptionMembers(rfq: Rfq) returns (s: seq<Unit>)
    ensures FromDescription(rfq) == [COMMA] + s && ReadMembers(s) == Some((Members(rfq)[1..], []))
  {
    hide ReadValue, ReadMember, ReadMembers, DescriptionUnits, Key, IsPlain, FromReveal;
    var rest := RevealMembers(rfq);
    KeysArePlain();
    DescriptionReads(rfq.description, [COMMA] + rest);
    MemberBefore("description", DescriptionUnits(rfq.description), Members(rfq)[1].value, rest, Members(rfq)[2..]);
    s := Key("description") + (DescriptionUnits(rfq.description) + ([COMMA] + rest));
    Chained([COMMA], Key("description"), DescriptionUnits(rfq.description), [COMMA] + rest);
    assert Members(rfq)[1..] == [Members(rfq)[1]] + Members(rfq)[2..];
  }

  /**
   * The hashed text is a JSON object of exactly six members, in the order of their
   * keys, each with its own field of the RFQ; the description is null exactly when it
   * is absent.
   */
  lemma CanonicalReads(rfq: Rfq)
    ensures ReadObject(Canonical(rfq)) == Some(Members(rfq))
  {
    hide ReadValue, ReadMember, ReadMembers, DecimalUnits, Key, IsPlain, FromDescription;
    var rest := DescriptionMembers(rfq);
    KeysArePlain();
    NumberReads(rfq.commitDeadline, [COMMA] + rest);
    MemberBefore("commitDeadline", DecimalUnits(rfq.commitDeadline), Number(rfq.commitDeadline), rest, Members(rfq)[1..]);
    var s := Key("commitDeadline") + (DecimalUnits(rfq.commitDeadline) + ([COMMA] + rest));
    Chained([OPENING], Key("commitDeadline"), DecimalUnits(rfq.commitDeadline), [COMMA] + rest);
    assert Members(rfq) == [Members(rfq)[0]] + Members(rfq)[1..];
    assert Canonical(rfq)[1..] == s;
  }

  /** `canonicalItemRef`. */
  method CanonicalItemRef(rfq: Rfq) returns (hex: string)
    requires Bounded(rfq)
    ensures |hex| == 64 && IsHexDigest(CanonicalBytes(rfq), hex) && ReadObject(Canonical(rfq)) == Some(Members(rfq))
  {
    hide IsHexDigest, Canonical, ReadObject, Members, Encode, CodePoints;
    CanonicalIsShort(rfq);
    CanonicalReads(rfq);
    hex := Sha256OfText(Canonical(rfq));
  }
}
