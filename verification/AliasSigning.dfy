/**
 * The bytes a claimant signs (src/aliases/alias-signing.ts).
 *
 * Two facts make a signature safe to accept: no two challenges produce the same
 * message, and no two (domain, message) pairs produce the same digest preimage.
 */
module AliasSigning {
  import opened Common

  datatype Purpose = CLAIM | ADD_ADDRESS | RECOVER

  /** Everything the signature commits to. */
  datatype Body = Body(
    purpose: Purpose, name: string, chain: Chain, address: string, network: string, nonce: string)

  const SIGN_DOMAIN := "Cosmos Pay alias claim v1"

  function PurposeName(purpose: Purpose): string {
    match purpose
    case CLAIM => "CLAIM"
    case ADD_ADDRESS => "ADD_ADDRESS"
    case RECOVER => "RECOVER"
  }

  function Join(lines: seq<string>): string {
    if |lines| == 0 then "" else if |lines| == 1 then lines[0] else lines[0] + "\n" + Join(lines[1..])
  }

  function ChainLine(chain: Chain): seq<string> {
    if chain == Stellar then [] else ["chain: " + ChainName(chain)]
  }

  function Lines(body: Body): seq<string> {
    ["domain: " + SIGN_DOMAIN, "purpose: " + PurposeName(body.purpose), "alias: " + body.name]
    + ChainLine(body.chain)
    + ["address: " + body.address, "network: " + body.network, "nonce: " + body.nonce]
  }

  /** `aliasChallengeMessage`: the exact string that gets signed. */
  function Message(body: Body): string {
    Join(Lines(body))
  }

  predicate OneLine(s: string) {
    '\n' !in s
  }

  /** The fields the service keeps on one line; `network` is any string at all. */
  predicate WellFormed(body: Body) {
    OneLine(body.name) && OneLine(body.address) && OneLine(body.nonce)
  }

  lemma CutFirst<T>(a: seq<T>, x: seq<T>, b: seq<T>, y: seq<T>, c: T)
    requires c !in a && c !in b
    requires a + [c] + x == b + [c] + y
    ensures a == b && x == y
  {
    var s := a + [c] + x;
    assert s[|a|] == c && s[|b|] == c;
    assert |a| == |b|;
    assert a == s[..|a|] && b == s[..|b|];
    assert x == s[|a| + 1..] && y == s[|b| + 1..];
  }

  lemma CutLast<T>(x: seq<T>, a: seq<T>, y: seq<T>, b: seq<T>, c: T)
    requires c !in a && c !in b
    requires x + [c] + a == y + [c] + b
    ensures a == b && x == y
  {
    var s := x + [c] + a;
    assert s[|x|] == c && s[|y|] == c;
    assert |x| == |y|;
    assert x == s[..|x|] && y == s[..|y|];
    assert a == s[|x| + 1..] && b == s[|y| + 1..];
  }

  /** Equal text whose first lines hold no newline: the first lines and the rests agree. */
  lemma PeelLine(first: string, rest: seq<string>, first': string, rest': seq<string>)
    requires OneLine(first) && OneLine(first') && |rest| > 0 && |rest'| > 0
    requires Join([first] + rest) == Join([first'] + rest')
    ensures first == first' && Join(rest) == Join(rest')
  {
    assert ([first] + rest)[1..] == rest && ([first'] + rest')[1..] == rest';
    assert Join([first] + rest) == first + ['\n'] + Join(rest);
    assert Join([first'] + rest') == first' + ['\n'] + Join(rest');
    CutFirst(first, Join(rest), first', Join(rest'), '\n');
  }

  lemma PurposeIsItsName(p: Purpose, q: Purpose)
    requires "purpose: " + PurposeName(p) == "purpose: " + PurposeName(q)
    ensures p == q
  {
    SamePrefix("purpose: ", PurposeName(p), PurposeName(q));
    assert |PurposeName(CLAIM)| == 5 && |PurposeName(ADD_ADDRESS)| == 11 && |PurposeName(RECOVER)| == 7;
  }

  function Ending(body: Body): seq<string> {
    ["network: " + body.network, "nonce: " + body.nonce]
  }

  /** The network may hold newlines of its own: the nonce is after the last one. */
  lemma EndingIsUnique(a: Body, b: Body)
    requires OneLine(a.nonce) && OneLine(b.nonce)
    requires Join(Ending(a)) == Join(Ending(b))
    ensures a.network == b.network && a.nonce == b.nonce
  {
    var na, nb := "nonce: " + a.nonce, "nonce: " + b.nonce;
    assert Ending(a)[1..] == [na] && Ending(b)[1..] == [nb];
    assert Join(Ending(a)) == ("network: " + a.network) + ['\n'] + na;
    assert Join(Ending(b)) == ("network: " + b.network) + ['\n'] + nb;
    CutLast("network: " + a.network, na, "network: " + b.network, nb, '\n');
    SamePrefix("nonce: ", a.nonce, b.nonce);
    SamePrefix("network: ", a.network, b.network);
  }

  function AfterName(body: Body): seq<string> {
    ChainLine(body.chain) + ["address: " + body.address] + Ending(body)
  }

  /** Drops the first line of `AfterName`: a chain line and an address line never look alike. */
  lemma AfterNameIsUnique(a: Body, b: Body)
    requires WellFormed(a) && WellFormed(b)
    requires Join(AfterName(a)) == Join(AfterName(b))
    ensures a.chain == b.chain && a.address == b.address && Join(Ending(a)) == Join(Ending(b))
  {
    var x, y := AfterName(a), AfterName(b);
    assert x == [x[0]] + x[1..] && y == [y[0]] + y[1..];
    PeelLine(x[0], x[1..], y[0], y[1..]);
    assert x[0][0] == (if a.chain == Stellar then 'a' else 'c');
    assert y[0][0] == (if b.chain == Stellar then 'a' else 'c');
    if a.chain == Stellar {
      assert x[0] == "address: " + a.address && y[0] == "address: " + b.address;
      SamePrefix("address: ", a.address, b.address);
      assert x[1..] == Ending(a) && y[1..] == Ending(b);
    } else {
      SamePrefix("chain: ", ChainName(a.chain), ChainName(b.chain));
      assert ChainName(a.chain)[0] == (if a.chain == Solana then 's' else 'm');
      assert ChainName(b.chain)[0] == (if b.chain == Solana then 's' else 'm');
      assert x[1..] == ["address: " + a.address] + Ending(a);
      assert y[1..] == ["address: " + b.address] + Ending(b);
      PeelLine("address: " + a.address, Ending(a), "address: " + b.address, Ending(b));
      SamePrefix("address: ", a.address, b.address);
    }
  }

  /** The message, cut into the lines before `AfterName`. */
  lemma MessageIs(body: Body, d: string, p: string, m: string)
    requires d == "domain: " + SIGN_DOMAIN && p == "purpose: " + PurposeName(body.purpose) && m == "alias: " + body.name
    ensures Message(body) == Join([d] + ([p] + ([m] + AfterName(body)))) && |AfterName(body)| > 0
    ensures OneLine(d) && OneLine(p) && (OneLine(body.name) ==> OneLine(m))
  {
    hide Join, ChainLine;
    assert Lines(body) == [d] + ([p] + ([m] + AfterName(body)));
  }

  /** Distinct challenges never share a message, whatever text the networks hold. */
  lemma MessageDeterminesBody(a: Body, b: Body)
    requires WellFormed(a) && WellFormed(b)
    requires Message(a) == Message(b)
    ensures a == b
  {
    hide Join, Message, AfterName, Ending, OneLine, PurposeName;
    var d, pa, pb := "domain: " + SIGN_DOMAIN, "purpose: " + PurposeName(a.purpose), "purpose: " + PurposeName(b.purpose);
    var ma, mb := "alias: " + a.name, "alias: " + b.name;
    MessageIs(a, d, pa, ma);
    MessageIs(b, d, pb, mb);
    PeelLine(d, [pa] + ([ma] + AfterName(a)), d, [pb] + ([mb] + AfterName(b)));
    PeelLine(pa, [ma] + AfterName(a), pb, [mb] + AfterName(b));
    PeelLine(ma, AfterName(a), mb, AfterName(b));
    PurposeIsItsName(a.purpose, b.purpose);
    SamePrefix("alias: ", a.name, b.name);
    AfterNameIsUnique(a, b);
    EndingIsUnique(a, b);
  }

  lemma JoinTwo(first: string, rest: seq<string>)
    requires |rest| > 0
    ensures Join([first] + rest) == first + "\n" + Join(rest)
  {
    assert ([first] + rest)[1..] == rest;
  }

  function PurposeText(purpose: Purpose): string {
    if purpose == CLAIM then "purpose: CLAIM" else if purpose == RECOVER then "purpose: RECOVER" else "purpose: ADD_ADDRESS"
  }

  function ChainText(chain: Chain): string {
    if chain == Stellar then "" else if chain == Solana then "chain: solana\n" else "chain: monad\n"
  }

  /** The signed text, line by line: a Stellar challenge has six lines, any other names its chain on a seventh. */
  lemma MessageText(body: Body)
    ensures Message(body) ==
            "domain: Cosmos Pay alias claim v1" + "\n" + (PurposeText(body.purpose) + "\n" + ("alias: " + body.name + "\n"
            + (ChainText(body.chain) + ("address: " + body.address + "\n" + ("network: " + body.network + "\n"
            + ("nonce: " + body.nonce))))))
  {
    hide Join, Ending, PurposeText, ChainText;
    var d, p := "domain: " + SIGN_DOMAIN, "purpose: " + PurposeName(body.purpose);
    var m := "alias: " + body.name;
    DomainLine();
    PurposeLine(body.purpose);
    MessageIs(body, d, p, m);
    JoinTwo(m, AfterName(body));
    JoinTwo(p, [m] + AfterName(body));
    JoinTwo(d, [p] + ([m] + AfterName(body)));
    AfterNameText(body);
  }

  lemma DomainLine()
    ensures "domain: " + SIGN_DOMAIN == "domain: Cosmos Pay alias claim v1"
  {
  }

  lemma PurposeLine(purpose: Purpose)
    ensures "purpose: " + PurposeName(purpose) == PurposeText(purpose)
  {
  }

  lemma AfterNameText(body: Body)
    ensures Join(AfterName(body)) ==
            ChainText(body.chain) + ("address: " + body.address + "\n" + ("network: " + body.network + "\n" + ("nonce: " + body.nonce)))
  {
    hide Join, ChainText;
    var a, e := "address: " + body.address, Ending(body);
    assert e == ["network: " + body.network] + ["nonce: " + body.nonce];
    JoinTwo("network: " + body.network, ["nonce: " + body.nonce]);
    JoinOne("nonce: " + body.nonce);
    JoinTwo(a, e);
    ChainLineText(body.chain);
    if body.chain == Stellar {
      assert AfterName(body) == [a] + e;
    } else {
      var c := "chain: " + ChainName(body.chain);
      assert AfterName(body) == [c] + ([a] + e);
      JoinTwo(c, [a] + e);
    }
  }

  lemma JoinOne(line: string)
    ensures Join([line]) == line
  {
  }

  lemma ChainLineText(chain: Chain)
    ensures ChainText(chain) == if chain == Stellar then "" else "chain: " + ChainName(chain) + "\n"
  {
  }

  /** The condition is needed: a newline in a name or an address forges the lines after it. */
  lemma NewlineForges(name: string, x: string, address: string, network: string, nonce: string)
    ensures Message(Body(CLAIM, name + ("\n" + "address: ") + x, Stellar, address, network, nonce))
         == Message(Body(CLAIM, name, Stellar, x + ("\n" + "address: ") + address, network, nonce))
  {
    hide Message;
    var sep := "\n" + "address: ";
    MessageText(Body(CLAIM, name + sep + x, Stellar, address, network, nonce));
    MessageText(Body(CLAIM, name, Stellar, x + sep + address, network, nonce));
    var rest := "network: " + network + "\n" + ("nonce: " + nonce);
    SameLines(name, x, address, rest);
  }

  lemma SameLines(name: string, x: string, address: string, rest: string)
    ensures var sep := "\n" + "address: ";
            "alias: " + (name + sep + x) + "\n" + ("" + ("address: " + address + "\n" + rest))
            == "alias: " + name + "\n" + ("" + ("address: " + (x + sep + address) + "\n" + rest))
  {
  }

  // ---------- The digest preimage ----------

  /** `writeUInt32BE`. */
  function BigEndian32(n: nat): seq<Byte>
    requires n < 0x1_0000_0000
  {
    [n / 256 / 256 / 256, n / 256 / 256 % 256, n / 256 % 256, n % 256]
  }

  lemma BigEndian32IsInjective(n: nat, m: nat)
    requires n < 0x1_0000_0000 && m < 0x1_0000_0000
    requires BigEndian32(n) == BigEndian32(m)
    ensures n == m
  {
    var a, b := BigEndian32(n), BigEndian32(m);
    assert a[0] == b[0] && a[1] == b[1] && a[2] == b[2] && a[3] == b[3];
    assert n / 256 / 256 == m / 256 / 256;
    assert n / 256 == m / 256;
  }

  /** `aliasDigest`, up to the hash: domain, 0x00, the byte length, the bytes. */
  function DigestPreimage(domain: seq<Byte>, message: seq<Byte>): seq<Byte>
    requires |message| < 0x1_0000_0000
  {
    domain + [0] + BigEndian32(|message|) + message
  }

  lemma DigestPreimageIsInjective(d: seq<Byte>, m: seq<Byte>, d': seq<Byte>, m': seq<Byte>)
    requires |m| < 0x1_0000_0000 && |m'| < 0x1_0000_0000
    requires 0 !in d && 0 !in d'
    requires DigestPreimage(d, m) == DigestPreimage(d', m')
    ensures d == d' && m == m'
  {
    var t, t' := BigEndian32(|m|) + m, BigEndian32(|m'|) + m';
    assert DigestPreimage(d, m) == d + [0] + t && DigestPreimage(d', m') == d' + [0] + t';
    CutFirst(d, t, d', t', 0);
    assert t[..4] == BigEndian32(|m|) && t[4..] == m && t'[4..] == m';
  }
}
