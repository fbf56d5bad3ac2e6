/**
 * The bytes a claimant's key is asked to sign, chain by chain: the framed preimage of
 * the digest on Stellar (src/aliases/alias-signing.ts), the message itself on Solana,
 * and its EIP-191 framing on Monad (src/chains/message-signature.ts).
 *
 * A string here is Unicode text: a lone surrogate would be written as U+FFFD.
 */
module AliasSignedBytes {
  import opened Common
  import opened AliasSigning
  import Units
  import Utf8

  function Scalars(text: string): (points: seq<Utf8.Scalar>)
    ensures |points| == |text| && forall i :: 0 <= i < |text| ==> points[i] == text[i] as int
  {
    seq(|text|, i requires 0 <= i < |text| => text[i] as int)
  }

  /** `Buffer.from(text, 'utf8')`. */
  function Bytes(text: string): seq<Byte> {
    Utf8.Encode(Scalars(text))
  }

  lemma BytesDetermineText(a: string, b: string)
    requires Bytes(a) == Bytes(b)
    ensures a == b
  {
    hide Utf8.Encode;
    Utf8.DecodeEncode(Scalars(a));
    Utf8.DecodeEncode(Scalars(b));
    assert Scalars(a) == Scalars(b);
    forall i | 0 <= i < |a|
      ensures |a| == |b| && a[i] == b[i]
    {
      assert Scalars(a)[i] == Scalars(b)[i];
    }
  }

  /** What an off-Stellar key signs is determined by, and determines, the challenge. */
  lemma MessageBytesDetermineBody(a: Body, b: Body)
    requires WellFormed(a) && WellFormed(b)
    ensures Bytes(Message(a)) == Bytes(Message(b)) <==> a == b
  {
    hide Message, Bytes;
    if Bytes(Message(a)) == Bytes(Message(b)) {
      BytesDetermineText(Message(a), Message(b));
      MessageDeterminesBody(a, b);
    }
  }

  /** `aliasDigest`'s input. */
  function Preimage(body: Body): seq<Byte>
    requires |Bytes(Message(body))| < 0x1_0000_0000
  {
    DigestPreimage(Bytes(SIGN_DOMAIN), Bytes(Message(body)))
  }

  lemma {:induction false} NoZeroByte(points: seq<Utf8.Scalar>)
    requires 0 !in points
    ensures 0 !in Utf8.Encode(points)
  {
    if points != [] {
      NoZeroByte(points[1..]);
      NoZeroOctet(points[0]);
      assert Utf8.Encode(points) == Utf8.EncodePoint(points[0]) + Utf8.Encode(points[1..]);
    }
  }

  lemma NoZeroOctet(c: Utf8.Scalar)
    requires c != 0
    ensures 0 !in Utf8.EncodePoint(c)
  {
  }

  /**
   * Two challenges hash the same bytes only if they are one challenge, and no
   * challenge hashes the bytes of another protocol's message framed the same way.
   */
  lemma PreimageDeterminesBody(a: Body, b: Body)
    requires WellFormed(a) && WellFormed(b)
    requires |Bytes(Message(a))| < 0x1_0000_0000 && |Bytes(Message(b))| < 0x1_0000_0000
    ensures Preimage(a) == Preimage(b) <==> a == b
  {
    hide Message, Bytes, DigestPreimage;
    if Preimage(a) == Preimage(b) {
      DomainHasNoZero();
      DigestPreimageIsInjective(Bytes(SIGN_DOMAIN), Bytes(Message(a)), Bytes(SIGN_DOMAIN), Bytes(Message(b)));
      MessageBytesDetermineBody(a, b);
    }
  }

  lemma OtherDomainsDiffer(a: Body, domain: string, message: seq<Byte>)
    requires |Bytes(Message(a))| < 0x1_0000_0000 && |message| < 0x1_0000_0000
    requires domain != SIGN_DOMAIN && 0 as char !in domain
    ensures Preimage(a) != DigestPreimage(Bytes(domain), message)
  {
    hide Message, Bytes, DigestPreimage;
    DomainHasNoZero();
    NoZeroInText(domain);
    if Preimage(a) == DigestPreimage(Bytes(domain), message) {
      DigestPreimageIsInjective(Bytes(SIGN_DOMAIN), Bytes(Message(a)), Bytes(domain), message);
      BytesDetermineText(SIGN_DOMAIN, domain);
    }
  }

  lemma NoZeroInText(text: string)
    requires 0 as char !in text
    ensures 0 !in Bytes(text)
  {
    hide Utf8.Encode;
    forall i | 0 <= i < |text|
      ensures Scalars(text)[i] != 0
    {
      assert text[i] in text;
    }
    NoZeroByte(Scalars(text));
  }

  lemma DomainHasNoZero()
    ensures 0 !in Bytes(SIGN_DOMAIN)
  {
    hide Bytes;
    NoZeroInText(SIGN_DOMAIN);
  }

  // ---------- Chain by chain ----------

  lemma BytesJoin(a: string, b: string)
    ensures Bytes(a + b) == Bytes(a) + Bytes(b)
  {
    hide Utf8.Encode;
    assert Scalars(a + b) == Scalars(a) + Scalars(b);
    EncodeJoin(Scalars(a), Scalars(b));
  }

  lemma {:induction false} EncodeJoin(a: seq<Utf8.Scalar>, b: seq<Utf8.Scalar>)
    ensures Utf8.Encode(a + b) == Utf8.Encode(a) + Utf8.Encode(b)
  {
    if a == [] {
      assert a + b == b;
    } else {
      EncodeJoin(a[1..], b);
      assert (a + b)[1..] == a[1..] + b;
    }
  }

  /** Of the length in bytes, in decimal. */
  function EthereumPrefix(length: nat): string {
    "\U{19}Ethereum Signed Message:\n" + Units.Text(Units.Numeral(length))
  }

  function SignedBytes(body: Body): seq<Byte>
    requires |Bytes(Message(body))| < 0x1_0000_0000
  {
    match body.chain
    case Stellar => Preimage(body)
    case Solana => Bytes(Message(body))
    case Monad => Bytes(EthereumPrefix(|Bytes(Message(body))|)) + Bytes(Message(body))
  }

  /** Every message starts with the 'd' of "domain". */
  lemma MessageStarts(body: Body) returns (rest: string)
    ensures Message(body) == ['d'] + rest
  {
    hide ChainLine;
    assert Lines(body)[0] == ['d'] + ("omain: " + SIGN_DOMAIN);
    rest := Message(body)[1..];
  }

  lemma FirstByte(c: char, rest: string)
    requires c < 128 as char
    ensures Bytes([c] + rest) != [] && Bytes([c] + rest)[0] == c as int
  {
    hide Utf8.Encode;
    BytesJoin([c], rest);
    OneByte(c);
  }

  lemma OneByte(c: char)
    requires c < 128 as char
    ensures Bytes([c]) == [c as int]
  {
    assert Scalars([c]) == [c as int];
    var point: Utf8.Scalar := c as int;
    assert [point][1..] == [];
    assert Utf8.Encode([point]) == Utf8.EncodePoint(point) + Utf8.Encode([]);
  }

  lemma FirstPreimageByte(body: Body)
    requires |Bytes(Message(body))| < 0x1_0000_0000
    ensures Preimage(body) != [] && Preimage(body)[0] == 0x43
  {
    hide Bytes, Message, BigEndian32;
    assert SIGN_DOMAIN == ['C'] + "osmos Pay alias claim v1";
    FirstByte('C', "osmos Pay alias claim v1");
  }

  lemma FirstPrefixByte(n: nat)
    ensures Bytes(EthereumPrefix(n)) != [] && Bytes(EthereumPrefix(n))[0] == 0x19
  {
    hide Bytes;
    var after := "Ethereum Signed Message:\n" + Units.Text(Units.Numeral(n));
    assert EthereumPrefix(n) == ['\U{19}'] + after;
    FirstByte('\U{19}', after);
  }

  /** The first byte tells the chain. */
  lemma FirstSignedByte(body: Body)
    requires |Bytes(Message(body))| < 0x1_0000_0000
    ensures SignedBytes(body) != []
    ensures SignedBytes(body)[0] == (if body.chain == Stellar then 0x43 else if body.chain == Solana then 0x64 else 0x19)
  {
    hide Bytes, Message, Preimage, EthereumPrefix;
    match body.chain {
      case Stellar => FirstPreimageByte(body);
      case Solana =>
        var rest := MessageStarts(body);
        FirstByte('d', rest);
      case Monad => FirstPrefixByte(|Bytes(Message(body))|);
    }
  }

  lemma NoLetterD(n: nat)
    ensures 'd' !in Units.Text(Units.Numeral(n))
  {
  }

  lemma MonadBytesDetermineBody(a: Body, b: Body)
    requires WellFormed(a) && WellFormed(b) && a.chain == b.chain == Monad
    requires |Bytes(Message(a))| < 0x1_0000_0000 && |Bytes(Message(b))| < 0x1_0000_0000
    requires SignedBytes(a) == SignedBytes(b)
    ensures a == b
  {
    hide Bytes, Message;
    var n, m := |Bytes(Message(a))|, |Bytes(Message(b))|;
    var x, y := Units.Text(Units.Numeral(n)), Units.Text(Units.Numeral(m));
    var front := "\U{19}Ethereum Signed Message:\n";
    BytesJoin(EthereumPrefix(n), Message(a));
    BytesJoin(EthereumPrefix(m), Message(b));
    BytesDetermineText(EthereumPrefix(n) + Message(a), EthereumPrefix(m) + Message(b));
    var r := MessageStarts(a);
    var s := MessageStarts(b);
    assert EthereumPrefix(n) + Message(a) == front + (x + ['d'] + r);
    assert EthereumPrefix(m) + Message(b) == front + (y + ['d'] + s);
    SamePrefix(front, x + ['d'] + r, y + ['d'] + s);
    NoLetterD(n);
    NoLetterD(m);
    CutFirst(x, r, y, s, 'd');
    MessageDeterminesBody(a, b);
  }

  /**
   * Two challenges ask a key for the same bytes only if they are one challenge, on
   * one chain or on two: a signature for one is never a signature for another.
   */
  lemma SignedBytesDetermineBody(a: Body, b: Body)
    requires WellFormed(a) && WellFormed(b)
    requires |Bytes(Message(a))| < 0x1_0000_0000 && |Bytes(Message(b))| < 0x1_0000_0000
    ensures SignedBytes(a) == SignedBytes(b) <==> a == b
  {
    hide Bytes, Message, Preimage, EthereumPrefix;
    if SignedBytes(a) == SignedBytes(b) {
      FirstSignedByte(a);
      FirstSignedByte(b);
      match a.chain {
        case Stellar => PreimageDeterminesBody(a, b);
        case Solana => MessageBytesDetermineBody(a, b);
        case Monad => MonadBytesDetermineBody(a, b);
      }
    }
  }

  /** Four bytes, the most significant first. */
  predicate SpellsLength(bytes: seq<Byte>, n: nat) {
    |bytes| == 4
    && var (a: int, b: int, c: int, d: int) := (bytes[0], bytes[1], bytes[2], bytes[3]);
    n == ((a * 256 + b) * 256 + c) * 256 + d
  }

  /**
   * What each chain's key is asked to sign: on Stellar the domain, a zero byte and the
   * big-endian length before the message; on Solana the message; on Monad the EIP-191
   * prefix with the length in decimal before it.
   */
  lemma SignedBytesAre(body: Body) returns (length: seq<Byte>, digits: string)
    requires |Bytes(Message(body))| < 0x1_0000_0000
    ensures var message := Bytes(Message(body));
            && SpellsLength(length, |message|)
            && Units.Plain(digits) && Units.ParseUnits(digits, 0) == Ok(|message|)
            && SignedBytes(body) == match body.chain
               case Stellar => Bytes("Cosmos Pay alias claim v1") + [0] + length + message
               case Solana => message
               case Monad => Bytes("\U{19}Ethereum Signed Message:\n" + digits) + message
  {
    hide Bytes, Message, BigEndian32, SpellsLength, Units.Plain, Units.ParseUnits, Units.Numeral;
    var n := |Bytes(Message(body))|;
    length, digits := BigEndian32(n), Units.Text(Units.Numeral(n));
    BigEndianIs(n);
    LengthText(n);
  }

  lemma BigEndianIs(n: nat)
    requires n < 0x1_0000_0000
    ensures SpellsLength(BigEndian32(n), n)
  {
    assert n / 256 == n / 256 / 256 * 256 + n / 256 % 256;
    assert n / 256 / 256 == n / 256 / 256 / 256 * 256 + n / 256 / 256 % 256;
  }

  lemma LengthText(n: nat)
    ensures var digits := Units.Text(Units.Numeral(n)); Units.Plain(digits) && Units.ParseUnits(digits, 0) == Ok(n)
  {
    hide Units.Plain, Units.ParseUnits, Units.Numeral, Units.Unsigned;
    Units.UnsignedIsPlain(n, 0);
    WholeText(n);
  }

  lemma WholeText(n: nat)
    ensures Units.Unsigned(n, 0) == Units.Text(Units.Numeral(n))
  {
  }
}
