/**
 * Which chain an address belongs to, and the one spelling each chain stores
 * (src/chains/chain-address.ts and src/aliases/aliases.service.ts).
 *
 * StrKey's checksum and keccak are parameters: all that is known of a valid
 * Stellar key is its shape.
 */
module ChainAddress {
  import opened Common
  import opened Base58

  // ---------- Shapes ----------

  predicate IsBase32(c: char) {
    'A' <= c <= 'Z' || '2' <= c <= '7'
  }

  /** 56 base32 characters, the first a G. */
  predicate StellarShape(address: string) {
    |address| == 56 && address[0] == 'G' && forall i :: 0 <= i < 56 ==> IsBase32(address[i])
  }

  predicate IsHexDigit(c: char) {
    'a' <= c <= 'f' || 'A' <= c <= 'F' || '0' <= c <= '9'
  }

  /** `isEvmAddress`: 0x and 40 hexadecimal digits, in any case. */
  predicate IsEvmAddress(address: string) {
    |address| == 42 && address[0] == '0' && address[1] == 'x' && forall i :: 2 <= i < 42 ==> IsHexDigit(address[i])
  }

  /** `isSolanaAddress`, with its length gate first. */
  predicate IsSolanaAddress(address: string) {
    32 <= |address| <= 44 && Decoded(address).Some? && |Decoded(address).value| == 32
  }

  /** The gate turns away nothing: an address is exactly what decodes to 32 bytes. */
  lemma SolanaGateLosesNothing(address: string)
    ensures IsSolanaAddress(address) <==> Decoded(address).Some? && |Decoded(address).value| == 32
  {
    if Decoded(address).Some? && |Decoded(address).value| == 32 {
      EncodeOfDecode(address);
      KeyAndSignatureLengths(Decoded(address).value);
    }
  }

  /** And every 32-byte key has exactly one address. */
  lemma EveryKeyHasOneAddress(key: seq<Byte>, address: string)
    requires |key| == 32
    ensures IsSolanaAddress(Encoded(key)) && Decoded(Encoded(key)) == Some(key)
    ensures Decoded(address) == Some(key) ==> address == Encoded(key)
  {
    KeyAndSignatureLengths(key);
    DecodeOfEncode(key);
    if Decoded(address) == Some(key) {
      DecodedDeterminesText(address, Encoded(key));
    }
  }

  // ---------- The rules ----------

  /** `StrKey.isValidEd25519PublicKey`, known by its shape. */
  type StrKey = string -> bool

  ghost predicate KnownShape(strKey: StrKey) {
    forall a :: strKey(a) ==> StellarShape(a)
  }

  predicate IsAddressForChain(strKey: StrKey, chain: Chain, address: string) {
    match chain
    case Stellar => strKey(address)
    case Solana => IsSolanaAddress(address)
    case Monad => IsEvmAddress(address)
  }

  const CHAINS := [Stellar, Solana, Monad]

  /** '0' is not a base58 digit. */
  lemma ZeroIsNotBase58()
    ensures IndexOf('0') == None
  {
    if IndexOf('0').Some? {
      var d := IndexOf('0').value;
      IndexInRange('0');
      AlphabetAt(d);
    }
  }

  /** No string is an address on two chains. */
  lemma ShapesAreDisjoint(strKey: StrKey, address: string, a: Chain, b: Chain)
    requires KnownShape(strKey)
    requires IsAddressForChain(strKey, a, address) && IsAddressForChain(strKey, b, address)
    ensures a == b
  {
    hide IndexOf;
    ZeroIsNotBase58();
    if strKey(address) {
      assert StellarShape(address);
    }
  }

  /** No accepted address is past the 64-character gate. */
  lemma AddressesAreShort(strKey: StrKey, address: string, chain: Chain)
    requires KnownShape(strKey) && IsAddressForChain(strKey, chain, address)
    ensures |address| <= 56
  {
  }

  function Matching(strKey: StrKey, chains: seq<Chain>, address: string): (matches: seq<Chain>)
    ensures forall c :: c in matches <==> c in chains && IsAddressForChain(strKey, c, address)
  {
    if chains == [] then []
    else
      assert chains == [chains[0]] + chains[1..];
      (if IsAddressForChain(strKey, chains[0], address) then [chains[0]] else []) + Matching(strKey, chains[1..], address)
  }

  /** `chainOfAddress` of chain-address.ts: exactly one rule accepts it. */
  function ChainOfAddress(strKey: StrKey, address: string): Option<Chain> {
    if |address| > 64 then None
    else
      var matches := Matching(strKey, CHAINS, address);
      if |matches| == 1 then Some(matches[0]) else None
  }

  /** `chainOfAddress` of aliases.service.ts: the first rule that accepts it. */
  function FirstChain(strKey: StrKey, chains: seq<Chain>, address: string): Option<Chain> {
    if chains == [] then None
    else if IsAddressForChain(strKey, chains[0], address) then Some(chains[0])
    else FirstChain(strKey, chains[1..], address)
  }

  function Only(c: bool, chain: Chain): seq<Chain> {
    if c then [chain] else []
  }

  lemma OverTheChains(strKey: StrKey, address: string)
    ensures var (s, o, m) := (IsAddressForChain(strKey, Stellar, address), IsAddressForChain(strKey, Solana, address),
                              IsAddressForChain(strKey, Monad, address));
            && Matching(strKey, CHAINS, address) == Only(s, Stellar) + Only(o, Solana) + Only(m, Monad)
            && FirstChain(strKey, CHAINS, address)
               == if s then Some(Stellar) else if o then Some(Solana) else if m then Some(Monad) else None
  {
    hide IsAddressForChain;
    var two, one := [Solana, Monad], [Monad];
    assert CHAINS[1..] == two && two[1..] == one && one[1..] == [];
    assert Matching(strKey, one, address) == Only(IsAddressForChain(strKey, Monad, address), Monad);
    assert FirstChain(strKey, one, address) == if IsAddressForChain(strKey, Monad, address) then Some(Monad) else None;
  }

  /** Both functions answer the one chain whose rule accepts the address, and so agree on every string. */
  lemma BothChainsAgree(strKey: StrKey, address: string, chain: Chain)
    requires KnownShape(strKey)
    ensures ChainOfAddress(strKey, address) == FirstChain(strKey, CHAINS, address)
    ensures ChainOfAddress(strKey, address) == Some(chain) <==> IsAddressForChain(strKey, chain, address)
  {
    hide IsAddressForChain, KnownShape, Matching, FirstChain;
    OverTheChains(strKey, address);
    forall a: Chain, b: Chain | IsAddressForChain(strKey, a, address) && IsAddressForChain(strKey, b, address)
      ensures a == b && |address| <= 56
    {
      ShapesAreDisjoint(strKey, address, a, b);
      AddressesAreShort(strKey, address, a);
    }
  }

  // ---------- EIP-55 ----------

  /** The digits of the keccak-256 of a text, in hexadecimal. */
  type Keccak = string -> seq<nat>

  /** `parseInt(hash[i], 16) >= 8`, which is false past the hash's end. */
  predicate Raised(hash: seq<nat>, i: nat) {
    i < |hash| && hash[i] >= 8
  }

  function Lower(c: char): char {
    if 'A' <= c <= 'Z' then ('a' as int + (c as int - 'A' as int)) as char else c
  }

  function Upper(c: char): char {
    if 'a' <= c <= 'z' then ('A' as int + (c as int - 'a' as int)) as char else c
  }

  function LowerAll(s: string): (out: string)
    ensures |out| == |s| && forall i :: 0 <= i < |s| ==> out[i] == Lower(s[i])
  {
    seq(|s|, i requires 0 <= i < |s| => Lower(s[i]))
  }

  /** What `toChecksumAddress` answers for the lower-case digits of an address. */
  function Checksummed(keccak: Keccak, lower: string): (out: string)
    ensures |out| == |lower|
    ensures forall i :: 0 <= i < |lower| ==> out[i] == if Raised(keccak(lower), i) then Upper(lower[i]) else lower[i]
  {
    seq(|lower|, i requires 0 <= i < |lower| => if Raised(keccak(lower), i) then Upper(lower[i]) else lower[i])
  }

  /** `toLowerCase().replace(/^0x/, '')`. */
  function LowerDigits(address: string): string {
    var lower := LowerAll(address);
    if "0x" <= lower then lower[2..] else lower
  }

  /** Of any text: whoever calls it has checked the shape. */
  method ToChecksumAddress(keccak: Keccak, address: string) returns (out: string)
    ensures out == "0x" + Checksummed(keccak, LowerDigits(address))
  {
    var lower := LowerDigits(address);
    var hash := keccak(lower);
    out := "0x";
    for i := 0 to |lower|
      invariant out == "0x" + Checksummed(keccak, lower)[..i]
    {
      out := out + [if Raised(hash, i) then Upper(lower[i]) else lower[i]];
    }
  }

  function Normalized(keccak: Keccak, address: string): string {
    "0x" + Checksummed(keccak, LowerDigits(address))
  }

  lemma LowerUndoesUpper(c: char)
    requires IsHexDigit(c)
    ensures Lower(Upper(Lower(c))) == Lower(c) && Lower(Lower(c)) == Lower(c)
    ensures IsHexDigit(Lower(c)) && IsHexDigit(Upper(Lower(c)))
  {
  }

  lemma NormalizedKeepsDigits(keccak: Keccak, address: string)
    requires IsEvmAddress(address)
    ensures IsEvmAddress(Normalized(keccak, address))
    ensures LowerDigits(Normalized(keccak, address)) == LowerDigits(address)
  {
    var out, lower := Normalized(keccak, address), LowerDigits(address);
    EvmDigits(address);
    forall i | 2 <= i < 42
      ensures IsHexDigit(out[i]) && Lower(out[i]) == lower[i - 2]
    {
      LowerUndoesUpper(address[i]);
      assert out[i] == Checksummed(keccak, lower)[i - 2];
    }
    EvmDigits(out);
  }

  lemma EvmDigits(address: string)
    requires IsEvmAddress(address)
    ensures |LowerDigits(address)| == 40
    ensures forall i :: 2 <= i < 42 ==> LowerDigits(address)[i - 2] == Lower(address[i])
  {
    assert LowerAll(address)[..2] == "0x";
  }

  /**
   * One spelling per account: two EVM addresses are stored alike exactly when they
   * differ at most in case, and what is stored is an address of the same account.
   */
  lemma OneSpellingPerAccount(keccak: Keccak, a: string, b: string)
    requires IsEvmAddress(a) && IsEvmAddress(b)
    ensures Normalized(keccak, a) == Normalized(keccak, b) <==> LowerDigits(a) == LowerDigits(b)
    ensures IsEvmAddress(Normalized(keccak, a)) && Normalized(keccak, Normalized(keccak, a)) == Normalized(keccak, a)
  {
    NormalizedKeepsDigits(keccak, a);
    NormalizedKeepsDigits(keccak, b);
  }

  /** 0x and forty digits, each one of the sixteen in either case. */
  lemma EvmShape(address: string)
    ensures IsEvmAddress(address) <==>
      |address| == 42 && address[..2] == "0x" && forall i :: 2 <= i < 42 ==> address[i] in "0123456789" + "abcdef" + "ABCDEF"
  {
    forall i | 0 <= i < |address|
      ensures IsHexDigit(address[i]) <==> address[i] in "0123456789" + "abcdef" + "ABCDEF"
    {
      HexDigitIs(address[i]);
    }
  }

  lemma HexDigitIs(c: char)
    ensures IsHexDigit(c) <==> c in "0123456789" + "abcdef" + "ABCDEF"
  {
  }

  /**
   * EIP-55: a letter is written in upper case exactly when the digit of the hash of the
   * lower-case digits at its place is 8 or more, and a decimal digit as it is.
   */
  lemma ChecksumRule(keccak: Keccak, address: string, i: nat)
    requires IsEvmAddress(address) && 2 <= i < 42 && |keccak(LowerDigits(address))| >= 40
    ensures var out, hash, c := Normalized(keccak, address), keccak(LowerDigits(address)), address[i];
            && |out| == 42 && out[..2] == "0x"
            && ('0' <= c <= '9' ==> out[i] == c)
            && (c in "abcdef" + "ABCDEF" ==> out[i] in (if hash[i - 2] >= 8 then "ABCDEF" else "abcdef"))
            && (out[i] == c || out[i] as int == c as int + 32 || out[i] as int == c as int - 32)
  {
    NormalizedKeepsDigits(keccak, address);
    EvmDigits(address);
    EvmDigits(Normalized(keccak, address));
    HexDigitIs(address[i]);
    var out, lower := Normalized(keccak, address), LowerDigits(address);
    assert out[i] == Checksummed(keccak, lower)[i - 2] && lower[i - 2] == Lower(address[i]);
    CaseIs(address[i]);
  }

  lemma CaseIs(c: char)
    ensures '0' <= c <= '9' ==> Lower(c) == c && Upper(Lower(c)) == c
    ensures c in "abcdef" + "ABCDEF" ==> Lower(c) in "abcdef" && Upper(Lower(c)) in "ABCDEF"
  {
  }
}
