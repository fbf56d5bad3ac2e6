/** Base58 in both directions (src/chains/chain-address.ts). */
module Base58 {
  import opened Common
  import opened Arithmetic
  import opened Radix

  const ALPHABET := "123456789" + "ABCDEFGH" + "JKLMN" + "PQRSTUVWXYZ" + "abcdefghijk" + "mnopqrstuvwxyz"

  const MAX_BASE58_LENGTH := 128

  // ---------- The alphabet ----------

  function CharCode(d: nat): nat
    requires d < 58
  {
    if d < 9 then '1' as nat + d
    else if d < 17 then 'A' as nat + d - 9
    else if d < 22 then 'J' as nat + d - 17
    else if d < 33 then 'P' as nat + d - 22
    else if d < 44 then 'a' as nat + d - 33
    else 'm' as nat + d - 44
  }

  lemma Runs()
    ensures forall i :: 0 <= i < 9 ==> "123456789"[i] as nat == '1' as nat + i
    ensures forall i :: 0 <= i < 8 ==> "ABCDEFGH"[i] as nat == 'A' as nat + i
    ensures forall i :: 0 <= i < 5 ==> "JKLMN"[i] as nat == 'J' as nat + i
  {
  }

  lemma MoreRuns()
    ensures forall i :: 0 <= i < 11 ==> "PQRSTUVWXYZ"[i] as nat == 'P' as nat + i
    ensures forall i :: 0 <= i < 11 ==> "abcdefghijk"[i] as nat == 'a' as nat + i
    ensures forall i :: 0 <= i < 14 ==> "mnopqrstuvwxyz"[i] as nat == 'm' as nat + i
  {
  }

  lemma AlphabetAt(d: nat)
    requires d < 58
    ensures |ALPHABET| == 58 && ALPHABET[d] as nat == CharCode(d)
  {
    Runs();
    MoreRuns();
  }

  /** `BASE58_ALPHABET.indexOf(char)`. */
  function IndexOf(c: char): Option<nat> {
    FindFrom(c, 0)
  }

  function FindFrom(c: char, from: nat): (r: Option<nat>)
    requires from <= |ALPHABET|
    ensures r.Some? ==> from <= r.value < |ALPHABET| && ALPHABET[r.value] == c
    ensures r.None? ==> forall i :: from <= i < |ALPHABET| ==> ALPHABET[i] != c
    decreases |ALPHABET| - from
  {
    if from == |ALPHABET| then None else if ALPHABET[from] == c then Some(from) else FindFrom(c, from + 1)
  }

  function CharOf(d: nat): char
    requires d < 58
  {
    AlphabetAt(d);
    ALPHABET[d]
  }

  lemma IndexOfChar(d: nat)
    requires d < 58
    ensures IndexOf(CharOf(d)) == Some(d)
  {
    AlphabetAt(d);
    var found := IndexOf(CharOf(d));
    assert ALPHABET[d] == CharOf(d);
    if found.Some? {
      AlphabetAt(found.value);
    }
  }

  lemma IndexInRange(c: char)
    ensures IndexOf(c).Some? ==> IndexOf(c).value < 58 && CharOf(IndexOf(c).value) == c
  {
    AlphabetAt(0);
  }

  predicate InAlphabet(value: string) {
    forall i :: 0 <= i < |value| ==> IndexOf(value[i]).Some?
  }

  function Indices(value: string): (ds: seq<nat>)
    requires InAlphabet(value)
    ensures |ds| == |value| && AreDigits(ds, 58)
    ensures forall i :: 0 <= i < |value| ==> Some(ds[i]) == IndexOf(value[i])
  {
    AlphabetAt(0);
    seq(|value|, i requires 0 <= i < |value| => IndexOf(value[i]).value)
  }

  function Chars(ds: seq<nat>): (value: string)
    requires AreDigits(ds, 58)
    ensures |value| == |ds| && forall i :: 0 <= i < |ds| ==> value[i] == CharOf(ds[i])
  {
    seq(|ds|, i requires 0 <= i < |ds| => CharOf(ds[i]))
  }

  lemma IndicesOfChars(ds: seq<nat>)
    requires AreDigits(ds, 58)
    ensures InAlphabet(Chars(ds)) && Indices(Chars(ds)) == ds
  {
    forall i | 0 <= i < |ds|
      ensures IndexOf(Chars(ds)[i]) == Some(ds[i])
    {
      IndexOfChar(ds[i]);
    }
  }

  lemma CharsOfIndices(value: string)
    requires InAlphabet(value)
    ensures Chars(Indices(value)) == value
  {
    forall i | 0 <= i < |value|
      ensures Chars(Indices(value))[i] == value[i]
    {
      IndexInRange(value[i]);
    }
  }

  // ---------- Changing base, leading zeros kept ----------

  function Lead(ds: seq<nat>): (k: nat)
    ensures k <= |ds| && (forall i :: 0 <= i < k ==> ds[i] == 0) && (k < |ds| ==> ds[k] != 0)
  {
    if ds == [] || ds[0] != 0 then 0 else 1 + Lead(ds[1..])
  }

  function Rebase(ds: seq<nat>, b: nat, c: nat): seq<nat>
    requires b >= 2 && c >= 2
  {
    Zeros(Lead(ds)) + Digits(Value(ds, b), c)
  }

  lemma LeadIsUnique(ds: seq<nat>, k: nat)
    requires k <= |ds| && (forall i :: 0 <= i < k ==> ds[i] == 0) && (k < |ds| ==> ds[k] != 0)
    ensures Lead(ds) == k
  {
  }

  lemma Split(ds: seq<nat>)
    ensures ds == Zeros(Lead(ds)) + ds[Lead(ds)..] && NoLeadingZero(ds[Lead(ds)..])
  {
  }

  lemma RebaseIs(ds: seq<nat>, b: nat, c: nat)
    requires b >= 2 && c >= 2
    ensures AreDigits(Rebase(ds, b, c), c)
    ensures Lead(Rebase(ds, b, c)) == Lead(ds)
    ensures Value(Rebase(ds, b, c), c) == Value(ds, b)
  {
    var k, rest := Lead(ds), Digits(Value(ds, b), c);
    DigitsOf(Value(ds, b), c);
    LeadIsUnique(Zeros(k) + rest, k);
    LeadingZeros(k, rest, c);
  }

  /** Back in the first base, every digit is as it was. */
  lemma RebaseTwice(ds: seq<nat>, b: nat, c: nat)
    requires b >= 2 && c >= 2 && AreDigits(ds, b)
    ensures Rebase(Rebase(ds, b, c), c, b) == ds
  {
    RebaseIs(ds, b, c);
    Split(ds);
    var rest := ds[Lead(ds)..];
    LeadingZeros(Lead(ds), rest, b);
    DigitsOfValue(rest, b);
  }

  lemma RebaseOfNothing(b: nat, c: nat)
    requires b >= 2 && c >= 2
    ensures Rebase([], b, c) == []
  {
  }

  // ---------- The two functions ----------

  /** What `decodeBase58` answers. */
  function Decoded(value: string): Option<seq<Byte>> {
    if value == "" || |value| > MAX_BASE58_LENGTH || !InAlphabet(value) then None
    else Some(AsBytes(Rebase(Indices(value), 58, 256)))
  }

  /** Digits and letters, without 0, O, I and l. */
  predicate IsLetter(c: char) {
    ('1' <= c <= '9' || 'A' <= c <= 'Z' || 'a' <= c <= 'z') && c != 'I' && c != 'O' && c != 'l'
  }

  /** Exactly the texts of 1 to 128 such letters decode. */
  lemma DecodesExactlyWhen(value: string)
    ensures Decoded(value).Some? <==> 1 <= |value| <= 128 && forall i :: 0 <= i < |value| ==> IsLetter(value[i])
  {
    hide IndexOf, IsLetter;
    forall i | 0 <= i < |value|
      ensures IndexOf(value[i]).Some? <==> IsLetter(value[i])
    {
      LettersOfAlphabet(value[i]);
    }
  }

  lemma LettersOfAlphabet(c: char)
    ensures IndexOf(c).Some? <==> IsLetter(c)
  {
    hide IndexOf;
    IndexInRange(c);
    if IndexOf(c).Some? {
      AlphabetAt(IndexOf(c).value);
    }
    if IsLetter(c) {
      LetterIsIndexed(c);
    }
  }

  lemma LetterIsIndexed(c: char)
    requires IsLetter(c)
    ensures IndexOf(c).Some?
  {
    hide IndexOf;
    var d := if c <= '9' then c as int - '1' as int
             else if c <= 'H' then 9 + c as int - 'A' as int
             else if c <= 'N' then 17 + c as int - 'J' as int
             else if c <= 'Z' then 22 + c as int - 'P' as int
             else if c <= 'k' then 33 + c as int - 'a' as int
             else 44 + c as int - 'm' as int;
    AlphabetAt(d);
    IndexOfChar(d);
    assert CharOf(d) == c;
  }

  function AsBytes(ds: seq<nat>): (bytes: seq<Byte>)
    ensures AreDigits(ds, 256) ==> bytes == ds
  {
    seq(|ds|, i requires 0 <= i < |ds| => if ds[i] < 256 then ds[i] else 0)
  }

  function AsDigits(bytes: seq<Byte>): (ds: seq<nat>)
    ensures ds == bytes && AreDigits(ds, 256)
  {
    seq(|bytes|, i requires 0 <= i < |bytes| => bytes[i] as nat)
  }

  /** What `encodeBase58` answers. */
  function Encoded(bytes: seq<Byte>): string {
    RebaseIs(AsDigits(bytes), 256, 58);
    Chars(Rebase(AsDigits(bytes), 256, 58))
  }

  /** Decoding an encoding gives the bytes back, leading zeros included. */
  lemma DecodeOfEncode(bytes: seq<Byte>)
    requires bytes != [] && |Encoded(bytes)| <= MAX_BASE58_LENGTH
    ensures Decoded(Encoded(bytes)) == Some(bytes)
  {
    var ds := AsDigits(bytes);
    RebaseIs(ds, 256, 58);
    IndicesOfChars(Rebase(ds, 256, 58));
    RebaseTwice(ds, 256, 58);
    RebaseOfNothing(58, 256);
  }

  /** Encoding what any accepted string decodes to gives that string back, leading '1's included. */
  lemma EncodeOfDecode(value: string)
    requires Decoded(value).Some?
    ensures Encoded(Decoded(value).value) == value && Decoded(value).value != []
  {
    var ds := Indices(value);
    RebaseIs(ds, 58, 256);
    RebaseTwice(ds, 58, 256);
    CharsOfIndices(value);
    RebaseOfNothing(256, 58);
  }

  lemma DecodedDeterminesText(x: string, y: string)
    requires Decoded(x).Some? && Decoded(x) == Decoded(y)
    ensures x == y
  {
    EncodeOfDecode(x);
    EncodeOfDecode(y);
  }

  // ---------- Lengths ----------

  lemma Powers()
    ensures Pow(256, 8) < Pow(58, 11)
  {
    assert Pow(256, 4) == 0x1_0000_0000;
    PowAdds(256, 4, 4);
    assert Pow(58, 5) == 656_356_768;
    assert Pow(58, 6) == 38_068_692_544;
    PowAdds(58, 5, 6);
  }

  lemma SquareBelow(x: nat, y: nat)
    requires x < y
    ensures x * x < y * y
  {
    assert y * y - x * x == (y - x) * (y + x);
    MulAtLeast(y - x, y + x);
  }

  lemma DoublePowers(m: nat, n: nat)
    requires Pow(256, m) < Pow(58, n)
    ensures Pow(256, 2 * m) < Pow(58, 2 * n)
  {
    PowAdds(256, m, m);
    PowAdds(58, n, n);
    SquareBelow(Pow(256, m), Pow(58, n));
  }

  lemma KeyPowers()
    ensures Pow(256, 32) < Pow(58, 44) && Pow(256, 64) < Pow(58, 88)
  {
    Powers();
    DoublePowers(8, 11);
    DoublePowers(16, 22);
    DoublePowers(32, 44);
  }

  lemma {:induction false} PowOfLarger(a: nat, b: nat, n: nat)
    requires a <= b
    ensures Pow(a, n) <= Pow(b, n)
  {
    if n > 0 {
      PowOfLarger(a, b, n - 1);
      MulMono(a, b, Pow(a, n - 1), Pow(b, n - 1));
    }
  }

  lemma MulMono(a: nat, b: nat, x: nat, y: nat)
    requires a <= b && x <= y
    ensures a * x <= b * y
  {
    assert a * x <= a * y;
    assert a * y <= b * y;
  }

  /** The value of `bytes` past its leading zeros, bounded both ways. */
  lemma ValueOfBytes(bytes: seq<Byte>)
    ensures var ds := AsDigits(bytes);
            var m := |bytes| - Lead(ds);
            Value(ds, 256) < Pow(256, m) && (m > 0 ==> Value(ds, 256) >= Pow(256, m - 1))
  {
    var ds := AsDigits(bytes);
    Split(ds);
    var rest := ds[Lead(ds)..];
    LeadingZeros(Lead(ds), rest, 256);
    ValueBelow(rest, 256);
    if rest != [] {
      ValueAtLeast(rest, 256);
    }
  }

  /** No encoding is shorter than its bytes. */
  lemma EncodedAtLeast(bytes: seq<Byte>)
    ensures |Encoded(bytes)| >= |bytes|
  {
    hide Pow, Value, Digits;
    var ds := AsDigits(bytes);
    var digits, m := Digits(Value(ds, 256), 58), |bytes| - Lead(ds);
    RebaseIs(ds, 256, 58);
    ValueOfBytes(bytes);
    DigitsOf(Value(ds, 256), 58);
    ValueBelow(digits, 58);
    if |digits| < m {
      PowOfLarger(58, 256, m - 1);
      PowMonotone(58, |digits|, m - 1);
    }
  }

  /** k zeros and n - k digits of 256 cannot outgrow k zeros and t - k digits of 58, when n digits of 256 do not outgrow t. */
  lemma TailFits(n: nat, t: nat, k: nat)
    requires k <= t && k <= n && Pow(256, n) < Pow(58, t)
    ensures Pow(256, n - k) < Pow(58, t - k)
  {
    if Pow(256, n - k) >= Pow(58, t - k) {
      PowAdds(58, t - k, k);
      PowAdds(256, n - k, k);
      PowOfLarger(58, 256, k);
      MulMono(Pow(58, t - k), Pow(256, n - k), Pow(58, k), Pow(256, k));
    }
  }

  lemma FewerBytes(n: nat, t: nat)
    requires Pow(256, n) < Pow(58, t)
    ensures n < t
  {
    PowOfLarger(58, 256, t);
    if n >= t {
      PowMonotone(256, t, n);
    }
  }

  /** If n bytes fit in t digits, every n bytes encode to at most t characters. */
  lemma EncodedAtMost(bytes: seq<Byte>, t: nat)
    requires Pow(256, |bytes|) < Pow(58, t)
    ensures |Encoded(bytes)| <= t
  {
    hide Pow, Value, Digits, Lead;
    var ds := AsDigits(bytes);
    var k := Lead(ds);
    var digits := Digits(Value(ds, 256), 58);
    RebaseIs(ds, 256, 58);
    ValueOfBytes(bytes);
    DigitsOf(Value(ds, 256), 58);
    FewerBytes(|bytes|, t);
    TailFits(|bytes|, t, k);
    DigitsFit(digits, t - k);
  }

  lemma DigitsFit(digits: seq<nat>, n: nat)
    requires NoLeadingZero(digits) && Value(digits, 58) < Pow(58, n)
    ensures |digits| <= n
  {
    hide Pow, Value;
    if digits != [] {
      ValueAtLeast(digits, 58);
      if n < |digits| {
        PowMonotone(58, n, |digits| - 1);
      }
    }
  }

  /** Every 32-byte key encodes to 32 to 44 characters, and every 64-byte signature to at most 88. */
  lemma KeyAndSignatureLengths(bytes: seq<Byte>)
    ensures |bytes| == 32 ==> 32 <= |Encoded(bytes)| <= 44
    ensures |bytes| == 64 ==> 64 <= |Encoded(bytes)| <= 88
  {
    KeyPowers();
    EncodedAtLeast(bytes);
    if |bytes| == 32 {
      EncodedAtMost(bytes, 44);
    } else if |bytes| == 64 {
      EncodedAtMost(bytes, 88);
    }
  }

  // ---------- The loops ----------

  /** The number `value` spells, or None at the first character outside the alphabet. */
  method Accumulate(value: string) returns (num: Option<nat>)
    ensures num == if InAlphabet(value) then Some(Value(Indices(value), 58)) else None
  {
    hide IndexOf;
    var total := 0;
    for i := 0 to |value|
      invariant InAlphabet(value[..i]) && total == Value(Indices(value[..i]), 58)
    {
      var index := IndexOf(value[i]);
      if index.None? {
        return None;
      }
      assert InAlphabet(value[..i + 1]);
      assert Indices(value[..i + 1]) == Indices(value[..i]) + [index.value];
      ValueAppend(Indices(value[..i]), index.value, 58);
      total := total * 58 + index.value;
    }
    assert value[..|value|] == value;
    num := Some(total);
  }

  /** One turn of either division loop. */
  lemma NextDigit(num: nat, b: nat, done: seq<nat>)
    requires num > 0 && b >= 2
    ensures num / b < num && num % b < b && Digits(num, b) + done == Digits(num / b, b) + ([num % b] + done)
  {
    Divide(num, b);
  }

  /** Remainders, last digit first, put in order. */
  method Remainders(n: nat, b: nat) returns (digits: seq<nat>)
    requires b >= 2
    ensures digits == Digits(n, b)
  {
    hide Digits;
    digits := [];
    var num: nat := n;
    while num > 0
      invariant Digits(n, b) == Digits(num, b) + digits
      decreases num
    {
      NextDigit(num, b, digits);
      digits := [num % b] + digits;
      num := num / b;
    }
    NoDigits(b);
  }

  lemma NoDigits(b: nat)
    requires b >= 2
    ensures Digits(0, b) == []
  {
  }

  method DecodeBase58(value: string) returns (decoded: Option<seq<Byte>>)
    ensures decoded == Decoded(value)
  {
    hide IndexOf, Value, Digits;
    if |value| == 0 || |value| > MAX_BASE58_LENGTH {
      return None;
    }
    var num := Accumulate(value);
    if num.None? {
      return None;
    }
    var digits := Remainders(num.value, 256);
    var bytes, i := digits, 0;
    while i < |value| && value[i] == '1'
      invariant 0 <= i <= |value|
      invariant forall j :: 0 <= j < i ==> Indices(value)[j] == 0
      invariant bytes == Zeros(i) + digits
    {
      OneIsZero(value[i]);
      bytes := [0] + bytes;
      i := i + 1;
    }
    if i < |value| {
      OneIsZero(value[i]);
    }
    LeadIsUnique(Indices(value), i);
    RebaseIs(Indices(value), 58, 256);
    decoded := Some(AsBytes(bytes));
  }

  lemma OneIsZero(c: char)
    ensures IndexOf(c) == Some(0) <==> c == '1'
  {
    AlphabetAt(0);
    IndexOfChar(0);
    IndexInRange(c);
  }

  method EncodeBase58(bytes: seq<Byte>) returns (out: string)
    ensures out == Encoded(bytes)
  {
    hide CharOf, Digits, Value, Lead;
    var num := Number(bytes);
    ghost var all := AsDigits(bytes);
    ghost var digits := Digits(num, 58);
    out := DigitChars(num);
    var i := 0;
    while i < |bytes| && bytes[i] == 0
      invariant 0 <= i <= |bytes|
      invariant forall j :: 0 <= j < i ==> bytes[j] == 0
      invariant AreDigits(Zeros(i) + digits, 58) && out == Chars(Zeros(i) + digits)
    {
      AnotherOne(Zeros(i) + digits);
      assert Zeros(i + 1) + digits == [0] + (Zeros(i) + digits);
      out := ['1'] + out;
      i := i + 1;
    }
    LeadIsUnique(all, i);
  }

  lemma AnotherOne(ds: seq<nat>)
    requires AreDigits(ds, 58)
    ensures AreDigits([0] + ds, 58) && Chars([0] + ds) == ['1'] + Chars(ds)
  {
    AlphabetAt(0);
  }

  /** The number the bytes spell. */
  method Number(bytes: seq<Byte>) returns (num: nat)
    ensures num == Value(AsDigits(bytes), 256)
  {
    ghost var all := AsDigits(bytes);
    num := 0;
    for i := 0 to |bytes|
      invariant num == Value(all[..i], 256)
    {
      assert all[..i + 1] == all[..i] + [all[i]];
      ValueAppend(all[..i], all[i], 256);
      var byte: nat := bytes[i];
      num := num * 256 + byte;
    }
    assert all[..|bytes|] == all;
  }

  method DigitChars(n: nat) returns (out: string)
    ensures AreDigits(Digits(n, 58), 58) && out == Chars(Digits(n, 58))
  {
    hide CharOf, Digits;
    out := "";
    var num: nat := n;
    ghost var digits: seq<nat> := [];
    while num > 0
      invariant Digits(n, 58) == Digits(num, 58) + digits
      invariant AreDigits(digits, 58) && out == Chars(digits)
      decreases num
    {
      NextDigit(num, 58, digits);
      var d := num % 58;
      assert Chars([d] + digits) == [CharOf(d)] + Chars(digits);
      digits := [d] + digits;
      out := [CharOf(d)] + out;
      num := num / 58;
    }
    NoDigits(58);
    assert Digits(n, 58) == digits;
  }
}
