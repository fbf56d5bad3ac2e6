/**
 * Decimal amounts and integer base units (src/chains/units.ts), and the
 * truncation of sums in string space (src/common/money.ts).
 */
module Units {
  import opened Common
  import opened Arithmetic
  import opened Radix

  // ---------- Digits and text ----------

  predicate AllDigits(s: string) {
    forall i :: 0 <= i < |s| ==> '0' <= s[i] <= '9'
  }

  function Text(ds: seq<nat>): (s: string)
    requires AreDigits(ds, 10)
    ensures |s| == |ds| && AllDigits(s) && forall i :: 0 <= i < |ds| ==> s[i] as int == '0' as int + ds[i]
  {
    seq(|ds|, i requires 0 <= i < |ds| => ('0' as int + ds[i]) as char)
  }

  function Read(s: string): (ds: seq<nat>)
    requires AllDigits(s)
    ensures |ds| == |s| && AreDigits(ds, 10) && forall i :: 0 <= i < |s| ==> s[i] as int == '0' as int + ds[i]
  {
    seq(|s|, i requires 0 <= i < |s| => s[i] as int - '0' as int)
  }

  lemma ReadOfText(ds: seq<nat>)
    requires AreDigits(ds, 10)
    ensures Read(Text(ds)) == ds
  {
  }

  lemma TextOfRead(s: string)
    requires AllDigits(s)
    ensures Text(Read(s)) == s
  {
    forall i | 0 <= i < |s|
      ensures Text(Read(s))[i] == s[i]
    {
      assert Text(Read(s))[i] as int == s[i] as int;
    }
  }

  /** `replace(/0+$/, '')`. */
  function Strip<T(==)>(s: seq<T>, zero: T): (out: seq<T>)
    ensures out <= s && (out == [] || out[|out| - 1] != zero)
    ensures forall i :: |out| <= i < |s| ==> s[i] == zero
  {
    if s == [] || s[|s| - 1] != zero then s else Strip(s[..|s| - 1], zero)
  }

  lemma StripIsUnique<T>(s: seq<T>, zero: T, out: seq<T>)
    requires out <= s && (out == [] || out[|out| - 1] != zero)
    requires forall i :: |out| <= i < |s| ==> s[i] == zero
    ensures out == Strip(s, zero)
  {
    NoLonger(s, zero, out, Strip(s, zero));
    NoLonger(s, zero, Strip(s, zero), out);
  }

  lemma NoLonger<T>(s: seq<T>, zero: T, a: seq<T>, b: seq<T>)
    requires a <= s && b <= s && (a == [] || a[|a| - 1] != zero)
    requires forall i :: |b| <= i < |s| ==> s[i] == zero
    ensures |a| <= |b|
  {
    if a != [] {
      assert a[|a| - 1] == s[|a| - 1];
    }
  }

  lemma StripText(ds: seq<nat>)
    requires AreDigits(ds, 10)
    ensures AreDigits(Strip(ds, 0), 10) && Strip(Text(ds), '0') == Text(Strip(ds, 0))
  {
    var out := Text(Strip(ds, 0));
    assert out <= Text(ds) by {
      assert out == Text(ds)[..|out|];
    }
    StripIsUnique(Text(ds), '0', out);
  }

  function Take<T>(s: seq<T>, n: nat): seq<T> {
    if n < |s| then s[..n] else s
  }

  // ---------- `DECIMAL_RE` ----------

  function Dot(s: string): (k: nat)
    ensures k <= |s| && (forall i :: 0 <= i < k ==> s[i] != '.') && (k < |s| ==> s[k] == '.')
  {
    if s == "" || s[0] == '.' then 0 else 1 + Dot(s[1..])
  }

  /** The whole and fractional digits of a plain decimal; the fraction is empty when there is no point. */
  function Match(s: string): (parts: Option<(string, string)>)
    ensures parts.Some? ==> AllDigits(parts.value.0) && AllDigits(parts.value.1) && parts.value.0 != ""
  {
    var k := Dot(s);
    var whole, fraction := s[..k], if k < |s| then s[k + 1..] else "";
    if whole == "" || !AllDigits(whole) || !AllDigits(fraction) || (k < |s| && fraction == "") then None
    else Some((whole, fraction))
  }

  function Amount(whole: string, fraction: string): string {
    if fraction == "" then whole else whole + "." + fraction
  }

  lemma MatchOfAmount(whole: string, fraction: string)
    requires whole != "" && AllDigits(whole) && AllDigits(fraction)
    ensures Match(Amount(whole, fraction)) == Some((whole, fraction))
  {
    var s := Amount(whole, fraction);
    assert forall i :: 0 <= i < |whole| ==> s[i] == whole[i];
    assert fraction != "" ==> s[|whole|] == '.';
    assert Dot(s) == |whole|;
    assert s[..|whole|] == whole;
    if fraction != "" {
      assert s[|whole| + 1..] == fraction;
    }
  }

  lemma AmountOfMatch(s: string)
    requires Match(s).Some?
    ensures Amount(Match(s).value.0, Match(s).value.1) == s
  {
  }

  /** A plain decimal is digits, or digits, a point and digits. */
  lemma DecimalIs(s: string, whole: string, fraction: string)
    ensures Match(s) == Some((whole, fraction)) <==>
      && whole != "" && (forall i :: 0 <= i < |whole| ==> '0' <= whole[i] <= '9')
      && (forall i :: 0 <= i < |fraction| ==> '0' <= fraction[i] <= '9')
      && s == if fraction == "" then whole else whole + "." + fraction
  {
    hide Match;
    if Match(s) == Some((whole, fraction)) {
      AmountOfMatch(s);
    } else if whole != "" && AllDigits(whole) && AllDigits(fraction) {
      MatchOfAmount(whole, fraction);
    }
  }

  // ---------- units.ts ----------

  datatype Refusal = NotADecimal | TooManyPlaces

  function DecimalPlaces(amount: string): nat {
    match Match(amount)
    case None => 0
    case Some((_, fraction)) => |fraction|
  }

  function ParseUnits(amount: string, decimals: nat): Result<nat, Refusal> {
    match Match(amount)
    case None => Err(NotADecimal)
    case Some((whole, fraction)) =>
      if |fraction| > decimals then Err(TooManyPlaces)
      else Ok(Value(Read(whole) + Read(fraction) + Zeros(decimals - |fraction|), 10))
  }

  /** `toString()` of a bigint. */
  function Numeral(n: nat): (ds: seq<nat>)
    ensures AreDigits(ds, 10) && ds != []
  {
    DigitsOf(n, 10);
    if n == 0 then [0] else Digits(n, 10)
  }

  function Padded(n: nat, width: nat): (ds: seq<nat>)
    ensures AreDigits(ds, 10) && |ds| >= width && ds != []
  {
    var ds := Numeral(n);
    if |ds| < width then Zeros(width - |ds|) + ds else ds
  }

  function WholeDigits(n: nat, decimals: nat): (ds: seq<nat>)
    ensures AreDigits(ds, 10) && ds != []
  {
    var padded := Padded(n, decimals + 1);
    padded[..|padded| - decimals]
  }

  function FractionDigits(n: nat, decimals: nat): (ds: seq<nat>)
    ensures AreDigits(ds, 10) && |ds| == decimals
  {
    var padded := Padded(n, decimals + 1);
    padded[|padded| - decimals..]
  }

  function Unsigned(n: nat, decimals: nat): string {
    Amount(Text(WholeDigits(n, decimals)), Strip(Text(FractionDigits(n, decimals)), '0'))
  }

  function FormatUnits(value: int, decimals: nat): string {
    if value < 0 then "-" + Unsigned(-value, decimals) else Unsigned(value, decimals)
  }

  // ---------- What the digits are ----------

  predicate NoExtraZero(ds: seq<nat>) {
    ds == [0] || (ds != [] && ds[0] != 0)
  }

  lemma NumeralIs(n: nat)
    ensures NoExtraZero(Numeral(n)) && Value(Numeral(n), 10) == n
  {
    DigitsOf(n, 10);
    if n == 0 {
      assert Value([0], 10) == 0;
    }
  }

  lemma NumeralIsUnique(ds: seq<nat>)
    requires AreDigits(ds, 10) && NoExtraZero(ds)
    ensures ds == Numeral(Value(ds, 10))
  {
    if ds == [0] {
      assert Value([0], 10) == 0;
    } else {
      DigitsOfValue(ds, 10);
    }
  }

  lemma PaddedIs(n: nat, width: nat)
    requires width > 0
    ensures Value(Padded(n, width), 10) == n
    ensures |Padded(n, width)| == width || (|Padded(n, width)| > width && Padded(n, width)[0] != 0)
  {
    var ds := Numeral(n);
    NumeralIs(n);
    if |ds| < width {
      LeadingZeros(width - |ds|, ds, 10);
    }
  }

  /** The two parts are the quotient and the remainder by ten to the places. */
  lemma PartsAre(n: nat, decimals: nat)
    ensures Pow(10, decimals) > 0
    ensures var q := Pow(10, decimals);
            && WholeDigits(n, decimals) == Numeral(n / q)
            && Value(FractionDigits(n, decimals), 10) == n % q
  {
    hide Numeral, Value, Pow, Padded, NoExtraZero;
    var q := Pow(10, decimals);
    var whole, fraction := WholeDigits(n, decimals), FractionDigits(n, decimals);
    PowPositive(10, decimals);
    WholeThenFraction(n, decimals);
    ValueConcat(whole, fraction, 10);
    ValueBelow(fraction, 10);
    ModUnique(n, q, Value(whole, 10), Value(fraction, 10));
    NumeralIsUnique(whole);
  }

  /** The padded digits, cut in two. */
  lemma WholeThenFraction(n: nat, decimals: nat)
    ensures Value(WholeDigits(n, decimals) + FractionDigits(n, decimals), 10) == n
    ensures NoExtraZero(WholeDigits(n, decimals))
  {
    hide Value, Padded;
    var padded, whole := Padded(n, decimals + 1), WholeDigits(n, decimals);
    PaddedIs(n, decimals + 1);
    assert padded == whole + FractionDigits(n, decimals);
    assert |whole| == 1 ==> whole == [whole[0]];
  }

  /** A plain decimal with no superfluous zero in front. */
  predicate Plain(s: string) {
    Match(s).Some? && NoExtraZero(Read(Match(s).value.0))
  }

  /** A plain decimal with no superfluous zeros at all. */
  predicate Normal(s: string) {
    Plain(s) && Strip(Match(s).value.1, '0') == Match(s).value.1
  }

  lemma NormalAmount(whole: seq<nat>, fraction: seq<nat>)
    requires AreDigits(whole, 10) && AreDigits(fraction, 10) && NoExtraZero(whole) && Strip(fraction, 0) == fraction
    ensures var s := Amount(Text(whole), Text(fraction));
            Match(s) == Some((Text(whole), Text(fraction))) && Normal(s) && DecimalPlaces(s) == |fraction|
  {
    hide Match, Amount;
    MatchOfAmount(Text(whole), Text(fraction));
    ReadOfText(whole);
    StripText(fraction);
  }

  lemma UnsignedIs(n: nat, decimals: nat)
    ensures var (whole, cut) := (WholeDigits(n, decimals), Strip(FractionDigits(n, decimals), 0));
            && AreDigits(cut, 10) && |cut| <= decimals && Strip(cut, 0) == cut && NoExtraZero(whole)
            && Unsigned(n, decimals) == Amount(Text(whole), Text(cut))
  {
    hide WholeDigits, FractionDigits, Amount, Numeral, Value, Pow;
    var fraction := FractionDigits(n, decimals);
    StripText(fraction);
    StripIsUnique(Strip(fraction, 0), 0, Strip(fraction, 0));
    PartsAre(n, decimals);
    NumeralIs(n / Pow(10, decimals));
  }

  lemma UnsignedParts(n: nat, decimals: nat)
    ensures Match(Unsigned(n, decimals))
         == Some((Text(WholeDigits(n, decimals)), Strip(Text(FractionDigits(n, decimals)), '0')))
    ensures Normal(Unsigned(n, decimals)) && DecimalPlaces(Unsigned(n, decimals)) <= decimals
  {
    hide Match, Amount, WholeDigits, FractionDigits, Normal, Unsigned, Strip, DecimalPlaces;
    UnsignedIs(n, decimals);
    NormalAmount(WholeDigits(n, decimals), Strip(FractionDigits(n, decimals), 0));
    StripText(FractionDigits(n, decimals));
  }

  /** Putting the cut zeros back. */
  lemma Refill(ds: seq<nat>)
    ensures |Strip(ds, 0)| <= |ds| && Strip(ds, 0) + Zeros(|ds| - |Strip(ds, 0)|) == ds
  {
  }

  lemma ParseOfAmount(whole: seq<nat>, fraction: seq<nat>, decimals: nat)
    requires AreDigits(whole, 10) && AreDigits(fraction, 10) && whole != [] && |fraction| <= decimals
    ensures ParseUnits(Amount(Text(whole), Text(fraction)), decimals)
         == Ok(Value(whole + fraction + Zeros(decimals - |fraction|), 10))
  {
    hide Match, Amount, Value;
    MatchOfAmount(Text(whole), Text(fraction));
    ReadOfText(whole);
    ReadOfText(fraction);
  }

  /** What is formatted parses back, to every number of places. */
  lemma ParseOfFormat(n: nat, decimals: nat)
    ensures ParseUnits(FormatUnits(n, decimals), decimals) == Ok(n)
  {
    hide Numeral, Value, Unsigned, ParseUnits, Amount, Strip, Padded;
    var whole, fraction := WholeDigits(n, decimals), FractionDigits(n, decimals);
    var cut := Strip(fraction, 0);
    UnsignedIs(n, decimals);
    ParseOfAmount(whole, cut, decimals);
    Refill(fraction);
    assert whole + cut + Zeros(decimals - |cut|) == whole + fraction;
    assert Padded(n, decimals + 1) == whole + fraction;
    PaddedIs(n, decimals + 1);
  }

  lemma TextIsInjective(x: seq<nat>, y: seq<nat>)
    requires AreDigits(x, 10) && AreDigits(y, 10) && Text(x) == Text(y)
    ensures x == y
  {
    ReadOfText(x);
    ReadOfText(y);
  }

  /** Two normal decimals of one value, at any places that fit both, are the same text. */
  lemma NormalIsUnique(s: string, t: string, decimals: nat)
    requires Normal(s) && Normal(t)
    requires ParseUnits(s, decimals).Ok? && ParseUnits(s, decimals) == ParseUnits(t, decimals)
    ensures s == t
  {
    hide Numeral, Value;
    NormalParts(s, decimals);
    NormalParts(t, decimals);
    AmountOfMatch(s);
    AmountOfMatch(t);
  }

  /** The digits of a plain decimal are those of its value, up to the zeros past its own places. */
  lemma PlainDigits(s: string, decimals: nat)
    requires Plain(s) && ParseUnits(s, decimals).Ok?
    ensures var (whole, fraction) := Match(s).value;
            var n := ParseUnits(s, decimals).value;
            && WholeDigits(n, decimals) == Read(whole)
            && FractionDigits(n, decimals) == Read(fraction) + Zeros(decimals - |fraction|)
  {
    hide Match, Numeral, Value, WholeDigits, FractionDigits;
    var (whole, fraction) := Match(s).value;
    var n, q := ParseUnits(s, decimals).value, Pow(10, decimals);
    var x, y := Read(whole), Read(fraction) + Zeros(decimals - |fraction|);
    assert Read(whole) + Read(fraction) + Zeros(decimals - |fraction|) == x + y;
    ValueConcat(x, y, 10);
    ValueBelow(y, 10);
    PowPositive(10, decimals);
    ModUnique(n, q, Value(x, 10), Value(y, 10));
    PartsAre(n, decimals);
    NumeralIsUnique(x);
    SameLength(y, FractionDigits(n, decimals), 10);
  }

  /** The parts of a normal decimal follow from its value. */
  lemma NormalParts(s: string, decimals: nat)
    requires Normal(s) && ParseUnits(s, decimals).Ok?
    ensures var n := ParseUnits(s, decimals).value;
            Match(s).value == (Text(WholeDigits(n, decimals)), Strip(Text(FractionDigits(n, decimals)), '0'))
  {
    hide Match, Numeral, Value, WholeDigits, FractionDigits;
    var (whole, fraction) := Match(s).value;
    PlainDigits(s, decimals);
    TextOfRead(whole);
    var y := Read(fraction) + Zeros(decimals - |fraction|);
    StripIsUnique(Text(y), '0', fraction) by {
      assert fraction == Text(y)[..|fraction|] by {
        TextOfRead(fraction);
      }
    }
  }

  /** Formatting what a decimal parses to gives its one normal form, and so gives a normal decimal back as it was. */
  lemma FormatOfParse(s: string, decimals: nat)
    requires ParseUnits(s, decimals).Ok?
    ensures var out := FormatUnits(ParseUnits(s, decimals).value, decimals);
            && Normal(out) && ParseUnits(out, decimals) == ParseUnits(s, decimals)
            && forall t :: Normal(t) && ParseUnits(t, decimals) == ParseUnits(s, decimals) ==> t == out
    ensures Normal(s) ==> FormatUnits(ParseUnits(s, decimals).value, decimals) == s
  {
    hide Match, Numeral, Value, Normal, Unsigned;
    var n := ParseUnits(s, decimals).value;
    var out := FormatUnits(n, decimals);
    UnsignedParts(n, decimals);
    ParseOfFormat(n, decimals);
    forall t | Normal(t) && ParseUnits(t, decimals) == ParseUnits(s, decimals)
      ensures t == out
    {
      NormalIsUnique(t, out, decimals);
    }
  }

  /** Exactly the plain decimals with few enough places parse. */
  lemma ParsesExactlyWhen(s: string, decimals: nat)
    ensures ParseUnits(s, decimals).Ok? <==> Match(s).Some? && DecimalPlaces(s) <= decimals
  {
  }

  // ---------- money.ts ----------

  /** `/^0(\.0*)?$/`. */
  predicate ZeroBody(body: string) {
    |body| >= 1 && body[0] == '0'
    && (|body| > 1 ==> body[1] == '.' && forall i :: 2 <= i < |body| ==> body[i] == '0')
  }

  /** `raw` is the driver's value as text, when it has one. */
  function FormatNumericAmount(raw: Option<string>, places: nat): string {
    if raw.None? then "0"
    else
      var negative := raw.value != "" && raw.value[0] == '-';
      match Match(if negative then raw.value[1..] else raw.value)
      case None => "0"
      case Some((whole, fraction)) =>
        var body := Amount(whole, Strip(Take(fraction, places), '0'));
        if negative then (if ZeroBody(body) then "0" else "-" + body) else body
  }

  /** What is no sum at all, or no decimal, is a plain zero. */
  lemma NoAmountIsZero(raw: Option<string>, places: nat)
    requires raw.Some? ==> Match(if raw.value != "" && raw.value[0] == '-' then raw.value[1..] else raw.value).None?
    ensures FormatNumericAmount(raw, places) == "0"
  {
  }

  lemma DivideInSteps(n: nat, a: nat, b: nat)
    requires a > 0 && b > 0
    ensures a * b > 0 && n / b / a == n / (a * b) && n / b % a == n % (a * b) / b
  {
    var q, r := n / b, n % b;
    var q', r' := q / a, q % a;
    Regroup(n, q, r, q', r', a, b);
    ModUnique(n, a * b, q', r' * b + r);
    ModUnique(r' * b + r, b, r', r);
  }

  lemma Regroup(n: int, q: int, r: int, q': int, r': int, a: int, b: int)
    requires n == q * b + r && q == q' * a + r' && 0 <= r < b && 0 <= r' < a
    ensures n == q' * (a * b) + (r' * b + r) && 0 <= r' * b + r < a * b
  {
    assert (q' * a + r') * b == q' * (a * b) + r' * b;
    assert 0 <= r' * b;
    RowBelow(r', a, b);
  }

  lemma RowBelow(x: int, a: int, b: int)
    requires 0 <= x < a && 0 < b
    ensures x * b + b <= a * b
  {
    assert (a - 1 - x) * b >= 0;
    assert a * b == x * b + b + (a - 1 - x) * b;
  }

  lemma Positive(k: nat)
    ensures Pow(10, k) > 0
  {
    PowPositive(10, k);
  }

  /** `n` without its last k digits. */
  function Dropped(n: nat, k: nat): nat {
    Positive(k);
    DivideNat(n, Pow(10, k));
    n / Pow(10, k)
  }

  /** `v` divided by 10^k and rounded toward zero. */
  function TowardZero(v: int, k: nat): int {
    if v < 0 then 0 - Dropped(-v, k) else Dropped(v, k)
  }

  lemma DivideNat(n: nat, q: nat)
    requires q > 0
    ensures n / q >= 0
  {
  }

  /** The first p of d fractional digits, and the whole, of n are those of n without its last d - p digits. */
  lemma CutDigits(n: nat, d: nat, p: nat)
    requires p <= d
    ensures var m := Dropped(n, d - p);
            WholeDigits(n, d) == WholeDigits(m, p) && FractionDigits(n, d)[..p] == FractionDigits(m, p)
  {
    hide Numeral, Value, WholeDigits, FractionDigits;
    var a, b := Pow(10, p), Pow(10, d - p);
    PowPositive(10, p);
    PowPositive(10, d - p);
    PowAdds(10, p, d - p);
    var m := n / b;
    DivideInSteps(n, a, b);
    PartsAre(n, d);
    PartsAre(m, p);
    var fraction := FractionDigits(n, d);
    var head, tail := fraction[..p], fraction[p..];
    assert fraction == head + tail;
    ValueConcat(head, tail, 10);
    ValueBelow(tail, 10);
    ModUnique(Value(fraction, 10), b, Value(head, 10), Value(tail, 10));
    SameLength(head, FractionDigits(m, p), 10);
  }

  lemma StripTakeText(ds: seq<nat>, p: nat)
    requires AreDigits(ds, 10)
    ensures AreDigits(Strip(Take(ds, p), 0), 10) && Strip(Take(Text(ds), p), '0') == Text(Strip(Take(ds, p), 0))
  {
    hide Strip;
    assert Take(Text(ds), p) == Text(Take(ds, p));
    StripText(Take(ds, p));
  }

  /** An amount cut to `p` places. */
  function Cut(s: string, p: nat): string
    requires Match(s).Some?
  {
    Amount(Match(s).value.0, Strip(Take(Match(s).value.1, p), '0'))
  }

  /** Zeros after the digits make no difference to what a cut leaves. */
  lemma StripTakePad(ds: seq<nat>, k: nat, p: nat)
    ensures Strip(Take(ds + Zeros(k), p), 0) == Strip(Take(ds, p), 0)
  {
    StripIsUnique(Take(ds + Zeros(k), p), 0, Strip(Take(ds, p), 0));
  }

  /** What cutting leaves of any plain decimal, at its own digits. */
  lemma CutIs(s: string, d: nat, p: nat)
    requires Plain(s) && ParseUnits(s, d).Ok?
    ensures var n := ParseUnits(s, d).value;
            var ds := FractionDigits(n, d);
            AreDigits(Strip(Take(ds, p), 0), 10)
            && Cut(s, p) == Amount(Text(WholeDigits(n, d)), Text(Strip(Take(ds, p), 0)))
  {
    hide Match, WholeDigits, FractionDigits, Amount, Strip, Value, NoExtraZero;
    var (whole, fraction) := Match(s).value;
    PlainDigits(s, d);
    TextOfRead(whole);
    TextOfRead(fraction);
    StripTakeText(Read(fraction), p);
    StripTakePad(Read(fraction), d - |fraction|, p);
  }

  /** Cutting any plain decimal at p places formats its value without the digits past them. */
  lemma CutText(s: string, d: nat, p: nat)
    requires Plain(s) && ParseUnits(s, d).Ok?
    ensures var n := ParseUnits(s, d).value;
            && (p <= d ==> Cut(s, p) == Unsigned(Dropped(n, d - p), p))
            && (p > d ==> Cut(s, p) == Unsigned(n, d))
  {
    hide ParseUnits, Plain, Dropped, WholeDigits, FractionDigits, Amount, Strip, Unsigned, Cut;
    var n := ParseUnits(s, d).value;
    CutIs(s, d, p);
    UnsignedIs(n, d);
    if p <= d {
      CutDigits(n, d, p);
      UnsignedIs(Dropped(n, d - p), p);
      assert Take(FractionDigits(n, d), p) == FractionDigits(Dropped(n, d - p), p);
    } else {
      assert Take(FractionDigits(n, d), p) == FractionDigits(n, d);
    }
  }

  lemma StartsWithDigit(n: nat, d: nat)
    ensures Unsigned(n, d) != "" && Unsigned(n, d)[0] != '-'
  {
  }

  /** The fraction is empty exactly when the remainder is zero. */
  lemma ZeroFraction(n: nat, d: nat)
    ensures Pow(10, d) > 0
    ensures Strip(Text(FractionDigits(n, d)), '0') == "" <==> n % Pow(10, d) == 0
  {
    hide FractionDigits, Value;
    var ds := FractionDigits(n, d);
    PartsAre(n, d);
    StripText(ds);
    ValueOfZeros(d, 10);
    if Strip(ds, 0) == [] {
      assert ds == Zeros(d);
    } else {
      assert ds[|Strip(ds, 0)| - 1] == Strip(ds, 0)[|Strip(ds, 0)| - 1];
      if Value(ds, 10) == 0 {
        SameLength(ds, Zeros(d), 10);
      }
    }
  }

  lemma ZeroBodyParts(n: nat, d: nat)
    requires ZeroBody(Unsigned(n, d))
    ensures Text(WholeDigits(n, d)) == "0" && Strip(Text(FractionDigits(n, d)), '0') == ""
  {
    hide WholeDigits, FractionDigits;
    AmountChars(Text(WholeDigits(n, d)), Strip(Text(FractionDigits(n, d)), '0'));
  }

  lemma AmountChars(whole: string, fraction: string)
    requires whole != ""
    ensures var s := Amount(whole, fraction);
            && s[0] == whole[0] && (|whole| > 1 ==> s[1] == whole[1])
            && (fraction != "" ==> |s| > 2 && s[|s| - 1] == fraction[|fraction| - 1])
  {
  }

  lemma ZeroParts(n: nat, q: nat)
    requires q > 0
    ensures n == 0 <==> n / q == 0 && n % q == 0
  {
  }

  lemma NumeralOfZero(n: nat)
    ensures Text(Numeral(n)) == "0" <==> n == 0
  {
    NumeralIs(n);
    assert Text([0]) == "0";
    if Text(Numeral(n)) == "0" {
      assert Read("0") == [0];
      ReadOfText(Numeral(n));
      NumeralIs(0);
    }
  }

  /** The body reads as zero exactly for zero. */
  lemma ZeroBodyIsZero(n: nat, d: nat)
    ensures ZeroBody(Unsigned(n, d)) <==> n == 0
    ensures n == 0 ==> Unsigned(n, d) == "0"
  {
    hide Value, WholeDigits, FractionDigits, Numeral, Pow, Text, Strip;
    PartsAre(n, d);
    ZeroFraction(n, d);
    ZeroParts(n, Pow(10, d));
    NumeralOfZero(n / Pow(10, d));
    if ZeroBody(Unsigned(n, d)) {
      ZeroBodyParts(n, d);
    }
  }

  // ---------- What trimming promises ----------

  predicate Negative(raw: string) {
    raw != "" && raw[0] == '-'
  }

  /** The text without its sign. */
  function Magnitude(raw: string): string {
    if Negative(raw) then raw[1..] else raw
  }

  /** The signed number of units `raw` spells at `d` places. */
  function SignedUnits(raw: string, d: nat): int
    requires ParseUnits(Magnitude(raw), d).Ok?
  {
    var n := ParseUnits(Magnitude(raw), d).value;
    if Negative(raw) then 0 - n else n
  }

  lemma FormatIs(raw: string, p: nat)
    requires Match(Magnitude(raw)).Some?
    ensures var body := Cut(Magnitude(raw), p);
            FormatNumericAmount(Some(raw), p)
            == if !Negative(raw) then body else if ZeroBody(body) then "0" else "-" + body
  {
    hide Match, Amount, Strip, ZeroBody;
  }

  /** A text with a superfluous zero in front keeps it, and so is no formatted amount. */
  lemma ExtraZeroStays(s: string, p: nat, m: nat, d: nat)
    requires Match(s).Some? && !Plain(s)
    ensures |Cut(s, p)| >= 2 && !ZeroBody(Cut(s, p)) && Cut(s, p) != Unsigned(m, d) && Cut(s, p)[0] == '0'
  {
    hide Match, Unsigned, Strip;
    var whole := Match(s).value.0;
    AmountChars(whole, Strip(Take(Match(s).value.1, p), '0'));
    ExtraZeroIsFirst(Read(whole));
    assert whole[0] as int == '0' as int + Read(whole)[0];
    UnsignedStart(m, d);
  }

  lemma ExtraZeroIsFirst(ds: seq<nat>)
    requires ds != [] && !NoExtraZero(ds)
    ensures |ds| >= 2 && ds[0] == 0
  {
    OneDigit(ds);
  }

  lemma OneDigit(ds: seq<nat>)
    requires ds != []
    ensures |ds| == 1 ==> ds == [ds[0]]
  {
  }

  lemma UnsignedStart(n: nat, d: nat)
    ensures |Unsigned(n, d)| > 1 && Unsigned(n, d)[0] == '0' ==> !('0' <= Unsigned(n, d)[1] <= '9')
  {
    hide WholeDigits, FractionDigits;
    UnsignedIs(n, d);
    var whole, cut := WholeDigits(n, d), Strip(FractionDigits(n, d), 0);
    AmountChars(Text(whole), Text(cut));
    if |whole| == 1 && cut != [] {
      assert Unsigned(n, d)[1] == '.';
    }
  }

  /** What trimming promises: the amount truncated toward zero at `p` places, or as it is when `p` is past its own. */
  function Trimmed(v: int, d: nat, p: nat): string {
    if p <= d then FormatUnits(TowardZero(v, d - p), p) else FormatUnits(v, d)
  }

  lemma FormatPlain(raw: string, d: nat, p: nat)
    requires ParseUnits(Magnitude(raw), d).Ok? && Plain(Magnitude(raw))
    ensures FormatNumericAmount(Some(raw), p) == Trimmed(SignedUnits(raw, d), d, p)
  {
    hide Cut, ZeroBody, Unsigned, Dropped, FormatNumericAmount, Match, NoExtraZero, Value;
    var u := Magnitude(raw);
    var n := ParseUnits(u, d).value;
    FormatIs(raw, p);
    CutText(u, d, p);
    if p <= d {
      ZeroBodyIsZero(Dropped(n, d - p), p);
      DroppedOfZero(d - p);
    } else {
      ZeroBodyIsZero(n, d);
    }
  }

  lemma DroppedOfZero(k: nat)
    ensures Dropped(0, k) == 0
  {
    Positive(k);
    ModUnique(0, Pow(10, k), 0, 0);
  }

  lemma FormatSigned(v: int, p: nat)
    ensures FormatUnits(v, p) == (if v < 0 then "-" else "") + Unsigned(if v < 0 then -v else v, p)
  {
    hide Unsigned;
  }

  /**
   * Trimming any sum the database writes, with whatever zeros its scale leaves at the
   * end, is truncation toward zero at p places; when p is past d, nothing but zeros
   * goes. Either is so exactly for texts with no superfluous zero in front.
   */
  lemma TrimmingTruncates(raw: string, d: nat, p: nat)
    requires ParseUnits(Magnitude(raw), d).Ok?
    ensures FormatNumericAmount(Some(raw), p) == Trimmed(SignedUnits(raw, d), d, p) <==> Plain(Magnitude(raw))
  {
    hide Cut, ZeroBody, Unsigned, Dropped, FormatNumericAmount, Plain, FormatUnits, SignedUnits, TowardZero;
    if Plain(Magnitude(raw)) {
      FormatPlain(raw, d, p);
    } else {
      var v := SignedUnits(raw, d);
      if p <= d {
        KeepsExtraZero(raw, p, TowardZero(v, d - p), p);
      } else {
        KeepsExtraZero(raw, p, v, d);
      }
    }
  }

  /** With a superfluous zero in front what is left is no formatted amount. */
  lemma KeepsExtraZero(raw: string, p: nat, v: int, q: nat)
    requires Match(Magnitude(raw)).Some? && !Plain(Magnitude(raw))
    ensures FormatNumericAmount(Some(raw), p) != FormatUnits(v, q)
  {
    hide Cut, ZeroBody, Unsigned, FormatNumericAmount, Plain, FormatUnits;
    var m := if v < 0 then -v else v;
    FormatIs(raw, p);
    ExtraZeroStays(Magnitude(raw), p, m, q);
    FormatSigned(v, q);
    StartsWithDigit(m, q);
    DifferentTexts(Cut(Magnitude(raw), p), Unsigned(m, q), Negative(raw), v < 0);
  }

  lemma DifferentTexts(a: string, b: string, s: bool, t: bool)
    requires a != b && a != "" && b != "" && a[0] != '-' && b[0] != '-'
    ensures (if s then "-" + a else a) != (if t then "-" else "") + b
  {
    var x, y := if s then "-" + a else a, (if t then "-" else "") + b;
    assert x[0] == (if s then '-' else a[0]) && y[0] == (if t then '-' else b[0]);
    if s && t {
      assert x[1..] == a && y[1..] == b;
    }
  }

  /** What the formatter of units writes, the formatter of sums cuts the same way. */
  lemma TrimmingFormatted(v: int, d: nat, p: nat)
    ensures FormatNumericAmount(Some(FormatUnits(v, d)), p) == Trimmed(v, d, p)
  {
    hide Unsigned, FormatNumericAmount, TowardZero, ParseUnits, Plain;
    var n := if v < 0 then -v else v;
    var raw := FormatUnits(v, d);
    StartsWithDigit(n, d);
    if v < 0 {
      assert raw[1..] == Unsigned(n, d);
    }
    UnsignedIsPlain(n, d);
    assert Magnitude(raw) == Unsigned(n, d);
    assert SignedUnits(raw, d) == v;
    FormatPlain(raw, d, p);
  }

  lemma UnsignedIsPlain(n: nat, d: nat)
    ensures Plain(Unsigned(n, d)) && ParseUnits(Unsigned(n, d), d) == Ok(n)
  {
    hide Unsigned, Match, ParseUnits, NoExtraZero;
    ParseOfFormat(n, d);
    UnsignedParts(n, d);
    assert FormatUnits(n, d) == Unsigned(n, d);
  }

  // ---------- Negative zero ----------

  predicate AllZero(s: string) {
    forall i :: 0 <= i < |s| ==> s[i] == '0'
  }

  /** A minus sign and a decimal that is zero. */
  predicate IsNegativeZero(s: string) {
    |s| > 1 && s[0] == '-' && Match(s[1..]).Some?
    && AllZero(Match(s[1..]).value.0) && AllZero(Match(s[1..]).value.1)
  }

  lemma CutParts(s: string, p: nat)
    requires Match(s).Some?
    ensures Match(Cut(s, p)) == Some((Match(s).value.0, Strip(Take(Match(s).value.1, p), '0')))
    ensures AllZero(Strip(Take(Match(s).value.1, p), '0')) <==> AllZero(Take(Match(s).value.1, p))
    ensures AllZero(Take(Match(s).value.1, p)) ==> Cut(s, p) == Match(s).value.0
    ensures Cut(s, p) != "" && Cut(s, p)[0] == Match(s).value.0[0]
  {
    hide Match;
    var whole, cut := Match(s).value.0, Strip(Take(Match(s).value.1, p), '0');
    MatchOfAmount(whole, cut);
    AmountChars(whole, cut);
    if AllZero(cut) {
      assert cut == "";
    }
    if AllZero(Take(Match(s).value.1, p)) {
      StripIsUnique(Take(Match(s).value.1, p), '0', "");
      assert Cut(s, p) == whole;
    }
  }

  /**
   * The output is a negative zero exactly for a negative text that is zero up to the
   * cut and writes its whole part with a superfluous zero. A sum has none, and so is
   * never a negative zero.
   */
  lemma NeverMinusZero(raw: Option<string>, p: nat)
    ensures IsNegativeZero(FormatNumericAmount(raw, p)) <==>
      raw.Some? && Negative(raw.value) && Match(raw.value[1..]).Some?
      && |Match(raw.value[1..]).value.0| >= 2
      && AllZero(Match(raw.value[1..]).value.0) && AllZero(Take(Match(raw.value[1..]).value.1, p))
    ensures raw.Some? && Plain(Magnitude(raw.value)) ==> !IsNegativeZero(FormatNumericAmount(raw, p))
  {
    hide Match, Cut, Strip, Take;
    if raw.Some? && Match(Magnitude(raw.value)).Some? {
      var u := Magnitude(raw.value);
      var body, whole := Cut(u, p), Match(u).value.0;
      FormatIs(raw.value, p);
      CutParts(u, p);
      assert ("-" + body)[1..] == body;
      if Plain(u) && |whole| >= 2 {
        PlainIsNotAllZero(u);
      }
    }
  }

  lemma PlainIsNotAllZero(s: string)
    requires Plain(s) && |Match(s).value.0| >= 2
    ensures !AllZero(Match(s).value.0)
  {
    hide Match;
    assert Read(Match(s).value.0)[0] != 0;
  }

  /** The condition is needed: this text is written by no sum. */
  lemma ExtraZeroKeepsItsSign()
    ensures FormatNumericAmount(Some("-00.0"), 7) == "-00" && IsNegativeZero("-00")
  {
    hide Match, Strip, FormatNumericAmount;
    assert Magnitude("-00.0") == "00.0" == Amount("00", "0");
    MatchOfAmount("00", "0");
    StripIsUnique(Take("0", 7), '0', "");
    FormatIs("-00.0", 7);
    assert "-00"[1..] == "00" == Amount("00", "");
    MatchOfAmount("00", "");
  }

  /** A minus sign says the amount is below zero. */
  lemma MinusMeansBelowZero(v: int, d: nat)
    ensures FormatUnits(v, d)[0..1] == "-" <==> v < 0
    ensures v < 0 ==> !ZeroBody(FormatUnits(v, d)[1..])
  {
    hide ZeroBody, Unsigned;
    var n := if v < 0 then -v else v;
    StartsWithDigit(n, d);
    ZeroBodyIsZero(n, d);
    if v < 0 {
      assert FormatUnits(v, d)[1..] == Unsigned(n, d);
    }
  }
}
