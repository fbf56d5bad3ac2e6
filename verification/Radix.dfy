/** Positional numerals, most significant digit first, in any base. */
module Radix {
  import opened Arithmetic

  function Pow(b: nat, n: nat): nat {
    if n == 0 then 1 else b * Pow(b, n - 1)
  }

  function Value(ds: seq<nat>, b: nat): nat {
    if ds == [] then 0 else Value(ds[..|ds| - 1], b) * b + ds[|ds| - 1]
  }

  /** The shortest numeral of `n`; none for zero. */
  function Digits(n: nat, b: nat): seq<nat>
    requires b >= 2
  {
    if n == 0 then []
    else
      Divide(n, b);
      Digits(n / b, b) + [n % b]
  }

  predicate AreDigits(ds: seq<nat>, b: nat) {
    forall i :: 0 <= i < |ds| ==> ds[i] < b
  }

  predicate NoLeadingZero(ds: seq<nat>) {
    ds == [] || ds[0] != 0
  }

  function Zeros(k: nat): (zs: seq<nat>)
    ensures |zs| == k && forall i :: 0 <= i < k ==> zs[i] == 0
  {
    seq(k, i => 0)
  }

  lemma PowPositive(b: nat, n: nat)
    requires b > 0
    ensures Pow(b, n) > 0
  {
    if n > 0 {
      PowPositive(b, n - 1);
      assert b * Pow(b, n - 1) > 0;
    }
  }

  lemma {:induction false} PowAdds(b: nat, m: nat, n: nat)
    ensures Pow(b, m + n) == Pow(b, m) * Pow(b, n)
  {
    if m > 0 {
      PowAdds(b, m - 1, n);
      assert b * (Pow(b, m - 1) * Pow(b, n)) == b * Pow(b, m - 1) * Pow(b, n);
    }
  }

  lemma ValueAppend(ds: seq<nat>, d: nat, b: nat)
    ensures Value(ds + [d], b) == Value(ds, b) * b + d
  {
    assert (ds + [d])[..|ds|] == ds;
  }

  lemma AppendDigit(ds: seq<nat>, d: nat, b: nat)
    requires AreDigits(ds, b) && NoLeadingZero(ds) && d < b && (ds == [] ==> d > 0)
    ensures AreDigits(ds + [d], b) && NoLeadingZero(ds + [d]) && Value(ds + [d], b) == Value(ds, b) * b + d
  {
    ValueAppend(ds, d, b);
  }

  lemma {:induction false} DigitsOf(n: nat, b: nat)
    requires b >= 2
    ensures AreDigits(Digits(n, b), b) && NoLeadingZero(Digits(n, b)) && Value(Digits(n, b), b) == n
  {
    if n > 0 {
      var q, r := n / b, n % b;
      Divide(n, b);
      DigitsOf(q, b);
      AppendDigit(Digits(q, b), r, b);
    }
  }

  lemma DivMod(q: nat, r: nat, b: nat)
    requires r < b
    ensures (q * b + r) / b == q && (q * b + r) % b == r
  {
    ModUnique(q * b + r, b, q, r);
  }

  lemma {:induction false} DigitsOfValue(ds: seq<nat>, b: nat)
    requires b >= 2 && AreDigits(ds, b) && NoLeadingZero(ds)
    ensures Digits(Value(ds, b), b) == ds
    ensures ds != [] ==> Value(ds, b) > 0
  {
    if ds != [] {
      var front, last := ds[..|ds| - 1], ds[|ds| - 1];
      DigitsOfValue(front, b);
      DivMod(Value(front, b), last, b);
      assert ds == front + [last];
      if front != [] {
        assert Value(front, b) * b > 0;
      }
    }
  }

  lemma MoveFactor(v: nat, p: nat, w: nat, b: nat)
    ensures (v * p + w) * b == v * (b * p) + w * b
  {
  }

  lemma {:induction false} ValueConcat(x: seq<nat>, y: seq<nat>, b: nat)
    ensures Value(x + y, b) == Value(x, b) * Pow(b, |y|) + Value(y, b)
  {
    if y == [] {
      assert x + y == x;
    } else {
      var front, last := y[..|y| - 1], y[|y| - 1];
      ValueConcat(x, front, b);
      assert (x + y)[..|x + y| - 1] == x + front;
      MoveFactor(Value(x, b), Pow(b, |y| - 1), Value(front, b), b);
    }
  }

  lemma {:induction false} ValueOfZeros(k: nat, b: nat)
    ensures Value(Zeros(k), b) == 0
  {
    if k > 0 {
      ValueOfZeros(k - 1, b);
      assert Zeros(k)[..k - 1] == Zeros(k - 1);
    }
  }

  lemma LeadingZeros(k: nat, ds: seq<nat>, b: nat)
    ensures Value(Zeros(k) + ds, b) == Value(ds, b)
  {
    ValueConcat(Zeros(k), ds, b);
    ValueOfZeros(k, b);
  }

  lemma {:induction false} ValueBelow(ds: seq<nat>, b: nat)
    requires b > 0 && AreDigits(ds, b)
    ensures Value(ds, b) < Pow(b, |ds|)
  {
    if ds != [] {
      var front := ds[..|ds| - 1];
      ValueBelow(front, b);
      AppendedDigitIsBelow(Value(front, b), ds[|ds| - 1], Pow(b, |ds| - 1), b);
    }
  }

  lemma {:induction false} ValueAtLeast(ds: seq<nat>, b: nat)
    requires b > 0 && ds != [] && ds[0] != 0
    ensures Value(ds, b) >= Pow(b, |ds| - 1)
  {
    var front := ds[..|ds| - 1];
    if front != [] {
      ValueAtLeast(front, b);
      assert Value(front, b) * b >= Pow(b, |ds| - 2) * b;
    }
  }

  /** Numerals of one length with one value are one numeral. */
  lemma {:induction false} SameLength(x: seq<nat>, y: seq<nat>, b: nat)
    requires b >= 2 && |x| == |y| && AreDigits(x, b) && AreDigits(y, b)
    requires Value(x, b) == Value(y, b)
    ensures x == y
  {
    if x != [] {
      var n := |x| - 1;
      DivMod(Value(x[..n], b), x[n], b);
      DivMod(Value(y[..n], b), y[n], b);
      SameLength(x[..n], y[..n], b);
      assert x == x[..n] + [x[n]] && y == y[..n] + [y[n]];
    }
  }

  lemma {:induction false} PowMonotone(b: nat, m: nat, n: nat)
    requires b >= 1 && m <= n
    ensures Pow(b, m) <= Pow(b, n)
  {
    if m < n {
      PowMonotone(b, m, n - 1);
      assert b * Pow(b, n - 1) >= Pow(b, n - 1);
    }
  }
}
