/** The first 64 primes, from whose roots the constants of FIPS 180-4 come. */
module Primes {
  import opened Arithmetic

  // The first 64 primes, by the whole part of their cube roots.
  const PRIMES_1: seq<nat> := [
    2, 3, 5, 7
  ]
  const PRIMES_2: seq<nat> := [
    11, 13, 17, 19, 23
  ]
  const PRIMES_3: seq<nat> := [
    29, 31, 37, 41, 43, 47, 53, 59, 61
  ]
  const PRIMES_4: seq<nat> := [
    67, 71, 73, 79, 83, 89, 97, 101, 103, 107, 109, 113
  ]
  const PRIMES_5: seq<nat> := [
    127, 131, 137, 139, 149, 151, 157, 163, 167, 173, 179, 181, 191, 193, 197, 199, 211
  ]
  const PRIMES_6: seq<nat> := [
    223, 227, 229, 233, 239, 241, 251, 257, 263, 269, 271, 277, 281, 283, 293, 307, 311
  ]

  const PRIMES: seq<nat> := PRIMES_1 + PRIMES_2 + PRIMES_3 + PRIMES_4 + PRIMES_5 + PRIMES_6

  ghost predicate Prime(n: nat) {
    n >= 2 && forall d :: 2 <= d < n ==> n % d != 0
  }

  /** Primes in increasing order, with no other prime before any of them: the first `|ps|` primes. */
  ghost predicate FirstPrimes(ps: seq<nat>) {
    && Increasing(ps)
    && (forall p :: p in ps ==> Prime(p))
    && (forall p: nat, n: nat :: p in ps && n !in ps && n < p ==> !Prime(n))
  }

  predicate Increasing(ps: seq<nat>) {
    forall i, j :: 0 <= i < j < |ps| ==> ps[i] < ps[j]
  }

  /** No prime below 19 divides `n`, but itself. */
  predicate Spared(n: nat) {
    && (n > 2 ==> n % 2 != 0) && (n > 3 ==> n % 3 != 0) && (n > 5 ==> n % 5 != 0) && (n > 7 ==> n % 7 != 0)
    && (n > 11 ==> n % 11 != 0) && (n > 13 ==> n % 13 != 0) && (n > 17 ==> n % 17 != 0)
  }

  /** Every number from 2 to 18 is a multiple of a prime below 19. */
  lemma SmallFactor(d: nat) returns (q: nat, e: nat)
    requires 2 <= d < 19
    ensures q in {2, 3, 5, 7, 11, 13, 17} && d == q * e && e >= 1
  {
    q := if d % 2 == 0 then 2 else if d % 3 == 0 then 3 else if d % 5 == 0 then 5 else if d % 7 == 0 then 7 else d;
    e := d / q;
  }

  lemma Multiple(n: nat, d: nat, e: nat)
    requires d > 0 && n == d * e
    ensures n % d == 0 && n / d == e
  {
    ModUnique(n, d, e, 0);
  }

  /** Below 19 * 19 a number that is spared is prime: the smaller of two factors would be below 19. */
  lemma SparedIsPrime(n: nat)
    requires 2 <= n < 361
    ensures Spared(n) <==> Prime(n)
  {
    forall d | 2 <= d < n && n % d == 0
      ensures !Spared(n)
    {
      var small := SmallerFactor(n, d);
      NotSpared(n, small);
    }
  }

  lemma SmallerFactor(n: nat, d: nat) returns (small: nat)
    requires 2 <= d < n < 361 && n % d == 0
    ensures 2 <= small < 19 && small < n && n % small == 0
  {
    var e := n / d;
    assert n == d * e;
    if d < 19 {
      small := d;
    } else {
      Under(d, e);
      small := e;
      Multiple(n, e, d);
    }
  }

  lemma Under(d: nat, e: nat)
    requires 19 <= d < d * e < 361
    ensures 2 <= e < 19 && e < d * e
  {
    assert e >= 19 ==> d * e >= 19 * 19;
  }

  lemma Regrouped(n: nat, d: nat, q: nat, e: nat, f: nat)
    requires n == d * f && d == q * e && e >= 1
    ensures n == q * (e * f) && d >= q
  {
  }

  lemma NotSpared(n: nat, d: nat)
    requires 2 <= d < 19 && d < n && n % d == 0
    ensures !Spared(n)
  {
    var q, e := SmallFactor(d);
    var f := n / d;
    Regrouped(n, d, q, e, f);
    Multiple(n, q, e * f);
  }

  /** A spared number is one of eight in each thirty. */
  predicate OnSpoke(n: nat) {
    n % 30 in {1, 7, 11, 13, 17, 19, 23, 29}
  }

  lemma Spokes(r: nat)
    requires r < 30 && r % 2 != 0 && r % 3 != 0 && r % 5 != 0
    ensures r in {1, 7, 11, 13, 17, 19, 23, 29}
  {
  }

  lemma SparedIsOnSpoke(n: nat)
    requires Spared(n) && n > 5
    ensures OnSpoke(n)
  {
    var q, r := n / 30, n % 30;
    SameResidue(n, r, 15 * q, 2);
    SameResidue(n, r, 10 * q, 3);
    SameResidue(n, r, 6 * q, 5);
    Spokes(r);
  }

  lemma SparedLow(n: nat)
    requires 5 < n < 90 && Spared(n) && OnSpoke(n)
    ensures n in PRIMES_1 + PRIMES_2 + PRIMES_3 + PRIMES_4
  {
    assert n in {7, 11, 13, 17, 19, 23, 29} || n in {31, 37, 41, 43, 47, 49, 53, 59} || n in {61, 67, 71, 73, 77, 79, 83, 89} by {
      hide Spared;
    }
  }

  lemma SparedMiddle(n: nat)
    requires 90 <= n < 180 && Spared(n) && OnSpoke(n)
    ensures n in PRIMES_4 + PRIMES_5
  {
    assert n in {91, 97, 101, 103, 107, 109, 113, 119} || n in {121, 127, 131, 133, 137, 139, 143, 149}
        || n in {151, 157, 161, 163, 167, 169, 173, 179} by {
      hide Spared;
    }
  }

  lemma SparedHigh(n: nat)
    requires 180 <= n < 270 && Spared(n) && OnSpoke(n)
    ensures n in PRIMES_5 + PRIMES_6
  {
    assert n in {181, 187, 191, 193, 197, 199, 203, 209} || n in {211, 217, 221, 223, 227, 229, 233, 239}
        || n in {241, 247, 251, 253, 257, 259, 263, 269} by {
      hide Spared;
    }
  }

  lemma SparedLast(n: nat)
    requires 270 <= n <= 311 && Spared(n) && OnSpoke(n)
    ensures n in PRIMES_6
  {
    assert n in {271, 277, 281, 283, 287, 289, 293, 299} || n in {301, 307, 311} by {
      hide Spared;
    }
  }

  lemma SparedIsListed(n: nat)
    requires 2 <= n <= 311 && Spared(n)
    ensures n in PRIMES
  {
    hide Spared, OnSpoke;
    if n <= 5 {
      assert n in PRIMES_1 by { UpToFive(n); }
    } else {
      SparedIsOnSpoke(n);
      if n < 90 {
        SparedLow(n);
      } else if n < 180 {
        SparedMiddle(n);
      } else if n < 270 {
        SparedHigh(n);
      } else {
        SparedLast(n);
      }
    }
  }

  lemma UpToFive(n: nat)
    requires 2 <= n <= 5 && Spared(n)
    ensures n in PRIMES_1
  {
  }

  predicate AllSpared(ps: seq<nat>) {
    forall i :: 0 <= i < |ps| ==> 2 <= ps[i] <= 311 && Spared(ps[i])
  }

  lemma FirstAreSpared()
    ensures AllSpared(PRIMES_1 + PRIMES_2 + PRIMES_3 + PRIMES_4)
  {
  }

  lemma LastAreSpared()
    ensures AllSpared(PRIMES_5 + PRIMES_6)
  {
  }

  lemma ListedIsSpared(n: nat)
    requires n in PRIMES
    ensures 2 <= n <= 311 && Spared(n)
  {
    hide Spared, PRIMES_1, PRIMES_2, PRIMES_3, PRIMES_4, PRIMES_5, PRIMES_6;
    FirstAreSpared();
    LastAreSpared();
    var low, high := PRIMES_1 + PRIMES_2 + PRIMES_3 + PRIMES_4, PRIMES_5 + PRIMES_6;
    assert PRIMES == low + high;
    var i :| 0 <= i < |PRIMES| && PRIMES[i] == n;
    if i < |low| {
      assert low[i] == n;
    } else {
      assert high[i - |low|] == n;
    }
  }

  lemma Joined(ps: seq<nat>, qs: seq<nat>)
    requires Increasing(ps) && Increasing(qs) && (ps != [] && qs != [] ==> ps[|ps| - 1] < qs[0])
    ensures Increasing(ps + qs)
  {
    forall i, j | 0 <= i < j < |ps + qs|
      ensures (ps + qs)[i] < (ps + qs)[j]
    {
      if i < |ps| <= j {
        assert ps[i] <= ps[|ps| - 1] && qs[0] <= qs[j - |ps|];
      }
    }
  }

  lemma FirstIncrease()
    ensures Increasing(PRIMES_1) && Increasing(PRIMES_2) && Increasing(PRIMES_3) && Increasing(PRIMES_4)
  {
  }

  lemma FifthIncreases()
    ensures Increasing(PRIMES_5)
  {
  }

  lemma SixthIncreases()
    ensures Increasing(PRIMES_6)
  {
  }

  lemma PrimesIncrease()
    ensures Increasing(PRIMES)
  {
    hide Increasing;
    FirstIncrease();
    FifthIncreases();
    SixthIncreases();
    Joined(PRIMES_1, PRIMES_2);
    Joined(PRIMES_1 + PRIMES_2, PRIMES_3);
    Joined(PRIMES_1 + PRIMES_2 + PRIMES_3, PRIMES_4);
    Joined(PRIMES_1 + PRIMES_2 + PRIMES_3 + PRIMES_4, PRIMES_5);
    Joined(PRIMES_1 + PRIMES_2 + PRIMES_3 + PRIMES_4 + PRIMES_5, PRIMES_6);
  }

  /** The list is the first 64 primes. */
  lemma PrimesAreTheFirst()
    ensures |PRIMES| == 64 && FirstPrimes(PRIMES)
  {
    hide Spared, Prime, Increasing;
    PrimesIncrease();
    forall p | p in PRIMES
      ensures p <= 311 && Prime(p)
    {
      ListedIsSpared(p);
      SparedIsPrime(p);
    }
    forall n: nat | n !in PRIMES && n <= 311
      ensures !Prime(n)
    {
      if n < 2 {
        NotPrime(n);
      } else {
        SparedIsPrime(n);
        NotListed(n);
      }
    }
  }

  lemma NotListed(n: nat)
    requires 2 <= n <= 311 && n !in PRIMES
    ensures !Spared(n)
  {
    hide Spared, PRIMES;
    if Spared(n) {
      SparedIsListed(n);
    }
  }

  lemma NotPrime(n: nat)
    requires n < 2
    ensures !Prime(n)
  {
  }
}
