/**
 * JavaScript's bitwise operators, on integers. Operands are first taken modulo
 * 2^32; every result but `>>>`'s is a signed 32-bit integer.
 */
module Bits {
  import opened Arithmetic

  const TWO32 := 0x1_0000_0000

  /** A 32-bit word, as FIPS 180-4 writes it: an unsigned integer. */
  type Word = w: int | 0 <= w < TWO32

  function Pow2(n: nat): (p: nat)
    ensures p >= 1
  {
    if n == 0 then 1 else 2 * Pow2(n - 1)
  }

  function And(x: nat, y: nat): nat {
    if x == 0 || y == 0 then 0 else 2 * And(x / 2, y / 2) + (x % 2) * (y % 2)
  }

  function Or(x: nat, y: nat): nat {
    if x == 0 then y else if y == 0 then x
    else 2 * Or(x / 2, y / 2) + if x % 2 == 1 || y % 2 == 1 then 1 else 0
  }

  function Xor(x: nat, y: nat): nat {
    if x == 0 then y else if y == 0 then x
    else 2 * Xor(x / 2, y / 2) + (x % 2 + y % 2) % 2
  }

  lemma {:induction false} AndBound(x: nat, y: nat, k: nat)
    requires x < Pow2(k)
    ensures And(x, y) < Pow2(k)
  {
    if x != 0 && y != 0 {
      AndBound(x / 2, y / 2, k - 1);
    }
  }

  lemma {:induction false} XorBound(x: nat, y: nat, k: nat)
    requires x < Pow2(k) && y < Pow2(k)
    ensures Xor(x, y) < Pow2(k)
  {
    if x != 0 && y != 0 {
      XorBound(x / 2, y / 2, k - 1);
    }
  }

  /** `|` of disjoint bits is `+`. */
  lemma {:induction false} OrAdds(a: nat, b: nat, k: nat)
    requires b < Pow2(k)
    ensures Or(a * Pow2(k), b) == a * Pow2(k) + b
  {
    if k > 0 && a != 0 && b != 0 {
      var h := Pow2(k - 1);
      assert a * Pow2(k) == 2 * (a * h);
      OrAdds(a, b / 2, k - 1);
      assert a * h > 0;
    }
  }

  /** `& (2^k - 1)` is the remainder. */
  lemma {:induction false} AndMask(x: nat, k: nat)
    ensures And(x, Pow2(k) - 1) == x % Pow2(k)
  {
    if x != 0 && k > 0 {
      var h := Pow2(k - 1);
      AndMask(x / 2, k - 1);
      HalfOdd(h);
      HalfMod(x, h);
    }
  }

  lemma HalfOdd(h: int)
    ensures (2 * h - 1) / 2 == h - 1 && (2 * h - 1) % 2 == 1
  {
  }

  lemma HalfMod(x: nat, h: nat)
    requires h > 0
    ensures x % (2 * h) == 2 * (x / 2 % h) + x % 2
  {
    var q, r := x / 2 / h, x / 2 % h;
    assert x == 2 * (q * h + r) + x % 2;
    assert x == q * (2 * h) + (2 * r + x % 2);
    ModUnique(x, 2 * h, q, 2 * r + x % 2);
  }

  // ---------- The operators ----------

  function ToUint32(x: int): Word {
    x % TWO32
  }

  function ToInt32(x: int): (r: int)
    ensures -0x8000_0000 <= r < 0x8000_0000
    ensures ToUint32(r) == ToUint32(x)
  {
    var u := ToUint32(x);
    if u < 0x8000_0000 then u
    else
      (ModUnique(u - TWO32, TWO32, -1, u); u - TWO32)
  }

  lemma Small(x: int)
    requires 0 <= x < 0x8000_0000
    ensures ToUint32(x) == x && ToInt32(x) == x
  {
  }

  lemma Pow2Of32()
    ensures Pow2(32) == TWO32
  {
    assert Pow2(8) == 0x100;
    assert Pow2(16) == 0x1_0000;
    assert Pow2(24) == 0x100_0000;
  }

  function JsAnd(x: int, y: int): int {
    ToInt32(And(ToUint32(x), ToUint32(y)))
  }

  function JsOr(x: int, y: int): int {
    ToInt32(Or(ToUint32(x), ToUint32(y)))
  }

  function JsXor(x: int, y: int): int {
    ToInt32(Xor(ToUint32(x), ToUint32(y)))
  }

  function JsNot(x: int): int {
    -ToInt32(x) - 1
  }

  /** `x >>> n`. */
  function JsShiftRight(x: int, n: nat): int
    requires n < 32
  {
    ToUint32(x) / Pow2(n)
  }

  /** `x >> n`: the sign stays, so it rounds down. */
  function JsShiftRightSigned(x: int, n: nat): int
    requires n < 32
  {
    ToInt32(x) / Pow2(n)
  }

  /** `x << n`. */
  function JsShiftLeft(x: int, n: nat): int
    requires n < 32
  {
    ToInt32(ToUint32(x) * Pow2(n))
  }
}
