/**
 The bitwise or of C on unsigned integers, and when it is a sum.
 */
module Bits {

  function Or(a: nat, b: nat): nat {
    if a == 0 then b
    else if b == 0 then a
    else Or(a / 2, b / 2) * 2 + if a % 2 == 1 || b % 2 == 1 then 1 else 0
  }

  function Pow2(n: nat): nat { if n == 0 then 1 else 2 * Pow2(n - 1) }

  lemma OrBits(a: nat, b: nat)
    ensures Or(a, b) == Or(a / 2, b / 2) * 2 + if a % 2 == 1 || b % 2 == 1 then 1 else 0
  {
  }

  lemma {:induction false} OrCommutes(a: nat, b: nat)
    ensures Or(a, b) == Or(b, a)
  {
    if a != 0 && b != 0 {
      OrCommutes(a / 2, b / 2);
    }
  }

  /** High and low parts are or-ed separately. */
  lemma {:induction false} OrSplit(a: nat, c: nat, b: nat, d: nat, k: nat)
    requires c < Pow2(k) && d < Pow2(k)
    ensures Or(a * Pow2(k) + c, b * Pow2(k) + d) == Or(a, b) * Pow2(k) + Or(c, d)
  {
    hide Or;
    if k == 0 {
      OrBits(0, 0);
      OrZero(0);
    } else {
      var p := Pow2(k - 1);
      Halves(a, c, p);
      Halves(b, d, p);
      OrBits(a * Pow2(k) + c, b * Pow2(k) + d);
      OrSplit(a, c / 2, b, d / 2, k - 1);
      OrBits(c, d);
      assert Or(a, b) * Pow2(k) == Or(a, b) * p * 2;
    }
  }

  lemma OrZero(a: nat)
    ensures Or(a, 0) == a && Or(0, a) == a
  {
  }

  lemma Halves(a: nat, c: nat, p: nat)
    ensures (a * (2 * p) + c) / 2 == a * p + c / 2 && (a * (2 * p) + c) % 2 == c % 2
  {
    assert a * (2 * p) == 2 * (a * p);
  }

  /** Or-ing a value into n clear bits from `lo` adds it: here `high` is what lies above those
      bits, and `low` what lies below. */
  lemma OrField(high: nat, low: nat, f: nat, lo: nat, n: nat)
    requires low < Pow2(lo) && f < Pow2(n)
    ensures Or(high * Pow2(n) * Pow2(lo) + low, f * Pow2(lo)) == (high * Pow2(n) + f) * Pow2(lo) + low
  {
    hide Or, Pow2;
    Pow2Positive(lo);
    Pow2Positive(n);
    OrSplit(high * Pow2(n), low, f, 0, lo);
    OrSplit(high, 0, 0, f, n);
    OrZero(low);
    OrZero(high);
    OrZero(f);
  }

  /** Or-ing in a bit that is set changes nothing. */
  lemma OrSet(high: nat, low: nat, lo: nat)
    requires low < Pow2(lo)
    ensures Or((2 * high + 1) * Pow2(lo) + low, Pow2(lo)) == (2 * high + 1) * Pow2(lo) + low
  {
    hide Or, Pow2;
    Pow2Positive(lo);
    OrBits(2 * high + 1, 1);
    OrZero(high);
    OrSplit(2 * high + 1, low, 1, 0, lo);
    OrZero(low);
  }

  lemma {:induction false} Pow2Positive(n: nat)
    ensures Pow2(n) > 0
  {
    if n > 0 {
      Pow2Positive(n - 1);
    }
  }
}
