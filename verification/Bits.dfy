/** Shifts and bitwise operations on non-negative integers, digit by binary digit. */
module Bits {

  function Pow2(k: nat): (p: nat)
    ensures p > 0
  {
    if k == 0 then 1 else 2 * Pow2(k - 1)
  }

  function And(a: nat, b: nat): nat {
    if a == 0 || b == 0 then 0
    else 2 * And(a / 2, b / 2) + if a % 2 == 1 && b % 2 == 1 then 1 else 0
  }

  function Or(a: nat, b: nat): nat {
    if a == 0 then b
    else if b == 0 then a
    else 2 * Or(a / 2, b / 2) + if a % 2 == 1 || b % 2 == 1 then 1 else 0
  }

  function ShiftLeft(a: nat, k: nat): (r: nat)
    ensures r >= a
  {
    if k == 0 then a else 2 * ShiftLeft(a, k - 1)
  }

  function ShiftRight(a: nat, k: nat): nat {
    if k == 0 then a else ShiftRight(a / 2, k - 1)
  }

  lemma {:induction false} Pow2Sum(j: nat, k: nat)
    ensures Pow2(j + k) == Pow2(j) * Pow2(k)
  {
    if j > 0 {
      Pow2Sum(j - 1, k);
    }
  }

  lemma Division(a: nat, m: nat, q: int, r: nat)
    requires a == m * q + r && r < m
    ensures a / m == q && a % m == r
  {
    var d, minus := a / m - q, -(m as int);
    assert m * d == r - a % m by {
      assert a == m * (a / m) + a % m;
      assert m * d == m * (a / m) - m * q;
    }
    assert d >= 1 ==> m * d >= m;
    assert d <= -1 ==> m * d <= minus;
  }

  /** Masking with k ones is the remainder. */
  lemma {:induction false} MaskIsRemainder(a: nat, k: nat)
    ensures And(a, Pow2(k) - 1) == a % Pow2(k)
  {
    if k > 0 {
      var m := Pow2(k - 1);
      MaskIsRemainder(a / 2, k - 1);
      assert (2 * m - 1) / 2 == m - 1 && (2 * m - 1) % 2 == 1;
      LastDigit(a, m);
    }
  }

  /** Shifting to the right is division. */
  lemma {:induction false} ShiftIsQuotient(a: nat, k: nat)
    ensures ShiftRight(a, k) == a / Pow2(k)
  {
    if k > 0 {
      ShiftIsQuotient(a / 2, k - 1);
      LastDigit(a, Pow2(k - 1));
    }
  }

  lemma LastDigit(a: nat, m: nat)
    requires m > 0
    ensures a / (2 * m) == a / 2 / m && a % (2 * m) == 2 * (a / 2 % m) + a % 2
  {
    var q, r := a / 2 / m, a / 2 % m;
    assert a / 2 == m * q + r;
    assert 2 * (m * q) == (2 * m) * q;
    Division(a, 2 * m, q, 2 * r + a % 2);
  }

  /** Shifting to the left is multiplication. */
  lemma {:induction false} ShiftIsProduct(a: nat, k: nat)
    ensures ShiftLeft(a, k) == a * Pow2(k)
  {
    if k > 0 {
      ShiftIsProduct(a, k - 1);
      var m := Pow2(k - 1);
      assert 2 * (a * m) == a * (2 * m);
    }
  }

  /** Numbers without a common binary digit: their bitwise or is their sum. */
  lemma {:induction false} OrIsSum(a: nat, k: nat, b: nat)
    requires b < Pow2(k)
    ensures Or(ShiftLeft(a, k), b) == ShiftLeft(a, k) + b
  {
    if k > 0 {
      OrIsSum(a, k - 1, b / 2);
    }
  }
}
