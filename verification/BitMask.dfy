// Shifts and masks of unsigned numbers, bit by bit, and what they mean for a power of two (src/uthash.h relies on it).
module BitMask {
  function Pow2(n: nat): (p: nat)
    ensures p > 0
  {
    if n == 0 then 1 else 2 * Pow2(n - 1)
  }

  // The bitwise and of two unsigned numbers.
  function And(a: nat, b: nat): (r: nat)
    ensures r <= a
  {
    if a == 0 || b == 0 then 0
    else 2 * And(a / 2, b / 2) + if a % 2 == 1 && b % 2 == 1 then 1 else 0
  }

  // a >> k
  function ShiftRight(a: nat, k: nat): nat
    decreases k
  {
    if k == 0 then a else ShiftRight(a / 2, k - 1)
  }

  lemma HalfDivides(a: nat, m: nat)
    requires m > 0
    ensures a / 2 / m == a / (2 * m)
    ensures a % (2 * m) == 2 * (a / 2 % m) + a % 2
  {
    var q, r := a / 2 / m, a / 2 % m;
    assert a == 2 * (m * q + r) + a % 2;
    assert a == 2 * m * q + (2 * r + a % 2);
    Quotient(a, 2 * m, q, 2 * r + a % 2);
  }

  lemma Multiple(d: int, e: int)
    requires d >= 0
    ensures e >= 1 ==> d * e >= d
    ensures e <= -1 ==> d * e <= -d
  {
  }

  lemma Quotient(a: nat, d: nat, q: nat, r: nat)
    requires d > 0 && r < d && a == d * q + r
    ensures a / d == q && a % d == r
  {
    var e := a / d - q;
    assert a == d * (a / d) + a % d;
    assert d * (a / d) == d * q + d * e;
    Multiple(d, e);
  }

  // Masking with all ones below bit k is the remainder.
  lemma {:induction false} MaskIsMod(a: nat, k: nat)
    ensures And(a, Pow2(k) - 1) == a % Pow2(k)
    decreases k
  {
    if k > 0 {
      var m := Pow2(k - 1);
      MaskIsMod(a / 2, k - 1);
      assert (Pow2(k) - 1) / 2 == m - 1 && (Pow2(k) - 1) % 2 == 1;
      HalfDivides(a, m);
    }
  }

  // Shifting by k divides.
  lemma {:induction false} ShiftIsDiv(a: nat, k: nat)
    ensures ShiftRight(a, k) == a / Pow2(k)
    decreases k
  {
    if k > 0 {
      ShiftIsDiv(a / 2, k - 1);
      HalfDivides(a, Pow2(k - 1));
    }
  }
}
