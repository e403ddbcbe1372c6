/** Powers of two and the division/remainder facts the window arithmetic rests on. */
module Pow2Arith {

  /** 2^n; in the source `1 << n`. */
  function Pow2(n: nat): (r: nat)
    ensures r >= 1
  {
    if n == 0 then 1 else 2 * Pow2(n - 1)
  }

  lemma {:induction false} Pow2Add(a: nat, b: nat)
    ensures Pow2(a + b) == Pow2(a) * Pow2(b)
  {
    if a > 0 {
      Pow2Add(a - 1, b);
      assert Pow2(a + b) == 2 * Pow2(a - 1 + b);
    }
  }

  lemma {:induction false} Pow2Monotone(a: nat, b: nat)
    requires a <= b
    ensures Pow2(a) <= Pow2(b)
  {
    if a < b {
      Pow2Monotone(a, b - 1);
    }
  }

  /** Quotient and remainder are determined by `x == q * a + r` with `0 <= r < a`. */
  lemma DivModUnique(x: int, a: int, q: int, r: int)
    requires a > 0 && 0 <= r < a && x == q * a + r
    ensures x / a == q && x % a == r
  {
    var q0 := x / a;
    var r0 := x % a;
    assert x == q0 * a + r0;
    var d := q - q0;
    assert d * a == r0 - r by {
      assert q * a - q0 * a == (q - q0) * a;
    }
    if d > 0 {
      MulAtLeast(d, a);
    } else if d < 0 {
      MulAtLeast(-d, a);
    }
  }

  lemma MulAtLeast(d: int, a: int)
    requires d >= 1 && a > 0
    ensures d * a >= a
  {
    var e := d - 1;
    assert e * a >= 0;
    assert d * a == e * a + a;
  }

  lemma DivAddMultiple(x: int, q: int, a: int)
    requires a > 0
    ensures (x + q * a) / a == x / a + q
    ensures (x + q * a) % a == x % a
  {
    assert x == (x / a) * a + x % a;
    DivModUnique(x + q * a, a, x / a + q, x % a);
  }

  /** Dividing by a product is dividing twice, and the remainder splits digit-wise. */
  lemma DivModMul(x: int, a: int, b: int)
    requires a > 0 && b > 0
    ensures a * b > 0
    ensures x / (a * b) == x / a / b
    ensures x % (a * b) == x % a + a * ((x / a) % b)
  {
    var q1, r1 := x / a, x % a;
    var q2, r2 := q1 / b, q1 % b;
    assert x == q1 * a + r1;
    assert q1 == q2 * b + r2;
    assert x == q2 * (a * b) + (a * r2 + r1) by {
      Distribute(q2, b, r2, a);
    }
    assert a * r2 + r1 < a * b by {
      MulAtLeast(b - r2, a);
      assert (b - r2) * a == a * b - a * r2;
    }
    MulAtLeast(b, a);
    assert a * r2 >= 0;
    DivModUnique(x, a * b, q2, a * r2 + r1);
  }

  lemma MulMonotone(a: int, u: int, v: int)
    requires a >= 0 && u <= v
    ensures a * u <= a * v
  {
    assert a * v - a * u == a * (v - u);
  }

  lemma DistributeAssoc(a: int, x: int, b: int, y: int)
    ensures a * (x + b * y) == a * x + (a * b) * y
  {
  }

  lemma Distribute(q: int, b: int, r: int, a: int)
    ensures (q * b + r) * a == q * (a * b) + a * r
  {
  }

  /** `(a + b - 1) / b`: the least `r` with `r * b >= a`. */
  function CeilDiv(a: nat, b: nat): (r: nat)
    requires b > 0
    ensures a % b == 0 ==> r * b == a
    ensures r * b >= a && (r == 0 || (r - 1) * b < a)
  {
    var q, m := a / b, a % b;
    assert a == q * b + m;
    if m == 0 then
      DivModUnique(a + b - 1, b, q, b - 1);
      assert (q - 1) * b == q * b - b;
      (a + b - 1) / b
    else
      assert (q + 1) * b == q * b + b;
      DivModUnique(a + b - 1, b, q + 1, m - 1);
      (a + b - 1) / b
  }
}
