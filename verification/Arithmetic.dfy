/** Divisibility and powers of the integers, for Maths.java. */
module Arithmetic {
  lemma NotNegative(a: int, b: int)
    requires a >= 0 && b >= 0
    ensures a * b >= 0
  {
  }

  /** A product and a quotient of numbers that are not negative. */
  function Times(a: nat, b: nat): (r: nat)
    ensures r == a * b
  {
    NotNegative(a, b);
    a * b
  }

  function Over(a: nat, b: nat): (r: nat)
    requires b > 0
    ensures r == a / b
  {
    a / b
  }

  /** d divides x; nothing but 0 is a multiple of 0. */
  predicate Divides(d: nat, x: int) {
    if d == 0 then x == 0 else x % d == 0
  }

  lemma MultipleRem(d: int, k: int)
    requires d != 0
    ensures (d * k) % d == 0
  {
    var r := (d * k) % d;
    var q := (d * k) / d;
    assert d * (k - q) == r;
    FactorBound(d, k - q);
  }

  lemma FactorBound(d: int, k: int)
    ensures k != 0 ==> (if d > 0 then d else -d) <= (if d * k > 0 then d * k else -(d * k))
    ensures d >= 0 && k <= 0 ==> d * k <= 0
  {
    if k >= 1 {
      Grows(if d > 0 then d else -d, k);
    } else if k <= -1 {
      Grows(if d > 0 then d else -d, -k);
    }
  }

  lemma Grows(d: int, k: int)
    requires d >= 0 && k >= 1
    ensures d <= d * k && (-d) * k == -(d * k) && d * -k == -(d * k) && (-d) * -k == d * k
  {
    assert d * k == d + d * (k - 1);
  }

  /** x is d times something. */
  lemma Quotient(d: nat, x: int) returns (k: int)
    requires Divides(d, x)
    ensures x == d * k
  {
    k := if d == 0 then 0 else x / d;
  }

  lemma TimesDivides(d: nat, k: int)
    ensures Divides(d, d * k)
  {
    if d != 0 {
      MultipleRem(d, k);
    }
  }

  lemma DividesSum(d: nat, x: int, y: int, k: int)
    requires Divides(d, x) && Divides(d, y)
    ensures Divides(d, x + y * k)
  {
    var a := Quotient(d, x);
    var b := Quotient(d, y);
    assert x + y * k == d * (a + b * k);
    TimesDivides(d, a + b * k);
  }

  lemma DividesTransitive(d: nat, e: nat, x: int)
    requires Divides(d, e) && Divides(e, x)
    ensures Divides(d, x)
  {
    var a := Quotient(d, e);
    var b := Quotient(e, x);
    assert x == d * (a * b);
    TimesDivides(d, a * b);
  }

  lemma DivisorBound(d: nat, x: int)
    requires Divides(d, x) && x > 0
    ensures 0 < d <= x
  {
    var k := Quotient(d, x);
    FactorBound(d, k);
  }

  // ----- Congruence

  predicate Congruent(a: int, b: int, n: nat) {
    Divides(n, a - b)
  }

  lemma CongruentTimes(a: int, b: int, c: int, d: int, n: nat)
    requires Congruent(a, b, n) && Congruent(c, d, n)
    ensures Congruent(a * c, b * d, n)
  {
    var i := Quotient(n, a - b);
    var j := Quotient(n, c - d);
    calc {
      a * c - b * d;
      (a - b) * c + b * (c - d);
      n * i * c + b * (n * j);
      n * (i * c + b * j);
    }
    TimesDivides(n, i * c + b * j);
  }

  lemma CongruentTransitive(a: int, b: int, c: int, n: nat)
    requires Congruent(a, b, n) && Congruent(b, c, n)
    ensures Congruent(a, c, n)
  {
    DividesSum(n, a - b, b - c, 1);
  }

  lemma RemCongruent(a: int, n: nat)
    requires n > 0
    ensures Congruent(a % n, a, n) && Congruent(a, a % n, n)
  {
    TimesDivides(n, -(a / n));
    TimesDivides(n, a / n);
    assert a == n * (a / n) + a % n;
    assert a % n - a == n * -(a / n);
  }

  /** Two remainders that are congruent are equal. */
  lemma CongruentSmall(a: int, b: int, n: nat)
    requires 0 <= a < n && 0 <= b < n && Congruent(a, b, n)
    ensures a == b
  {
    if a > b {
      DivisorBound(n, a - b);
    } else if b > a {
      DividesSum(n, 0, a - b, -1);
      DivisorBound(n, b - a);
    }
  }

  function Pow(m: int, e: nat): int {
    if e == 0 then 1 else m * Pow(m, e - 1)
  }

  lemma {:induction false} PowSquare(m: int, k: nat)
    ensures Pow(m * m, k) == Pow(m, 2 * k)
  {
    if k > 0 {
      PowSquare(m, k - 1);
      assert Pow(m, 2 * k) == m * (m * Pow(m, 2 * k - 2));
      assert (m * m) * Pow(m, 2 * k - 2) == m * (m * Pow(m, 2 * k - 2));
    }
  }

  lemma {:induction false} PowCongruent(a: int, b: int, e: nat, n: nat)
    requires Congruent(a, b, n)
    ensures Congruent(Pow(a, e), Pow(b, e), n)
  {
    if e == 0 {
      TimesDivides(n, 0);
    } else {
      PowCongruent(a, b, e - 1, n);
      CongruentTimes(a, b, Pow(a, e - 1), Pow(b, e - 1), n);
    }
  }
}
