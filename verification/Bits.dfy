/** Shifts, ands and ors of JavaScript, on numbers that are not negative. */
module Bits {
  import opened Arithmetic

  function Pow2(k: nat): (p: nat)
    ensures p >= 1
  {
    if k == 0 then 1 else 2 * Pow2(k - 1)
  }

  function And(a: nat, b: nat): nat {
    if a == 0 || b == 0 then 0 else 2 * And(a / 2, b / 2) + (if a % 2 == 1 && b % 2 == 1 then 1 else 0)
  }

  function Or(a: nat, b: nat): nat
    decreases a + b
  {
    if a == 0 then b else if b == 0 then a
    else 2 * Or(a / 2, b / 2) + (if a % 2 == 1 || b % 2 == 1 then 1 else 0)
  }

  function Shl(a: nat, k: nat): (r: nat)
    ensures r == a * Pow2(k)
  {
    NotNegative(a, Pow2(k));
    a * Pow2(k)
  }

  function Shr(a: nat, k: nat): (r: nat)
    ensures r == a / Pow2(k)
  {
    Over(a, Pow2(k))
  }

  /** A mask of k ones takes the remainder. */
  lemma {:induction false} AndMask(x: nat, k: nat)
    ensures And(x, Pow2(k) - 1) == x % Pow2(k)
    decreases k
  {
    if k == 0 {
    } else {
      AndMask(x / 2, k - 1);
      var p := Pow2(k - 1);
      RemDouble(x, p);
      if x > 0 {
        assert (2 * p - 1) % 2 == 1 && (2 * p - 1) / 2 == p - 1;
        if p == 1 {
          assert And(x / 2, 0) == 0;
        }
      }
    }
  }

  lemma RemDouble(x: nat, p: nat)
    requires p >= 1
    ensures x % (2 * p) == 2 * ((x / 2) % p) + x % 2 && x / (2 * p) == (x / 2) / p
  {
    var q, r := (x / 2) / p, (x / 2) % p;
    assert x / 2 == p * q + r;
    assert x == 2 * (x / 2) + x % 2;
    assert x == (2 * p) * q + (2 * r + x % 2) by {
      assert 2 * (p * q) == (2 * p) * q;
    }
    RemIs(x, 2 * p, q, 2 * r + x % 2);
  }

  lemma RemIs(x: nat, d: nat, q: nat, r: nat)
    requires x == d * q + r && r < d
    ensures x % d == r && x / d == q
  {
    var q1 := x / d;
    assert x == d * q1 + x % d;
    assert d * (q - q1) == x % d - r;
    FactorBound(d, q - q1);
  }

  /** An or with bits below a shift adds them. */
  lemma {:induction false} OrBelow(a: nat, k: nat, b: nat)
    requires b < Pow2(k)
    ensures Or(Shl(a, k), b) == Shl(a, k) + b
    decreases k
  {
    if k > 0 {
      OrBelow(a, k - 1, b / 2);
      ShlTwice(a, k);
      OrStep(Shl(a, k - 1), Shl(a, k), b);
    }
  }

  lemma ShlTwice(a: nat, k: nat)
    requires k > 0
    ensures Shl(a, k) == 2 * Shl(a, k - 1)
  {
    assert a * (2 * Pow2(k - 1)) == 2 * (a * Pow2(k - 1));
  }

  lemma OrStep(half: nat, x: nat, b: nat)
    requires x == 2 * half && Or(half, b / 2) == half + b / 2
    ensures Or(x, b) == x + b
  {
  }

  lemma Masks(x: nat)
    ensures And(x, 3) == x % 4 && And(x, 15) == x % 16 && And(x, 31) == x % 32 && And(x, 63) == x % 64
  {
    AndMask(x, 2);
    AndMask(x, 4);
    AndMask(x, 5);
    AndMask(x, 6);
  }

  lemma Shifts(x: nat)
    ensures Shr(x, 2) == x / 4 && Shr(x, 4) == x / 16 && Shr(x, 6) == x / 64 && Shr(x, 12) == x / 4096
    ensures Shl(x, 2) == 4 * x && Shl(x, 4) == 16 * x && Shl(x, 6) == 64 * x && Shl(x, 12) == 4096 * x
  {
  }

  lemma Ors(a: nat, b: nat)
    ensures b < 4 ==> Or(Shl(a, 2), b) == 4 * a + b
    ensures b < 16 ==> Or(Shl(a, 4), b) == 16 * a + b
    ensures b < 64 ==> Or(Shl(a, 6), b) == 64 * a + b
    ensures b < 4096 ==> Or(Shl(a, 12), b) == 4096 * a + b
  {
    Shifts(a);
    if b < 4 {
      OrBelow(a, 2, b);
    }
    if b < 16 {
      OrBelow(a, 4, b);
    }
    if b < 64 {
      OrBelow(a, 6, b);
    }
    if b < 4096 {
      OrBelow(a, 12, b);
    }
  }

  /** Or is symmetric, so that a mark above the bits adds too. */
  lemma {:induction false} OrSwap(a: nat, b: nat)
    ensures Or(a, b) == Or(b, a)
    decreases a + b
  {
    if a != 0 && b != 0 {
      OrSwap(a / 2, b / 2);
    }
  }

  /** The marks of UTF-8. */
  lemma MarkBits(x: nat)
    ensures x < 64 ==> Or(x, 128) == 128 + x
    ensures x < 32 ==> Or(x, 192) == 192 + x
    ensures x < 16 ==> Or(x, 224) == 224 + x
  {
    Shifts(2);
    Shifts(6);
    Shifts(14);
    OrSwap(x, 128);
    OrSwap(x, 192);
    OrSwap(x, 224);
    if x < 64 {
      OrBelow(2, 6, x);
    }
    if x < 32 {
      assert Pow2(5) == 32;
      OrBelow(6, 5, x);
    }
    if x < 16 {
      OrBelow(14, 4, x);
    }
  }
}
