/** The number theory of Maths.java.  A `long` is a 64-bit two's complement integer. */
module Maths {
  import opened Options
  import opened Arithmetic

  const TWO_TO_THE_63: int := 0x8000_0000_0000_0000

  /** The result of an operation on longs: the exact value, wrapped into 64 bits. */
  function Wrap(x: int): int {
    (x + TWO_TO_THE_63) % (2 * TWO_TO_THE_63) - TWO_TO_THE_63
  }

  predicate IsLong(x: int) {
    -TWO_TO_THE_63 <= x < TWO_TO_THE_63
  }

  /** The `%` of Java: the sign of the result is that of the dividend. */
  function JavaRem(a: int, b: int): int
    requires b != 0
  {
    if a >= 0 then a % b else -(-a % b)
  }

  // ----- fastExp

  /** The largest modulus for which no product of two residues overflows. */
  const LARGEST_MODULUS: int := 3037000500

  /** Squaring any residue stays within a long exactly up to the bound. */
  lemma SquaresFit(n: int)
    requires n >= 1
    ensures n <= LARGEST_MODULUS <==> forall m :: 0 <= m < n ==> IsLong(Product(m, m))
  {
    if n <= LARGEST_MODULUS {
      forall m | 0 <= m < n
        ensures IsLong(Product(m, m))
      {
        ProductFits(m, m);
      }
    } else {
      var m := LARGEST_MODULUS;
      assert Product(m, m) == 9223372037000250000;
    }
  }

  function Product(a: int, b: int): int {
    a * b
  }

  lemma ProductFits(a: int, b: int)
    requires 0 <= a < LARGEST_MODULUS && 0 <= b < LARGEST_MODULUS
    ensures 0 <= Product(a, b) && IsLong(Product(a, b)) && Wrap(Product(a, b)) == a * b
  {
    ProductBound(a, b, LARGEST_MODULUS - 1);
    assert (LARGEST_MODULUS - 1) * (LARGEST_MODULUS - 1) == 9223372030926249001;
    WrapFits(a * b);
  }

  lemma ProductBound(a: int, b: int, top: int)
    requires 0 <= a <= top && 0 <= b <= top
    ensures 0 <= a * b <= top * top
  {
    assert a * b <= top * b by { assert (top - a) * b >= 0; }
    assert top * b <= top * top by { assert top * (top - b) >= 0; }
  }

  lemma WrapFits(x: int)
    requires IsLong(x)
    ensures Wrap(x) == x
  {
  }

  /** One step of the loops, in exact arithmetic. */
  lemma StepExact(a: int, b: int, n: int)
    requires 0 <= a < LARGEST_MODULUS && 0 <= b < LARGEST_MODULUS && 1 <= n <= LARGEST_MODULUS
    ensures JavaRem(Wrap(a * b), n) == (a * b) % n && 0 <= (a * b) % n < LARGEST_MODULUS
    ensures Congruent((a * b) % n, a * b, n)
  {
    ProductFits(a, b);
    RemCongruent(a * b, n);
  }

  /** What the loops of `fastExp` come to, with every product taken in 64 bits. */
  function Exp(z: int, m: int, e: nat, n: int): int
    requires n != 0
    decreases e
  {
    if e == 0 then z
    else if e % 2 == 0 then Exp(z, JavaRem(Wrap(m * m), n), e / 2, n)
    else Exp(JavaRem(Wrap(z * m), n), m, e - 1, n)
  }

  /** No product of the loops leaves the longs. */
  predicate ProductsFit(z: int, m: int, e: nat, n: int)
    requires n != 0
    decreases e
  {
    e == 0 ||
    if e % 2 == 0 then IsLong(m * m) && ProductsFit(z, JavaRem(Wrap(m * m), n), e / 2, n)
    else IsLong(z * m) && ProductsFit(JavaRem(Wrap(z * m), n), m, e - 1, n)
  }

  /** `fastExp`, with every product taken as the program takes it. */
  method FastExp(m: int, e: nat, n: int) returns (z: int)
    requires n != 0
    ensures z == Exp(1, m, e, n)
    ensures 0 <= m < LARGEST_MODULUS && 1 <= n <= LARGEST_MODULUS ==>
      ProductsFit(1, m, e, n) && z == if e == 0 then 1 else Pow(m, e) % n
  {
    var base: int, left: nat := m, e;
    z := 1;
    while left != 0
      invariant Exp(z, base, left, n) == Exp(1, m, e, n)
      decreases left
    {
      while left % 2 == 0
        invariant left > 0 && Exp(z, base, left, n) == Exp(1, m, e, n)
        decreases left
      {
        left := left / 2;
        base := JavaRem(Wrap(base * base), n);
      }
      left := left - 1;
      z := JavaRem(Wrap(z * base), n);
    }
    if 0 <= m < LARGEST_MODULUS && 1 <= n <= LARGEST_MODULUS {
      ExpIsPower(m, e, n);
    }
  }

  /** Up to the bound no product overflows, and what is left to do stays congruent to the power. */
  lemma {:induction false} ExpFits(z: int, m: int, e: nat, n: int)
    requires 0 <= m < LARGEST_MODULUS && 0 <= z < LARGEST_MODULUS && 1 <= n <= LARGEST_MODULUS
    ensures ProductsFit(z, m, e, n) && Congruent(Exp(z, m, e, n), z * Pow(m, e), n)
    ensures e > 0 || z < n ==> 0 <= Exp(z, m, e, n) < n
    decreases e
  {
    TimesDivides(n, 0);
    if e == 0 {
      assert z * Pow(m, 0) == z;
    } else if e % 2 == 0 {
      ProductFits(m, m);
      var goal := z * Pow(m, e);
      SquareStep(z, m, e / 2, goal, n);
      var r := JavaRem(Wrap(m * m), n);
      ExpFits(z, r, e / 2, n);
      CongruentTransitive(Exp(z, m, e, n), z * Pow(r, e / 2), goal, n);
    } else {
      ProductFits(z, m);
      var goal := z * Pow(m, e);
      TimesStep(z, m, e - 1, goal, n);
      var r := JavaRem(Wrap(z * m), n);
      ExpFits(r, m, e - 1, n);
      CongruentTransitive(Exp(z, m, e, n), r * Pow(m, e - 1), goal, n);
    }
  }

  lemma ExpIsPower(m: int, e: nat, n: int)
    requires 0 <= m < LARGEST_MODULUS && 1 <= n <= LARGEST_MODULUS
    ensures ProductsFit(1, m, e, n) && Exp(1, m, e, n) == if e == 0 then 1 else Pow(m, e) % n
  {
    if e > 0 {
      ExpFits(1, m, e, n);
      var p := Pow(m, e);
      assert 1 * p == p;
      RemCongruent(p, n);
      CongruentTransitive(Exp(1, m, e, n), p, p % n, n);
      CongruentSmall(Exp(1, m, e, n), p % n, n);
    }
  }

  /** A modulus that divides both the square and its distance from 2^64 divides 16. */
  lemma OnlySixteen(n: nat)
    requires Divides(n, 9223372037000250000) && Divides(n, 9223372036709301616)
    ensures n <= 16
  {
    TimesDivides(n, 0);
    DividesSum(n, 0, 9223372036709301616, -19289048579961974);
    DividesSum(n, 9223372036709301616 * -19289048579961974, 9223372037000250000, 38578097159315481 - 19289048579961974);
    DivisorBound(n, 16);
  }

  /** The two rounds for the exponent 2, when the square wraps to a negative number. */
  lemma TwoRounds(m: int, n: int, w: int)
    requires w >= 0 && 0 < n && IsLong(n) && Wrap(m * m) == -w
    ensures Exp(1, m, 2, n) == -(w % n)
  {
    var r := w % n;
    NegativeRem(w, n);
    OneRound(-r, n);
    assert Exp(1, m, 2, n) == Exp(1, JavaRem(Wrap(m * m), n), 1, n);
  }

  lemma NegativeRem(w: int, n: int)
    requires w >= 0 && n > 0
    ensures JavaRem(-w, n) == -(w % n) && JavaRem(-(w % n), n) == -(w % n) && 0 <= w % n < n
  {
    RemBelow(w, n);
    SmallRem(w % n, n);
  }

  lemma RemBelow(w: int, n: int)
    requires n > 0
    ensures 0 <= w % n < n
  {
  }

  lemma SmallRem(r: int, n: int)
    requires 0 <= r < n
    ensures r % n == r
  {
  }

  lemma OneRound(m: int, n: int)
    requires 0 < n && IsLong(m) && JavaRem(m, n) == m
    ensures Exp(1, m, 1, n) == m
  {
    assert 1 * m == m;
    WrapFits(m);
    assert Exp(m, m, 0, n) == m;
  }

  /** Above the bound, the square of 3037000500 comes out wrong, whatever the modulus. */
  lemma SquareIsWrong(n: int)
    requires LARGEST_MODULUS < n && IsLong(n)
    ensures !ProductsFit(1, LARGEST_MODULUS, 2, n)
    ensures Exp(1, LARGEST_MODULUS, 2, n) != Pow(LARGEST_MODULUS, 2) % n
  {
    var m := LARGEST_MODULUS;
    assert m * m == 9223372037000250000;
    TwoRounds(m, n, 9223372036709301616);
    PowTwo(m);
    if Exp(1, m, 2, n) == Pow(m, 2) % n {
      OnlySixteen(n);
    }
  }

  lemma PowTwo(m: int)
    ensures Pow(m, 2) == m * m
  {
    assert Pow(m, 1) == m * Pow(m, 0) == m;
  }

  ghost predicate AlwaysThePower(n: int)
    requires n >= 2
  {
    forall m, e: nat :: 0 <= m < n ==> Exp(1, m, e, n) == Pow(m, e) % n
  }

  ghost predicate NeverOverflows(n: int)
    requires n >= 2
  {
    forall m, e: nat :: 0 <= m < n ==> ProductsFit(1, m, e, n)
  }

  /** For every modulus that is a long: `fastExp` gives the power for all bases below it and all exponents
      exactly up to 3037000500, and exactly then no product overflows. */
  lemma FastExpExact(n: int)
    requires n >= 2 && IsLong(n)
    ensures AlwaysThePower(n) <==> n <= LARGEST_MODULUS
    ensures NeverOverflows(n) <==> n <= LARGEST_MODULUS
  {
    if n <= LARGEST_MODULUS {
      forall m, e: nat | 0 <= m < n
        ensures ProductsFit(1, m, e, n) && Exp(1, m, e, n) == Pow(m, e) % n
      {
        ExpIsPower(m, e, n);
      }
    } else {
      SquareIsWrong(n);
      assert 0 <= LARGEST_MODULUS < n;
    }
  }

  lemma SquareStep(z: int, m: int, k: nat, goal: int, n: int)
    requires 0 <= m < LARGEST_MODULUS && 1 <= n <= LARGEST_MODULUS && Congruent(z * Pow(m, 2 * k), goal, n)
    ensures 0 <= JavaRem(Wrap(m * m), n) < LARGEST_MODULUS
    ensures Congruent(z * Pow(JavaRem(Wrap(m * m), n), k), goal, n)
  {
    StepExact(m, m, n);
    var r := (m * m) % n;
    PowCongruent(r, m * m, k, n);
    PowSquare(m, k);
    TimesDivides(n, 0);
    CongruentTimes(z, z, Pow(r, k), Pow(m * m, k), n);
    CongruentTransitive(z * Pow(r, k), z * Pow(m, 2 * k), goal, n);
  }

  lemma TimesStep(z: int, m: int, k: nat, goal: int, n: int)
    requires 0 <= m < LARGEST_MODULUS && 0 <= z < LARGEST_MODULUS && 1 <= n <= LARGEST_MODULUS
    requires Congruent(z * Pow(m, k + 1), goal, n)
    ensures 0 <= JavaRem(Wrap(z * m), n) < n
    ensures Congruent(JavaRem(Wrap(z * m), n) * Pow(m, k), goal, n)
  {
    StepExact(z, m, n);
    var r := (z * m) % n;
    TimesDivides(n, 0);
    CongruentTimes(r, z * m, Pow(m, k), Pow(m, k), n);
    PowNext(z, m, k);
    CongruentTransitive(r * Pow(m, k), z * Pow(m, k + 1), goal, n);
  }

  lemma PowNext(z: int, m: int, k: nat)
    ensures (z * m) * Pow(m, k) == z * Pow(m, k + 1)
  {
    var p := Pow(m, k);
    assert (z * m) * p == z * (m * p);
  }

  // ----- gcd

  /** The two-argument `gcd`.  The recursion ends for arguments that are not negative. */
  function Gcd(m: nat, n: nat): nat
    decreases m + n
  {
    var (a, b) := if n > m then (n, m) else (m, n);
    if b == 0 then a else Gcd(a % b, b)
  }

  /** The call that a call of `gcd` makes on longs, or None when it returns. */
  function GcdCall(m: int, n: int): Option<(int, int)> {
    var (a, b) := if n > m then (n, m) else (m, n);
    if b == 0 then None else Some((JavaRem(a, b), b))
  }

  /** So many calls deep, the recursion still goes on. */
  predicate StillCalling(m: int, n: int, calls: nat)
    decreases calls
  {
    calls == 0 ||
    match GcdCall(m, n)
    case None => false
    case Some(next) => StillCalling(next.0, next.1, calls - 1)
  }

  /** The recursion of `gcd` ends exactly when neither argument is negative. */
  lemma GcdReturns(m: int, n: int)
    ensures (exists calls: nat :: !StillCalling(m, n, calls)) <==> m >= 0 && n >= 0
  {
    if m >= 0 && n >= 0 {
      GcdStops(m, n, m + n + 1);
    } else {
      forall calls: nat
        ensures StillCalling(m, n, calls)
      {
        GcdGoesOn(m, n, calls);
      }
    }
  }

  lemma {:induction false} GcdStops(m: nat, n: nat, calls: nat)
    requires calls > m + n
    ensures !StillCalling(m, n, calls)
    decreases calls
  {
    var (a, b) := if n > m then (n, m) else (m, n);
    if b > 0 {
      GcdStops(a % b, b, calls - 1);
    }
  }

  lemma {:induction false} GcdGoesOn(m: int, n: int, calls: nat)
    requires m < 0 || n < 0
    ensures StillCalling(m, n, calls)
    decreases calls
  {
    if calls > 0 {
      var next := GcdCall(m, n).value;
      GcdGoesOn(next.0, next.1, calls - 1);
    }
  }

  /** The common divisors of two numbers are the divisors of their gcd. */
  lemma {:induction false} GcdMeans(d: nat, m: nat, n: nat)
    ensures Divides(d, Gcd(m, n)) <==> Divides(d, m) && Divides(d, n)
    decreases m + n
  {
    var (a, b) := if n > m then (n, m) else (m, n);
    if b > 0 {
      GcdMeans(d, a % b, b);
      RemDivides(d, a, b);
    } else {
      TimesDivides(d, 0);
      assert d * 0 == 0;
    }
  }

  lemma RemDivides(d: nat, a: nat, b: nat)
    requires b > 0
    ensures Divides(d, b) ==> (Divides(d, a % b) <==> Divides(d, a))
  {
    assert a == a % b + b * (a / b);
    assert a + b * -(a / b) == a % b;
    if Divides(d, b) && Divides(d, a % b) {
      DividesSum(d, a % b, b, a / b);
    }
    if Divides(d, b) && Divides(d, a) {
      DividesSum(d, a, b, -(a / b));
    }
  }

  lemma GcdSwap(m: nat, n: nat)
    ensures Gcd(m, n) == Gcd(n, m)
  {
  }

  lemma GcdStep(c: nat, d: nat)
    requires d > 0
    ensures Gcd(c, d) == Gcd(d, c % d)
  {
    GcdSwap(c % d, d);
    if d > c {
      assert c % d == c;
      GcdSwap(c, d);
    }
  }

  lemma GcdOne(c: nat)
    ensures Gcd(c, 1) == 1
  {
    if c >= 1 {
      assert c % 1 == 0;
      assert Gcd(0, 1) == 1;
    }
  }

  /** The gcd is a combination of its arguments. */
  lemma {:induction false} GcdCombination(m: nat, n: nat) returns (u: int, v: int)
    ensures m * u + n * v == Gcd(m, n)
    decreases m + n, 1, if n > m then 1 else 0
  {
    if n > m {
      GcdSwap(m, n);
      v, u := GcdCombination(n, m);
    } else if n == 0 {
      u, v := 1, 0;
      GcdZero(m);
    } else {
      u, v := GcdCombinationStep(m, n);
    }
  }

  lemma GcdZero(m: nat)
    ensures m * 1 + 0 * 0 == Gcd(m, 0)
  {
  }

  lemma {:induction false} GcdCombinationStep(m: nat, n: nat) returns (u: int, v: int)
    requires m >= n > 0
    ensures m * u + n * v == Gcd(m, n)
    decreases m + n, 0
  {
    var q, r := m / n, m % n;
    RemStep(m, n);
    var s, t := GcdCombination(r, n);
    u, v := s, t - q * s;
    Recombine(m, n, q, r, s, t);
  }

  lemma RemStep(m: nat, n: nat)
    requires m >= n > 0
    ensures m == n * (m / n) + m % n && Gcd(m, n) == Gcd(m % n, n) && m % n + n < m + n
  {
  }

  lemma Recombine(m: int, n: int, q: int, r: int, s: int, t: int)
    requires m == n * q + r
    ensures m * s + n * (t - q * s) == r * s + n * t
  {
    calc {
      m * s + n * (t - q * s);
      (n * q + r) * s + n * (t - q * s);
      { assert (n * q + r) * s == n * q * s + r * s; }
      { assert n * (t - q * s) == n * t - n * (q * s); }
      { Assoc(n, q, s); }
      r * s + n * t;
    }
  }

  lemma Assoc(a: int, b: int, c: int)
    ensures (a * b) * c == a * (b * c)
  {
  }

  // ----- gcd of an array

  predicate DividesAll(d: nat, s: seq<int>) {
    forall x :: x in s ==> Divides(d, x)
  }

  predicate NoneNegative(s: seq<int>) {
    forall i :: 0 <= i < |s| ==> s[i] >= 0
  }

  /** `k` is the greatest common divisor of the numbers: its divisors are their common divisors. */
  ghost predicate IsGcdOf(k: int, s: seq<int>) {
    k >= 0 && forall d: nat :: Divides(d, k) <==> DividesAll(d, s)
  }

  /** What an array method comes to on longs: a result, or what it throws.  Where `gcd` does not return,
      the program throws a StackOverflowError. */
  datatype Outcome = Value(k: int) | DivisionByZero | IndexOutOfBounds | StackOverflow

  function LongGcd(m: int, n: int): Outcome {
    if m < 0 || n < 0 then StackOverflow else Value(Gcd(m, n))
  }

  ghost predicate PairsReturn(s: seq<int>) {
    forall j: nat :: 2 * j + 1 < |s| ==> PairReturns(s, j)
  }

  predicate PairReturns(s: seq<int>, j: nat)
    requires 2 * j + 1 < |s|
  {
    s[2 * j] >= 0 && s[2 * j + 1] >= 0
  }

  function PairGcd(s: seq<int>, j: nat): int
    requires 2 * j < |s| && (2 * j + 1 < |s| ==> PairReturns(s, j))
  {
    if 2 * j + 1 < |s| then Gcd(s[2 * j], s[2 * j + 1]) else s[2 * j]
  }

  /** The half-size array that `gcd` makes. */
  function PairGcds(s: seq<int>): (r: seq<int>)
    requires PairsReturn(s)
    ensures |r| == (|s| + 1) / 2
  {
    seq((|s| + 1) / 2, j requires 0 <= j < (|s| + 1) / 2 => PairGcd(s, j))
  }

  /** Only an odd last number can still be negative. */
  lemma PairsNoneNegative(s: seq<int>)
    requires PairsReturn(s)
    ensures NoneNegative(PairGcds(s)) <==> NoneNegative(s)
  {
    var r := PairGcds(s);
    forall i | 0 <= i < |s| && NoneNegative(r)
      ensures s[i] >= 0
    {
      var j := i / 2;
      if 2 * j + 1 < |s| {
        assert PairReturns(s, j);
      } else {
        assert r[j] == s[i];
      }
    }
  }

  lemma PairGcdMeans(d: nat, s: seq<int>, j: nat)
    requires NoneNegative(s) && 2 * j < |s|
    ensures Divides(d, PairGcd(s, j)) <==> Divides(d, s[2 * j]) && (2 * j + 1 < |s| ==> Divides(d, s[2 * j + 1]))
  {
    if 2 * j + 1 < |s| {
      GcdMeans(d, s[2 * j], s[2 * j + 1]);
    }
  }

  /** Halving the array keeps the common divisors. */
  lemma HalvingKeepsDivisors(d: nat, s: seq<int>)
    requires NoneNegative(s)
    ensures DividesAll(d, PairGcds(s)) <==> DividesAll(d, s)
  {
    var r := PairGcds(s);
    if DividesAll(d, r) {
      forall x | x in s
        ensures Divides(d, x)
      {
        var i :| 0 <= i < |s| && s[i] == x;
        PairGcdMeans(d, s, i / 2);
        assert r[i / 2] in r;
      }
    }
    if DividesAll(d, s) {
      forall x | x in r
        ensures Divides(d, x)
      {
        var j :| 0 <= j < |r| && r[j] == x;
        PairGcdMeans(d, s, j);
      }
    }
  }

  /** The array `gcd`, on any longs. */
  method GcdArray(mn: array<int>) returns (r: Outcome)
    ensures r.IndexOutOfBounds? <==> mn.Length < 2
    ensures r.StackOverflow? <==> mn.Length >= 2 && !NoneNegative(mn[..])
    ensures !r.DivisionByZero?
    ensures r.Value? ==> IsGcdOf(r.k, mn[..])
    decreases mn.Length
  {
    var size := mn.Length;
    ghost var s := mn[..];
    if size < 2 {
      return IndexOutOfBounds;
    } else if size == 2 {
      GcdOfTwo(s);
      return LongGcd(mn[0], mn[1]);
    }
    var kn := new int[size / 2 + (if size % 2 == 0 then 0 else 1)](_ => 0);
    var index, i := 0, 0;
    while i < mn.Length
      invariant i == 2 * index && 0 <= index <= kn.Length
      invariant forall j :: 0 <= j < index && 2 * j + 1 < |s| ==> PairReturns(s, j)
      invariant forall j :: 0 <= j < index ==> kn[j] == PairGcd(s, j)
      modifies kn
    {
      if i + 1 < mn.Length {
        var g := LongGcd(mn[i], mn[i + 1]);
        if !g.Value? {
          return g;
        }
        kn[index] := g.k;
      } else {
        kn[index] := mn[i];
      }
      index := index + 1;
      i := i + 2;
    }
    assert PairsReturn(s);
    assert kn[..] == PairGcds(s);
    PairsNoneNegative(s);
    r := GcdArray(kn);
    if r.Value? {
      forall d: nat
        ensures Divides(d, r.k) <==> DividesAll(d, s)
      {
        HalvingKeepsDivisors(d, s);
      }
    }
  }

  lemma GcdOfTwo(s: seq<int>)
    requires |s| == 2
    ensures NoneNegative(s) ==> IsGcdOf(Gcd(s[0], s[1]), s)
  {
    if NoneNegative(s) {
      forall d: nat
        ensures Divides(d, Gcd(s[0], s[1])) <==> DividesAll(d, s)
      {
        GcdMeans(d, s[0], s[1]);
      }
    }
  }

  // ----- lcm

  /** The two-argument `lcm` over integers without bound; None stands for a division by zero. */
  function Lcm(m: nat, n: nat): (r: Option<nat>)
    ensures r.None? <==> m == 0 && n == 0
  {
    var g := Gcd(m, n);
    GcdMeans(0, m, n);
    if g == 0 then None else Some(Times(Times(Over(m, g), Over(n, g)), g))
  }

  /** A product with a factor that has nothing in common is divided only through the other factor. */
  lemma CoprimeDivides(a: nat, b: nat, s: int)
    requires Gcd(a, b) == 1 && Divides(b, a * s)
    ensures Divides(b, s)
  {
    var u, v := GcdCombination(a, b);
    var k := Quotient(b, a * s);
    CoprimeSplit(a, b, u, v, s, k);
    TimesDivides(b, k * u + v * s);
  }

  lemma CoprimeSplit(a: int, b: int, u: int, v: int, s: int, k: int)
    requires a * u + b * v == 1 && a * s == b * k
    ensures s == b * (k * u + v * s)
  {
    calc {
      s;
      (a * u + b * v) * s;
      { assert (a * u) * s == (a * s) * u; }
      (a * s) * u + (b * v) * s;
      (b * k) * u + (b * v) * s;
      { Assoc(b, k, u); Assoc(b, v, s); }
      b * (k * u + v * s);
    }
  }

  lemma GcdQuotients(m: nat, n: nat)
    requires Gcd(m, n) > 0
    ensures var g := Gcd(m, n);
            m == g * (m / g) && n == g * (n / g) && Gcd(m / g, n / g) == 1
  {
    var g := Gcd(m, n);
    TimesDivides(g, 1);
    assert g * 1 == g;
    GcdMeans(g, m, n);
    var a, b := m / g, n / g;
    Exact(m, g);
    Exact(n, g);
    var h := Gcd(a, b);
    TimesDivides(h, 1);
    assert h * 1 == h;
    GcdMeans(h, a, b);
    var i := Quotient(h, a);
    var j := Quotient(h, b);
    Assoc(g, h, i);
    Assoc(g, h, j);
    TimesDivides(Times(g, h), i);
    TimesDivides(Times(g, h), j);
    GcdMeans(Times(g, h), m, n);
    DivisorBound(Times(g, h), g);
    if h >= 2 {
      Doubles(g, h);
    }
  }

  lemma Exact(m: nat, g: nat)
    requires g > 0 && Divides(g, m)
    ensures m == g * (m / g)
  {
  }

  lemma Doubles(g: nat, h: nat)
    requires g > 0 && h >= 2
    ensures g * h > g
  {
    NotNegative(g, h - 2);
    assert g * h == g + g + g * (h - 2);
  }

  /** The multiples of the lcm are the common multiples. */
  lemma LcmMeans(z: int, m: nat, n: nat)
    requires Lcm(m, n).Some?
    ensures Divides(Lcm(m, n).value, z) <==> Divides(m, z) && Divides(n, z)
  {
    var g := Gcd(m, n);
    GcdMeans(0, m, n);
    GcdQuotients(m, n);
    var a, b := m / g, n / g;
    var l := Lcm(m, n).value;
    LcmShapes(m, n, g, a, b);
    if Divides(l, z) {
      TimesDivides(m, b);
      TimesDivides(n, a);
      DividesTransitive(m, l, z);
      DividesTransitive(n, l, z);
    }
    if Divides(m, z) && Divides(n, z) {
      var s := Quotient(m, z);
      var t := Quotient(n, z);
      Assoc(g, a, s);
      Assoc(g, b, t);
      Cancel(g, a * s, b * t);
      TimesDivides(b, t);
      CoprimeDivides(a, b, s);
      var r := Quotient(b, s);
      Assoc(m, b, r);
      TimesDivides(l, r);
    }
  }

  lemma LcmShapes(m: nat, n: nat, g: nat, a: nat, b: nat)
    requires m == g * a && n == g * b
    ensures (a * b) * g == m * b && (a * b) * g == n * a
  {
    calc {
      (a * b) * g;
      { Assoc(a, b, g); assert b * g == g * b; Assoc(a, g, b); assert a * g == g * a; }
      (g * a) * b;
    }
    calc {
      (a * b) * g;
      { assert a * b == b * a; Assoc(b, a, g); assert a * g == g * a; Assoc(b, g, a); assert b * g == g * b; }
      (g * b) * a;
    }
  }

  lemma Cancel(g: nat, x: int, y: int)
    requires g > 0 && g * x == g * y
    ensures x == y
  {
    assert g * (x - y) == 0;
    FactorBound(g, x - y);
  }

  // ----- lcm of an array

  predicate DividedByAll(s: seq<int>, z: int) {
    forall x :: x in s ==> x >= 0 && Divides(x, z)
  }

  /** `k` is the least common multiple of the numbers: its multiples are their common multiples. */
  ghost predicate IsLcmOf(k: int, s: seq<int>) {
    k >= 0 && forall z: int :: Divides(k, z) <==> DividedByAll(s, z)
  }

  /** Two of the numbers are zero. */
  ghost predicate TwoZeros(s: seq<int>) {
    exists i, j :: 0 <= i < j < |s| && s[i] == 0 && s[j] == 0
  }

  function PairLcm(s: seq<int>, j: nat): nat
    requires NoneNegative(s) && 2 * j < |s|
  {
    if 2 * j + 1 == |s| then s[2 * j]
    else if s[2 * j] == 0 && s[2 * j + 1] == 0 then 0
    else Lcm(s[2 * j], s[2 * j + 1]).value
  }

  /** The half-size array that `lcm` makes, when no pair is two zeros. */
  function PairLcms(s: seq<int>): (r: seq<int>)
    requires NoneNegative(s)
    ensures |r| == (|s| + 1) / 2 && NoneNegative(r)
  {
    seq((|s| + 1) / 2, j requires 0 <= j < (|s| + 1) / 2 => PairLcm(s, j))
  }

  ghost predicate NoZeroPair(s: seq<int>) {
    forall j :: 0 <= j && 2 * j + 1 < |s| ==> s[2 * j] != 0 || s[2 * j + 1] != 0
  }

  lemma PairLcmMeans(z: int, s: seq<int>, j: nat)
    requires NoneNegative(s) && 2 * j < |s| && NoZeroPair(s)
    ensures Divides(PairLcm(s, j), z) <==> Divides(s[2 * j], z) && (2 * j + 1 < |s| ==> Divides(s[2 * j + 1], z))
  {
    if 2 * j + 1 < |s| {
      LcmMeans(z, s[2 * j], s[2 * j + 1]);
    }
  }

  /** Halving the array keeps the common multiples. */
  lemma HalvingKeepsMultiples(z: int, s: seq<int>)
    requires NoneNegative(s) && NoZeroPair(s)
    ensures DividedByAll(PairLcms(s), z) <==> DividedByAll(s, z)
  {
    var r := PairLcms(s);
    if DividedByAll(r, z) {
      forall x | x in s
        ensures x >= 0 && Divides(x, z)
      {
        var i :| 0 <= i < |s| && s[i] == x;
        PairLcmMeans(z, s, i / 2);
        assert r[i / 2] in r;
      }
    }
    if DividedByAll(s, z) {
      forall x | x in r
        ensures x >= 0 && Divides(x, z)
      {
        var j :| 0 <= j < |r| && r[j] == x;
        PairLcmMeans(z, s, j);
      }
    }
  }

  /** A pair has a zero lcm exactly when one of the two is zero. */
  lemma PairZero(s: seq<int>, j: nat)
    requires NoneNegative(s) && 2 * j < |s| && NoZeroPair(s)
    ensures PairLcm(s, j) == 0 <==> s[2 * j] == 0 || (2 * j + 1 < |s| && s[2 * j + 1] == 0)
  {
    if 2 * j + 1 < |s| {
      var m, n := s[2 * j], s[2 * j + 1];
      var k := PairLcm(s, j);
      if m == 0 || n == 0 {
        PairLcmMeans(k, s, j);
        TimesDivides(k, 1);
        assert k * 1 == k;
      } else {
        var z := Times(m, n);
        TimesDivides(m, n);
        TimesDivides(n, m);
        assert n * m == m * n == z;
        PairLcmMeans(z, s, j);
        FactorBound(m, n);
      }
    }
  }

  lemma PairOf(i: nat, j: nat)
    ensures i < j && i / 2 == j / 2 ==> i == 2 * (i / 2) && j == 2 * (i / 2) + 1
  {
  }

  /** Halving keeps two zeros two zeros, unless it has met them in one pair. */
  lemma HalvingKeepsZeros(s: seq<int>)
    requires NoneNegative(s) && NoZeroPair(s)
    ensures TwoZeros(PairLcms(s)) <==> TwoZeros(s)
  {
    var r := PairLcms(s);
    if TwoZeros(s) {
      var i, j :| 0 <= i < j < |s| && s[i] == 0 && s[j] == 0;
      PairZero(s, i / 2);
      PairZero(s, j / 2);
      PairOf(i, j);
      assert r[i / 2] == 0 && r[j / 2] == 0;
    }
    if TwoZeros(r) {
      var i, j :| 0 <= i < j < |r| && r[i] == 0 && r[j] == 0;
      PairZero(s, i);
      PairZero(s, j);
      var a := if s[2 * i] == 0 then 2 * i else 2 * i + 1;
      var b := if s[2 * j] == 0 then 2 * j else 2 * j + 1;
      assert s[a] == 0 && s[b] == 0;
    }
  }

  lemma LcmOfTwo(s: seq<int>)
    requires |s| == 2 && NoneNegative(s)
    ensures Lcm(s[0], s[1]).None? <==> TwoZeros(s)
    ensures Lcm(s[0], s[1]).Some? ==> IsLcmOf(Lcm(s[0], s[1]).value, s)
  {
    if Lcm(s[0], s[1]).Some? {
      forall z: int
        ensures Divides(Lcm(s[0], s[1]).value, z) <==> DividedByAll(s, z)
      {
        LcmMeans(z, s[0], s[1]);
      }
    }
  }

  // ----- lcm on longs

  /** The two-argument `lcm`, with every product taken in 64 bits. */
  function LongLcm(m: int, n: int): Outcome {
    if m < 0 || n < 0 then StackOverflow
    else
      var g := Gcd(m, n);
      if g == 0 then DivisionByZero
      else Value(Wrap(Wrap(Times(Over(m, g), Over(n, g))) * g))
  }

  lemma WrapShift(x: int, k: int)
    ensures Wrap(x + 2 * TWO_TO_THE_63 * k) == Wrap(x)
  {
    var d := 2 * TWO_TO_THE_63;
    var r := (x + TWO_TO_THE_63) % d;
    var q := (x + TWO_TO_THE_63) / d;
    assert x + d * k + TWO_TO_THE_63 == d * (q + k) + r;
  }

  lemma WrapTimes(x: int, g: int)
    ensures Wrap(Wrap(x) * g) == Wrap(x * g)
  {
    var d := 2 * TWO_TO_THE_63;
    var q := (x + TWO_TO_THE_63) / d;
    assert Wrap(x) == x - d * q;
    assert Wrap(x) * g == x * g + d * -(q * g) by {
      assert (x - d * q) * g == x * g - (d * q) * g;
      Assoc(d, q, g);
    }
    WrapShift(x * g, -(q * g));
  }

  /** The program wraps the least common multiple. */
  lemma LongLcmWraps(m: nat, n: nat)
    ensures LongLcm(m, n) == match Lcm(m, n) case None => DivisionByZero case Some(l) => Value(Wrap(l))
  {
    var g := Gcd(m, n);
    GcdMeans(0, m, n);
    if g != 0 {
      WrapTimes(Times(Over(m, g), Over(n, g)), g);
    }
  }

  predicate AllLong(s: seq<int>) {
    forall i :: 0 <= i < |s| ==> IsLong(s[i])
  }

  predicate AllPositive(s: seq<int>) {
    forall i :: 0 <= i < |s| ==> s[i] > 0
  }

  /** What the loop puts into the half-size array for a pair, or what it throws there. */
  function LongPair(s: seq<int>, j: nat): Outcome
    requires 2 * j < |s|
  {
    if 2 * j + 1 == |s| then Value(s[2 * j]) else LongLcm(s[2 * j], s[2 * j + 1])
  }

  ghost predicate PairsDone(s: seq<int>) {
    forall j: nat :: 2 * j < |s| ==> LongPair(s, j).Value?
  }

  function LongPairs(s: seq<int>): (r: seq<int>)
    requires PairsDone(s)
    ensures |r| == (|s| + 1) / 2 && (AllLong(s) ==> AllLong(r))
  {
    seq((|s| + 1) / 2, j requires 0 <= j < (|s| + 1) / 2 => LongPair(s, j).k)
  }

  /** What the first pair throws that throws. */
  function FirstThrow(s: seq<int>, j: nat): (r: Outcome)
    requires exists k: nat :: j <= k && 2 * k < |s| && !LongPair(s, k).Value?
    ensures !r.Value? && !r.IndexOutOfBounds?
    decreases |s| - j
  {
    if LongPair(s, j).Value? then FirstThrow(s, j + 1) else LongPair(s, j)
  }

  /** The array `lcm`, as a value. */
  ghost function LcmOutcome(s: seq<int>): Outcome
    decreases |s|
  {
    if |s| < 2 then IndexOutOfBounds
    else if |s| == 2 then LongLcm(s[0], s[1])
    else if PairsDone(s) then LcmOutcome(LongPairs(s))
    else FirstThrow(s, 0)
  }

  /** The array `lcm`, on any longs. */
  method LcmArray(mn: array<int>) returns (r: Outcome)
    ensures r == LcmOutcome(mn[..])
    decreases mn.Length
  {
    var size := mn.Length;
    ghost var s := mn[..];
    if size < 2 {
      return IndexOutOfBounds;
    } else if size == 2 {
      return LongLcm(mn[0], mn[1]);
    }
    var kn := new int[size / 2 + (if size % 2 == 0 then 0 else 1)](_ => 0);
    var index, i := 0, 0;
    while i < mn.Length
      invariant i == 2 * index && 0 <= index <= kn.Length
      invariant forall j :: 0 <= j < index ==> LongPair(s, j) == Value(kn[j])
      invariant PairsDone(s) || LcmOutcome(s) == FirstThrow(s, index)
      modifies kn
    {
      if i + 1 < mn.Length {
        var l := LongLcm(mn[i], mn[i + 1]);
        assert l == LongPair(s, index);
        if !l.Value? {
          return l;
        }
        kn[index] := l.k;
      } else {
        kn[index] := mn[i];
      }
      index := index + 1;
      i := i + 2;
    }
    assert PairsDone(s);
    assert kn[..] == LongPairs(s);
    r := LcmArray(kn);
  }

  /** Every number that is not zero divides z. */
  predicate NonZerosDivide(s: seq<int>, z: int) {
    forall i :: 0 <= i < |s| && s[i] != 0 ==> s[i] > 0 && Divides(s[i], z)
  }

  /** A pair of divisors of a long does not overflow. */
  lemma PairFits(s: seq<int>, j: nat, z: int)
    requires NoneNegative(s) && NoZeroPair(s) && 2 * j < |s| && NonZerosDivide(s, z) && 0 < z && IsLong(z)
    ensures LongPair(s, j) == Value(PairLcm(s, j))
    ensures PairLcm(s, j) != 0 ==> Divides(PairLcm(s, j), z)
  {
    PairZero(s, j);
    if 2 * j + 1 < |s| {
      LongLcmWraps(s[2 * j], s[2 * j + 1]);
      var l := PairLcm(s, j);
      if l != 0 {
        PairLcmMeans(z, s, j);
        DivisorBound(l, z);
      }
      WrapFits(l);
    }
  }

  /** With a common multiple of the numbers, zeros apart, that is a long, nothing overflows: the result is
      the least common multiple, or a division by zero when two of the numbers are zero. */
  lemma {:induction false} LcmFits(s: seq<int>, z: int)
    requires |s| >= 2 && NoneNegative(s) && NonZerosDivide(s, z) && 0 < z && IsLong(z)
    ensures if TwoZeros(s) then LcmOutcome(s) == DivisionByZero
            else LcmOutcome(s).Value? && IsLcmOf(LcmOutcome(s).k, s)
    decreases |s|
  {
    if |s| == 2 {
      LcmOfTwo(s);
      LongLcmWraps(s[0], s[1]);
      if !TwoZeros(s) {
        assert NoZeroPair(s);
        PairFits(s, 0, z);
      }
    } else if !NoZeroPair(s) {
      ZeroPairThrows(s, z);
    } else {
      forall j: nat | 2 * j < |s|
        ensures LongPair(s, j) == Value(PairLcm(s, j)) && (PairLcm(s, j) != 0 ==> Divides(PairLcm(s, j), z))
      {
        PairFits(s, j, z);
      }
      var r := LongPairs(s);
      assert r == PairLcms(s);
      HalvingKeepsZeros(s);
      LcmFits(r, z);
      forall y: int
        ensures DividedByAll(r, y) <==> DividedByAll(s, y)
      {
        HalvingKeepsMultiples(y, s);
      }
    }
  }

  /** Two zeros that meet are a division by zero, and no pair before them throws anything else. */
  lemma ZeroPairThrows(s: seq<int>, z: int)
    requires |s| > 2 && NoneNegative(s) && !NoZeroPair(s)
    ensures TwoZeros(s) && LcmOutcome(s) == DivisionByZero
  {
    var k :| 0 <= k && 2 * k + 1 < |s| && s[2 * k] == 0 && s[2 * k + 1] == 0;
    LongLcmWraps(0, 0);
    FirstDivision(s, 0, k);
  }

  lemma {:induction false} FirstDivision(s: seq<int>, j: nat, k: nat)
    requires NoneNegative(s) && j <= k && 2 * k < |s| && !LongPair(s, k).Value?
    ensures FirstThrow(s, j) == DivisionByZero
    decreases k - j
  {
    if LongPair(s, j).Value? {
      FirstDivision(s, j + 1, k);
    }
  }

  /** Numbers that are positive have a common multiple that is positive. */
  lemma {:induction false} CommonMultiple(s: seq<int>) returns (z: int)
    requires AllPositive(s)
    ensures z > 0 && DividedByAll(s, z)
  {
    if s == [] {
      z := 1;
    } else {
      var y := CommonMultiple(s[1..]);
      z := y * s[0];
      FactorBound(y, s[0]);
      TimesDivides(s[0], y);
      assert s[0] * y == z;
      TimesDivides(y, s[0]);
      forall x | x in s
        ensures x >= 0 && Divides(x, z)
      {
        if x != s[0] {
          assert x in s[1..];
          DividesTransitive(x, y, z);
        }
      }
    }
  }

  lemma {:induction false} LcmIsLong(s: seq<int>)
    requires AllLong(s)
    ensures LcmOutcome(s).Value? ==> IsLong(LcmOutcome(s).k)
    decreases |s|
  {
    if |s| > 2 && PairsDone(s) {
      LcmIsLong(LongPairs(s));
    }
  }

  /** On positive longs, the result is the least common multiple exactly when that is a long. */
  lemma LcmExact(s: seq<int>)
    requires |s| >= 2 && AllLong(s) && AllPositive(s)
    ensures LcmOutcome(s).Value? && IsLcmOf(LcmOutcome(s).k, s) <==> exists l :: IsLong(l) && IsLcmOf(l, s)
  {
    LcmIsLong(s);
    if l :| IsLong(l) && IsLcmOf(l, s) {
      var z := CommonMultiple(s);
      assert Divides(l, z);
      DivisorBound(l, z);
      TimesDivides(l, 1);
      assert l * 1 == l && Divides(l, l);
      assert forall i :: 0 <= i < |s| ==> s[i] in s && Divides(s[i], l);
      LcmFits(s, l);
    }
  }

  /** A negative number anywhere, and there is no result. */
  lemma {:induction false} LcmOfNegative(s: seq<int>, i: nat)
    requires i < |s| && s[i] < 0
    ensures !LcmOutcome(s).Value?
    decreases |s|
  {
    if |s| > 2 && PairsDone(s) {
      assert LongPair(s, i / 2).Value?;
      assert LongPairs(s)[i / 2] == s[i];
      LcmOfNegative(LongPairs(s), i / 2);
    }
  }

  /** With a zero among the numbers no result is wrong: if there is one it is zero, and there is none when two
      numbers are zero. */
  lemma {:induction false} LcmWithZero(s: seq<int>, i: nat)
    requires |s| >= 2 && i < |s| && s[i] == 0 && LcmOutcome(s).Value?
    ensures LcmOutcome(s).k == 0 && !TwoZeros(s) && IsLcmOf(0, s)
    decreases |s|
  {
    forall j: nat | j < |s|
      ensures s[j] >= 0
    {
      if s[j] < 0 {
        LcmOfNegative(s, j);
      }
    }
    assert s[i] in s;
    if |s| == 2 {
      ZeroPair(s[0], s[1]);
    } else {
      var r := LongPairs(s);
      PairKeepsZero(s, i);
      LcmWithZero(r, i / 2);
      forall a: nat, b: nat | a < b < |s| && s[a] == 0 && s[b] == 0
        ensures false
      {
        PairKeepsZero(s, a);
        PairKeepsZero(s, b);
        PairOf(a, b);
        assert LongPair(s, a / 2).Value? && LongPair(s, b / 2).Value?;
        ZeroPair(0, 0);
      }
    }
  }

  lemma ZeroPair(m: nat, n: nat)
    requires m == 0 || n == 0
    ensures LongLcm(m, n) == if m == 0 && n == 0 then DivisionByZero else Value(0)
  {
    LongLcmWraps(m, n);
    if m > 0 || n > 0 {
      var l := Lcm(m, n).value;
      LcmMeans(l, m, n);
      TimesDivides(l, 1);
      assert l * 1 == l;
    }
  }

  /** A pair with a zero gives zero. */
  lemma PairKeepsZero(s: seq<int>, i: nat)
    requires i < |s| && s[i] == 0 && PairsDone(s)
    ensures LongPairs(s)[i / 2] == 0
  {
    var j := i / 2;
    assert LongPair(s, j).Value?;
    if 2 * j + 1 < |s| {
      ZeroPair(s[2 * j], s[2 * j + 1]);
    }
  }

  /** The condition of LcmFits is not needed when there is a zero: the multiple of the other numbers here is no
      long, and the result is right. */
  lemma ZeroHidesOverflow()
    ensures var m, n := LARGEST_MODULUS, LARGEST_MODULUS + 1;
            LcmOutcome([0, m, n, 1]) == Value(0) && Lcm(m, n).Some? && !IsLong(Lcm(m, n).value)
  {
    var m, n := LARGEST_MODULUS, LARGEST_MODULUS + 1;
    LcmOverflows();
    var s := [0, m, n, 1];
    ZeroPair(0, m);
    ZeroPair(0, n);
    LcmOfOne(n);
    assert LongPair(s, 0) == Value(0) && LongPair(s, 1) == Value(n);
    assert LongPairs(s) == [0, n];
  }

  lemma LcmOfOne(n: nat)
    requires 0 < n && IsLong(n)
    ensures LongLcm(n, 1) == Value(n)
  {
    GcdOne(n);
    assert Over(n, 1) == n && Over(1, 1) == 1 && Times(n, 1) == n;
    WrapFits(n);
  }

  /** The least common multiple of two numbers near the root of 2^63 is no long, and the result is negative. */
  lemma LcmOverflows()
    ensures var m, n := LARGEST_MODULUS, LARGEST_MODULUS + 1;
            && Lcm(m, n) == Some(9223372040037250500)
            && LongLcm(m, n) == Value(9223372040037250500 - 2 * TWO_TO_THE_63)
  {
    var m, n := LARGEST_MODULUS, LARGEST_MODULUS + 1;
    assert n % m == 1 && m % 1 == 0;
    assert Gcd(0, 1) == 1;
    assert Gcd(1, m) == 1;
    assert Gcd(m, n) == 1;
    LongLcmWraps(m, n);
    assert Times(Over(m, 1), Over(n, 1)) == 9223372040037250500;
  }

  // ----- Primes

  predicate IsPrime(n: int) {
    n >= 2 && forall d :: 2 <= d < n ==> n % d != 0
  }

  /** The loop that `isPrimeNumber`, `getPrimeNumber` and `getDivisor` share. */
  method FirstDivisor(number: int) returns (count: int)
    requires number >= 2
    ensures 2 <= count <= number && number % count == 0
    ensures forall d :: 2 <= d < count ==> number % d != 0
  {
    count := 2;
    assert number % number == 0;
    while number % count != 0
      invariant 2 <= count <= number
      invariant forall d :: 2 <= d < count ==> number % d != 0
      decreases number - count
    {
      count := count + 1;
    }
  }

  /** `isPrimeNumber`; None stands for the IllegalArgumentException. */
  method IsPrimeNumber(number: int) returns (r: Option<bool>)
    ensures r == if number < 2 then None else Some(IsPrime(number))
  {
    if number < 2 {
      return None;
    }
    var count := FirstDivisor(number);
    return Some(count == number);
  }

  /** `getDivisor`: the least divisor above one, which is a prime. */
  method GetDivisor(number: int) returns (r: Option<int>)
    ensures r.None? <==> number < 2
    ensures r.Some? ==> IsPrime(r.value) && number % r.value == 0
    ensures r.Some? ==> forall q :: IsPrime(q) && number % q == 0 ==> r.value <= q
  {
    if number < 2 {
      return None;
    }
    var count := FirstDivisor(number);
    LeastIsPrime(number, count);
    return Some(count);
  }

  lemma LeastIsPrime(n: int, p: int)
    requires 2 <= p <= n && n % p == 0 && forall d :: 2 <= d < p ==> n % d != 0
    ensures IsPrime(p)
  {
    forall d | 2 <= d < p
      ensures p % d != 0
    {
      if p % d == 0 {
        DividesTransitive(d, p, n);
      }
    }
  }

  function Factorial(n: nat): (f: nat)
    ensures f >= 1
  {
    if n == 0 then 1 else Times(n, Factorial(n - 1))
  }

  lemma {:induction false} FactorialDivided(n: nat, d: nat)
    requires 1 <= d <= n
    ensures Divides(d, Factorial(n))
  {
    TimesDivides(n, Factorial(n - 1));
    if d < n {
      FactorialDivided(n - 1, d);
      TimesDivides(Factorial(n - 1), n);
      assert Factorial(n - 1) * n == Factorial(n);
      DividesTransitive(d, Factorial(n - 1), Factorial(n));
    }
  }

  /** There is a prime above every number. */
  lemma PrimeAbove(n: nat) returns (p: int)
    ensures p > n && IsPrime(p)
  {
    var m := Factorial(n) + 1;
    p := LeastDivisor(m, 2);
    LeastIsPrime(m, p);
    if p <= n {
      FactorialDivided(n, p);
      DividesSum(p, m, Factorial(n), -1);
      DivisorBound(p, 1);
    }
  }

  lemma LeastDivisor(n: int, d: int) returns (p: int)
    requires 2 <= d <= n && forall k :: 2 <= k < d ==> n % k != 0
    ensures 2 <= p <= n && n % p == 0 && forall k :: 2 <= k < p ==> n % k != 0
    decreases n - d
  {
    if n % d == 0 {
      p := d;
    } else {
      assert n % n == 0;
      p := LeastDivisor(n, d + 1);
    }
  }

  /** `getPrimeNumber`, over integers without bound: the least prime that is not below the number.
      The search ends because there is a prime above. */
  method GetPrimeNumber(number: int) returns (r: Option<int>)
    ensures r.None? <==> number < 2
    ensures r.Some? ==> IsPrime(r.value) && r.value >= number
    ensures r.Some? ==> forall q :: number <= q < r.value ==> !IsPrime(q)
  {
    if number < 2 {
      return None;
    }
    ghost var above := PrimeAbove(number);
    var i := number;
    while true
      invariant number <= i <= above
      invariant forall q :: number <= q < i ==> !IsPrime(q)
      decreases above - i
    {
      var count := FirstDivisor(i);
      if count == i {
        return Some(i);
      }
      assert !IsPrime(i);
      i := i + 1;
    }
  }

  // ----- exEuclid

  /** What the loop of `exEuclid` keeps. */
  ghost predicate Bezout(b: int, p: nat, c: int, d: int, x: int, y: int) {
    && c > 0 && d >= 0
    && Congruent(b * x, c, p) && Congruent(b * y, d, p)
    && ((x <= 0 && y >= 0) || (x >= 0 && y <= 0))
    && Abs(y) * c + Abs(x) * d == p
  }

  function Abs(x: int): nat {
    if x >= 0 then x else -x
  }

  lemma BezoutStep(b: int, p: nat, c: int, d: int, x: int, y: int)
    requires Bezout(b, p, c, d, x, y) && d > 0
    ensures var q := c / d;
            Bezout(b, p, d, c - d * q, y, x - y * q) && c - d * q == c % d
            && Abs(y * q) <= p && Abs(x - y * q) <= p && 0 <= d * q <= c && Abs(y) <= p && Abs(x) <= p
  {
    var q := c / d;
    assert c - d * q == c % d;
    var i := Quotient(p, b * x - c);
    var j := Quotient(p, b * y - d);
    Combine(b, x, y, c, d, q, i, j, p);
    TimesDivides(p, i - j * q);
    AbsStep(c, d, x, y, q, p);
  }

  lemma Combine(b: int, x: int, y: int, c: int, d: int, q: int, i: int, j: int, p: int)
    requires b * x - c == p * i && b * y - d == p * j
    ensures b * (x - y * q) - (c - d * q) == p * (i - j * q)
  {
    calc {
      b * (x - y * q) - (c - d * q);
      b * x - b * (y * q) - c + d * q;
      { assert b * (y * q) == (b * y) * q; }
      p * i - (b * y) * q + d * q;
      { assert (b * y) * q - d * q == (b * y - d) * q; }
      p * i - (p * j) * q;
      { assert (p * j) * q == p * (j * q); }
      p * (i - j * q);
    }
  }

  lemma AbsStep(c: int, d: int, x: int, y: int, q: int, p: nat)
    requires c > 0 && d > 0 && q >= 0 && c - d * q >= 0
    requires (x <= 0 && y >= 0) || (x >= 0 && y <= 0)
    requires Abs(y) * c + Abs(x) * d == p
    ensures var w := x - y * q;
            && ((y <= 0 && w >= 0) || (y >= 0 && w <= 0))
            && Abs(w) * d + Abs(y) * (c - d * q) == p
            && Abs(y * q) <= p && Abs(w) <= p && Abs(y) <= p && Abs(x) <= p && 0 <= d * q
  {
    SignedTimes(y, q);
    assert Abs(x - y * q) == Abs(x) + Abs(y) * q;
    Weights(Abs(x), Abs(y), c, d, q, p);
    NotNegative(d, q);
  }

  lemma Weights(u: nat, v: nat, c: int, d: int, q: int, p: nat)
    requires c > 0 && d > 0 && q >= 0 && c - d * q >= 0 && v * c + u * d == p
    ensures (u + v * q) * d + v * (c - d * q) == p
    ensures u + v * q <= p && u <= p && v <= p && 0 <= v * q
  {
    calc {
      (u + v * q) * d + v * (c - d * q);
      u * d + (v * q) * d + v * c - v * (d * q);
      { assert (v * q) * d == v * (d * q); }
      p;
    }
    NotNegative(v, q);
    NotNegative(v, c - d * q);
    NotNegative(u, d);
    NotNegative(v, c);
    Factor(u + v * q, d);
    Factor(v, c);
  }

  lemma Factor(a: nat, d: int)
    requires d >= 1
    ensures a <= a * d
  {
    assert a * d == a + a * (d - 1);
    assert a * (d - 1) >= 0;
  }

  lemma SignedTimes(y: int, q: int)
    requires q >= 0
    ensures Abs(y * q) == Abs(y) * q && (y >= 0 ==> y * q >= 0) && (y <= 0 ==> y * q <= 0)
  {
    if y >= 0 {
      assert y * q >= 0;
    } else {
      assert (-y) * q >= 0 && (-y) * q == -(y * q);
    }
  }

  lemma EuclidStart(b: int, p: nat)
    requires b > 0 && p > 0
    ensures Bezout(b, p, p, b, 0, 1)
  {
    TimesDivides(p, 0);
    TimesDivides(p, -1);
    assert b * 0 - p == p * -1 && b * 1 - b == p * 0;
  }

  /** One round of the loop; no operation leaves the longs. */
  lemma EuclidStep(b: int, p: nat, c: int, d: int, x: int, y: int)
    requires Bezout(b, p, c, d, x, y) && d > 0 && c < TWO_TO_THE_63 && p < TWO_TO_THE_63
    ensures var q := c / d;
            var e := Wrap(c - Wrap(d * q));
            var w := Wrap(x - Wrap(y * q));
            && e == c - d * q && w == x - y * q && 0 <= e < d
            && Bezout(b, p, d, e, y, w) && Gcd(d, e) == Gcd(c, d)
  {
    BezoutStep(b, p, c, d, x, y);
    GcdStep(c, d);
    var q := c / d;
    WrapFits(d * q);
    WrapFits(y * q);
    WrapFits(c - d * q);
    WrapFits(x - y * q);
  }

  /** `exEuclid`, with every operation taken in 64 bits; None stands for the ArithmeticException of a
      division by zero.  There is an inverse exactly when the arguments have no common divisor. */
  method ExEuclid(b: int, p: int) returns (r: Option<int>)
    requires 0 < b < TWO_TO_THE_63 && 0 < p < TWO_TO_THE_63
    ensures r.Some? <==> Gcd(p, b) == 1
    ensures r.Some? ==> Congruent(b * r.value, 1, p) && (p >= 2 ==> 0 < r.value < p)
  {
    var c, d := p, b;
    var x, y := 0, 1;
    EuclidStart(b, p);
    while d != 1
      invariant Bezout(b, p, c, d, x, y) && c < TWO_TO_THE_63
      invariant Gcd(c, d) == Gcd(p, b)
      invariant d == 0 ==> c >= 2
      invariant p >= 2 ==> c >= 2
      decreases d
    {
      if d == 0 {
        return None;
      }
      EuclidStep(b, p, c, d, x, y);
      var q := c / d;
      var e := Wrap(c - Wrap(d * q));
      var w := Wrap(x - Wrap(y * q));
      c, d, x, y := d, e, y, w;
    }
    GcdOne(c);
    InverseFound(b, p, c, x, y);
    if y < 0 {
      y := Wrap(y + p);
    }
    return Some(y);
  }

  lemma InverseFound(b: int, p: nat, c: int, x: int, y: int)
    requires Bezout(b, p, c, 1, x, y) && (p >= 2 ==> c >= 2) && p < TWO_TO_THE_63
    ensures var r := if y < 0 then Wrap(y + p) else y;
            Congruent(b * r, 1, p) && (p >= 2 ==> 0 < r < p)
  {
    InverseBound(b, p, c, x, y);
    if y < 0 {
      WrapFits(y + p);
      InverseShift(b, p, y);
    }
  }

  lemma InverseShift(b: int, p: nat, y: int)
    requires Congruent(b * y, 1, p)
    ensures Congruent(b * (y + p), 1, p)
  {
    DividesSum(p, b * y - 1, p, b) by {
      TimesDivides(p, 1);
      assert p * 1 == p;
    }
    assert b * (y + p) - 1 == b * y - 1 + p * b;
  }

  lemma InverseBound(b: int, p: nat, c: int, x: int, y: int)
    requires Bezout(b, p, c, 1, x, y) && (p >= 2 ==> c >= 2)
    ensures Abs(y) <= p
    ensures p >= 2 ==> 0 < Abs(y) < p
  {
    Factor(Abs(y), c);
    if p >= 2 {
      if y == 0 {
        assert b * y == 0;
        DivisorBound(p, 1) by {
          DividesSum(p, 0, 0 - 1, -1) by {
            TimesDivides(p, 0);
            assert p * 0 == 0;
          }
        }
      }
      Factor(Abs(y), c - 1);
      assert Abs(y) * c == Abs(y) * (c - 1) + Abs(y);
    }
  }
}
