/**
 * Exact fractions as Ruby's Rational keeps them: numerator and denominator in
 * lowest terms, denominator positive.  Astronomical Julian days are values of
 * this type.
 */
module Rationals {

  /** A numerator/denominator pair, reduced or not. */
  datatype Frac = Frac(num: int, den: int)

  function Abs(n: int): nat { if n < 0 then -n else n }

  /** Euclid's algorithm. */
  function Gcd(a: nat, b: nat): nat
    decreases b
  {
    if b == 0 then a else Gcd(b, a % b)
  }

  predicate Reduced(f: Frac)
  {
    f.den > 0 && Gcd(Abs(f.num), f.den) == 1
  }

  /** A Ruby Rational: every value the arithmetic below produces is reduced. */
  type Rational = f: Frac | Reduced(f) witness Frac(0, 1)

  /** The number a fraction denotes. */
  function Value(f: Frac): real
    requires f.den != 0
  {
    f.num as real / f.den as real
  }

  // ---------------------------------------------------------------------------
  // Divisibility facts behind Reduce

  /** A nonzero multiple of g is at least g away from zero. */
  lemma MultipleBound(g: int, t: int)
    requires g > 0
    ensures t >= 1 ==> g * t >= g
    ensures t <= -1 ==> g * t <= -g
  {
  }

  /** Exact division undoes multiplication. */
  lemma DivOfMultiple(g: int, k: int)
    requires g > 0
    ensures (g * k) / g == k && (g * k) % g == 0
  {
    var q, r := (g * k) / g, (g * k) % g;
    assert g * k == g * q + r && 0 <= r < g;
    assert g * (k - q) == r;
    MultipleBound(g, k - q);
  }

  /** Scaling both operands scales the remainder. */
  lemma ModScale(g: int, i: nat, j: nat)
    requires g > 0 && j > 0
    ensures (g * i) % (g * j) == g * (i % j)
  {
    var q, r := i / j, i % j;
    assert i == j * q + r && 0 <= r < j;
    assert g * i == (g * j) * q + g * r;
    assert 0 <= g * r < g * j;
    var q', r' := (g * i) / (g * j), (g * i) % (g * j);
    assert g * i == (g * j) * q' + r' && 0 <= r' < g * j;
    assert (g * j) * (q - q') == r' - g * r;
    MultipleBound(g * j, q - q');
  }

  /** The greatest common divisor of multiples of g is g times theirs. */
  lemma {:induction false} GcdScale(g: nat, i: nat, j: nat)
    requires g > 0
    ensures Gcd(g * i, g * j) == g * Gcd(i, j)
    decreases j
  {
    if j == 0 {
      assert g * j == 0;
    } else {
      ModScale(g, i, j);
      GcdScale(g, j, i % j);
    }
  }

  /** Gcd(a, b) divides both a and b; the cofactors are returned. */
  lemma {:induction false} GcdDivides(a: nat, b: nat) returns (i: nat, j: nat)
    requires a > 0 || b > 0
    ensures Gcd(a, b) > 0
    ensures a == Gcd(a, b) * i && b == Gcd(a, b) * j
    decreases b
  {
    if b == 0 {
      i, j := 1, 0;
    } else {
      var i', j' := GcdDivides(b, a % b);
      var g := Gcd(a, b);
      assert b == g * i' && a % b == g * j';
      i, j := i' * (a / b) + j', i';
      calc {
        a;
        b * (a / b) + a % b;
        g * i' * (a / b) + g * j';
        g * (i' * (a / b) + j');
      }
    }
  }

  // ---------------------------------------------------------------------------
  // Construction and arithmetic

  /** Rational(n, d): lowest terms, the sign carried by the numerator. */
  function Reduce(n: int, d: int): (r: Rational)
    requires d != 0
    ensures Value(r) == n as real / d as real
  {
    var nn := if d < 0 then -n else n;
    var dd := Abs(d);
    ReduceCorrect(nn, dd);
    var g := Gcd(Abs(nn), dd);
    Frac(nn / g, dd / g)
  }

  lemma ReduceCorrect(nn: int, dd: nat)
    requires dd > 0
    ensures Gcd(Abs(nn), dd) > 0
    ensures Reduced(Frac(nn / Gcd(Abs(nn), dd), dd / Gcd(Abs(nn), dd)))
    ensures (nn / Gcd(Abs(nn), dd)) as real / (dd / Gcd(Abs(nn), dd)) as real == nn as real / dd as real
  {
    var i, j := GcdDivides(Abs(nn), dd);
    var g := Gcd(Abs(nn), dd);
    var k: int := if nn < 0 then -(i as int) else i;
    assert nn == g * k;
    DivOfMultiple(g, k);
    DivOfMultiple(g, j);
    assert Abs(k) == i;
    GcdScale(g, i, j);
    assert g * Gcd(i, j) == g * 1;
    Cancel(g, k, j);
  }

  /** A common positive factor cancels from a quotient of reals. */
  lemma Cancel(g: int, k: int, j: int)
    requires g > 0 && j > 0
    ensures (g * k) as real / (g * j) as real == k as real / j as real
  {
    var gr, kr, jr := g as real, k as real, j as real;
    assert (g * k) as real == gr * kr;
    assert (g * j) as real == gr * jr;
    assert (gr * kr) / (gr * jr) == kr / jr;
  }

  function FromInt(n: int): (r: Rational)
    ensures Value(r) == n as real
  {
    assert Gcd(1, 0) == 1;
    Frac(n, 1)
  }

  function Add(p: Rational, q: Rational): (r: Rational)
    ensures Value(r) == Value(p) + Value(q)
  {
    AddValue(p, q);
    Reduce(p.num * q.den + q.num * p.den, p.den * q.den)
  }

  function Sub(p: Rational, q: Rational): (r: Rational)
    ensures Value(r) == Value(p) - Value(q)
  {
    SubValue(p, q);
    Reduce(p.num * q.den - q.num * p.den, p.den * q.den)
  }

  lemma AddValue(p: Frac, q: Frac)
    requires p.den > 0 && q.den > 0
    ensures (p.num * q.den + q.num * p.den) as real / (p.den * q.den) as real == Value(p) + Value(q)
  {
    var a, b, c, d := p.num as real, p.den as real, q.num as real, q.den as real;
    assert (p.num * q.den + q.num * p.den) as real == a * d + c * b;
    assert (p.den * q.den) as real == b * d;
    assert (a * d + c * b) / (b * d) == a / b + c / d;
  }

  lemma SubValue(p: Frac, q: Frac)
    requires p.den > 0 && q.den > 0
    ensures (p.num * q.den - q.num * p.den) as real / (p.den * q.den) as real == Value(p) - Value(q)
  {
    var a, b, c, d := p.num as real, p.den as real, q.num as real, q.den as real;
    assert (p.num * q.den - q.num * p.den) as real == a * d - c * b;
    assert (p.den * q.den) as real == b * d;
    assert (a * d - c * b) / (b * d) == a / b - c / d;
  }

  /** Rational(1, 2) */
  const OneHalf: Rational := Frac(1, 2)

  /** Integer#floor of a fraction with positive denominator: the quotient. */
  lemma FloorOf(f: Frac)
    requires f.den > 0
    ensures Value(f).Floor == f.num / f.den
  {
    var q, r := f.num / f.den, f.num % f.den;
    assert f.num == f.den * q + r && 0 <= r < f.den;
    var b := f.den as real;
    assert f.num as real == b * (q as real) + r as real;
    assert Value(f) == q as real + (r as real) / b;
    assert 0.0 <= (r as real) / b < 1.0;
  }

  /** The sign of a cross product orders two fractions by value. */
  lemma CrossSign(p: Frac, q: Frac)
    requires p.den > 0 && q.den > 0
    ensures p.num * q.den - q.num * p.den > 0 <==> Value(p) > Value(q)
    ensures p.num * q.den - q.num * p.den == 0 <==> Value(p) == Value(q)
  {
    var a, b, c, d := p.num as real, p.den as real, q.num as real, q.den as real;
    assert (p.num * q.den - q.num * p.den) as real == a * d - c * b;
    assert Value(p) - Value(q) == (a * d - c * b) / (b * d);
    assert b * d > 0.0;
  }

  // ---------------------------------------------------------------------------
  // Lowest terms are unique

  /** Bezout's identity for Euclid's algorithm. */
  lemma {:induction false} Bezout(a: nat, b: nat) returns (x: int, y: int)
    ensures a * x + b * y == Gcd(a, b)
    decreases b
  {
    if b == 0 {
      x, y := 1, 0;
    } else {
      var x', y' := Bezout(b, a % b);
      var q := a / b;
      assert a % b == a - b * q;
      x, y := y', x' - q * y';
      calc {
        a * x + b * y;
        a * y' + b * x' - b * q * y';
        b * x' + (a - b * q) * y';
        Gcd(a, b);
      }
    }
  }

  /** The rearrangement behind CoprimeDivides. */
  lemma Regroup(c: int, a: int, x: int, d: int, y: int, s: int)
    requires a * c == d * s
    ensures c * (a * x + d * y) == d * (s * x + c * y)
  {
    calc {
      c * (a * x + d * y);
      (a * c) * x + d * (c * y);
      (d * s) * x + d * (c * y);
    }
  }

  /** A positive d coprime to |n| divides c whenever n * c is a multiple of d. */
  lemma CoprimeDivides(n: int, d: int, c: int, k: int) returns (j: int)
    requires d > 0 && Gcd(Abs(n), d) == 1
    requires n * c == d * k
    ensures c == d * j
  {
    var x, y := Bezout(Abs(n), d);
    var an := Abs(n);
    var sk := if n < 0 then -k else k;
    assert an * c == d * sk by {
      if n < 0 {
        assert an * c == -(n * c);
      }
    }
    Regroup(c, an, x, d, y, sk);
    j := sk * x + c * y;
  }

  /** Two positive numbers that divide each other are equal. */
  lemma MutualDivisors(a: int, b: int, i: int, j: int)
    requires a > 0 && b > 0 && b == a * i && a == b * j
    ensures a == b
  {
    assert i > 0 by { MultipleBound(a, i); }
    assert j > 0 by { MultipleBound(b, j); }
    assert a == a * (i * j);
    assert i * j == 1 by {
      MultipleBound(a, i * j - 1);
    }
    assert i == 1 by { MultipleBound(i, j - 1); }
  }

  /** A rational number has exactly one representation in lowest terms. */
  lemma ReducedUnique(p: Rational, q: Rational)
    requires Value(p) == Value(q)
    ensures p == q
  {
    CrossSign(p, q);
    assert p.num * q.den == p.den * q.num;
    var i := CoprimeDivides(p.num, p.den, q.den, q.num);
    assert q.num * p.den == q.den * p.num;
    var j := CoprimeDivides(q.num, q.den, p.den, p.num);
    MutualDivisors(p.den, q.den, i, j);
    assert p.den * (p.num - q.num) == 0;
    MultipleBound(p.den, p.num - q.num);
  }
}
