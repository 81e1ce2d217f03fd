/**
 * Julian Day Numbers and astronomical Julian days (jd_to_ajd and ajd_to_jd).
 * An astronomical Julian day counts from noon, so the day number jd begins at
 * ajd = jd - 1/2.
 */
module DayNumbers {
  import opened CInt
  import opened Rationals

  /** A Ruby number passed as a fraction of a day or as an offset: a Fixnum or a
      Rational.  The C code tests the representation, not only the value. */
  datatype Num = Fix(n: int) | Ratio(r: Rational)

  function NumValue(x: Num): real
  {
    match x
    case Fix(n) => n as real
    case Ratio(r) => Value(r)
  }

  function AsRational(x: Num): (r: Rational)
    ensures Value(r) == NumValue(x)
  {
    match x
    case Fix(n) => FromInt(n)
    case Ratio(q) => q
  }

  /** A fraction over 2 is in lowest terms exactly when its numerator is odd. */
  lemma GcdWithTwo(a: nat)
    ensures Gcd(a, 2) == if a % 2 == 0 then 2 else 1
  {
    assert Gcd(a, 2) == Gcd(2, a % 2);
    if a % 2 == 0 {
      assert Gcd(2, 0) == 2;
    } else {
      assert Gcd(2, 1) == Gcd(1, 0) == 1;
    }
  }

  lemma OddOverTwo(k: int)
    ensures Reduced(Frac(2 * k + 1, 2))
  {
    GcdWithTwo(Abs(2 * k + 1));
  }

  /** jd_to_ajd(jd, fr, of) = jd + fr - of - 1/2.  With Fixnum fraction and offset
      the fraction over 2 is built directly; otherwise Rational arithmetic is used,
      skipping the subtraction when the offset is the Fixnum 0. */
  function JdToAjd(jd: int, fr: Num, of: Num): (r: Rational)
    ensures Value(r) == jd as real + NumValue(fr) - NumValue(of) - 0.5
  {
    if fr.Fix? && of.Fix? then
      var k := jd + fr.n - of.n - 1;
      OddOverTwo(k);
      Frac(k * 2 + 1, 2)
    else
      var sum := Add(FromInt(jd), AsRational(fr));
      var shifted := if of != Fix(0) then Sub(sum, AsRational(of)) else sum;
      Sub(shifted, OneHalf)
  }

  /** The pair ajd_to_jd returns: a day number and a fraction of a day. */
  datatype DayAndFraction = DayAndFraction(jd: int, fraction: Rational)

  /** The exact day value ajd + of + 1/2, whose floor is the day number. */
  function CivilDay(ajd: Rational, of: Num): real
  {
    Value(ajd) + NumValue(of) + 0.5
  }

  /** The fast path of ajd_to_jd: a denominator of 2 and the Fixnum offset 0. */
  predicate AjdFastPath(ajd: Rational, of: Num)
  {
    ajd.den == 2 && of == Fix(0)
  }

  /** ajd_to_jd(ajd, of): the day number is floor(ajd + of + 1/2) on both paths.
      The general path returns (ajd + of + 1/2).divmod(1), whose fraction is what
      remains above that floor; the fast path returns the constant 1/2, half a day
      more than that remainder (which is 0 there). */
  function AjdToJd(ajd: Rational, of: Num): (r: DayAndFraction)
    ensures r.jd == CivilDay(ajd, of).Floor
    ensures !AjdFastPath(ajd, of) ==> Value(r.fraction) == CivilDay(ajd, of) - r.jd as real
    ensures AjdFastPath(ajd, of) ==> Value(r.fraction) == CivilDay(ajd, of) - r.jd as real + 0.5
  {
    if AjdFastPath(ajd, of) then
      FastPathIsWhole(ajd);
      DayAndFraction(Quot(ajd.num + 1, 2), OneHalf)
    else
      var s := Add(Add(ajd, AsRational(of)), OneHalf);
      var q := s.num / s.den;
      FloorOf(s);
      DayAndFraction(q, Sub(s, FromInt(q)))
  }

  /** With denominator 2 the numerator is odd, so ajd + 1/2 is the whole number
      that C's truncating (num + 1) / 2 computes. */
  lemma FastPathIsWhole(ajd: Rational)
    requires ajd.den == 2
    ensures Quot(ajd.num + 1, 2) as real == Value(ajd) + 0.5
    ensures (Value(ajd) + 0.5).Floor == Quot(ajd.num + 1, 2)
  {
    GcdWithTwo(Abs(ajd.num));
    var h := (ajd.num + 1) / 2;
    assert ajd.num + 1 == 2 * h;
    assert Quot(ajd.num + 1, 2) == h;
    assert Value(ajd) == (2 * h - 1) as real / 2.0;
  }

  // ---------------------------------------------------------------------------
  // Properties

  /** Fixnum and Rational arguments of equal value give the identical Rational:
      the fast path of jd_to_ajd agrees with the general one. */
  lemma JdToAjdPathsAgree(jd: int, fr: int, of: int)
    ensures JdToAjd(jd, Fix(fr), Fix(of)) == JdToAjd(jd, Ratio(FromInt(fr)), Ratio(FromInt(of)))
  {
    ReducedUnique(JdToAjd(jd, Fix(fr), Fix(of)), JdToAjd(jd, Ratio(FromInt(fr)), Ratio(FromInt(of))));
  }

  /** ajd_to_jd undoes jd_to_ajd: with Fixnum zero fraction and offset the day
      number comes back, and the fraction reported is 1/2. */
  lemma {:induction false} DayNumberRoundTrip(jd: int)
    ensures AjdToJd(JdToAjd(jd, Fix(0), Fix(0)), Fix(0)) == DayAndFraction(jd, OneHalf)
  {
    var ajd := JdToAjd(jd, Fix(0), Fix(0));
    assert ajd.den == 2;
    assert Quot(ajd.num + 1, 2) == jd;
  }

  /** The fast path's fraction differs from the one Ruby's divmod gives for the
      same value: passing the offset as the Rational 0 instead of the Fixnum 0
      yields the same day number with fraction 0 instead of 1/2. */
  lemma FastPathFraction(ajd: Rational)
    requires ajd.den == 2
    ensures AjdToJd(ajd, Fix(0)).jd == AjdToJd(ajd, Ratio(FromInt(0))).jd
    ensures AjdToJd(ajd, Fix(0)).fraction == OneHalf
    ensures AjdToJd(ajd, Ratio(FromInt(0))).fraction == FromInt(0)
  {
    FastPathIsWhole(ajd);
    var r := AjdToJd(ajd, Ratio(FromInt(0)));
    assert Value(r.fraction) == 0.0;
    ReducedUnique(r.fraction, FromInt(0));
  }

  /** Date.jd_to_ajd(2419577) is Rational(4839153, 2) and Date.ajd_to_jd of it is
      [2419577, Rational(1, 2)]. */
  lemma AjdExample()
    ensures JdToAjd(2419577, Fix(0), Fix(0)) == Frac(4839153, 2)
    ensures AjdToJd(Frac(4839153, 2), Fix(0)) == DayAndFraction(2419577, OneHalf)
  {
  }
}
