/**
 * How Date.new (rb_date_new) turns (y, m, d, sg) into a day number, or refuses
 * it with ArgumentError.  A date is accepted when jd_to_civil gives back what
 * civil_to_jd was given; a negative day counts back from the end of the month.
 */
module DateNew {
  import opened CInt
  import opened Calendar
  import opened CalendarFacts
  import opened Outcomes

  /** What Date.new settles on before it builds the object: the day number and the
      civil triple it stores as the new date's cache. */
  datatype Resolved = Resolved(jd: int, civil: CivilDate)

  /** The first of the month after (y, m) as rb_date_new computes it, with C's
      truncating division: ((y*12+m)/12, (y*12+m)%12 + 1, 1). */
  function FirstOfFollowingMonth(y: int, m: int): (r: CivilDate)
    ensures (y >= 0 && 1 <= m <= 12) || m == 12 ==> r == FirstOfNextMonth(y, m)
    ensures y < 0 && 1 <= m <= 11 ==> r.m <= 0
  {
    FollowingMonthOfCalendarMonth(y, m);
    CivilDate(Quot(y * 12 + m, 12), Rem(y * 12 + m, 12) + 1, 1)
  }

  /** For a calendar month of a year from 0 on, and for any December, the C
      arithmetic names the month after; for January to November of a year before
      0 the remainder is negative and the month it names is 0 or less. */
  lemma FollowingMonthOfCalendarMonth(y: int, m: int)
    ensures (y >= 0 && 1 <= m <= 12) || m == 12 ==>
      Quot(y * 12 + m, 12) == FirstOfNextMonth(y, m).y && Rem(y * 12 + m, 12) + 1 == FirstOfNextMonth(y, m).m
    ensures y < 0 && 1 <= m <= 11 ==> Rem(y * 12 + m, 12) + 1 <= 0
  {
    if (y >= 0 && 1 <= m <= 12) || m == 12 {
      var q := if m == 12 then y + 1 else y;
      var r := if m == 12 then 0 else m;
      assert y * 12 + m == 12 * q + r;
    }
  }

  /** The check of the negative-day branch reads the first of the following month
      with JULIAN before day 2299161 and GREGORIAN from it on, whatever `sg` is. */
  function NegativeDayCheckRule(jd: int): Sg
  {
    if jd < 2299161 then Julian else Gregorian
  }

  /** The check of the negative-day branch: counted forward again by -d days and
      read with the hard-coded rule, the day number jd must name `next`. */
  predicate MonthCheck(jd: int, d: int, next: CivilDate)
  {
    JdToCivil(jd - d, NegativeDayCheckRule(jd)) == next
  }

  /** rb_date_new: the date is refused unless the conversions agree. */
  function Resolve(y: int, m: int, d: int, sg: Sg): (r: Result<Resolved>)
    ensures r.Err? ==> r.error == ArgumentError
  {
    if d < 0 then
      var next := FirstOfFollowingMonth(y, m);
      var jd := CivilToJd(next.y, next.m, d + 1, sg);
      if !MonthCheck(jd, d, next) then
        Err(ArgumentError)
      else
        var t := JdToCivil(jd, sg);
        if t.y != y || t.m != m then Err(ArgumentError) else Ok(Resolved(jd, t))
    else
      var jd := CivilToJd(y, m, d, sg);
      var t := JdToCivil(jd, sg);
      if t != CivilDate(y, m, d) then Err(ArgumentError) else Ok(Resolved(jd, t))
  }

  /** Whatever Date.new accepts is a date of the requested month whose cached
      civil triple is what jd_to_civil gives for its day number. */
  lemma ResolveConsistent(y: int, m: int, d: int, sg: Sg)
    ensures var r := Resolve(y, m, d, sg);
      r.Ok? ==> r.value.civil == JdToCivil(r.value.jd, sg) && r.value.civil.y == y && r.value.civil.m == m
  {
  }

  /** For a non-negative day, Date.new accepts exactly the triples that survive the
      round trip civil_to_jd, jd_to_civil, and keeps the triple it was given. */
  lemma ResolveNonNegative(y: int, m: int, d: int, sg: Sg)
    requires d >= 0
    ensures Resolve(y, m, d, sg).Ok? <==> JdToCivil(CivilToJd(y, m, d, sg), sg) == CivilDate(y, m, d)
    ensures Resolve(y, m, d, sg).Ok? ==> Resolve(y, m, d, sg).value == Resolved(CivilToJd(y, m, d, sg), CivilDate(y, m, d))
  {
  }

  // ---------------------------------------------------------------------------
  // Non-negative days

  /** Under JULIAN, Date.new accepts exactly the valid Julian dates. */
  lemma {:induction false} NewUnderJulian(y: int, m: int, d: int)
    requires d >= 0
    ensures Resolve(y, m, d, Julian).Ok? <==> ValidJulian(CivilDate(y, m, d))
  {
    ResolveNonNegative(y, m, d, Julian);
    JulianRoundTrip(CivilDate(y, m, d));
  }

  /** Under GREGORIAN, Date.new accepts exactly the valid proleptic Gregorian
      dates outside a TruncationYear. */
  lemma {:induction false} NewUnderGregorian(y: int, m: int, d: int)
    requires d >= 0
    ensures Resolve(y, m, d, Gregorian).Ok?
      <==> ValidGregorian(CivilDate(y, m, d)) && !TruncationYear(MarchYear(y, m))
  {
    ResolveNonNegative(y, m, d, Gregorian);
    GregorianRoundTrip(CivilDate(y, m, d));
  }

  /** Under a cutover (ITALY among them), Date.new accepts exactly the valid Julian
      dates before the cutover day and the valid Gregorian dates from it on; the
      days skipped by the reform are refused. */
  lemma {:induction false} NewUnderCutover(y: int, m: int, d: int, start: int)
    requires d >= 0 && start >= 1794169
    ensures var t := CivilDate(y, m, d);
      (Resolve(y, m, d, Cutover(start)).Ok? <==>
         (ValidJulian(t) && JulianJd(t) < start) || (ValidGregorian(t) && GregorianJd(t) >= start))
  {
    var t := CivilDate(y, m, d);
    ResolveNonNegative(y, m, d, Cutover(start));
    if ValidJulian(t) && JulianJd(t) < start {
      CutoverKeepsJulian(t, start);
    }
    if ValidGregorian(t) && GregorianJd(t) >= start {
      CutoverKeepsGregorian(t, start);
    }
    if Resolve(y, m, d, Cutover(start)).Ok? {
      CutoverRoundTripValid(t, start);
    }
  }

  // ---------------------------------------------------------------------------
  // Negative days

  /** The day number the negative-day branch computes for a calendar month (y, m):
      day d + 1 of the month after it. */
  function BackwardJd(y: int, m: int, d: int, sg: Sg): int
  {
    var next := FirstOfNextMonth(y, m);
    CivilToJd(next.y, next.m, d + 1, sg)
  }

  /** The check of the negative-day branch for a calendar month (y, m). */
  predicate CheckPasses(y: int, m: int, d: int, sg: Sg)
  {
    MonthCheck(BackwardJd(y, m, d, sg), d, FirstOfNextMonth(y, m))
  }

  /** Where the negative-day branch lands: the civil date of its day number. */
  function Landing(y: int, m: int, d: int, sg: Sg): CivilDate
  {
    JdToCivil(BackwardJd(y, m, d, sg), sg)
  }

  /** The negative-day branch of Resolve for a calendar month of a year from 0 on,
      and for any December: the check must pass and the day must land in (y, m). */
  lemma NegativeBranch(y: int, m: int, d: int, sg: Sg)
    requires (y >= 0 && 1 <= m <= 12) || m == 12
    requires d < 0
    ensures Resolve(y, m, d, sg).Ok?
        <==> CheckPasses(y, m, d, sg) && Landing(y, m, d, sg).y == y && Landing(y, m, d, sg).m == m
    ensures Resolve(y, m, d, sg).Ok? ==>
        Resolve(y, m, d, sg).value == Resolved(BackwardJd(y, m, d, sg), Landing(y, m, d, sg))
  {
    var next := FirstOfFollowingMonth(y, m);
    assert next == FirstOfNextMonth(y, m);
    var jd := CivilToJd(next.y, next.m, d + 1, sg);
    assert jd == BackwardJd(y, m, d, sg);
    BackwardBranch(y, m, d, sg, next, jd);
  }

  /** The same, for the month and day number rb_date_new computes. */
  lemma BackwardBranch(y: int, m: int, d: int, sg: Sg, next: CivilDate, jd: int)
    requires d < 0 && next == FirstOfFollowingMonth(y, m)
    requires jd == CivilToJd(next.y, next.m, d + 1, sg)
    ensures Resolve(y, m, d, sg).Ok?
        <==> MonthCheck(jd, d, next) && JdToCivil(jd, sg).y == y && JdToCivil(jd, sg).m == m
    ensures Resolve(y, m, d, sg).Ok? ==> Resolve(y, m, d, sg).value == Resolved(jd, JdToCivil(jd, sg))
  {
  }

  /** Before the year 0, a negative day of January to November is always
      refused: C's remainder makes the following month 0 or less, and no civil
      date has such a month, so the check fails. */
  lemma {:induction false} NegativeYearNegativeDay(y: int, m: int, d: int, sg: Sg)
    requires y < 0 && 1 <= m <= 11 && d < 0
    ensures Resolve(y, m, d, sg).Err?
  {
    var next := FirstOfFollowingMonth(y, m);
    var jd := CivilToJd(next.y, next.m, d + 1, sg);
    CivilInRange(jd - d, NegativeDayCheckRule(jd));
    assert !MonthCheck(jd, d, next);
  }

  /** From 1583 on, day d + 1 of the following month is counted in the Gregorian
      calendar under GREGORIAN, and under ITALY when it falls after the reform. */
  lemma {:induction false} GregorianDayBefore(y: int, m: int, d: int, sg: Sg)
    requires y >= 1583 && 1 <= m <= 12 && d < 0
    requires sg == Gregorian || (sg == Italy && GregorianJd(FirstOfNextMonth(y, m)) + d >= ItalyJd)
    ensures BackwardJd(y, m, d, sg) == GregorianJd(FirstOfNextMonth(y, m)) + d
  {
    var next := FirstOfNextMonth(y, m);
    CenturyShiftTruncation(MarchYear(next.y, next.m));
  }

  /** The same day under ITALY, when its Gregorian number falls before the reform:
      then it is counted in the Julian calendar, more than 31 days back. */
  lemma {:induction false} ItalyDayBefore(y: int, m: int, d: int)
    requires y >= 1583 && 1 <= m <= 12 && d < 0
    requires GregorianJd(FirstOfNextMonth(y, m)) + d < ItalyJd
    ensures BackwardJd(y, m, d, Italy) == JulianJd(FirstOfNextMonth(y, m)) + d
    ensures d < -31
  {
    var next := FirstOfNextMonth(y, m);
    CenturyShiftTruncation(MarchYear(next.y, next.m));
    GregorianFrom1583(next);
  }

  /** A Gregorian day number jd from the reform on, counted back from the first of
      the next month: it lies in (y, m) exactly when it is at most the month's
      length back, and then it is day len + 1 + d. */
  lemma {:induction false} GregorianCountBack(y: int, m: int, d: int, jd: int)
    requires y >= 1583 && 1 <= m <= 12 && d < 0
    requires jd == GregorianJd(FirstOfNextMonth(y, m)) + d
    ensures var t := Decompose(GregorianAsJulian(jd)); var len := MonthLength(m, GregorianLeap(y));
      (t.y == y && t.m == m <==> -d <= len) && (-d <= len ==> t == CivilDate(y, m, len + 1 + d))
  {
    var len := MonthLength(m, GregorianLeap(y));
    GregorianMonthContinuity(y, m);
    var t := Decompose(GregorianAsJulian(jd));
    GregorianDecomposition(jd);
    if -d <= len {
      var u := CivilDate(y, m, len + 1 + d);
      assert GregorianJd(u) == jd;
      GregorianJdDecomposes(u);
    } else {
      assert t.y == y && t.m == m ==> GregorianJd(t) >= GregorianJd(CivilDate(y, m, 1));
    }
  }

  /** The same for a Julian day number. */
  lemma {:induction false} JulianCountBack(y: int, m: int, d: int, jd: int)
    requires 1 <= m <= 12 && d < 0
    requires jd == JulianJd(FirstOfNextMonth(y, m)) + d
    ensures var t := Decompose(jd); var len := MonthLength(m, JulianLeap(y));
      (t.y == y && t.m == m <==> -d <= len) && (-d <= len ==> t == CivilDate(y, m, len + 1 + d))
  {
    var len := MonthLength(m, JulianLeap(y));
    JulianMonthContinuity(y, m);
    var t := Decompose(jd);
    DecomposeIsJulianDate(jd);
    if -d <= len {
      var u := CivilDate(y, m, len + 1 + d);
      assert JulianJd(u) == jd;
      JulianJdDecomposes(u);
    } else {
      assert t.y == y && t.m == m ==> JulianJd(t) >= JulianJd(CivilDate(y, m, 1));
    }
  }

  /** The check passes on the Gregorian first of a month reached from a day
      number from the reform on. */
  lemma {:induction false} CheckAtGregorianFirst(jd: int, d: int, next: CivilDate)
    requires ValidGregorian(next) && jd - d == GregorianJd(next) && jd >= ItalyJd
    ensures MonthCheck(jd, d, next)
  {
    assert NegativeDayCheckRule(jd) == Gregorian;
    GregorianJdDecomposes(next);
  }

  /** The check passes on the Julian first of a month reached from a day number
      before the reform. */
  lemma {:induction false} CheckAtJulianFirst(jd: int, d: int, next: CivilDate)
    requires ValidJulian(next) && jd - d == JulianJd(next) && jd < ItalyJd
    ensures MonthCheck(jd, d, next)
  {
    assert NegativeDayCheckRule(jd) == Julian;
    JulianJdDecomposes(next);
  }

  /** From the reform on, the check passes. */
  lemma {:induction false} GregorianCheckAfterReform(y: int, m: int, d: int, sg: Sg)
    requires sg == Gregorian || sg == Italy
    requires y >= 1583 && 1 <= m <= 12 && d < 0
    requires GregorianJd(FirstOfNextMonth(y, m)) + d >= ItalyJd
    ensures CheckPasses(y, m, d, sg)
  {
    GregorianDayBefore(y, m, d, sg);
    CheckAtGregorianFirst(BackwardJd(y, m, d, sg), d, FirstOfNextMonth(y, m));
  }

  /** From the reform on, the day lands in (y, m) exactly when -d is at most the
      month's length ... */
  lemma {:induction false} GregorianLandingMonth(y: int, m: int, d: int, sg: Sg)
    requires sg == Gregorian || sg == Italy
    requires y >= 1583 && 1 <= m <= 12 && d < 0
    requires GregorianJd(FirstOfNextMonth(y, m)) + d >= ItalyJd
    ensures Landing(y, m, d, sg).y == y && Landing(y, m, d, sg).m == m <==> -d <= MonthLength(m, GregorianLeap(y))
  {
    GregorianDayBefore(y, m, d, sg);
    var jd := GregorianJd(FirstOfNextMonth(y, m)) + d;
    assert Landing(y, m, d, sg) == Decompose(GregorianAsJulian(jd));
    GregorianCountBack(y, m, d, jd);
  }

  /** ... and then it is day len + 1 + d of the month. */
  lemma {:induction false} GregorianLandingDay(y: int, m: int, d: int, sg: Sg)
    requires sg == Gregorian || sg == Italy
    requires y >= 1583 && 1 <= m <= 12 && d < 0
    requires GregorianJd(FirstOfNextMonth(y, m)) + d >= ItalyJd
    requires -d <= MonthLength(m, GregorianLeap(y))
    ensures var t := CivilDate(y, m, MonthLength(m, GregorianLeap(y)) + 1 + d);
      Landing(y, m, d, sg) == t && BackwardJd(y, m, d, sg) == GregorianJd(t)
  {
    GregorianDayBefore(y, m, d, sg);
    var jd := GregorianJd(FirstOfNextMonth(y, m)) + d;
    assert Landing(y, m, d, sg) == Decompose(GregorianAsJulian(jd));
    GregorianCountBack(y, m, d, jd);
    GregorianMonthContinuity(y, m);
  }

  /** Before the reform under GREGORIAN: the check reads a Gregorian first of the
      month with the Julian rule, and fails. */
  lemma {:induction false} GregorianCheckBeforeReform(y: int, m: int, d: int)
    requires y >= 1583 && 1 <= m <= 12 && d < 0
    requires GregorianJd(FirstOfNextMonth(y, m)) + d < ItalyJd
    ensures !CheckPasses(y, m, d, Gregorian)
  {
    var next := FirstOfNextMonth(y, m);
    GregorianDayBefore(y, m, d, Gregorian);
    var jd := BackwardJd(y, m, d, Gregorian);
    assert jd - d == GregorianJd(next);
    assert NegativeDayCheckRule(jd) == Julian;
    NegativeDayCheckFails(next);
  }

  /** Read with the Julian rule, the day number of a Gregorian first of a month
      from 1583 on names some other date. */
  lemma {:induction false} NegativeDayCheckFails(next: CivilDate)
    requires ValidGregorian(next) && next.y >= 1583
    ensures Decompose(GregorianJd(next)) != next
  {
    GregorianFrom1583(next);
    CalendarsDisagree(GregorianJd(next));
    GregorianJdDecomposes(next);
  }

  /** Before the reform under ITALY: the day is counted back in the Julian calendar
      and lands outside (y, m), or the check fails. */
  lemma {:induction false} ItalyBeforeReform(y: int, m: int, d: int)
    requires y >= 1583 && 1 <= m <= 12 && d < 0
    requires GregorianJd(FirstOfNextMonth(y, m)) + d < ItalyJd
    ensures !CheckPasses(y, m, d, Italy) || Landing(y, m, d, Italy).y != y || Landing(y, m, d, Italy).m != m
  {
    var next := FirstOfNextMonth(y, m);
    ItalyDayBefore(y, m, d);
    var jd := JulianJd(next) + d;
    if jd < ItalyJd {
      assert Landing(y, m, d, Italy) == Decompose(jd);
      JulianCountBack(y, m, d, jd);
      assert MonthLength(m, JulianLeap(y)) <= 31;
    } else {
      assert NegativeDayCheckRule(jd) == Gregorian;
      JulianFrom1583(next);
      CalendarsDisagree(JulianJd(next));
      JulianJdDecomposes(next);
    }
  }

  /** Before the reform the day is more than a month back. */
  lemma {:induction false} FarBeforeMonth(y: int, m: int, d: int)
    requires y >= 1583 && 1 <= m <= 12 && d < 0
    requires GregorianJd(FirstOfNextMonth(y, m)) + d < ItalyJd
    ensures -d > MonthLength(m, GregorianLeap(y))
  {
    GregorianMonthContinuity(y, m);
    GregorianFrom1583(CivilDate(y, m, 1));
  }

  /** A negative day reaching back before the reform is refused. */
  lemma {:induction false} NegativeDayBeforeReform(y: int, m: int, d: int, sg: Sg)
    requires sg == Gregorian || sg == Italy
    requires y >= 1583 && 1 <= m <= 12 && d < 0
    requires GregorianJd(FirstOfNextMonth(y, m)) + d < ItalyJd
    ensures Resolve(y, m, d, sg).Err?
  {
    NegativeBranch(y, m, d, sg);
    if sg == Italy {
      ItalyBeforeReform(y, m, d);
    } else {
      GregorianCheckBeforeReform(y, m, d);
    }
  }

  /** A negative day from the reform on is accepted exactly when it is within the
      month, and names the day that far from its end. */
  lemma {:induction false} NegativeDayAfterReform(y: int, m: int, d: int, sg: Sg)
    requires sg == Gregorian || sg == Italy
    requires y >= 1583 && 1 <= m <= 12 && d < 0
    requires GregorianJd(FirstOfNextMonth(y, m)) + d >= ItalyJd
    ensures var len := MonthLength(m, GregorianLeap(y));
      Resolve(y, m, d, sg).Ok? <==> -d <= len
    ensures var t := CivilDate(y, m, MonthLength(m, GregorianLeap(y)) + 1 + d);
      Resolve(y, m, d, sg).Ok? ==> Resolve(y, m, d, sg).value == Resolved(GregorianJd(t), t)
  {
    NegativeBranch(y, m, d, sg);
    GregorianCheckAfterReform(y, m, d, sg);
    GregorianLandingMonth(y, m, d, sg);
    if -d <= MonthLength(m, GregorianLeap(y)) {
      GregorianLandingDay(y, m, d, sg);
    }
  }

  /** Under GREGORIAN, or under ITALY, a negative day -k of a month from 1583 on
      is accepted exactly when k is at most the month's length, and names the
      k-th day from the end. */
  lemma {:induction false} NegativeDayGregorian(y: int, m: int, d: int, sg: Sg)
    requires sg == Gregorian || sg == Italy
    requires y >= 1583 && 1 <= m <= 12 && d < 0
    ensures var len := MonthLength(m, GregorianLeap(y));
      Resolve(y, m, d, sg).Ok? <==> -d <= len
    ensures var t := CivilDate(y, m, MonthLength(m, GregorianLeap(y)) + 1 + d);
      Resolve(y, m, d, sg).Ok? ==> Resolve(y, m, d, sg).value == Resolved(GregorianJd(t), t)
  {
    if GregorianJd(FirstOfNextMonth(y, m)) + d < ItalyJd {
      FarBeforeMonth(y, m, d);
      NegativeDayBeforeReform(y, m, d, sg);
    } else {
      NegativeDayAfterReform(y, m, d, sg);
    }
  }

  /** Day d + 1 (d < 0) of the month after (y, m), for the years 0 to 1581, under
      JULIAN or ITALY: the Julian count, before the reform. */
  lemma {:induction false} JulianDayBefore(y: int, m: int, d: int, sg: Sg)
    requires sg == Julian || sg == Italy
    requires 0 <= y <= 1581 && 1 <= m <= 12 && d < 0
    ensures BackwardJd(y, m, d, sg) == JulianJd(FirstOfNextMonth(y, m)) + d < 2298884
  {
    var next := FirstOfNextMonth(y, m);
    JulianMonthContinuity(y, m);
    JulianBefore1582(CivilDate(y, m, 1));
    if sg == Italy {
      var nyy := MarchYear(next.y, next.m);
      assert CenturyShift(nyy) <= 2;
    }
  }

  /** For the years 0 to 1581 the check passes. */
  lemma {:induction false} JulianCheckBeforeReform(y: int, m: int, d: int, sg: Sg)
    requires sg == Julian || sg == Italy
    requires 0 <= y <= 1581 && 1 <= m <= 12 && d < 0
    ensures CheckPasses(y, m, d, sg)
  {
    JulianDayBefore(y, m, d, sg);
    CheckAtJulianFirst(BackwardJd(y, m, d, sg), d, FirstOfNextMonth(y, m));
  }

  /** For the years 0 to 1581 the day lands in (y, m) exactly when -d is at most
      the Julian month's length ... */
  lemma {:induction false} JulianLandingMonth(y: int, m: int, d: int, sg: Sg)
    requires sg == Julian || sg == Italy
    requires 0 <= y <= 1581 && 1 <= m <= 12 && d < 0
    ensures Landing(y, m, d, sg).y == y && Landing(y, m, d, sg).m == m <==> -d <= MonthLength(m, JulianLeap(y))
  {
    JulianDayBefore(y, m, d, sg);
    var jd := JulianJd(FirstOfNextMonth(y, m)) + d;
    assert Landing(y, m, d, sg) == Decompose(jd);
    JulianCountBack(y, m, d, jd);
  }

  /** ... and then it is day len + 1 + d of the month. */
  lemma {:induction false} JulianLandingDay(y: int, m: int, d: int, sg: Sg)
    requires sg == Julian || sg == Italy
    requires 0 <= y <= 1581 && 1 <= m <= 12 && d < 0
    requires -d <= MonthLength(m, JulianLeap(y))
    ensures var t := CivilDate(y, m, MonthLength(m, JulianLeap(y)) + 1 + d);
      Landing(y, m, d, sg) == t && BackwardJd(y, m, d, sg) == JulianJd(t)
  {
    JulianDayBefore(y, m, d, sg);
    var jd := JulianJd(FirstOfNextMonth(y, m)) + d;
    assert Landing(y, m, d, sg) == Decompose(jd);
    JulianCountBack(y, m, d, jd);
    JulianMonthContinuity(y, m);
  }

  /** Under JULIAN, or under ITALY, a negative day -k of a month of the years 0 to
      1581 is accepted exactly when k is at most the Julian month's length, and
      names the k-th day from the end. */
  lemma {:induction false} NegativeDayJulian(y: int, m: int, d: int, sg: Sg)
    requires sg == Julian || sg == Italy
    requires 0 <= y <= 1581 && 1 <= m <= 12 && d < 0
    ensures var len := MonthLength(m, JulianLeap(y));
      Resolve(y, m, d, sg).Ok? <==> -d <= len
    ensures var t := CivilDate(y, m, MonthLength(m, JulianLeap(y)) + 1 + d);
      Resolve(y, m, d, sg).Ok? ==> Resolve(y, m, d, sg).value == Resolved(JulianJd(t), t)
  {
    NegativeBranch(y, m, d, sg);
    JulianCheckBeforeReform(y, m, d, sg);
    JulianLandingMonth(y, m, d, sg);
    if -d <= MonthLength(m, JulianLeap(y)) {
      JulianLandingDay(y, m, d, sg);
    }
  }

  /** The negative-day check ignores `sg`: under JULIAN, a negative day of a month
      from 1583 on is always refused, although the same day counted forward is
      accepted. */
  lemma {:induction false} NegativeDayJulianQuirk(y: int, m: int, d: int)
    requires y >= 1583 && 1 <= m <= 12 && -MonthLength(m, JulianLeap(y)) <= d < 0
    ensures Resolve(y, m, d, Julian).Err?
    ensures Resolve(y, m, MonthLength(m, JulianLeap(y)) + 1 + d, Julian).Ok?
  {
    NegativeBranch(y, m, d, Julian);
    JulianQuirkFacts(y, m, d);
    NewUnderJulian(y, m, MonthLength(m, JulianLeap(y)) + 1 + d);
  }

  /** The arithmetic behind NegativeDayJulianQuirk: the day number is past 2299161,
      so the check reads the Julian first of the next month with the Gregorian rule. */
  lemma {:induction false} JulianQuirkFacts(y: int, m: int, d: int)
    requires y >= 1583 && 1 <= m <= 12 && -MonthLength(m, JulianLeap(y)) <= d < 0
    ensures !CheckPasses(y, m, d, Julian)
  {
    var next := FirstOfNextMonth(y, m);
    JulianMonthContinuity(y, m);
    JulianFrom1583(CivilDate(y, m, 1));
    assert BackwardJd(y, m, d, Julian) == JulianJd(next) + d;
    CheckFailsAtJulianFirst(BackwardJd(y, m, d, Julian), d, next);
  }

  /** From the reform on, the check reads the Julian first of a month from 1583
      on with the Gregorian rule, and fails. */
  lemma {:induction false} CheckFailsAtJulianFirst(jd: int, d: int, next: CivilDate)
    requires ValidJulian(next) && next.y >= 1583 && jd - d == JulianJd(next) && jd >= ItalyJd
    ensures !MonthCheck(jd, d, next)
  {
    assert NegativeDayCheckRule(jd) == Gregorian;
    JulianFrom1583(next);
    CalendarsDisagree(JulianJd(next));
    JulianJdDecomposes(next);
  }

  // ---------------------------------------------------------------------------
  // Examples.  Each conversion of a concrete date is stated in its own lemma:
  // the solver evaluates one conversion of literals quickly, several at once slowly.

  /** Date.civil_to_jd(1912, 6, 23) is 2419577 under ITALY and under GREGORIAN. */
  lemma DayNumber1912()
    ensures CivilToJd(1912, 6, 23, Italy) == 2419577
    ensures CivilToJd(1912, 6, 23, Gregorian) == 2419577
  {
  }

  lemma Shift1912()
    ensures GregorianAsJulian(2419577) == 2419590
  {
  }

  lemma Decompose1912()
    ensures Decompose(2419590) == CivilDate(1912, 6, 23)
  {
  }

  /** Date.jd_to_civil(2419577) is [1912, 6, 23]. */
  lemma Civil1912()
    ensures JdToCivil(2419577, Gregorian) == CivilDate(1912, 6, 23)
    ensures JdToCivil(2419577, Italy) == CivilDate(1912, 6, 23)
  {
    Shift1912();
    Decompose1912();
  }

  /** Date.new(1912, 6, 23) is day 2419577. */
  lemma Example1912()
    ensures Resolve(1912, 6, 23, Italy) == Ok(Resolved(2419577, CivilDate(1912, 6, 23)))
  {
    DayNumber1912();
    Civil1912();
  }

  /** Under ITALY, 1582-10-04 and 1582-10-15 are consecutive days. */
  lemma ItalyReform()
    ensures Resolve(1582, 10, 4, Italy) == Ok(Resolved(2299160, CivilDate(1582, 10, 4)))
    ensures Resolve(1582, 10, 15, Italy) == Ok(Resolved(2299161, CivilDate(1582, 10, 15)))
  {
    LastJulianDay();
    FirstGregorianDay();
  }

  lemma LastJulianDayNumber()
    ensures CivilToJd(1582, 10, 4, Italy) == 2299160
  {
  }

  lemma LastJulianDayCivil()
    ensures Decompose(2299160) == CivilDate(1582, 10, 4)
  {
  }

  lemma LastJulianDay()
    ensures Resolve(1582, 10, 4, Italy) == Ok(Resolved(2299160, CivilDate(1582, 10, 4)))
  {
    LastJulianDayNumber();
    LastJulianDayCivil();
  }

  lemma FirstGregorianDayNumber()
    ensures CivilToJd(1582, 10, 15, Italy) == 2299161
  {
  }

  lemma FirstGregorianDayShift()
    ensures GregorianAsJulian(2299161) == 2299171
  {
  }

  lemma FirstGregorianDayCivil()
    ensures Decompose(2299171) == CivilDate(1582, 10, 15)
  {
  }

  lemma FirstGregorianDay()
    ensures Resolve(1582, 10, 15, Italy) == Ok(Resolved(2299161, CivilDate(1582, 10, 15)))
  {
    FirstGregorianDayNumber();
    FirstGregorianDayShift();
    FirstGregorianDayCivil();
  }

  /** The ten days 1582-10-05 to 1582-10-14 are refused under ITALY. */
  lemma {:induction false} ItalyGap(d: int)
    requires 5 <= d <= 14
    ensures Resolve(1582, 10, d, Italy).Err?
  {
    NewUnderCutover(1582, 10, d, ItalyJd);
    GapDayNumbers(d);
  }

  lemma GapDayNumbers(d: int)
    requires 5 <= d <= 14
    ensures JulianJd(CivilDate(1582, 10, d)) >= ItalyJd
    ensures GregorianJd(CivilDate(1582, 10, d)) < ItalyJd
  {
    assert JulianJd(CivilDate(1582, 10, d)) == 2299156 + d;
    assert GregorianJd(CivilDate(1582, 10, d)) == 2299146 + d;
  }

  /** Date.new(1912, 25, 55) raises ArgumentError: the arithmetic carries the
      month and day over to 1914-02-26, which is not what was asked for. */
  lemma MonthOutOfRange()
    ensures Resolve(1912, 25, 55, Italy).Err?
  {
    CarriedOverNumber();
    CarriedOverShift();
    CarriedOverCivil();
  }

  lemma CarriedOverNumber()
    ensures CivilToJd(1912, 25, 55, Italy) == 2420190
  {
  }

  lemma CarriedOverShift()
    ensures GregorianAsJulian(2420190) == 2420203
  {
  }

  lemma CarriedOverCivil()
    ensures Decompose(2420203) == CivilDate(1914, 2, 26)
  {
  }

  /** A day of -1 names the last day of the month: February 2008 has 29 days. */
  lemma LeapFebruary()
    ensures Resolve(2008, 2, -1, Italy) == Ok(Resolved(2454526, CivilDate(2008, 2, 29)))
  {
    LeapFebruaryNumber();
    LeapMarchFirst();
    LeapFebruaryLast();
    assert NegativeDayCheckRule(2454526) == Gregorian;
  }

  lemma LeapFebruaryNumber()
    ensures FirstOfFollowingMonth(2008, 2) == CivilDate(2008, 3, 1)
    ensures CivilToJd(2008, 3, 0, Italy) == 2454526
  {
  }

  lemma LeapShift()
    ensures GregorianAsJulian(2454527) == 2454540 && GregorianAsJulian(2454526) == 2454539
  {
  }

  lemma LeapMarchFirstDecomposed()
    ensures Decompose(2454540) == CivilDate(2008, 3, 1)
  {
  }

  lemma LeapMarchFirst()
    ensures JdToCivil(2454527, Gregorian) == CivilDate(2008, 3, 1)
  {
    LeapShift();
    LeapMarchFirstDecomposed();
  }

  lemma LeapFebruaryLastDecomposed()
    ensures Decompose(2454539) == CivilDate(2008, 2, 29)
  {
  }

  lemma LeapFebruaryLast()
    ensures JdToCivil(2454526, Italy) == CivilDate(2008, 2, 29)
  {
    LeapShift();
    LeapFebruaryLastDecomposed();
  }

  /** February 2009 has 28 days. */
  lemma PlainFebruary()
    ensures Resolve(2009, 2, -1, Italy) == Ok(Resolved(2454891, CivilDate(2009, 2, 28)))
  {
    PlainFebruaryNumber();
    PlainMarchFirst();
    PlainFebruaryLast();
    assert NegativeDayCheckRule(2454891) == Gregorian;
  }

  lemma PlainFebruaryNumber()
    ensures FirstOfFollowingMonth(2009, 2) == CivilDate(2009, 3, 1)
    ensures CivilToJd(2009, 3, 0, Italy) == 2454891
  {
  }

  lemma PlainShift()
    ensures GregorianAsJulian(2454892) == 2454905 && GregorianAsJulian(2454891) == 2454904
  {
  }

  lemma PlainMarchFirstDecomposed()
    ensures Decompose(2454905) == CivilDate(2009, 3, 1)
  {
  }

  lemma PlainMarchFirst()
    ensures JdToCivil(2454892, Gregorian) == CivilDate(2009, 3, 1)
  {
    PlainShift();
    PlainMarchFirstDecomposed();
  }

  lemma PlainFebruaryLastDecomposed()
    ensures Decompose(2454904) == CivilDate(2009, 2, 28)
  {
  }

  lemma PlainFebruaryLast()
    ensures JdToCivil(2454891, Italy) == CivilDate(2009, 2, 28)
  {
    PlainShift();
    PlainFebruaryLastDecomposed();
  }
}
