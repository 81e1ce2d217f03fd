/**
 * What the arithmetic of module Calendar computes: the Julian-rule decomposition
 * is a bijection between day numbers and valid Julian dates, and the Gregorian
 * branch a bijection onto valid proleptic Gregorian dates.
 */
module CalendarFacts {
  import opened CInt
  import opened Calendar

  lemma YearStartSplit(c: int)
    ensures YearStart(c) == 365 * c + c / 4
  {
  }

  /** The 30.6-day pattern reproduces the month lengths from March to January. */
  lemma MonthTable(e: int)
    requires 4 <= e <= 14
    ensures MonthStart(e + 1) - MonthStart(e) == MonthLength(if e <= 13 then e - 1 else e - 13, false)
  {
    if e == 4 {} else if e == 5 {} else if e == 6 {} else if e == 7 {} else if e == 8 {}
    else if e == 9 {} else if e == 10 {} else if e == 11 {} else if e == 12 {} else if e == 13 {}
    else {}
  }

  /** Decompose yields a valid Julian date whose Julian day number is the input. */
  lemma {:induction false} DecomposeIsJulianDate(a: int)
    ensures ValidJulian(Decompose(a))
    ensures JulianJd(Decompose(a)) == a
    ensures MarchYear(Decompose(a).y, Decompose(a).m) == CycleOf(a + 1524) - 4716
  {
    var b := a + 1524;
    var c := CycleOf(b);
    var d := YearStart(c);
    YearStartSplit(c);
    var off := b - d;
    assert 123 <= off <= 488;
    assert off == 488 ==> c % 4 == 3;
    var e := MonthIndex(off);
    assert 4 <= e <= 15;
    var day := off - MonthStart(e);
    assert 153 * e <= 5 * off - 1 < 153 * (e + 1);
    assert 1 <= day;
    if e <= 14 {
      MonthTable(e);
    } else {
      assert MonthStart(15) == 459;
    }
    var r := Decompose(a);
    assert r.d == day;
    assert r.m == if e <= 13 then e - 1 else e - 13;
  }

  /** The year count of jd_to_civil finds the year c back from a day offset
      into it, the 488th day only in a year after a Julian leap day. */
  lemma CycleOfYearStart(c: int, off: int)
    requires 123 <= off <= 488 && (off == 488 ==> c % 4 == 3)
    ensures CycleOf(YearStart(c) + off) == c
  {
    var q, r := c / 4, c % 4;
    YearStartSplit(c);
    var n := 20 * (YearStart(c) + off) - 2442;
    assert n == 7305 * c + 20 * off - 2442 - 5 * r;
    assert 0 <= 20 * off - 2442 - 5 * r < 7305;
  }

  /** The month count of jd_to_civil finds month e back from a day within it. */
  lemma MonthIndexOf(e: int, day: int)
    requires 1 <= day <= MonthStart(e + 1) - MonthStart(e)
    ensures MonthIndex(MonthStart(e) + day) == e
  {
    assert 153 * e - 5 < 5 * MonthStart(e) <= 153 * e;
    assert 5 * MonthStart(e + 1) <= 153 * (e + 1);
  }

  /** A valid Julian date comes back from its Julian day number unchanged. */
  lemma {:induction false} JulianJdDecomposes(t: CivilDate)
    requires ValidJulian(t)
    ensures Decompose(JulianJd(t)) == t
  {
    var yy, mm := MarchYear(t.y, t.m), MarchMonth(t.m);
    var c0 := yy + 4716;
    var off0 := MonthStart(mm + 1) + t.d;
    OffsetBounds(t, JulianLeap(t.y));
    if off0 == 488 {
      assert c0 == t.y + 4715 && t.y % 4 == 0;
    }
    CycleOfYearStart(c0, off0);
    if mm == 14 {
      assert MonthStart(16) - MonthStart(15) == 30;
    } else {
      MonthTable(mm + 1);
    }
    MonthIndexOf(mm + 1, t.d);
    var a := JulianJd(t);
    assert a + 1524 - YearStart(c0) == off0;
    DecomposeFrom(a, c0, mm + 1);
  }

  /** Decompose, once its year and month counts are known. */
  lemma DecomposeFrom(a: int, c: int, e: int)
    requires CycleOf(a + 1524) == c && MonthIndex(a + 1524 - YearStart(c)) == e
    ensures var day := a + 1524 - YearStart(c) - MonthStart(e);
      Decompose(a) == if e <= 13 then CivilDate(c - 4716, e - 1, day) else CivilDate(c - 4715, e - 13, day)
  {
  }

  lemma DivBy4(n: int, q: int, r: int)
    requires n == 4 * q + r && 0 <= r < 4
    ensures n / 4 == q && n % 4 == r
  {
  }

  lemma DivBy100(n: int, q: int, r: int)
    requires n == 100 * q + r && 0 <= r < 100
    ensures n / 100 == q && n % 100 == r
  {
  }

  /** Truncating and flooring divisions give the same Gregorian correction
      except in a TruncationYear, where the truncating one is a day larger. */
  lemma CenturyShiftTruncation(yy: int)
    ensures CenturyShift(yy) == FloorCenturyShift(yy) + (if TruncationYear(yy) then 1 else 0)
  {
    if yy < 0 {
      if yy % 100 == 0 {
        NegativeCenturyYear(yy);
      } else {
        NegativeYearInCentury(yy);
      }
    }
  }

  /** CenturyShiftTruncation for the negative multiples of 100. */
  lemma NegativeCenturyYear(yy: int)
    requires yy < 0 && yy % 100 == 0
    ensures CenturyShift(yy) == FloorCenturyShift(yy) + (if yy % 400 != 0 then 1 else 0)
  {
    var k := (-yy) / 100;
    var k4, kr := k / 4, k % 4;
    assert yy == -100 * k && k == 4 * k4 + kr;
    assert CenturyShift(yy) == 2 + k - k4;
    DivBy100(yy, -k, 0);
    if kr == 0 {
      DivBy4(-k, -k4, 0);
      DivBy400(yy, -k4, 0);
      assert FloorCenturyShift(yy) == 2 + k - k4;
    } else {
      DivBy4(-k, -k4 - 1, 4 - kr);
      DivBy400(yy, -k4 - 1, 100 * (4 - kr));
      assert FloorCenturyShift(yy) == 2 + k - k4 - 1;
    }
  }

  /** CenturyShiftTruncation for the negative years that 100 does not divide. */
  lemma NegativeYearInCentury(yy: int)
    requires yy < 0 && yy % 100 != 0
    ensures CenturyShift(yy) == FloorCenturyShift(yy)
  {
    var k, j := (-yy) / 100, (-yy) % 100;
    var k4, kr := k / 4, k % 4;
    assert -yy == 100 * k + j && 0 < j < 100 && k == 4 * k4 + kr;
    assert CenturyShift(yy) == 2 + k - k4;
    DivBy100(yy, -k - 1, 100 - j);
    DivBy4(-k - 1, -k4 - 1, 3 - kr);
  }

  /** The day offset within the March-based year of a valid date. */
  lemma {:induction false} OffsetBounds(t: CivilDate, leap: bool)
    requires 1 <= t.m <= 12 && 1 <= t.d <= MonthLength(t.m, leap)
    ensures 123 <= MonthStart(MarchMonth(t.m) + 1) + t.d <= 488
    ensures MonthStart(MarchMonth(t.m) + 1) + t.d == 488 ==> t.m == 2 && t.d == 29 && leap
  {
    var mm := MarchMonth(t.m);
    MonthTable(mm + 1 - (if mm == 14 then 1 else 0));
    assert MonthStart(4) == 122 && MonthStart(15) == 459;
  }

  /** The bound behind CenturiesOfGregorianJd, in the digits of a March-based
      year yy = 100 * (4 * q + r) + 4 * s4 + s3 and the day offset within it. */
  lemma CenturyRemainder(r: int, s4: int, s3: int, off: int)
    requires 0 <= r < 4 && 0 <= s3 < 4 && 0 <= 4 * s4 + s3 < 100 && 123 <= off <= 488
    requires off == 488 && 4 * s4 + s3 == 99 ==> r == 3
    ensures 0 <= -r + 1460 * (4 * s4 + s3) + 4 * s4 + 4 * off - 489 < 146097
  {
  }

  /** The century count of a Gregorian date's day number is its March-based
      century minus four. */
  lemma {:induction false} CenturiesOfGregorianJd(t: CivilDate)
    requires ValidGregorian(t)
    ensures Centuries(GregorianJd(t)) == MarchYear(t.y, t.m) / 100 - 4
  {
    var yy, mm := MarchYear(t.y, t.m), MarchMonth(t.m);
    var a, s := yy / 100, yy % 100;
    var q, r := a / 4, a % 4;
    var s4, s3 := s / 4, s % 4;
    assert yy == 100 * a + s && a == 4 * q + r && s == 4 * s4 + s3;
    DivBy4(yy + 4716, 100 * q + 25 * r + s4 + 1179, s3);
    YearStartSplit(yy + 4716);
    var off := MonthStart(mm + 1) + t.d;
    OffsetBounds(t, GregorianLeap(t.y));
    if off == 488 && s == 99 {
      assert t.y == yy + 1 == 100 * (a + 1);
      DivBy100(t.y, a + 1, 0);
      assert t.y % 400 == 0;
      assert r == 3;
    }
    CenturyRemainder(r, s4, s3, off);
    var jd := GregorianJd(t);
    assert jd == 365 * (yy + 4716) + (100 * q + 25 * r + s4 + 1179) + off - 1524 + 2 - a + q;
    assert 4 * jd - 7468865 - 146097 * (a - 4) == -r + 1460 * s + 4 * s4 + 4 * off - 489;
  }

  /** A valid Gregorian date comes back from its Gregorian day number unchanged. */
  lemma {:induction false} GregorianJdDecomposes(t: CivilDate)
    requires ValidGregorian(t)
    ensures GregorianAsJulian(GregorianJd(t)) == JulianJd(t)
    ensures Decompose(GregorianAsJulian(GregorianJd(t))) == t
  {
    var yy := MarchYear(t.y, t.m);
    var a := yy / 100;
    CenturiesOfGregorianJd(t);
    DivBy4(a - 4, a / 4 - 1, a % 4);
    JulianJdDecomposes(t);
  }

  /** The Julian-rule date that the Gregorian branch of jd_to_civil decomposes
      lies in the March-based years of century x + 4, x being the century count. */
  lemma {:induction false} GregorianBranchYear(jd: int)
    ensures var t := Decompose(GregorianAsJulian(jd));
      ValidJulian(t) && JulianJd(t) == GregorianAsJulian(jd)
      && 100 * (Centuries(jd) + 4) <= MarchYear(t.y, t.m) <= 100 * (Centuries(jd) + 4) + 99
  {
    var x := Centuries(jd);
    var a := GregorianAsJulian(jd);
    assert a == jd + 1 + x - x / 4;
    DecomposeIsJulianDate(a);
    var c := CycleOf(a + 1524);
    assert 146097 * x <= 4 * jd - 7468865 < 146097 * x + 146097;
    assert 100 * x + 5116 <= c <= 100 * x + 5215;
  }

  /** A 29 February that the Gregorian branch produces falls in a Gregorian leap
      year: in the last March-based year of a century, the day lies in the next
      century count unless that century year is divisible by 400. */
  lemma {:induction false} GregorianLeapDay(jd: int)
    requires var t := Decompose(GregorianAsJulian(jd)); t.m == 2 && t.d == 29
    ensures GregorianLeap(Decompose(GregorianAsJulian(jd)).y)
  {
    var x := Centuries(jd);
    var q, r := x / 4, x % 4;
    var a := GregorianAsJulian(jd);
    assert a == jd + 1 + x - q;
    GregorianBranchYear(jd);
    var t := Decompose(a);
    var yy := MarchYear(t.y, t.m);
    assert t.y == yy + 1 && t.y % 4 == 0;
    if yy == 100 * (x + 4) + 99 {
      var cc := yy + 4716;
      DivBy4(cc, 25 * x + 1303, 3);
      YearStartSplit(cc);
      assert MonthStart(15) == 459;
      assert a == YearStart(cc) + 459 + 29 - 1524 == 36525 * x + 1903742;
      assert 4 * jd - 7468865 < 146097 * x + 146097;
      assert r == 3;
      assert t.y == 400 * (q + 2);
    } else {
      DivBy100(t.y, x + 4, yy - 100 * (x + 4) + 1);
    }
  }

  /** The Gregorian branch of jd_to_civil yields a valid Gregorian date whose
      proleptic Gregorian day number is the input. */
  lemma {:induction false} GregorianDecomposition(jd: int)
    ensures ValidGregorian(Decompose(GregorianAsJulian(jd)))
    ensures GregorianJd(Decompose(GregorianAsJulian(jd))) == jd
  {
    var x := Centuries(jd);
    var q, r := x / 4, x % 4;
    GregorianBranchYear(jd);
    var t := Decompose(GregorianAsJulian(jd));
    var yy := MarchYear(t.y, t.m);
    DivBy100(yy, x + 4, yy - 100 * (x + 4));
    DivBy4(x + 4, q + 1, r);
    assert GregorianJd(t) == JulianJd(t) + FloorCenturyShift(yy);
    if t.m == 2 && t.d == 29 {
      GregorianLeapDay(jd);
    }
  }

  // ---------------------------------------------------------------------------
  // civil_to_jd and jd_to_civil under each reform value

  /** Under JULIAN a civil date survives civil_to_jd then jd_to_civil exactly
      when it is a valid Julian date. */
  lemma {:induction false} JulianRoundTrip(t: CivilDate)
    ensures JdToCivil(CivilToJd(t.y, t.m, t.d, Julian), Julian) == t <==> ValidJulian(t)
  {
    assert CivilToJd(t.y, t.m, t.d, Julian) == JulianJd(t);
    DecomposeIsJulianDate(JulianJd(t));
    if ValidJulian(t) {
      JulianJdDecomposes(t);
    }
  }

  /** Under GREGORIAN a civil date survives the round trip exactly when it is a
      valid proleptic Gregorian date outside a TruncationYear: there the
      truncating `y / 100` puts civil_to_jd one day late, so the whole March-based
      year is refused. */
  lemma {:induction false} GregorianRoundTrip(t: CivilDate)
    ensures JdToCivil(CivilToJd(t.y, t.m, t.d, Gregorian), Gregorian) == t
        <==> ValidGregorian(t) && !TruncationYear(MarchYear(t.y, t.m))
  {
    var yy := MarchYear(t.y, t.m);
    GregorianCivilToJd(t);
    var jd := CivilToJd(t.y, t.m, t.d, Gregorian);
    var u := JdToCivil(jd, Gregorian);
    assert u == Decompose(GregorianAsJulian(jd));
    if u == t {
      GregorianDecomposition(jd);
      assert GregorianJd(t) == jd;
    }
    if ValidGregorian(t) && !TruncationYear(yy) {
      assert jd == GregorianJd(t);
      GregorianJdDecomposes(t);
    }
  }

  /** Under GREGORIAN civil_to_jd is the proleptic Gregorian day number, one day
      late in a TruncationYear. */
  lemma GregorianCivilToJd(t: CivilDate)
    ensures CivilToJd(t.y, t.m, t.d, Gregorian)
      == GregorianJd(t) + (if TruncationYear(MarchYear(t.y, t.m)) then 1 else 0)
  {
    CenturyShiftTruncation(MarchYear(t.y, t.m));
  }

  /** The Gregorian candidate that civil_to_jd computes for a valid Julian date
      of a March-based year before 200 is at most day 1794168 (200-03-01). */
  lemma {:induction false} EarlyCandidate(t: CivilDate)
    requires ValidJulian(t) && MarchYear(t.y, t.m) < 200
    ensures JulianJd(t) + CenturyShift(MarchYear(t.y, t.m)) < 1794169
  {
    var yy := MarchYear(t.y, t.m);
    OffsetBounds(t, JulianLeap(t.y));
    YearStartSplit(yy + 4716);
    var at := Quot(yy, 100);
    assert 100 * at >= yy - 99 && at <= 1;
    assert Quot(at, 4) <= 0;
  }

  /** A day number survives jd_to_civil then civil_to_jd under JULIAN, under any
      cutover from day 1794169 (200-03-02) on (ITALY among them), and under GREGORIAN except in
      a TruncationYear, where it comes back one day late. */
  lemma {:induction false} JdRoundTrip(jd: int, sg: Sg)
    requires sg.Cutover? ==> sg.start >= 1794169
    ensures var t := JdToCivil(jd, sg);
      CivilToJd(t.y, t.m, t.d, sg)
        == jd + (if sg == Gregorian && TruncationYear(MarchYear(t.y, t.m)) then 1 else 0)
  {
    if UsesJulian(sg, jd) {
      JdRoundTripJulian(jd, sg);
    } else {
      JdRoundTripGregorian(jd, sg);
    }
  }

  /** JdRoundTrip for a day the Julian rule governs. */
  lemma {:induction false} JdRoundTripJulian(jd: int, sg: Sg)
    requires sg.Cutover? ==> sg.start >= 1794169
    requires UsesJulian(sg, jd)
    ensures var t := JdToCivil(jd, sg); CivilToJd(t.y, t.m, t.d, sg) == jd
  {
    var t := JdToCivil(jd, sg);
    var yy := MarchYear(t.y, t.m);
    DecomposeIsJulianDate(jd);
    if sg.Cutover? {
      if yy < 200 {
        EarlyCandidate(t);
      } else {
        var a := Quot(yy, 100);
        assert a >= 2 && CenturyShift(yy) == 2 - a + Quot(a, 4) <= 0;
      }
    }
  }

  /** JdRoundTrip for a day the Gregorian rule governs. */
  lemma {:induction false} JdRoundTripGregorian(jd: int, sg: Sg)
    requires sg.Cutover? ==> sg.start >= 1794169
    requires !UsesJulian(sg, jd)
    ensures var t := JdToCivil(jd, sg);
      CivilToJd(t.y, t.m, t.d, sg) == jd + (if sg == Gregorian && TruncationYear(MarchYear(t.y, t.m)) then 1 else 0)
  {
    var t := JdToCivil(jd, sg);
    GregorianDecomposition(jd);
    GregorianCivilToJd(t);
    if sg.Cutover? {
      assert Centuries(jd) >= -2;
      CenturiesOfGregorianJd(t);
    }
  }


  /** Under a cutover from day 1794169 (200-03-02) on, a valid Julian date before
      it survives the round trip.  For an earlier cutover this can fail:
      EarlyCutoverCounterexample. */
  lemma {:induction false} CutoverKeepsJulian(t: CivilDate, start: int)
    requires start >= 1794169 && ValidJulian(t) && JulianJd(t) < start
    ensures JdToCivil(CivilToJd(t.y, t.m, t.d, Cutover(start)), Cutover(start)) == t
  {
    var yy := MarchYear(t.y, t.m);
    CenturyShiftTruncation(yy);
    if yy < 200 {
      EarlyCandidate(t);
    } else {
      var a := yy / 100;
      assert CenturyShift(yy) == 2 - a + a / 4 <= 0;
    }
    assert CivilToJd(t.y, t.m, t.d, Cutover(start)) == JulianJd(t);
    JulianJdDecomposes(t);
  }

  /** Under a cutover from day 1794169 on, a valid Gregorian date from it on
      survives the round trip.  Earlier cutovers, where civil_to_jd's truncating
      `y / 100` and its Julian test interact, are not covered. */
  lemma {:induction false} CutoverKeepsGregorian(t: CivilDate, start: int)
    requires start >= 1794169 && ValidGregorian(t) && GregorianJd(t) >= start
    ensures JdToCivil(CivilToJd(t.y, t.m, t.d, Cutover(start)), Cutover(start)) == t
  {
    var yy := MarchYear(t.y, t.m);
    CenturyShiftTruncation(yy);
    if yy < 0 {
      GregorianBeforeYearZero(t);
    }
    assert CivilToJd(t.y, t.m, t.d, Cutover(start)) == GregorianJd(t);
    GregorianJdDecomposes(t);
  }

  /** Under the cutover day 1794168, the valid Julian date 200-02-29 (day 1794167)
      does not survive the round trip: civil_to_jd's Gregorian candidate is
      1794168, which is not before the cutover, and reads back as 200-03-01. */
  lemma EarlyCutoverCounterexample()
    ensures var t := CivilDate(200, 2, 29);
      ValidJulian(t) && JulianJd(t) == 1794167
      && CivilToJd(t.y, t.m, t.d, Cutover(1794168)) == 1794168
      && JdToCivil(1794168, Cutover(1794168)) == CivilDate(200, 3, 1)
  {
    EarlyJulianDay();
    EarlyCandidateDay();
    EarlyShift();
    EarlyDecompose();
  }

  lemma EarlyJulianDay()
    ensures ValidJulian(CivilDate(200, 2, 29)) && JulianJd(CivilDate(200, 2, 29)) == 1794167
  {
  }

  lemma EarlyCandidateDay()
    ensures CivilToJd(200, 2, 29, Cutover(1794168)) == 1794168
  {
  }

  lemma EarlyShift()
    ensures GregorianAsJulian(1794168) == 1794168
  {
  }

  lemma EarlyDecompose()
    ensures Decompose(1794168) == CivilDate(200, 3, 1)
  {
  }

  /** Under a cutover, whatever survives the round trip is a valid date of the
      calendar in force on its day. */
  lemma {:induction false} CutoverRoundTripValid(t: CivilDate, start: int)
    requires JdToCivil(CivilToJd(t.y, t.m, t.d, Cutover(start)), Cutover(start)) == t
    ensures (ValidJulian(t) && JulianJd(t) < start) || (ValidGregorian(t) && GregorianJd(t) >= start)
  {
    var jd := CivilToJd(t.y, t.m, t.d, Cutover(start));
    if jd < start {
      DecomposeIsJulianDate(jd);
    } else {
      GregorianDecomposition(jd);
    }
  }

  // ---------------------------------------------------------------------------
  // Months follow one another

  /** The Julian day number of the first of the next month is the month's length
      after that of the first of this month. */
  lemma {:induction false} JulianMonthContinuity(y: int, m: int)
    requires 1 <= m <= 12
    ensures JulianJd(FirstOfNextMonth(y, m)) == JulianJd(CivilDate(y, m, 1)) + MonthLength(m, JulianLeap(y))
  {
    assert MonthStart(4) == 122 && MonthStart(14) == 428 && MonthStart(15) == 459;
    if m == 2 {
      YearStartSplit(y + 4716);
      YearStartSplit(y + 4715);
      DivBy4(y + 4716, (y + 4716) / 4, y % 4);
    } else if 3 <= m <= 11 {
      MonthTable(m + 1);
    }
  }

  /** FloorCenturyShift drops by one from year y - 1 to year y exactly when y is
      a century year that 400 does not divide. */
  lemma CenturyStep(y: int)
    ensures FloorCenturyShift(y) - FloorCenturyShift(y - 1)
      == if y % 100 == 0 && y % 400 != 0 then -1 else 0
  {
    if y % 100 == 0 {
      CenturyStepAtCentury(y);
    } else {
      DivBy100(y - 1, y / 100, y % 100 - 1);
    }
  }

  /** CenturyStep for the century years. */
  lemma CenturyStepAtCentury(y: int)
    requires y % 100 == 0
    ensures FloorCenturyShift(y) - FloorCenturyShift(y - 1) == if y % 400 != 0 then -1 else 0
  {
    var a := y / 100;
    var q, r := a / 4, a % 4;
    assert y == 100 * a && a == 4 * q + r;
    DivBy100(y - 1, a - 1, 99);
    if r == 0 {
      DivBy4(a - 1, q - 1, 3);
      DivBy400(y, q, 0);
    } else {
      DivBy4(a - 1, q, r - 1);
      DivBy400(y, q, 100 * r);
    }
  }

  lemma DivBy400(n: int, q: int, r: int)
    requires n == 400 * q + r && 0 <= r < 400
    ensures n % 400 == r
  {
  }

  /** The same continuity in the proleptic Gregorian calendar. */
  lemma {:induction false} GregorianMonthContinuity(y: int, m: int)
    requires 1 <= m <= 12
    ensures GregorianJd(FirstOfNextMonth(y, m)) == GregorianJd(CivilDate(y, m, 1)) + MonthLength(m, GregorianLeap(y))
  {
    JulianMonthContinuity(y, m);
    if m == 2 {
      CenturyStep(y);
      DivBy4(y, y / 4, y % 4);
      var a := y / 100;
      DivBy100(y, a, y % 100);
      if y % 100 == 0 {
        DivBy4(y, 25 * a, 0);
      }
    }
  }

  // ---------------------------------------------------------------------------
  // Where the years fall on the day-number line

  /** Gregorian dates from 1583 on have day numbers from 2299239 (1583-01-01) on. */
  lemma {:induction false} GregorianFrom1583(t: CivilDate)
    requires ValidGregorian(t) && t.y >= 1583
    ensures GregorianJd(t) >= 2299239
  {
    var yy := MarchYear(t.y, t.m);
    YearStartSplit(yy + 4716);
    OffsetBounds(t, GregorianLeap(t.y));
    if yy == 1582 {
      assert MonthStart(14) == 428 && MonthStart(15) == 459;
    } else {
      var a := yy / 100;
      assert 100 * a <= yy;
      assert FloorCenturyShift(yy) >= 2 - a + (a - 3) / 4;
    }
  }

  /** Julian dates from 1583 on have day numbers from 2299249 (1583-01-01 Julian) on. */
  lemma {:induction false} JulianFrom1583(t: CivilDate)
    requires ValidJulian(t) && t.y >= 1583
    ensures JulianJd(t) >= 2299249
  {
    var yy := MarchYear(t.y, t.m);
    YearStartSplit(yy + 4716);
    OffsetBounds(t, JulianLeap(t.y));
    if yy == 1582 {
      assert MonthStart(14) == 428 && MonthStart(15) == 459;
    }
  }

  /** Julian dates up to the end of 1581 lie before day 2298884 (1582-01-01 Julian). */
  lemma {:induction false} JulianBefore1582(t: CivilDate)
    requires ValidJulian(t) && t.y <= 1581
    ensures JulianJd(t) < 2298884
  {
    var yy := MarchYear(t.y, t.m);
    YearStartSplit(yy + 4716);
    OffsetBounds(t, JulianLeap(t.y));
  }

  /** Gregorian dates of March-based years before 0 lie before day 1721120
      (0000-03-01 Gregorian), so no TruncationYear reaches a cutover. */
  lemma {:induction false} GregorianBeforeYearZero(t: CivilDate)
    requires ValidGregorian(t) && MarchYear(t.y, t.m) < 0
    ensures GregorianJd(t) < 1721120
  {
    var yy := MarchYear(t.y, t.m);
    YearStartSplit(yy + 4716);
    OffsetBounds(t, GregorianLeap(t.y));
    var a := yy / 100;
    assert 100 * a <= yy < 100 * a + 100;
    assert FloorCenturyShift(yy) <= 2 - a + a / 4;
  }

  /** From 300-03-01 (day 1830693) on, the Julian and the Gregorian readings of a
      day number never name the same date: FloorCenturyShift is below zero there. */
  lemma {:induction false} CalendarsDisagree(jd: int)
    requires jd >= 1830693
    ensures Decompose(jd) != Decompose(GregorianAsJulian(jd))
  {
    DecomposeIsJulianDate(jd);
    GregorianDecomposition(jd);
    var t := Decompose(jd);
    JulianYearRange(t);
    var yy := MarchYear(t.y, t.m);
    var a := yy / 100;
    assert a >= 3;
    assert FloorCenturyShift(yy) == 2 - a + a / 4 < 0;
    assert GregorianJd(t) == JulianJd(t) + FloorCenturyShift(yy);
    assert GregorianJd(t) != GregorianJd(Decompose(GregorianAsJulian(jd)));
  }

  /** The March-based year of a Julian date from day 1830693 (300-03-01) on is at least 300. */
  lemma {:induction false} JulianYearRange(t: CivilDate)
    requires ValidJulian(t) && JulianJd(t) >= 1830693
    ensures MarchYear(t.y, t.m) >= 300
  {
    var yy := MarchYear(t.y, t.m);
    YearStartSplit(yy + 4716);
    OffsetBounds(t, JulianLeap(t.y));
  }

  /** Every day number's civil date lies in a month from 1 to 12 and on a day from
      1 to 31. */
  lemma CivilInRange(jd: int, sg: Sg)
    ensures var c := JdToCivil(jd, sg); 1 <= c.m <= 12 && 1 <= c.d <= 31
  {
    DecomposeIsJulianDate(if UsesJulian(sg, jd) then jd else GregorianAsJulian(jd));
  }
}
