/**
 * The civil date <-> Julian Day Number arithmetic of the extension
 * (civil_to_jd and jd_to_civil), after Fliegel and Van Flandern / Meeus.
 *
 * The extension evaluates each FLOOR(...) as floorf of the value rounded to
 * single precision.  Here each one is the exact integer floor of the real
 * expression it approximates:
 *   FLOOR(365.25 * c)                    = 1461 * c / 4
 *   FLOOR(30.6001 * e)                   = 153 * e / 5
 *   FLOOR((jd - 1867216.25) / 36524.25)  = (4 * jd - 7468865) / 146097
 *   FLOOR((b - 122.1) / 365.25)          = (20 * b - 2442) / 7305
 *   FLOOR((b - d) / 30.6001)             = (5 * (b - d) - 1) / 153
 *   FLOOR(x / 4.0)                       = x / 4
 * (Dafny's `/` on int with a positive divisor is the floor.)  The two C
 * divisions `y / 100` and `a / 4` truncate toward zero and are written with Quot.
 *
 * The exact floors are the extension's results only while single precision
 * keeps the fractions that matter.  jd_to_civil agrees from day -2993430 to day
 * 2992162 under the Gregorian rule (-2993529 to 2992186 under the Julian rule);
 * at day 2992163, Gregorian 3480-02-29, the float formula gives 3480-02-31.
 * civil_to_jd agrees for the dates from -16200-03-01 to 6771-02-28; from
 * 6771-03-01 on the float formula counts one day more.  FLOOR(30.6001 * e) is
 * also one below 153 * e / 5 when e is a negative multiple of 5, which only a
 * month argument of -18, -23, ... gives civil_to_jd; Date.new refuses such
 * months either way.  Outside those ranges every statement here describes the
 * exact formulas, not the float code.
 */
module Calendar {
  import opened CInt

  /** The calendar-reform value `sg`: Date::JULIAN, Date::GREGORIAN, or the first
      Julian Day Number governed by the Gregorian rule. */
  datatype Sg = Julian | Gregorian | Cutover(start: int)

  /** Date::ITALY, 1582-10-15 (Gregorian). */
  const ItalyJd: int := 2299161
  const Italy: Sg := Cutover(ItalyJd)

  /** The `struct mini_tm` (and the [y, m, d] arrays built from it). */
  datatype CivilDate = CivilDate(y: int, m: int, d: int)

  /** The test both conversions make: `sg == JULIAN || (sg != GREGORIAN && jd < sg)`. */
  predicate UsesJulian(sg: Sg, jd: int)
  {
    match sg
    case Julian => true
    case Gregorian => false
    case Cutover(start) => jd < start
  }

  /** The algorithm counts years from March: January and February are months 13
      and 14 of the previous year. */
  function MarchYear(y: int, m: int): int { if m <= 2 then y - 1 else y }
  function MarchMonth(m: int): int { if m <= 2 then m + 12 else m }

  /** FLOOR(365.25 * c) */
  function YearStart(c: int): int { 1461 * c / 4 }

  /** FLOOR(30.6001 * e) */
  function MonthStart(e: int): int { 153 * e / 5 }

  /** The `b` of civil_to_jd: the Gregorian correction of a March-based year,
      computed with C's truncating division. */
  function CenturyShift(yy: int): int
  {
    var a := Quot(yy, 100);
    2 - a + Quot(a, 4)
  }

  /** The Julian-rule day number of a March-based date. */
  function JulianCount(yy: int, mm: int, d: int): int
  {
    YearStart(yy + 4716) + MonthStart(mm + 1) + d - 1524
  }

  /** civil_to_jd: the Gregorian day number is computed first; if the rule says
      Julian for that candidate, the correction `b` is taken back out. */
  function CivilToJd(y: int, m: int, d: int, sg: Sg): int
  {
    var yy := MarchYear(y, m);
    var b := CenturyShift(yy);
    var jd := JulianCount(yy, MarchMonth(m), d) + b;
    if UsesJulian(sg, jd) then jd - b else jd
  }

  /** The `x` of jd_to_civil: whole Gregorian centuries since 400-03-01. */
  function Centuries(jd: int): int { (4 * jd - 7468865) / 146097 }

  /** The `a` of jd_to_civil in the Gregorian branch: the Julian-rule day number
      that carries the same civil date as `jd` does under the Gregorian rule. */
  function GregorianAsJulian(jd: int): int
  {
    var x := Centuries(jd);
    jd + 1 + x - x / 4
  }

  /** The `c` of jd_to_civil (b = a + 1524). */
  function CycleOf(b: int): int { (20 * b - 2442) / 7305 }

  /** The `e` of jd_to_civil, from the day offset b - d within the March-based year. */
  function MonthIndex(off: int): int { (5 * off - 1) / 153 }

  /** The common tail of jd_to_civil: the Julian-rule civil date of day number `a`. */
  function Decompose(a: int): CivilDate
  {
    var b := a + 1524;
    var c := CycleOf(b);
    var d := YearStart(c);
    var e := MonthIndex(b - d);
    var day := b - d - MonthStart(e);
    if e <= 13 then CivilDate(c - 4716, e - 1, day) else CivilDate(c - 4715, e - 13, day)
  }

  /** jd_to_civil: the out-parameter `struct mini_tm` is the returned triple. */
  function JdToCivil(jd: int, sg: Sg): CivilDate
  {
    Decompose(if UsesJulian(sg, jd) then jd else GregorianAsJulian(jd))
  }

  // ---------------------------------------------------------------------------
  // The calendars the arithmetic implements (reference definitions).

  predicate JulianLeap(y: int) { y % 4 == 0 }

  predicate GregorianLeap(y: int) { y % 4 == 0 && (y % 100 != 0 || y % 400 == 0) }

  function MonthLength(m: int, leap: bool): int
    requires 1 <= m <= 12
  {
    if m == 2 then (if leap then 29 else 28)
    else if m == 4 || m == 6 || m == 9 || m == 11 then 30
    else 31
  }

  predicate ValidJulian(c: CivilDate)
  {
    1 <= c.m <= 12 && 1 <= c.d <= MonthLength(c.m, JulianLeap(c.y))
  }

  predicate ValidGregorian(c: CivilDate)
  {
    1 <= c.m <= 12 && 1 <= c.d <= MonthLength(c.m, GregorianLeap(c.y))
  }

  /** The Gregorian correction computed with floor division, as the proleptic
      Gregorian calendar needs it. */
  function FloorCenturyShift(yy: int): int
  {
    var a := yy / 100;
    2 - a + a / 4
  }

  /** The March-based years for which CenturyShift's truncating division
      differs from the floor: negative multiples of 100 that 400 does not divide. */
  predicate TruncationYear(yy: int)
  {
    yy < 0 && yy % 100 == 0 && yy % 400 != 0
  }

  /** The Gregorian day number of a civil date in the proleptic calendar. */
  function GregorianJd(c: CivilDate): int
  {
    var yy := MarchYear(c.y, c.m);
    JulianCount(yy, MarchMonth(c.m), c.d) + FloorCenturyShift(yy)
  }

  /** The Julian day number of a civil date. */
  function JulianJd(c: CivilDate): int
  {
    JulianCount(MarchYear(c.y, c.m), MarchMonth(c.m), c.d)
  }

  /** The first day of the month after (y, m). */
  function FirstOfNextMonth(y: int, m: int): CivilDate
  {
    if m == 12 then CivilDate(y + 1, 1, 1) else CivilDate(y, m + 1, 1)
  }
}
