/**
 * The Date object as the extension handles it: the astronomical Julian day and
 * the calendar-reform value every Date carries, the `@__civil__` cache that
 * Date#civil fills once, Date.new / Date.civil, Date#<=>, and the two text
 * methods with their `%F` fast paths.
 *
 * What the extension hands to code outside it (strftime(3), strptime(3) and
 * Ruby's own Date#strftime and Date.strptime) comes in as function parameters.
 */
module Dates {
  import opened Rationals
  import opened Calendar
  import opened CalendarFacts
  import opened DayNumbers
  import opened DateNew
  import opened DateText
  import opened Outcomes

  /** A Date.  `ajd` and `sg` are fixed by Date.new!; `civilCache` is the
      `@__civil__` instance variable, absent until Date.new or Date#civil sets it. */
  class Date {
    const ajd: Rational
    const sg: Sg
    var civilCache: Option<CivilDate>

    /** Date.new!(ajd, 0, sg): a Date with no civil cache yet. */
    constructor (ajd: Rational, sg: Sg)
      ensures this.ajd == ajd && this.sg == sg && civilCache == None
    {
      this.ajd := ajd;
      this.sg := sg;
      civilCache := None;
    }

    /** Date#jd: the day number of `ajd` at offset 0. */
    function Jd(): int
    {
      AjdToJd(ajd, Fix(0)).jd
    }

    /** The civil date of this day under this date's reform rule. */
    function CivilOfJd(): CivilDate
    {
      JdToCivil(Jd(), sg)
    }

    /** A cache, once present, holds the civil date of the day. */
    predicate Valid()
      reads this
    {
      civilCache.Some? ==> civilCache.value == CivilOfJd()
    }

    /** Date#civil: the cached triple when there is one, otherwise
        jd_to_civil(jd, sg), stored for the next call. */
    method Civil() returns (c: CivilDate)
      requires Valid()
      modifies this
      ensures c == CivilOfJd() && civilCache == Some(c) && Valid()
      ensures old(civilCache).Some? ==> civilCache == old(civilCache)
    {
      if civilCache.None? {
        civilCache := Some(JdToCivil(Jd(), sg));
      }
      c := civilCache.value;
    }

    /** Date#<=>: nil for nil and for anything that is neither a Fixnum nor a
        Date; otherwise the sign of the difference of the two astronomical Julian
        days, a Fixnum being read as an astronomical Julian day itself. */
    function Compare(other: Operand): (r: Option<int>)
      ensures r.None? <==> other.NilArg? || other.OtherArg?
      ensures other.FixnumArg? ==> r == Some(Sign(Value(ajd) - other.n as real))
      ensures other.DateArg? ==> r == Some(Sign(Value(ajd) - Value(other.date.ajd)))
    {
      match other
      case NilArg => None
      case OtherArg => None
      case FixnumArg(n) =>
        CrossSign(ajd, Frac(n, 1));
        Some(CrossCompare(ajd, n, 1))
      case DateArg(date) =>
        CrossSign(ajd, date.ajd);
        Some(CrossCompare(ajd, date.ajd.num, date.ajd.den))
    }

    /** Date#strftime(fmt = "%F"): the fast formats print the civil triple with
        sprintf("%04d-%02d-%02d"); any other format goes to strftime(3) when the
        receiver's class is Date itself and that prints something, and otherwise
        to Ruby's Date#strftime. */
    method Strftime(format: Option<string>, plainDate: bool, libc: (string, CivilDate) -> string,
                    ruby: string -> string)
      returns (s: string)
      requires Valid()
      modifies this
      ensures civilCache == Some(CivilOfJd()) && Valid()
      ensures s == StrftimeText(OrElse(format, DefaultFormat), CivilOfJd(), plainDate, libc, ruby)
      ensures format.None? ==> s == FormatCivil(CivilOfJd())
    {
      var fmt := OrElse(format, DefaultFormat);
      var c := Civil();
      if StrftimeFastFormat(fmt) {
        s := FormatCivil(c);
        return;
      }
      if plainDate {
        s := libc(fmt, c);
        if |s| > 0 {
          return;
        }
      }
      s := ruby(fmt);
    }
  }

  /** The argument of Date#<=>. */
  datatype Operand = NilArg | FixnumArg(n: int) | DateArg(date: Date) | OtherArg

  function Sign(x: real): int
  {
    if x > 0.0 then 1 else if x < 0.0 then -1 else 0
  }

  /** The sign of num * otherDen - otherNum * den. */
  function CrossCompare(p: Frac, otherNum: int, otherDen: int): int
  {
    var v := p.num * otherDen - otherNum * p.den;
    if v > 0 then 1 else if v < 0 then -1 else 0
  }

  /** The text Date#strftime gives for a civil date. */
  function StrftimeText(fmt: string, c: CivilDate, plainDate: bool, libc: (string, CivilDate) -> string,
                        ruby: string -> string): string
  {
    if StrftimeFastFormat(fmt) then FormatCivil(c)
    else if plainDate && |libc(fmt, c)| > 0 then libc(fmt, c)
    else ruby(fmt)
  }

  /** DEFAULT_FORMAT */
  const DefaultFormat: string := "%F"

  // ---------------------------------------------------------------------------
  // Date.new

  /** The astronomical Julian day of the Date that Date.new(y, m, d, sg) makes, or
      the error it raises. */
  function NewAjd(y: int, m: int, d: int, sg: Sg): (r: Result<Rational>)
    ensures r.Ok? <==> Resolve(y, m, d, sg).Ok?
    ensures r.Err? ==> r.error == ArgumentError
  {
    match Resolve(y, m, d, sg)
    case Ok(v) => Ok(JdToAjd(v.jd, Fix(0), Fix(0)))
    case Err(e) => Err(e)
  }

  /** The Date that Date.new makes begins half a day before noon of its day
      number: its astronomical Julian day is jd - 1/2. */
  lemma NewAjdValue(y: int, m: int, d: int, sg: Sg)
    requires Resolve(y, m, d, sg).Ok?
    ensures NewAjd(y, m, d, sg).Ok? && Value(NewAjd(y, m, d, sg).value) == Resolve(y, m, d, sg).value.jd as real - 0.5
  {
  }

  /** Date.new(y, m, d, sg) / Date.civil: the day number is resolved, the Date is
      made from its astronomical Julian day, and the civil triple is stored in
      its cache at once. */
  method New(y: int, m: int, d: int, sg: Sg) returns (r: Result<Date>)
    ensures r.Ok? <==> Resolve(y, m, d, sg).Ok?
    ensures r.Ok? <==> NewAjd(y, m, d, sg).Ok?
    ensures r.Err? ==> r.error == ArgumentError
    ensures r.Ok? ==>
      fresh(r.value) && Ok(r.value.ajd) == NewAjd(y, m, d, sg) && r.value.sg == sg
      && r.value.civilCache == Some(Resolve(y, m, d, sg).value.civil)
      && r.value.Jd() == Resolve(y, m, d, sg).value.jd && r.value.Valid()
  {
    var resolved := Resolve(y, m, d, sg);
    if resolved.Err? {
      return Err(resolved.error);
    }
    var date := new Date(JdToAjd(resolved.value.jd, Fix(0), Fix(0)), sg);
    date.civilCache := Some(resolved.value.civil);
    DayNumberRoundTrip(resolved.value.jd);
    ResolveConsistent(y, m, d, sg);
    r := Ok(date);
  }

  /** Date.new and Date.civil take their arguments positionally, each one
      optional after those before it. */
  datatype CivilArgs = CivilArgs(y: Option<int>, m: Option<int>, d: Option<int>, sg: Option<Sg>)

  /** The arguments once the defaults are filled in. */
  datatype CivilKey = CivilKey(y: int, m: int, d: int, sg: Sg)

  function OrElse<T>(o: Option<T>, default: T): T
  {
    if o.Some? then o.value else default
  }

  /** The defaults y = -4712, m = 1, d = 1, sg = ITALY. */
  function FillCivil(a: CivilArgs): (k: CivilKey)
    ensures a.y.Some? ==> k.y == a.y.value
    ensures a.m.Some? ==> k.m == a.m.value
    ensures a.d.Some? ==> k.d == a.d.value
    ensures a.sg.Some? ==> k.sg == a.sg.value
    ensures a == CivilArgs(None, None, None, None) ==> k == CivilKey(-4712, 1, 1, Italy)
  {
    CivilKey(OrElse(a.y, -4712), OrElse(a.m, 1), OrElse(a.d, 1), OrElse(a.sg, Italy))
  }

  // ---------------------------------------------------------------------------
  // Date.strptime

  /** Date.strptime takes (str = "-4712-01-01", fmt = "%F", sg = ITALY). */
  datatype StrptimeArgs = StrptimeArgs(str: Option<string>, fmt: Option<string>, sg: Option<Sg>)

  datatype StrptimeKey = StrptimeKey(str: string, fmt: string, sg: Sg)

  function FillStrptime(a: StrptimeArgs): (k: StrptimeKey)
    ensures a.str.Some? ==> k.str == a.str.value
    ensures a.fmt.Some? ==> k.fmt == a.fmt.value
    ensures a.sg.Some? ==> k.sg == a.sg.value
    ensures a == StrptimeArgs(None, None, None) ==> k == StrptimeKey("-4712-01-01", DefaultFormat, Italy)
  {
    StrptimeKey(OrElse(a.str, "-4712-01-01"), OrElse(a.fmt, DefaultFormat), OrElse(a.sg, Italy))
  }

  /** strptime(3): the broken-down time it fills in, as (tm_year + 1900,
      tm_mon + 1, tm_mday), or None when it fails. */
  type LibcStrptime = (string, string) -> Option<CivilDate>

  /** Ruby's Date.strptime: the astronomical Julian day of the Date it makes, or
      the error it raises. */
  type RubyStrptime = (string, string, Sg) -> Result<Rational>

  /** Where Date.strptime takes its date from: the fast path when the format
      passes the test and all three fields end where they must, then strptime(3),
      then Ruby's implementation. */
  function StrptimeAjd(str: string, fmt: string, sg: Sg, libc: LibcStrptime, ruby: RubyStrptime): Result<Rational>
  {
    var fast := if StrptimeFastFormat(fmt) then FastFields(str) else None;
    if fast.Some? then NewAjd(fast.value.y, fast.value.m, fast.value.d, sg)
    else if libc(str, fmt).Some? then NewAjd(libc(str, fmt).value.y, libc(str, fmt).value.m, libc(str, fmt).value.d, sg)
    else ruby(str, fmt, sg)
  }

  /** Date.strptime(str, fmt, sg).  The fast path calls strtol at offsets 0, 5
      and 8 and checks each endptr before reading on; an invalid date found
      there raises instead of falling back. */
  method Strptime(str: string, fmt: string, sg: Sg, libc: LibcStrptime, ruby: RubyStrptime)
    returns (r: Result<Date>)
    ensures r.Ok? <==> StrptimeAjd(str, fmt, sg, libc, ruby).Ok?
    ensures r.Err? ==> r.error == StrptimeAjd(str, fmt, sg, libc, ruby).error
    ensures r.Ok? ==>
      fresh(r.value) && Ok(r.value.ajd) == StrptimeAjd(str, fmt, sg, libc, ruby)
      && r.value.sg == sg && r.value.Valid()
  {
    if StrptimeFastFormat(fmt) {
      var year, pe := ParseLong(str, 0);
      if pe == 4 {
        var month;
        month, pe := ParseLong(str, 5);
        if pe == 7 {
          var day;
          day, pe := ParseLong(str, 8);
          if pe == 10 {
            r := New(year, month, day, sg);
            return;
          }
        }
      }
    }
    var tm := libc(str, fmt);
    if tm.Some? {
      r := New(tm.value.y, tm.value.m, tm.value.d, sg);
      return;
    }
    var ajd := ruby(str, fmt, sg);
    if ajd.Err? {
      return Err(ajd.error);
    }
    var date := new Date(ajd.value, sg);
    r := Ok(date);
  }

  // ---------------------------------------------------------------------------
  // Properties

  /** Date#<=> answers 0 exactly for the same astronomical Julian day, which, in
      lowest terms, is the same numerator and denominator. */
  lemma CompareZeroIffSameDay(a: Date, b: Date)
    ensures a.Compare(DateArg(b)) == Some(0) <==> a.ajd == b.ajd
  {
    if a.Compare(DateArg(b)) == Some(0) {
      ReducedUnique(a.ajd, b.ajd);
    }
  }

  /** The sign Date#<=> gives is reversed when the operands are swapped. */
  lemma CompareAntisymmetric(a: Date, b: Date)
    ensures a.Compare(DateArg(b)).value == -b.Compare(DateArg(a)).value
  {
  }

  /** A Fixnum operand is taken as an astronomical Julian day, not as a day
      number: a Date made by Date.new lies half a day before its own day number
      and half a day after the previous one. */
  lemma CompareWithDayNumber(y: int, m: int, d: int, sg: Sg)
    requires Resolve(y, m, d, sg).Ok?
    ensures forall date: Date :: Ok(date.ajd) == NewAjd(y, m, d, sg) ==>
      date.Compare(FixnumArg(Resolve(y, m, d, sg).value.jd)) == Some(-1)
      && date.Compare(FixnumArg(Resolve(y, m, d, sg).value.jd - 1)) == Some(1)
  {
    NewAjdValue(y, m, d, sg);
  }

  /** Date.new accepts the civil date of any day and resolves it to that day:
      under JULIAN, under a reform from day 1794169 (200-03-02) on (ITALY among them), and under
      GREGORIAN except in a TruncationYear. */
  lemma NewOfCivil(jd: int, sg: Sg)
    requires sg.Cutover? ==> sg.start >= 1794169
    requires var c := JdToCivil(jd, sg); !(sg == Gregorian && TruncationYear(MarchYear(c.y, c.m)))
    ensures var c := JdToCivil(jd, sg); NewAjd(c.y, c.m, c.d, sg) == Ok(JdToAjd(jd, Fix(0), Fix(0)))
  {
    var c := JdToCivil(jd, sg);
    CivilInRange(jd, sg);
    JdRoundTrip(jd, sg);
    ResolveNonNegative(c.y, c.m, c.d, sg);
  }

  /** What the strftime fast path prints, the strptime fast path reads back as
      the same day, for the years -999 to 9999 under the rules NewOfCivil names. */
  lemma TextRoundTrip(jd: int, sg: Sg, libc: LibcStrptime, ruby: RubyStrptime)
    requires sg.Cutover? ==> sg.start >= 1794169
    requires var c := JdToCivil(jd, sg);
      -999 <= c.y <= 9999 && !(sg == Gregorian && TruncationYear(MarchYear(c.y, c.m)))
    ensures StrptimeAjd(FormatCivil(JdToCivil(jd, sg)), DefaultFormat, sg, libc, ruby)
      == Ok(JdToAjd(jd, Fix(0), Fix(0)))
  {
    var c := JdToCivil(jd, sg);
    CivilInRange(jd, sg);
    FormatRoundTrip(c);
    PrintedTakesFastPath(c, sg, libc, ruby);
    NewOfCivil(jd, sg);
  }

  /** A string whose fast-path fields are read back under "%F" is Date.new of
      those fields. */
  lemma PrintedTakesFastPath(c: CivilDate, sg: Sg, libc: LibcStrptime, ruby: RubyStrptime)
    requires FastFields(FormatCivil(c)) == Some(c)
    ensures StrptimeAjd(FormatCivil(c), DefaultFormat, sg, libc, ruby) == NewAjd(c.y, c.m, c.d, sg)
  {
    assert StrptimeFastFormat(DefaultFormat);
  }

  /** Called without arguments, Date.strptime never takes the fast path: its
      default string "-4712-01-01" has a five-character year, so the answer is
      whatever strptime(3), or else Ruby, makes of it. */
  lemma DefaultStrptimeIsSlow(libc: LibcStrptime, ruby: RubyStrptime)
    ensures var k := FillStrptime(StrptimeArgs(None, None, None));
      StrptimeAjd(k.str, k.fmt, k.sg, libc, ruby)
        == if libc(k.str, k.fmt).Some?
           then NewAjd(libc(k.str, k.fmt).value.y, libc(k.str, k.fmt).value.m, libc(k.str, k.fmt).value.d, Italy)
           else ruby(k.str, k.fmt, Italy)
  {
    DefaultStringIsSlow();
  }
}
