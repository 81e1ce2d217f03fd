# date-performance in Dafny

This project models the core of the `date-performance` gem: the C extension
that replaces the hot paths of Ruby's `Date`, and `Date::Memoize`, which
memoizes date construction.

The extension (`ext/date_performance.c`) covers five things:

- It converts between civil dates `(y, m, d)` and Julian day numbers with the
  Fliegel–Van Flandern formulas (`civil_to_jd`, `jd_to_civil`), under a
  calendar-reform value `sg`. That value is `Date::JULIAN`, `Date::GREGORIAN`
  or the day number of a reform (`ITALY` = 2299161).
- It converts day numbers to and from astronomical Julian days, which are
  exact rationals (`jd_to_ajd`, `ajd_to_jd`).
- `Date.new` / `Date.civil` validate a triple, including negative days counted
  back from the end of the month. They build the Date and fill its
  `@__civil__` cache at once.
- `Date#civil` fills that cache lazily, and `Date#<=>` compares astronomical
  Julian days by cross-multiplication.
- `Date#strftime` and `Date.strptime` have a fast path for `%F` and
  `%Y-%m-%d`. It is built on `sprintf("%04d-%02d-%02d")` and three `strtol`
  calls. Other formats fall back to strftime(3)/strptime(3), then to Ruby's
  own implementation.

`Date::Memoize` (`lib/date/memoize.rb`) moves `Date.new`, `Date.civil`,
`Date.strptime` and `Date.parse` aside. It answers those calls from three
hashes keyed by the filled-in argument lists, and can be installed and
uninstalled.

Modules, in dependency order:

- `CInt`: C's truncating `/` and `%`.
- `Calendar`: the reform values and the two conversions, with exact integer
  floors. It also gives the proleptic Julian and Gregorian calendars as
  independent references.
- `CalendarFacts`: the conversions proved against those references (round
  trips in both directions, month continuity, the effect of C's truncating
  `y / 100`).
- `Rationals`: fractions in lowest terms. `Rational#+` and `Rational#-` reduce
  their results; the extension's own `Rational.new` calls are given pairs that
  are already reduced.
- `DayNumbers`: `jd_to_ajd` and `ajd_to_jd`.
- `DateNew`: the validation done by `Date.new` (`Resolve`), with its
  characterisation under each reform rule.
- `DateText`: `sprintf`/`strtol` and the fast-path format tests.
- `Dates`: `class Date` (cache, `civil`, `<=>`, `strftime`), `Date.new`,
  `Date.strptime`.
- `DateMemoize`: `class Memoize`, the memoization state of the `Date`
  singleton.

The code departs in places from the Ruby formulas quoted in its own comments
("Ruby Implementation" at `ext/date_performance.c:128` and `:163`) and from
what a reader of `Date` would expect. The model follows the code:

- **`ajd_to_jd` fraction.** The comment at `ext/date_performance.c:163` gives
  `(ajd + of + 1/2).divmod(1)`, whose fraction for a half-day ajd is 0. The
  fast path (`:172-174`) returns the fraction 1/2 instead, and
  `test/extension_test.rb:24-29` expects `[2419577, 1/2]`.
- **Negative days.** A negative day is not simply `days_in_month + d + 1` for
  every reform rule. The check at `ext/date_performance.c:200-205` reads the
  following month with JULIAN before day 2299161 and with GREGORIAN after it,
  whatever `sg` is. So under JULIAN every negative day of a year from 1583 on
  is refused.
- **Negative days before year 0.** C's `%` at `ext/date_performance.c:196`
  keeps the sign of `y*12 + m`. For January to November of a year before 0 the
  following month comes out as 0 or less, so every negative day is refused.
- **Truncating `y / 100`.** `civil_to_jd` (`ext/date_performance.c:51`)
  divides `y / 100` with C's truncation. Under GREGORIAN this puts negative
  century years that are not multiples of 400 one day late, so those dates
  fail validation (`TruncationYear`).
- **strptime format test.** The strptime fast-path test
  (`ext/date_performance.c:309-312`) accepts every format that merely starts
  with `%F`. It never looks at the separators of the date. The default string
  `"-4712-01-01"` (`:301`) never takes the fast path.

## Model

| member | source | states |
|---|---|---|
| CInt.Quot | ext/date_performance.c:51-52 | C's `/` on a positive divisor rounds toward zero: bounds on `b*q` for either sign of `a` |
| CInt.Rem | ext/date_performance.c:195-196 | C's `%`: `a == b*Quot(a,b) + r`, with `r` taking the sign of `a` and `\|r\| < b` |
| CalendarFacts.DecomposeIsJulianDate | ext/date_performance.c:93-104 | the steps `b, c, d, e` of jd_to_civil yield a valid Julian date whose Julian day number is the input |
| CalendarFacts.JulianJdDecomposes | ext/date_performance.c:93-104 | decomposing the Julian day number of a valid Julian date gives that date back |
| CalendarFacts.CenturyShiftTruncation | ext/date_performance.c:51-52 | the correction `b = 2 - a + a/4` with truncating `a = y/100` equals the floor-based Gregorian correction, plus one exactly in a TruncationYear |
| CalendarFacts.CenturiesOfGregorianJd | ext/date_performance.c:90 | for a valid Gregorian date, `x` of jd_to_civil is the century of its March-based year minus 4 |
| CalendarFacts.GregorianJdDecomposes | ext/date_performance.c:90-91 | `jd + 1 + x - x/4` maps the Gregorian day number of a valid Gregorian date to the Julian day number of the same triple |
| CalendarFacts.GregorianDecomposition | ext/date_performance.c:89-104 | the Gregorian branch of jd_to_civil yields a valid Gregorian date whose proleptic Gregorian day number is `jd` |
| CalendarFacts.JulianRoundTrip | ext/date_performance.c:43-59 | under JULIAN, jd_to_civil(civil_to_jd(t)) == t if and only if t is a valid Julian date |
| CalendarFacts.GregorianRoundTrip | ext/date_performance.c:43-59 | under GREGORIAN, the round trip gives t back if and only if t is a valid Gregorian date outside a TruncationYear |
| CalendarFacts.GregorianCivilToJd | ext/date_performance.c:43-59 | civil_to_jd under GREGORIAN is the proleptic Gregorian day number, one more in a TruncationYear |
| CalendarFacts.JdRoundTrip | ext/date_performance.c:83-105 | every day number survives civil_to_jd(jd_to_civil(jd)) under JULIAN and a reform from day 1794169 on; under GREGORIAN it comes back one day late exactly in a TruncationYear |
| Calendar.CivilToJd | ext/date_performance.c:43-59 | no contract of its own; characterised by CalendarFacts.JulianRoundTrip, GregorianRoundTrip, GregorianCivilToJd, CutoverKeepsJulian and CutoverKeepsGregorian |
| Calendar.JdToCivil | ext/date_performance.c:83-105 | no contract of its own; characterised by CalendarFacts.DecomposeIsJulianDate, GregorianDecomposition, CivilInRange and JdRoundTrip |
| CalendarFacts.CivilInRange | ext/date_performance.c:93-104 | jd_to_civil always gives a month 1..12 and a day 1..31 |
| CalendarFacts.CutoverKeepsJulian | ext/date_performance.c:56-57 | under a reform day from 1794169 (200-03-02) on, a valid Julian date before it survives the civil round trip |
| CalendarFacts.EarlyCutoverCounterexample | ext/date_performance.c:56-57 | under reform day 1794168, the valid Julian date 200-02-29 (day 1794167) gets day 1794168 and reads back as 200-03-01, so CutoverKeepsJulian needs its bound on the reform day |
| CalendarFacts.CutoverKeepsGregorian | ext/date_performance.c:87-92 | under a reform day from 1794169 on, a valid Gregorian date on or after it survives the civil round trip |
| CalendarFacts.CutoverRoundTripValid | ext/date_performance.c:56-57 | conversely, a triple that survives the round trip under a reform day is a Julian date before it or a Gregorian date from it on |
| CalendarFacts.JulianMonthContinuity | ext/date_performance.c:53-55 | the first of the next month lies one Julian month length after the first of this month |
| CalendarFacts.GregorianMonthContinuity | ext/date_performance.c:53-55 | the same under the Gregorian leap rule |
| CalendarFacts.CalendarsDisagree | ext/date_performance.c:87-92 | from day 1830693 on, the Julian and Gregorian readings of a day number differ |
| Rationals.Reduce | ext/date_performance.c:136-139 | the result that `Rational#+` and `Rational#-` build with `Rational(n, d)` is the reduced fraction whose value is `n/d` |
| Rationals.FromInt | ext/date_performance.c:135 | an integer as a rational keeps its value |
| Rationals.Add | ext/date_performance.c:136 | `Rational#+`: the value of the sum is the sum of the values |
| Rationals.Sub | ext/date_performance.c:138-139 | `Rational#-`: the value of the difference is the difference of the values |
| Rationals.CrossSign | ext/date_performance.c:369-375 | the sign of `num*other_den - other_num*den` is the sign of the difference of the two values |
| Rationals.ReducedUnique | ext/date_performance.c:358-367 | two reduced fractions of equal value have the same numerator and denominator |
| DayNumbers.OddOverTwo | ext/date_performance.c:131-132 | the fast path's numerator `(jd + fr - of - 1)*2 + 1` is odd, so the pair it gives `Rational.new` over 2, which does not reduce, is already in lowest terms |
| DayNumbers.JdToAjd | ext/date_performance.c:125-142 | for a Fixnum or Rational fraction and offset, both paths give the rational `jd + fr - of - 1/2` |
| DayNumbers.JdToAjdPathsAgree | ext/date_performance.c:129-141 | for Fixnum fraction and offset, the fast path and the rational path give the same reduced rational |
| DayNumbers.AjdToJd | ext/date_performance.c:165-180 | the day is floor(ajd + of + 1/2); the fraction is the rest, plus 1/2 on the fast path |
| DayNumbers.FastPathIsWhole | ext/date_performance.c:172-174 | for a denominator of 2, `(num + 1) / 2` in C is exactly ajd + 1/2 |
| DayNumbers.FastPathFraction | ext/date_performance.c:172-178 | the fast path gives the same day as the divmod path but the fraction 1/2 where divmod gives 0 |
| DayNumbers.DayNumberRoundTrip | ext/date_performance.c:172-174 | ajd_to_jd(jd_to_ajd(jd, 0, 0)) == [jd, 1/2] for every jd |
| DayNumbers.AjdExample | test/extension_test.rb:17-29 | jd_to_ajd(2419577) == 4839153/2 and ajd_to_jd(4839153/2) == [2419577, 1/2] |
| DateNew.FirstOfFollowingMonth | ext/date_performance.c:195-197 | for a month 1..12 of a year from 0 on, and for any December, `(y*12+m)/12` and `%12 + 1` name the first of the following month; for January to November of a year before 0 the month is 0 or less |
| DateNew.MonthCheck | ext/date_performance.c:200-204 | no contract of its own; characterised by DateNew.CheckAtGregorianFirst, CheckAtJulianFirst and CheckFailsAtJulianFirst |
| DateNew.CheckAtGregorianFirst | ext/date_performance.c:200-204 | the check passes when jd - d is the Gregorian day number of a first of the month and jd is from 2299161 on |
| DateNew.CheckAtJulianFirst | ext/date_performance.c:200-204 | the check passes when jd - d is the Julian day number of a first of the month and jd is before 2299161 |
| DateNew.CheckFailsAtJulianFirst | ext/date_performance.c:200-204 | the check fails when jd - d is the Julian day number of a first of a month from 1583 on and jd is from 2299161 on |
| DateNew.Resolve | ext/date_performance.c:186-218 | every refusal is ArgumentError; the accepted cases are characterised by the lemmas below |
| DateNew.ResolveConsistent | ext/date_performance.c:206-221 | an accepted date lies in the requested year and month, and its cached triple is jd_to_civil of its day number |
| DateNew.ResolveNonNegative | ext/date_performance.c:211-218 | for d >= 0: accepted if and only if the triple survives civil_to_jd then jd_to_civil, and then the triple is kept |
| DateNew.NewUnderJulian | ext/date_performance.c:211-218 | under JULIAN, a non-negative day is accepted if and only if the triple is a valid Julian date |
| DateNew.NewUnderGregorian | ext/date_performance.c:211-218 | under GREGORIAN, accepted if and only if the triple is a valid Gregorian date outside a TruncationYear |
| DateNew.NewUnderCutover | ext/date_performance.c:211-218 | under a reform from day 1794169 on, accepted if and only if the triple is a Julian date before the reform or a Gregorian date from it on |
| DateNew.NegativeBranch | ext/date_performance.c:194-210 | for d < 0 in a month 1..12 of a year from 0 on, or in any December: accepted if and only if the check against the following month passes and the day lands in (y, m) |
| DateNew.NegativeYearNegativeDay | ext/date_performance.c:194-205 | for January to November of a year before 0, every negative day is refused |
| DateNew.NegativeDayGregorian | ext/date_performance.c:194-210 | from 1583 under GREGORIAN or ITALY: d < 0 is accepted if and only if -d <= the month's length, landing on day `len + 1 + d` |
| DateNew.NegativeDayBeforeReform | ext/date_performance.c:200-205 | from 1583, a negative day counted back to before day 2299161 is refused |
| DateNew.NegativeDayAfterReform | ext/date_performance.c:194-210 | from 1583, a negative day that stays on or after day 2299161 is accepted if and only if -d <= the month's length |
| DateNew.NegativeDayJulian | ext/date_performance.c:194-210 | for years 0..1581 under JULIAN or ITALY: accepted if and only if -d <= the Julian month length, landing on day `len + 1 + d` |
| DateNew.NegativeDayJulianQuirk | ext/date_performance.c:200-205 | under JULIAN, from 1583 on, every negative day down to minus the month length is refused though the day it stands for is accepted |
| DateNew.GregorianCheckBeforeReform | ext/date_performance.c:200-202 | under GREGORIAN, a day counted back to before 2299161 always fails the check |
| DateNew.DayNumber1912 | test/extension_test.rb:6-9 | civil_to_jd(1912, 6, 23) == 2419577 under ITALY and GREGORIAN |
| DateNew.Civil1912 | test/extension_test.rb:11-15 | jd_to_civil(2419577) == [1912, 6, 23] under GREGORIAN and ITALY |
| DateNew.Example1912 | test/extension_test.rb:31-35 | Date.new(1912, 6, 23) resolves to day 2419577 |
| DateNew.MonthOutOfRange | test/extension_test.rb:37-41 | Date.new(1912, 25, 55) is refused |
| DateNew.ItalyReform | ext/date_performance.c:413 | under ITALY, 1582-10-04 and 1582-10-15 are the days 2299160 and 2299161 |
| DateNew.ItalyGap | ext/date_performance.c:413 | under ITALY, 1582-10-05 to 1582-10-14 are refused |
| DateNew.LeapFebruary | ext/date_performance.c:194-210 | Date.new(2008, 2, -1) is 2008-02-29 |
| DateNew.PlainFebruary | ext/date_performance.c:194-210 | Date.new(2009, 2, -1) is 2009-02-28 |
| DateText.FormatCivil | ext/date_performance.c:270 | no contract of its own; characterised by DateText.FormatWidth, FormatRoundTrip and Printed1912 |
| DateText.StrftimeFastFormat | ext/date_performance.c:262-265 | no contract of its own; characterised by DateText.StrftimeFastFormats |
| DateText.StrptimeFastFormat | ext/date_performance.c:309-312 | no contract of its own; characterised by DateText.StrptimeFastFormats and FastFormatsNest |
| DateText.FormatWidth | ext/date_performance.c:270 | `%04d` of -999..9999 and `%02d` of -9..99 are exactly 4 and 2 characters wide |
| DateText.Strtol | ext/date_performance.c:314 | strtol's endptr stays at the start when no digits are read, and otherwise stops just after the last digit |
| DateText.ReadDigits | ext/date_performance.c:314 | the digit loop stops at the end of the digit run and accumulates its decimal value |
| DateText.ParseLong | ext/date_performance.c:314-322 | the imperative strtol (white space, sign, digits) returns what Strtol specifies |
| DateText.StrtolReadsFormatted | ext/date_performance.c:270 | strtol reads back, up to its end, a number printed with `%0wd` |
| DateText.StrftimeFastFormats | ext/date_performance.c:262-265 | the strftime fast path is taken exactly for "%F" and "%Y-%m-%d" |
| DateText.StrptimeFastFormats | ext/date_performance.c:309-312 | the strptime fast path is taken for every format starting with "%F" and for "%Y-%m-%d" |
| DateText.FastFormatsNest | ext/date_performance.c:309-312 | every strftime fast format is a strptime fast format |
| DateText.FormatWithHour | ext/date_performance.c:309 | "%F %H" takes the strptime fast path but not the strftime one |
| DateText.FastFields | ext/date_performance.c:314-322 | fields are read only when the three strtol calls end at offsets 4, 7 and 10 |
| DateText.FieldsRoundTrip | ext/date_performance.c:318-322 | a printed triple is read back with any non-digit separators at offsets 4 and 7 |
| DateText.FormatRoundTrip | ext/date_performance.c:270 | what sprintf("%04d-%02d-%02d") prints, the fast-path fields read back |
| DateText.DefaultStringIsSlow | ext/date_performance.c:301 | the default string "-4712-01-01" fails the fast path |
| DateText.Printed1912 | test/extension_test.rb:56-58 | 1912-06-23 prints as "1912-06-23" |
| DateText.Read1912 | test/extension_test.rb:62-65 | "1912-06-23" is read as (1912, 6, 23) |
| Dates.Date.constructor | ext/date_performance.c:220 | `Date.new!` keeps ajd and sg and has no civil cache |
| Dates.Date.Civil | ext/date_performance.c:231-241 | returns jd_to_civil(jd, sg), fills an empty cache, keeps a filled one |
| Dates.Date.Compare | ext/date_performance.c:345-376 | nil for nil and non-dates; otherwise the sign of ajd minus the other ajd, a Fixnum being read as an ajd |
| Dates.Date.Strftime | ext/date_performance.c:247-290 | the format defaults to "%F", which prints the `%04d-%02d-%02d` text; the text is the fast-path print, strftime(3)'s non-empty result for a plain Date, or Ruby's; the cache is filled |
| Dates.NewAjd | ext/date_performance.c:186-219 | succeeds exactly when the triple is accepted; a failure is ArgumentError |
| Dates.NewAjdValue | ext/date_performance.c:219 | the new Date's ajd is its day number minus 1/2 |
| Dates.New | ext/date_performance.c:186-223 | a fresh Date with ajd jd - 1/2, the given sg, and a valid cache of the resolved triple, or ArgumentError |
| Dates.FillCivil | ext/date_performance.c:188-191 | absent arguments default to -4712, 1, 1, ITALY; given ones are kept |
| Dates.FillStrptime | ext/date_performance.c:301-303 | absent arguments default to "-4712-01-01", "%F", ITALY; given ones are kept |
| Dates.StrptimeAjd | ext/date_performance.c:296-340 | no contract of its own; characterised by Dates.Strptime, TextRoundTrip and DefaultStrptimeIsSlow |
| Dates.Strptime | ext/date_performance.c:296-340 | fast path, then strptime(3), then Ruby, and an invalid fast-path date raises instead of falling back; the result is a fresh Date with that ajd and sg |
| Dates.CompareZeroIffSameDay | ext/date_performance.c:365-375 | `<=>` gives 0 if and only if the two ajds are the same rational |
| Dates.CompareAntisymmetric | ext/date_performance.c:369-375 | swapping the operands negates the answer |
| Dates.CompareWithDayNumber | ext/date_performance.c:352-355 | a Date from Date.new compares -1 with its own day number and 1 with the day before |
| Dates.NewOfCivil | ext/date_performance.c:186-219 | Date.new of the civil date of any day gives back that day under JULIAN, under a reform from day 1794169 on, and under GREGORIAN outside a TruncationYear |
| Dates.TextRoundTrip | ext/date_performance.c:261-272 | the strptime fast path reads what the strftime fast path prints as the same day, for years -999..9999, under JULIAN, a reform from day 1794169 on, or GREGORIAN outside a TruncationYear |
| Dates.PrintedTakesFastPath | ext/date_performance.c:309-323 | under "%F", a string whose three fields the fast path reads becomes Date.new of those fields |
| Dates.DefaultStrptimeIsSlow | ext/date_performance.c:301-302 | Date.strptime with no arguments goes to strptime(3) or Ruby |
| DateMemoize.FillParse | lib/date/memoize.rb:18 | absent arguments default to "-4712-01-01", false, ITALY |
| DateMemoize.NewWithoutMemoization | lib/date/memoize.rb:44-45 | the miss handler makes a fresh Date that is the entry for its key, valid and with the cache Date.new fills, or raises ArgumentError |
| DateMemoize.CivilEntryValid | lib/date/memoize.rb:44-45 | a Date stored for a civil key, with the cache Date.new gave it, has a filled cache holding the civil date of its day |
| DateMemoize.Memoize.constructor | lib/date/memoize.rb:84 | requiring the file leaves memoization installed with three empty tables |
| DateMemoize.Memoize.IsInstalled | lib/date/memoize.rb:67-69 | installed? holds exactly when the tables exist |
| DateMemoize.Memoize.ExtendObject | lib/date/memoize.rb:38-51 | installs three empty tables |
| DateMemoize.Memoize.UnextendObject | lib/date/memoize.rb:54-64 | removes the tables; when not installed, raises NameError and changes nothing |
| DateMemoize.Memoize.Install | lib/date/memoize.rb:73-75 | installed afterwards; already installed, nothing changes |
| DateMemoize.Memoize.Uninstall | lib/date/memoize.rb:77-80 | not installed afterwards, with no tables; already uninstalled, nothing changes |
| DateMemoize.Memoize.RememberCivil | lib/date/memoize.rb:44-45 | storing the Date made for a missing key keeps every table right and changes only the civil table |
| DateMemoize.Memoize.RememberStrptime | lib/date/memoize.rb:46-47 | the same for the strptime table |
| DateMemoize.Memoize.RememberParse | lib/date/memoize.rb:48-49 | the same for the parse table |
| DateMemoize.Memoize.Civil | lib/date/memoize.rb:23-27 | hit: the stored object; miss: a fresh Date from Date.new, stored; error: nothing stored; not installed: Date.new itself; a returned Date is valid with its cache filled |
| DateMemoize.Memoize.Strptime | lib/date/memoize.rb:13-15 | the same for Date.strptime, keyed by (str, fmt, sg); a returned Date is valid |
| DateMemoize.Memoize.Parse | lib/date/memoize.rb:18-20 | the same for Date.parse, keyed by (str, comp, sg); a returned Date is valid |
| DateMemoize.RepeatedCivil | test/date_memoize_test.rb:15-23 | two identical civil calls return the same object |
| DateMemoize.DefaultsShareEntry | lib/date/memoize.rb:23-24 | Date.civil() and Date.civil(-4712, 1, 1, ITALY) return the same object |
| DateMemoize.StrptimeAcrossReinstall | test/date_memoize_test.rb:25-35 | a Date made before installing is equal under `<=>` to, but not the same object as, the memoized one; asking again returns the memoized one |
| DateMemoize.ParseAcrossReinstall | test/date_memoize_test.rb:37-47 | the same for Date.parse |
| DateMemoize.UninstallTwice | test/date_memoize_test.rb:49-68 | after uninstalling, installed? is false and no table is left; a second uninstall is harmless |

## Left out

- strftime(3), strptime(3), `mktime`, Ruby's own `Date#strftime`, `Date.strptime` and `Date.parse` are code outside the extension. They enter as function parameters. Whether the receiver's class is exactly `Date` enters as a boolean.
- `FLOOR` (`lrintf(floorf(...))` of a value rounded to single precision) is modelled as the exact integer floor. The two agree for jd_to_civil from day -2993430 to day 2992162 under the Gregorian rule (-2993529 to 2992186 under the Julian rule), and for civil_to_jd from -16200-03-01 to 6771-02-28. Beyond, the float code differs: day 2992163 (Gregorian 3480-02-29) reads as 3480-02-31, so the extension's Date.new refuses 3480-02-29, and from 6771-03-01 on civil_to_jd counts one day more. `FLOOR(30.6001 * e)` is also one below the exact floor for a negative multiple of 5, which only months -18, -23, ... give civil_to_jd; Date.new refuses those months either way.
- CalendarFacts.GregorianDecomposition: states the exact formulas; the float jd_to_civil agrees only within the range above. The same holds for CalendarFacts.JulianRoundTrip, GregorianRoundTrip, GregorianCivilToJd and JdRoundTrip.
- DateNew.NewUnderGregorian: states the exact formulas. The extension refuses 3480-02-29 and, further on, other valid dates. The same holds for DateNew.NewUnderJulian (from day 2992187), DateNew.NewUnderCutover and Dates.NewOfCivil.
- DateNew.NegativeDayGregorian: states the exact formulas. From 3480 on, the extension can accept a negative day and cache a triple other than the one stated (Date.new(3480, 2, -1) caches 3480-02-31).
- Dates.TextRoundTrip: states the exact formulas. Its years up to 9999 reach past the range where the float code agrees.
- Machine widths are not modelled: `int`/`long` overflow in `civil_to_jd`, `jd_to_ajd` and `num * other_den` in `<=>`, `strtol`'s clamping at `LONG_MIN`/`LONG_MAX`, and the range checks of `NUM2INT`/`FIX2INT`. Integers are unbounded.
- Non-integer arguments to `Date.new` (the TypeError for nil) are not modelled.
- DayNumbers.JdToAjd, DayNumbers.AjdToJd: only Fixnum and Rational arguments are modelled. A Float fraction or offset takes the slow path of `jd_to_ajd` (`ext/date_performance.c:133-140`), where `Rational#+` with a Float yields a Float rather than a rational. A Float `ajd` has no `denominator`, so `ajd_to_jd` raises NoMethodError at `:170`. The extension's own calls pass Fixnum 0 (`:219-220`).
- `Date.civil_to_jd`, `Date.jd_to_civil`, `Date.jd_to_ajd` and `Date.ajd_to_jd` as Ruby-visible wrappers only supply defaults. The model states the functions they call.
- The `DateTime` path and offsets other than 0 in the Date made by `Date.new!` are not modelled. Neither is `Init_date_performance` and its registration of methods. `lib/date/performance.rb` is not part of this model.
- The metaprogramming of `extend_object`/`unextend_object` (`alias_method`, `remove_method`, instance variables) is modelled as the `installed` flag and three optional tables. Hash lookup is by value equality of the filled-in key; Ruby's `eql?` on keys such as `2002` versus `2002.0` is not modelled.
- DateMemoize.Memoize.ExtendObject: requires memoization not to be installed. `install!` only calls it then, and a direct second `Date.extend` is not modelled.
- `Date.new` and `Date.civil` share one method and one table in the model, as the alias does in the source.
- DateNew.NegativeDayGregorian, DateNew.NegativeDayJulian: the closed form of negative days covers years from 1583 under GREGORIAN/ITALY and 0..1581 under JULIAN/ITALY. January to November of years before 0 are refused outright (DateNew.NegativeYearNegativeDay). The year 1582, any year under another reform rule, and December of years before 0 are described only by DateNew.NegativeBranch.
- CalendarFacts.CutoverKeepsJulian: only reform days from 1794169 (200-03-02) on. For an earlier reform the round trip can fail (CalendarFacts.EarlyCutoverCounterexample).
- CalendarFacts.CutoverKeepsGregorian: only reform days from 1794169 on. Earlier reforms, where the truncating `y / 100` and the Julian test interact, are not covered.
- CalendarFacts.JdRoundTrip, DateNew.NewUnderCutover, Dates.NewOfCivil: only reform days from 1794169 on, for the same reason.
- Dates.TextRoundTrip: covers years -999 to 9999, where `%04d` prints exactly four characters, and only reform days from 1794169 on. Under GREGORIAN it leaves out TruncationYears, where Date.new refuses the printed date itself.
- The second `strtol` in the strptime fast path can read past the end of a short string. The model reads a NUL there, as a NUL-terminated Ruby string buffer would.
