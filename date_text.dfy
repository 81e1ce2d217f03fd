/**
 * The text of the `%F` fast paths: sprintf("%04d-%02d-%02d") on the way out of
 * Date#strftime and strtol(..., 10) on the way into Date.strptime.  A Ruby
 * string is read the way C reads its buffer: a NUL follows the last character.
 */
module DateText {
  import opened Calendar
  import opened Outcomes

  const NUL: char := '\0'

  /** The character C reads at offset i of the buffer: past the end, the NUL. */
  function At(s: string, i: int): char
  {
    if 0 <= i < |s| then s[i] else NUL
  }

  predicate IsDigit(c: char) { '0' <= c <= '9' }

  /** isspace(3) in the C locale. */
  predicate IsSpace(c: char)
  {
    c == ' ' || c == '\t' || c == '\n' || c == '\r' || c == '\U{000B}' || c == '\U{000C}'
  }

  predicate AllDigits(s: string)
  {
    forall i :: 0 <= i < |s| ==> IsDigit(s[i])
  }

  predicate NoNul(s: string)
  {
    forall i :: 0 <= i < |s| ==> s[i] != NUL
  }

  function DigitValue(c: char): int
    requires IsDigit(c)
  {
    c as int - '0' as int
  }

  function DigitChar(v: int): (c: char)
    requires 0 <= v <= 9
    ensures IsDigit(c) && DigitValue(c) == v
  {
    ('0' as int + v) as char
  }

  // ---------------------------------------------------------------------------
  // Numbers as digits

  /** The decimal digits of n, most significant first, with no leading zero. */
  function Digits(n: nat): (s: string)
    ensures 1 <= |s| && AllDigits(s)
    decreases n
  {
    if n < 10 then [DigitChar(n)] else Digits(n / 10) + [DigitChar(n % 10)]
  }

  /** The number a run of digits spells, accumulated left to right as strtol does. */
  function DigitsValue(s: string): nat
    requires AllDigits(s)
  {
    if |s| == 0 then 0 else DigitsValue(s[..|s| - 1]) * 10 + DigitValue(s[|s| - 1])
  }

  /** k zeros (none when k is not positive). */
  function Zeros(k: int): (s: string)
    ensures |s| == (if k > 0 then k else 0) && AllDigits(s)
    ensures forall i :: 0 <= i < |s| ==> s[i] == '0'
    decreases k
  {
    if k <= 0 then "" else Zeros(k - 1) + "0"
  }

  /** Reading the digits of n gives n back. */
  lemma {:induction false} DigitsValueOfDigits(n: nat)
    ensures DigitsValue(Digits(n)) == n
    decreases n
  {
    if n >= 10 {
      var s := Digits(n);
      assert s[..|s| - 1] == Digits(n / 10);
      DigitsValueOfDigits(n / 10);
    }
  }

  /** Zeros spell nothing ... */
  lemma {:induction false} ZerosValue(k: int)
    ensures DigitsValue(Zeros(k)) == 0
    decreases k
  {
    if k > 0 {
      assert Zeros(k)[..|Zeros(k)| - 1] == Zeros(k - 1);
      ZerosValue(k - 1);
    }
  }

  /** ... so leading zeros do not change the value. */
  lemma {:induction false} LeadingZeros(k: int, s: string)
    requires AllDigits(s)
    ensures AllDigits(Zeros(k) + s) && DigitsValue(Zeros(k) + s) == DigitsValue(s)
    decreases |s|
  {
    var t := Zeros(k) + s;
    assert AllDigits(t);
    if |s| == 0 {
      assert t == Zeros(k);
      ZerosValue(k);
    } else {
      assert t[..|t| - 1] == Zeros(k) + s[..|s| - 1];
      LeadingZeros(k, s[..|s| - 1]);
    }
  }

  /** How many digits small numbers have. */
  lemma {:induction false} DigitsLength(n: nat)
    ensures n < 10 ==> |Digits(n)| == 1
    ensures n < 100 ==> |Digits(n)| <= 2
    ensures n < 1000 ==> |Digits(n)| <= 3
    ensures n < 10000 ==> |Digits(n)| <= 4
    decreases n
  {
    if n >= 10 {
      DigitsLength(n / 10);
    }
  }

  // ---------------------------------------------------------------------------
  // sprintf

  /** sprintf's "%0<w>d": the sign, then zeros up to the width, then the digits. */
  function FormatInt(n: int, w: nat): string
  {
    if n < 0 then "-" + Zeros(w - 1 - |Digits(-n)|) + Digits(-n)
    else Zeros(w - |Digits(n)|) + Digits(n)
  }

  /** "%04d" of a year from -999 to 9999 and "%02d" of a number from -9 to 99 are
      exactly as wide as asked. */
  lemma FormatWidth(n: int)
    ensures -999 <= n <= 9999 ==> |FormatInt(n, 4)| == 4
    ensures -9 <= n <= 99 ==> |FormatInt(n, 2)| == 2
  {
    if n < 0 {
      DigitsLength(-n);
    } else {
      DigitsLength(n);
    }
  }

  /** sprintf("%04d-%02d-%02d", y, m, d), the text of the strftime fast path. */
  function FormatCivil(c: CivilDate): string
  {
    FormatInt(c.y, 4) + "-" + FormatInt(c.m, 2) + "-" + FormatInt(c.d, 2)
  }

  // ---------------------------------------------------------------------------
  // strtol

  /** What strtol returns, with the offset its endptr is left at. */
  datatype Parsed = Parsed(value: int, end: int)

  /** The first offset from i on that does not hold white space. */
  function SkipSpace(s: string, i: nat): (j: nat)
    ensures i <= j && !IsSpace(At(s, j))
    ensures forall k :: i <= k < j ==> IsSpace(At(s, k))
    decreases |s| - i
  {
    if IsSpace(At(s, i)) then SkipSpace(s, i + 1) else i
  }

  /** The end of the run of digits that starts at offset i. */
  function DigitRunEnd(s: string, i: nat): (j: nat)
    ensures i <= j && !IsDigit(At(s, j))
    ensures forall k :: i <= k < j ==> IsDigit(At(s, k))
    ensures i < j ==> j <= |s|
    decreases |s| - i
  {
    if IsDigit(At(s, i)) then DigitRunEnd(s, i + 1) else i
  }

  /** strtol(s + start, &end, 10): white space, an optional sign, then decimal
      digits.  Without digits the value is 0 and `end` is left at `start`. */
  function Strtol(s: string, start: nat): (r: Parsed)
    ensures r.end == start || (start < r.end <= |s| && IsDigit(s[r.end - 1]) && !IsDigit(At(s, r.end)))
  {
    var i := SkipSpace(s, start);
    var j := if At(s, i) == '-' || At(s, i) == '+' then i + 1 else i;
    var k := DigitRunEnd(s, j);
    if k == j then Parsed(0, start)
    else
      assert AllDigits(s[j..k]) by {
        forall p | 0 <= p < k - j ensures IsDigit(s[j..k][p]) {
          assert At(s, j + p) == s[j + p];
        }
      }
      var v: int := DigitsValue(s[j..k]);
      Parsed(if At(s, i) == '-' then -v else v, k)
  }

  /** One more digit: the value so far times ten, plus the digit. */
  lemma DigitsValueStep(s: string, i: nat, p: nat)
    requires i <= p < |s| && AllDigits(s[i..p + 1])
    ensures AllDigits(s[i..p]) && DigitsValue(s[i..p + 1]) == DigitsValue(s[i..p]) * 10 + DigitValue(s[p])
  {
    assert s[i..p + 1][..p - i] == s[i..p];
  }

  /** The digit loop of strtol: the run from `first` on and the value it spells. */
  method ReadDigits(s: string, first: nat) returns (acc: int, p: nat)
    ensures p == DigitRunEnd(s, first)
    ensures first < p ==> p <= |s| && AllDigits(s[first..p]) && acc == DigitsValue(s[first..p])
  {
    p, acc := first, 0;
    while IsDigit(At(s, p))
      invariant first <= p <= DigitRunEnd(s, first) && DigitRunEnd(s, p) == DigitRunEnd(s, first)
      invariant first < p ==> p <= |s| && AllDigits(s[first..p]) && acc == DigitsValue(s[first..p])
      invariant first == p ==> acc == 0
      decreases |s| - p
    {
      assert AllDigits(s[first..p + 1]) by {
        assert s[first..p + 1] == s[first..p] + [s[p]];
      }
      DigitsValueStep(s, first, p);
      acc := acc * 10 + DigitValue(s[p]);
      p := p + 1;
    }
  }

  /** strtol as the C library runs it: the endptr advances over white
      space, a sign and the digits, and the value is accumulated digit by digit. */
  method ParseLong(s: string, start: nat) returns (value: int, end: nat)
    ensures Parsed(value, end) == Strtol(s, start)
  {
    var p := start;
    while IsSpace(At(s, p))
      invariant start <= p && SkipSpace(s, p) == SkipSpace(s, start)
      decreases |s| - p
    {
      p := p + 1;
    }
    var negative := At(s, p) == '-';
    if At(s, p) == '-' || At(s, p) == '+' {
      p := p + 1;
    }
    var acc, stop := ReadDigits(s, p);
    if stop == p {
      value, end := 0, start;
    } else {
      value, end := if negative then -acc else acc, stop;
    }
  }

  /** A run of digits ends where the first non-digit is. */
  lemma {:induction false} RunEndsAt(s: string, j: nat, k: nat)
    requires j <= k && !IsDigit(At(s, k))
    requires forall p :: j <= p < k ==> IsDigit(At(s, p))
    ensures DigitRunEnd(s, j) == k
    decreases k - j
  {
    if j < k {
      RunEndsAt(s, j + 1, k);
    }
  }

  /** strtol over an unsigned run of digits. */
  lemma StrtolOfDigits(s: string, i: nat, e: nat)
    requires i < e <= |s| && AllDigits(s[i..e]) && !IsDigit(At(s, e))
    ensures Strtol(s, i) == Parsed(DigitsValue(s[i..e]), e)
  {
    assert At(s, i) == s[i..e][0];
    assert SkipSpace(s, i) == i;
    forall p | i <= p < e
      ensures IsDigit(At(s, p))
    {
      assert At(s, p) == s[i..e][p - i];
    }
    RunEndsAt(s, i, e);
  }

  /** strtol over a minus sign and a run of digits. */
  lemma StrtolOfNegative(s: string, i: nat, e: nat)
    requires i + 1 < e <= |s| && s[i] == '-' && AllDigits(s[i + 1..e]) && !IsDigit(At(s, e))
    ensures Strtol(s, i) == Parsed(-(DigitsValue(s[i + 1..e]) as int), e)
  {
    assert SkipSpace(s, i) == i;
    forall p | i + 1 <= p < e
      ensures IsDigit(At(s, p))
    {
      assert At(s, p) == s[i + 1..e][p - i - 1];
    }
    RunEndsAt(s, i + 1, e);
  }

  /** "%0<w>d" prints a sign only for a negative number, then digits that spell
      its magnitude. */
  lemma FormatShape(n: int, w: nat)
    ensures var f := FormatInt(n, w);
      |f| >= 1
      && (n < 0 ==> |f| >= 2 && f[0] == '-' && AllDigits(f[1..]) && DigitsValue(f[1..]) == -n)
      && (n >= 0 ==> AllDigits(f) && DigitsValue(f) == n)
  {
    var a: nat := if n < 0 then -n else n;
    var k := if n < 0 then w - 1 - |Digits(a)| else w - |Digits(a)|;
    LeadingZeros(k, Digits(a));
    DigitsValueOfDigits(a);
    if n < 0 {
      assert FormatInt(n, w)[1..] == Zeros(k) + Digits(a);
    }
  }

  /** strtol reads back what "%0<w>d" printed, wherever it stands, provided the
      text after it does not go on with a digit. */
  lemma {:induction false} StrtolReadsFormatted(s: string, i: nat, n: int, w: nat)
    requires i + |FormatInt(n, w)| <= |s| && s[i..i + |FormatInt(n, w)|] == FormatInt(n, w)
    requires !IsDigit(At(s, i + |FormatInt(n, w)|))
    ensures Strtol(s, i) == Parsed(n, i + |FormatInt(n, w)|)
  {
    var f := FormatInt(n, w);
    var e := i + |f|;
    FormatShape(n, w);
    if n < 0 {
      assert s[i] == f[0];
      assert s[i + 1..e] == f[1..];
      StrtolOfNegative(s, i, e);
    } else {
      StrtolOfDigits(s, i, e);
    }
  }

  // ---------------------------------------------------------------------------
  // The fast paths

  /** The format test of the strftime fast path: "%F" or "%Y-%m-%d", up to the NUL. */
  predicate StrftimeFastFormat(fmt: string)
  {
    (At(fmt, 0) == '%' && At(fmt, 1) == 'F' && At(fmt, 2) == NUL)
    || (At(fmt, 0) == '%' && At(fmt, 1) == 'Y' && At(fmt, 2) == '-'
        && At(fmt, 3) == '%' && At(fmt, 4) == 'm' && At(fmt, 5) == '-'
        && At(fmt, 6) == '%' && At(fmt, 7) == 'd' && At(fmt, 8) == NUL)
  }

  /** The format test of the strptime fast path.  Its first alternative tests the
      first character a second time where the strftime test reads the NUL. */
  predicate StrptimeFastFormat(fmt: string)
  {
    (At(fmt, 0) == '%' && At(fmt, 1) == 'F' && At(fmt, 0) != NUL)
    || (At(fmt, 0) == '%' && At(fmt, 1) == 'Y' && At(fmt, 2) == '-'
        && At(fmt, 3) == '%' && At(fmt, 4) == 'm' && At(fmt, 5) == '-'
        && At(fmt, 6) == '%' && At(fmt, 7) == 'd' && At(fmt, 8) == NUL)
  }

  /** For a format without NUL characters, strftime's fast path is taken for
      exactly "%F" and "%Y-%m-%d". */
  lemma StrftimeFastFormats(fmt: string)
    requires NoNul(fmt)
    ensures StrftimeFastFormat(fmt) <==> fmt == "%F" || fmt == "%Y-%m-%d"
  {
    if StrftimeFastFormat(fmt) {
      if At(fmt, 1) == 'F' {
        assert |fmt| == 2;
        assert fmt == "%F";
      } else {
        assert |fmt| == 8;
        assert fmt == "%Y-%m-%d";
      }
    }
  }

  /** For a format without NUL characters, strptime's fast path is taken for every
      format that starts with "%F", and for "%Y-%m-%d". */
  lemma StrptimeFastFormats(fmt: string)
    requires NoNul(fmt)
    ensures StrptimeFastFormat(fmt) <==> (|fmt| >= 2 && fmt[..2] == "%F") || fmt == "%Y-%m-%d"
  {
    if StrptimeFastFormat(fmt) && At(fmt, 1) != 'F' {
      assert |fmt| == 8;
      assert fmt == "%Y-%m-%d";
    }
    if |fmt| >= 2 && fmt[..2] == "%F" {
      assert fmt[0] == '%' && fmt[1] == 'F';
    }
  }

  /** Every format strftime formats itself, strptime parses itself. */
  lemma FastFormatsNest(fmt: string)
    ensures StrftimeFastFormat(fmt) ==> StrptimeFastFormat(fmt)
  {
  }

  /** "%F %H" takes the strptime fast path but not the strftime one. */
  lemma FormatWithHour()
    ensures StrptimeFastFormat("%F %H") && !StrftimeFastFormat("%F %H")
  {
  }

  /** The fields the strptime fast path reads: strtol from offsets 0, 5 and 8,
      which must stop at offsets 4, 7 and 10.  The characters at offsets 4 and 7
      are skipped, whatever they are. */
  function FastFields(s: string): (r: Option<CivilDate>)
    ensures r.Some? ==>
      10 <= |s| && IsDigit(s[3]) && IsDigit(s[6]) && IsDigit(s[9])
      && !IsDigit(s[4]) && !IsDigit(s[7]) && !IsDigit(At(s, 10))
  {
    var year := Strtol(s, 0);
    if year.end != 4 then None
    else
      var month := Strtol(s, 5);
      if month.end != 7 then None
      else
        var day := Strtol(s, 8);
        if day.end != 10 then None
        else Some(CivilDate(year.value, month.value, day.value))
  }

  /** A triple printed as "%04d", "%02d", "%02d" between any two non-digit
      separators and followed by text that does not start with a digit is read
      back by the fast path. */
  lemma {:induction false} FieldsRoundTrip(c: CivilDate, sep1: char, sep2: char, rest: string)
    requires -999 <= c.y <= 9999 && -9 <= c.m <= 99 && -9 <= c.d <= 99
    requires !IsDigit(sep1) && !IsDigit(sep2) && (rest == "" || !IsDigit(rest[0]))
    ensures FastFields(FormatInt(c.y, 4) + [sep1] + FormatInt(c.m, 2) + [sep2] + FormatInt(c.d, 2) + rest)
      == Some(c)
  {
    var fy, fm, fd := FormatInt(c.y, 4), FormatInt(c.m, 2), FormatInt(c.d, 2);
    FormatWidth(c.y);
    FormatWidth(c.m);
    FormatWidth(c.d);
    var s := fy + [sep1] + fm + [sep2] + fd + rest;
    FieldLayout(fy, sep1, fm, sep2, fd, rest);
    StrtolReadsFormatted(s, 0, c.y, 4);
    StrtolReadsFormatted(s, 5, c.m, 2);
    StrtolReadsFormatted(s, 8, c.d, 2);
  }

  /** Where the pieces of "YYYY-MM-DD..." stand. */
  lemma FieldLayout(fy: string, sep1: char, fm: string, sep2: char, fd: string, rest: string)
    requires |fy| == 4 && |fm| == 2 && |fd| == 2
    ensures var s := fy + [sep1] + fm + [sep2] + fd + rest;
      s[0..4] == fy && At(s, 4) == sep1 && s[5..7] == fm && At(s, 7) == sep2 && s[8..10] == fd
      && At(s, 10) == At(rest, 0)
  {
  }

  /** For the years -999 to 9999, what the strftime fast path prints the strptime
      fast path reads back. */
  lemma FormatRoundTrip(c: CivilDate)
    requires -999 <= c.y <= 9999 && -9 <= c.m <= 99 && -9 <= c.d <= 99
    ensures FastFields(FormatCivil(c)) == Some(c)
  {
    FieldsRoundTrip(c, '-', '-', "");
    assert FormatCivil(c) == FormatInt(c.y, 4) + ['-'] + FormatInt(c.m, 2) + ['-'] + FormatInt(c.d, 2) + "";
  }

  /** Date.strptime's default string "-4712-01-01" never takes the fast path: the
      year is five characters wide. */
  lemma DefaultStringIsSlow()
    ensures FastFields("-4712-01-01") == None
  {
    var s := "-4712-01-01";
    assert FormatInt(-4712, 5) == "-4712" == s[0..5];
    StrtolReadsFormatted(s, 0, -4712, 5);
  }

  /** (1912, 6, 23) prints as "1912-06-23" ... */
  lemma Printed1912()
    ensures FormatCivil(CivilDate(1912, 6, 23)) == "1912-06-23"
  {
  }

  /** ... and "1912-06-23" reads back as (1912, 6, 23). */
  lemma {:induction false} Read1912(c: CivilDate)
    requires c == CivilDate(1912, 6, 23)
    ensures FastFields("1912-06-23") == Some(c)
  {
    Printed1912();
    FormatRoundTrip(c);
  }
}
