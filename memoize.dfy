/**
 * Date::Memoize: while installed, Date.civil (and its alias Date.new),
 * Date.strptime and Date.parse answer from three tables keyed by their filled-in
 * argument lists.  A key seen before returns the very Date object made the first
 * time; a new key builds the Date with the unmemoized method and stores it.
 * Uninstalling puts the original methods back and drops the tables.
 *
 * Date.parse itself is Ruby's and comes in as a function parameter.
 */
module DateMemoize {
  import opened Rationals
  import opened Calendar
  import opened DayNumbers
  import opened DateNew
  import opened Outcomes
  import opened Dates

  /** Date.parse takes (str = "-4712-01-01", comp = false, sg = ITALY). */
  datatype ParseArgs = ParseArgs(str: Option<string>, comp: Option<bool>, sg: Option<Sg>)

  datatype ParseKey = ParseKey(str: string, comp: bool, sg: Sg)

  function FillParse(a: ParseArgs): (k: ParseKey)
    ensures a.str.Some? ==> k.str == a.str.value
    ensures a.comp.Some? ==> k.comp == a.comp.value
    ensures a.sg.Some? ==> k.sg == a.sg.value
    ensures a == ParseArgs(None, None, None) ==> k == ParseKey("-4712-01-01", false, Italy)
  {
    ParseKey(OrElse(a.str, "-4712-01-01"), OrElse(a.comp, false), OrElse(a.sg, Italy))
  }

  /** Ruby's Date.parse: the astronomical Julian day of the Date it makes, or the
      error it raises. */
  type RubyParse = (string, bool, Sg) -> Result<Rational>

  /** A stored Date is the one the unmemoized method makes for its key: the same
      astronomical Julian day and the same reform value. */
  predicate CivilEntry(k: CivilKey, date: Date)
  {
    Ok(date.ajd) == NewAjd(k.y, k.m, k.d, k.sg) && date.sg == k.sg
  }

  predicate StrptimeEntry(k: StrptimeKey, date: Date, libc: LibcStrptime, ruby: RubyStrptime)
  {
    Ok(date.ajd) == StrptimeAjd(k.str, k.fmt, k.sg, libc, ruby) && date.sg == k.sg
  }

  predicate ParseEntry(k: ParseKey, date: Date, parse: RubyParse)
  {
    Ok(date.ajd) == parse(k.str, k.comp, k.sg) && date.sg == k.sg
  }

  /** Date.new_without_memoization(*key), the extension's Date.new, which the
      civil table calls on a miss. */
  method NewWithoutMemoization(k: CivilKey) returns (r: Result<Date>)
    ensures r.Ok? <==> NewAjd(k.y, k.m, k.d, k.sg).Ok?
    ensures r.Err? ==> r.error == ArgumentError
    ensures r.Ok? ==> fresh(r.value) && CivilEntry(k, r.value) && CivilCached(k, r.value) && r.value.Valid()
  {
    r := New(k.y, k.m, k.d, k.sg);
  }

  /** Date.new fills the cache of the Date it makes with the civil triple it
      resolved the arguments to. */
  predicate CivilCached(k: CivilKey, date: Date)
    reads date
  {
    Resolve(k.y, k.m, k.d, k.sg).Ok? && date.civilCache == Some(Resolve(k.y, k.m, k.d, k.sg).value.civil)
  }

  /** A Date stored for a civil key, with the cache Date.new gave it, is valid:
      the cached triple is the civil date of its day. */
  lemma CivilEntryValid(k: CivilKey, date: Date)
    requires CivilEntry(k, date) && CivilCached(k, date)
    ensures date.Valid() && date.civilCache.Some?
  {
    var v := Resolve(k.y, k.m, k.d, k.sg).value;
    DayNumberRoundTrip(v.jd);
    ResolveConsistent(k.y, k.m, k.d, k.sg);
  }

  /** Every entry of a civil table is the Date its key stands for, holding the
      civil cache Date.new filled in. */
  predicate CivilTable(table: map<CivilKey, Date>)
    reads table.Values
  {
    forall k :: k in table ==> CivilEntry(k, table[k]) && CivilCached(k, table[k])
  }

  /** Every entry of a strptime table is the Date its key stands for, with a
      consistent civil cache. */
  predicate StrptimeTable(table: map<StrptimeKey, Date>, libc: LibcStrptime, ruby: RubyStrptime)
    reads table.Values
  {
    forall k :: k in table ==> StrptimeEntry(k, table[k], libc, ruby) && table[k].Valid()
  }

  /** Every entry of a parse table is the Date its key stands for, with a
      consistent civil cache. */
  predicate ParseTable(table: map<ParseKey, Date>, parse: RubyParse)
    reads table.Values
  {
    forall k :: k in table ==> ParseEntry(k, table[k], parse) && table[k].Valid()
  }

  /** Storing the Date made for a key keeps the civil table right. */
  lemma CivilStoreKeepsEntries(table: map<CivilKey, Date>, k: CivilKey, date: Date)
    requires CivilTable(table)
    requires CivilEntry(k, date) && CivilCached(k, date)
    ensures CivilTable(table[k := date])
  {
  }

  /** Storing the Date made for a key keeps the strptime table right. */
  lemma StrptimeStoreKeepsEntries(table: map<StrptimeKey, Date>, k: StrptimeKey, date: Date,
                                  libc: LibcStrptime, ruby: RubyStrptime)
    requires StrptimeTable(table, libc, ruby)
    requires StrptimeEntry(k, date, libc, ruby) && date.Valid()
    ensures StrptimeTable(table[k := date], libc, ruby)
  {
  }

  /** Storing the Date made for a key keeps the parse table right. */
  lemma ParseStoreKeepsEntries(table: map<ParseKey, Date>, k: ParseKey, date: Date, parse: RubyParse)
    requires ParseTable(table, parse)
    requires ParseEntry(k, date, parse) && date.Valid()
    ensures ParseTable(table[k := date], parse)
  {
  }

  /** The Dates a table holds; none once it has been removed. */
  function TableDates<K>(table: Option<map<K, Date>>): set<Date>
  {
    if table.Some? then table.value.Values else {}
  }

  /** The memoization state of the Date singleton.  `installed` is whether Date
      responds to civil_without_memoization; each table is an instance variable of
      Date, None once it has been removed. */
  class Memoize {
    var installed: bool
    var civilDates: Option<map<CivilKey, Date>>
    var strptimeDates: Option<map<StrptimeKey, Date>>
    var parseDates: Option<map<ParseKey, Date>>

    /** The code Date::Memoize calls but does not define. */
    const libcStrptime: LibcStrptime
    const rubyStrptime: RubyStrptime
    const rubyParse: RubyParse

    /** Every Date the three tables hold. */
    function Stored(): set<Date>
      reads this
    {
      TableDates(civilDates) + TableDates(strptimeDates) + TableDates(parseDates)
    }

    /** The tables exist exactly while memoization is installed, and every stored
        Date is the one its key stands for.  Stored Dates keep a consistent civil
        cache, and those of the civil table, made by Date.new, hold it already. */
    predicate Valid()
      reads this, Stored()
    {
      (civilDates.Some? <==> installed)
      && (strptimeDates.Some? <==> installed)
      && (parseDates.Some? <==> installed)
      && (civilDates.Some? ==> CivilTable(civilDates.value))
      && (strptimeDates.Some? ==> StrptimeTable(strptimeDates.value, libcStrptime, rubyStrptime))
      && (parseDates.Some? ==> ParseTable(parseDates.value, rubyParse))
    }

    /** Requiring date/memoize: Date starts without memoization and the file ends
        with Memoize.install!. */
    constructor (libc: LibcStrptime, ruby: RubyStrptime, parse: RubyParse)
      ensures Valid() && installed
      ensures civilDates == Some(map[]) && strptimeDates == Some(map[]) && parseDates == Some(map[])
      ensures libcStrptime == libc && rubyStrptime == ruby && rubyParse == parse
    {
      installed := false;
      civilDates, strptimeDates, parseDates := None, None, None;
      libcStrptime, rubyStrptime, rubyParse := libc, ruby, parse;
      new;
      Install();
    }

    /** Memoize.installed? */
    function IsInstalled(): (b: bool)
      requires Valid()
      reads this, Stored()
      ensures b <==> civilDates.Some? && strptimeDates.Some? && parseDates.Some?
    {
      installed
    }

    /** Memoize.extend_object(Date): the four methods are moved aside and three
        empty tables are set up. */
    method ExtendObject()
      requires Valid() && !installed
      modifies this
      ensures Valid() && installed
      ensures civilDates == Some(map[]) && strptimeDates == Some(map[]) && parseDates == Some(map[])
    {
      installed := true;
      civilDates, strptimeDates, parseDates := Some(map[]), Some(map[]), Some(map[]);
    }

    /** Memoize.unextend_object(Date): the original methods come back and the
        tables are removed.  Without memoization in place, the first alias_method,
        for `new` (the first replaced method), finds no new_without_memoization
        and raises NameError before anything changes. */
    method UnextendObject() returns (r: Result<()>)
      requires Valid()
      modifies this
      ensures Valid()
      ensures old(installed) ==> r.Ok? && !installed && civilDates.None? && strptimeDates.None? && parseDates.None?
      ensures !old(installed) ==> r == Err(NameError) && unchanged(this)
    {
      if !installed {
        return Err(NameError);
      }
      installed := false;
      civilDates, strptimeDates, parseDates := None, None, None;
      r := Ok(());
    }

    /** Memoize.install!: extends Date unless memoization is already installed,
        in which case the tables are kept as they are. */
    method Install()
      requires Valid()
      modifies this
      ensures Valid() && installed
      ensures old(installed) ==> unchanged(this)
      ensures !old(installed) ==> civilDates == Some(map[]) && strptimeDates == Some(map[]) && parseDates == Some(map[])
    {
      if !IsInstalled() {
        ExtendObject();
      }
    }

    /** Memoize.uninstall!: unextends Date if memoization is installed; calling
        it again changes nothing. */
    method Uninstall()
      requires Valid()
      modifies this
      ensures Valid() && !installed && civilDates.None? && strptimeDates.None? && parseDates.None?
      ensures !old(installed) ==> unchanged(this)
    {
      if IsInstalled() {
        var r := UnextendObject();
      }
    }

    /** The `h[key] = ...` of the civil table's default block: the Date made
        for a missing key is stored under it. */
    method RememberCivil(k: CivilKey, date: Date)
      requires Valid() && installed
      requires CivilEntry(k, date) && CivilCached(k, date)
      modifies this
      ensures Valid() && installed
      ensures civilDates == Some(old(civilDates).value[k := date])
      ensures strptimeDates == old(strptimeDates) && parseDates == old(parseDates)
    {
      CivilStoreKeepsEntries(civilDates.value, k, date);
      civilDates := Some(civilDates.value[k := date]);
    }

    /** The same for the strptime table. */
    method RememberStrptime(k: StrptimeKey, date: Date)
      requires Valid() && installed
      requires StrptimeEntry(k, date, libcStrptime, rubyStrptime) && date.Valid()
      modifies this
      ensures Valid() && installed
      ensures strptimeDates == Some(old(strptimeDates).value[k := date])
      ensures civilDates == old(civilDates) && parseDates == old(parseDates)
    {
      StrptimeStoreKeepsEntries(strptimeDates.value, k, date, libcStrptime, rubyStrptime);
      strptimeDates := Some(strptimeDates.value[k := date]);
    }

    /** The same for the parse table. */
    method RememberParse(k: ParseKey, date: Date)
      requires Valid() && installed
      requires ParseEntry(k, date, rubyParse) && date.Valid()
      modifies this
      ensures Valid() && installed
      ensures parseDates == Some(old(parseDates).value[k := date])
      ensures civilDates == old(civilDates) && strptimeDates == old(strptimeDates)
    {
      ParseStoreKeepsEntries(parseDates.value, k, date, rubyParse);
      parseDates := Some(parseDates.value[k := date]);
    }

    /** Date.civil(y, m, d, sg), and Date.new, its alias.  Installed, it looks the
        filled-in arguments up, making and storing the Date on a miss; otherwise it
        is the extension's Date.new. */
    method Civil(args: CivilArgs) returns (r: Result<Date>)
      requires Valid()
      modifies this
      ensures Valid() && installed == old(installed)
      ensures strptimeDates == old(strptimeDates) && parseDates == old(parseDates)
      ensures var k := FillCivil(args);
        && (r.Ok? <==> NewAjd(k.y, k.m, k.d, k.sg).Ok?)
        && (r.Err? ==> r.error == ArgumentError && civilDates == old(civilDates))
        && (r.Ok? ==> CivilEntry(k, r.value) && r.value.Valid() && r.value.civilCache.Some?)
        && (installed && k in old(civilDates).value ==>
              r == Ok(old(civilDates).value[k]) && civilDates == old(civilDates))
        && (installed && k !in old(civilDates).value && r.Ok? ==>
              fresh(r.value) && civilDates == Some(old(civilDates).value[k := r.value]))
        && (!installed ==> civilDates.None? && (r.Ok? ==> fresh(r.value)))
    {
      var k := FillCivil(args);
      if installed && k in civilDates.value {
        CivilEntryValid(k, civilDates.value[k]);
        return Ok(civilDates.value[k]);
      }
      r := NewWithoutMemoization(k);
      if installed && r.Ok? {
        RememberCivil(k, r.value);
      }
    }

    /** Date.strptime(str, fmt, sg), memoized in the same way. */
    method Strptime(args: StrptimeArgs) returns (r: Result<Date>)
      requires Valid()
      modifies this
      ensures Valid() && installed == old(installed)
      ensures civilDates == old(civilDates) && parseDates == old(parseDates)
      ensures var k := FillStrptime(args);
        && (r.Ok? <==> StrptimeAjd(k.str, k.fmt, k.sg, libcStrptime, rubyStrptime).Ok?)
        && (r.Err? ==>
              r.error == StrptimeAjd(k.str, k.fmt, k.sg, libcStrptime, rubyStrptime).error
              && strptimeDates == old(strptimeDates))
        && (r.Ok? ==> StrptimeEntry(k, r.value, libcStrptime, rubyStrptime) && r.value.Valid())
        && (installed && k in old(strptimeDates).value ==>
              r == Ok(old(strptimeDates).value[k]) && strptimeDates == old(strptimeDates))
        && (installed && k !in old(strptimeDates).value && r.Ok? ==>
              fresh(r.value) && strptimeDates == Some(old(strptimeDates).value[k := r.value]))
        && (!installed ==> strptimeDates.None? && (r.Ok? ==> fresh(r.value)))
    {
      var k := FillStrptime(args);
      if installed && k in strptimeDates.value {
        return Ok(strptimeDates.value[k]);
      }
      r := Dates.Strptime(k.str, k.fmt, k.sg, libcStrptime, rubyStrptime);
      if installed && r.Ok? {
        RememberStrptime(k, r.value);
      }
    }

    /** Date.parse(str, comp, sg), memoized in the same way. */
    method Parse(args: ParseArgs) returns (r: Result<Date>)
      requires Valid()
      modifies this
      ensures Valid() && installed == old(installed)
      ensures civilDates == old(civilDates) && strptimeDates == old(strptimeDates)
      ensures var k := FillParse(args);
        && (r.Ok? <==> rubyParse(k.str, k.comp, k.sg).Ok?)
        && (r.Err? ==> r.error == rubyParse(k.str, k.comp, k.sg).error && parseDates == old(parseDates))
        && (r.Ok? ==> ParseEntry(k, r.value, rubyParse) && r.value.Valid())
        && (installed && k in old(parseDates).value ==>
              r == Ok(old(parseDates).value[k]) && parseDates == old(parseDates))
        && (installed && k !in old(parseDates).value && r.Ok? ==>
              fresh(r.value) && parseDates == Some(old(parseDates).value[k := r.value]))
        && (!installed ==> parseDates.None? && (r.Ok? ==> fresh(r.value)))
    {
      var k := FillParse(args);
      if installed && k in parseDates.value {
        return Ok(parseDates.value[k]);
      }
      var ajd := rubyParse(k.str, k.comp, k.sg);
      if ajd.Err? {
        return Err(ajd.error);
      }
      var date := new Date(ajd.value, k.sg);
      r := Ok(date);
      if installed {
        RememberParse(k, date);
      }
    }
  }

  // ---------------------------------------------------------------------------
  // The behaviour the memoization tests rely on

  /** Asking twice for the same civil date gives the same object (or the same
      error) the second time. */
  method RepeatedCivil(memo: Memoize, args: CivilArgs) returns (first: Result<Date>, second: Result<Date>)
    requires memo.Valid() && memo.installed
    modifies memo
    ensures first == second
    ensures var k := FillCivil(args); first.Ok? <==> NewAjd(k.y, k.m, k.d, k.sg).Ok?
  {
    first := memo.Civil(args);
    second := memo.Civil(args);
  }

  /** Date.civil() and Date.civil(-4712, 1, 1, ITALY) share one table entry. */
  method DefaultsShareEntry(memo: Memoize) returns (implicit: Result<Date>, explicit: Result<Date>)
    requires memo.Valid() && memo.installed
    modifies memo
    ensures implicit == explicit
  {
    implicit := memo.Civil(CivilArgs(None, None, None, None));
    explicit := memo.Civil(CivilArgs(Some(-4712), Some(1), Some(1), Some(Italy)));
  }

  /** A Date made without memoization and one made with it are equal under
      Date#<=> but are different objects; asking again with memoization returns
      the memoized one. */
  method StrptimeAcrossReinstall(memo: Memoize, args: StrptimeArgs)
    returns (expected: Result<Date>, actual: Result<Date>, again: Result<Date>)
    requires memo.Valid() && memo.installed
    modifies memo
    ensures expected.Ok? <==> actual.Ok?
    ensures expected.Ok? ==>
      expected.value != actual.value && expected.value.Compare(DateArg(actual.value)) == Some(0)
    ensures again == actual
  {
    memo.Uninstall();
    expected := memo.Strptime(args);
    memo.Install();
    actual := memo.Strptime(args);
    if expected.Ok? {
      CompareZeroIffSameDay(expected.value, actual.value);
    }
    again := memo.Strptime(args);
  }

  /** The same for Date.parse. */
  method ParseAcrossReinstall(memo: Memoize, args: ParseArgs)
    returns (expected: Result<Date>, actual: Result<Date>, again: Result<Date>)
    requires memo.Valid() && memo.installed
    modifies memo
    ensures expected.Ok? <==> actual.Ok?
    ensures expected.Ok? ==>
      expected.value != actual.value && expected.value.Compare(DateArg(actual.value)) == Some(0)
    ensures again == actual
  {
    memo.Uninstall();
    expected := memo.Parse(args);
    memo.Install();
    actual := memo.Parse(args);
    if expected.Ok? {
      CompareZeroIffSameDay(expected.value, actual.value);
    }
    again := memo.Parse(args);
  }

  /** Uninstalling is detected by installed? and leaves no table behind; a
      second uninstall changes nothing. */
  method UninstallTwice(memo: Memoize) returns (installedAfter: bool)
    requires memo.Valid()
    modifies memo
    ensures !installedAfter
    ensures memo.civilDates.None? && memo.strptimeDates.None? && memo.parseDates.None?
  {
    memo.Uninstall();
    memo.Uninstall();
    installedAfter := memo.IsInstalled();
  }
}
