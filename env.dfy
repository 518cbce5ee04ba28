/**
 * The action's configuration, read from the process environment. The
 * environment is a map from variable name to value; a name that is not in
 * the map is an unset variable. Each reader returns what the Python
 * version returns, and each `raise ValueError` is an `Err`.
 */
module Env {
  import opened Wrappers
  import opened Text

  /** The variables `get_env_vars` reads. */
  datatype Variable =
    | Organization | RepositoryVar | GhAppId | GhAppInstallationId | GhAppPrivateKey
    | GithubAppEnterpriseOnly | GhToken | GhEnterpriseUrl | StartDate | EndDate
    | SponsorInfo | LinkToProfile | IncludeForks

  /** The name under which each variable is looked up. */
  function Name(v: Variable): string {
    match v
    case Organization => "ORGANIZATION"
    case RepositoryVar => "REPOSITORY"
    case GhAppId => "GH_APP_ID"
    case GhAppInstallationId => "GH_APP_INSTALLATION_ID"
    case GhAppPrivateKey => "GH_APP_PRIVATE_KEY"
    case GithubAppEnterpriseOnly => "GITHUB_APP_ENTERPRISE_ONLY"
    case GhToken => "GH_TOKEN"
    case GhEnterpriseUrl => "GH_ENTERPRISE_URL"
    case StartDate => "START_DATE"
    case EndDate => "END_DATE"
    case SponsorInfo => "SPONSOR_INFO"
    case LinkToProfile => "LINK_TO_PROFILE"
    case IncludeForks => "INCLUDE_FORKS"
  }

  /** Distinct variables have distinct names, so a map keyed by variable loses nothing. */
  lemma NamesDistinct(v: Variable, w: Variable)
    requires v != w
    ensures Name(v) != Name(w)
  {
  }

  /**
   * The values of the variables the program reads; a variable that is not
   * in the map is unset.
   */
  type Environment = map<Variable, string>

  /** `os.getenv(name)`: the value, or `None` when unset. */
  function GetEnv(env: Environment, name: Variable): Option<string> {
    if name in env then Some(env[name]) else None
  }

  /** `os.getenv(name, default)`. */
  function GetEnvOr(env: Environment, name: Variable, default: string): string {
    if name in env then env[name] else default
  }

  /** Python truthiness of an optional string: set and not empty. */
  predicate Truthy(v: Option<string>) {
    v.Some? && v.value != ""
  }

  /** Python truthiness of an optional integer: set and not zero. */
  predicate IntTruthy(v: Option<int>) {
    v.Some? && v.value != 0
  }

  // ---------------------------------------------------------------------
  // Booleans

  /**
   * `get_bool_env_var`: an unset or empty variable gives the default;
   * any other value is true exactly when, stripped and lower-cased, it
   * reads "true".
   */
  function GetBoolEnvVar(env: Environment, name: Variable, default: bool): (r: bool)
    ensures GetEnvOr(env, name, "") == "" ==> r == default
    ensures GetEnvOr(env, name, "") != "" ==> (r <==> Lower(Strip(env[name])) == "true")
  {
    var ev := GetEnvOr(env, name, "");
    // The source returns the default only when it is true; with a false
    // default, "" compared with "true" gives false, which is the default too.
    if ev == "" then default else Lower(Strip(ev)) == "true"
  }

  /** A value made only of whitespace is false, even when the default is true. */
  lemma BoolWhitespaceOnlyIsFalse(env: Environment, name: Variable, default: bool)
    requires name in env && env[name] != [] && AllSpace(env[name])
    ensures !GetBoolEnvVar(env, name, default)
  {
    StripPadded(env[name], "", "");
    assert env[name] + "" + "" == env[name];
  }

  /** Any spelling of "true" in any letter case, padded with whitespace, is true. */
  lemma BoolAcceptsPaddedTrue(env: Environment, name: Variable, default: bool,
                              lead: string, word: string, trail: string)
    requires AllSpace(lead) && AllSpace(trail) && Lower(word) == "true"
    requires name in env && env[name] == lead + word + trail
    ensures GetBoolEnvVar(env, name, default)
  {
    assert LowerChar(word[0]) == 't' && LowerChar(word[3]) == 'e';
    StripPadded(lead, word, trail);
  }

  // ---------------------------------------------------------------------
  // Integers

  /**
   * The most digits `int()` converts from a string: the default of
   * `sys.int_info.default_max_str_digits`. Beyond it `int()` raises
   * `ValueError`.
   */
  const MaxStrDigits := 4300

  /**
   * The text Python's `int()` accepts once surrounding whitespace is
   * stripped, limited to ASCII: an optional sign and from one to
   * `MaxStrDigits` digits.
   */
  predicate IsSignedDecimal(t: string) {
    var digits := if t != [] && (t[0] == '+' || t[0] == '-') then t[1..] else t;
    digits != [] && |digits| <= MaxStrDigits && AllDigits(digits)
  }

  /**
   * The ASCII separators U+001C..U+001F: `str.isspace()` holds for them,
   * but `int()` does not skip them around the digits.
   */
  predicate IsSeparatorChar(c: char) {
    '\U{1C}' <= c <= '\U{1F}'
  }

  /** Whitespace `int()` skips on either side of the number. */
  predicate IsIntSpace(c: char) {
    IsSpace(c) && !IsSeparatorChar(c)
  }

  predicate AllIntSpace(s: string) {
    forall i :: 0 <= i < |s| ==> IsIntSpace(s[i])
  }

  predicate HasSeparator(s: string) {
    exists i :: 0 <= i < |s| && IsSeparatorChar(s[i])
  }

  /**
   * The number an unpadded `int()` literal denotes: an optional sign and
   * ASCII digits, no more of them than the digit limit allows.
   */
  function DecimalLiteral(t: string): (r: Option<int>)
    ensures r.Some? <==> IsSignedDecimal(t)
  {
    if t == [] then None
    else if t[0] == '+' || t[0] == '-' then
      if 1 < |t| <= MaxStrDigits + 1 && AllDigits(t[1..]) then
        var magnitude: int := DecimalValue(t[1..]);
        Some(if t[0] == '-' then -magnitude else magnitude)
      else None
    else if |t| <= MaxStrDigits && AllDigits(t) then Some(DecimalValue(t))
    else None
  }

  /**
   * `int(s)`, with `None` in place of `ValueError`. A separator character
   * anywhere in `s` makes it fail: around the digits `int()` does not skip
   * it, and among them it is not a digit. Without one, `int()` skips
   * exactly what `strip()` removes. ParseIntPadded states the result for
   * every way of padding a literal.
   */
  function ParseInt(s: string): (r: Option<int>)
    ensures r.Some? <==> !HasSeparator(s) && IsSignedDecimal(Strip(s))
  {
    if HasSeparator(s) then None else DecimalLiteral(Strip(s))
  }

  /**
   * `int()` skips exactly the whitespace around the literal that it
   * treats as padding: for any such padding, the result is the value of
   * the literal inside it. Every string splits this way.
   */
  lemma ParseIntPadded(lead: string, t: string, trail: string)
    requires AllIntSpace(lead) && AllIntSpace(trail)
    requires t == [] || (!IsIntSpace(t[0]) && !IsIntSpace(t[|t| - 1]))
    ensures ParseInt(lead + t + trail) == DecimalLiteral(t)
  {
    var s := lead + t + trail;
    if HasSeparator(s) {
      var i :| 0 <= i < |s| && IsSeparatorChar(s[i]);
      assert forall j :: 0 <= j < |lead| ==> s[j] == lead[j];
      assert forall j :: |lead| + |t| <= j < |s| ==> s[j] == trail[j - |lead| - |t|];
      assert |lead| <= i < |lead| + |t| && t[i - |lead|] == s[i];
      SeparatorNotLiteral(t, i - |lead|);
    } else {
      assert forall i :: 0 <= i < |t| ==> t[i] == s[|lead| + i];
      assert forall i :: 0 <= i < |lead| ==> lead[i] == s[i];
      assert forall i :: 0 <= i < |trail| ==> trail[i] == s[|lead| + |t| + i];
      StripPadded(lead, t, trail);
    }
  }

  /** A literal holding a separator character is no number. */
  lemma SeparatorNotLiteral(t: string, k: nat)
    requires k < |t| && IsSeparatorChar(t[k])
    ensures !IsSignedDecimal(t)
  {
    if k > 0 && (t[0] == '+' || t[0] == '-') {
      assert t[1..][k - 1] == t[k];
    }
  }

  /** A separator character before a number makes `int()` fail, although `strip()` would remove it. */
  lemma SeparatorPaddingRefused(n: int)
    ensures Strip("\U{1C}" + IntToDecimal(n)) == IntToDecimal(n)
    ensures ParseInt("\U{1C}" + IntToDecimal(n)) == None
  {
    var s := "\U{1C}" + IntToDecimal(n);
    assert IsSeparatorChar(s[0]);
    StripPadded("\U{1C}", IntToDecimal(n), "");
    assert "\U{1C}" + IntToDecimal(n) + "" == s;
  }

  /** More digits than the limit make `int()` fail, whatever their value. */
  lemma TooManyDigitsRefused(s: string)
    requires AllDigits(s) && |s| > MaxStrDigits
    ensures ParseInt(s) == None
  {
    assert IsDigit(s[0]) && IsDigit(s[|s| - 1]);
    assert "" + s + "" == s;
    ParseIntPadded("", s, "");
    LiteralTooLong(s);
  }

  lemma LiteralTooLong(s: string)
    requires s != [] && IsDigit(s[0]) && |s| > MaxStrDigits
    ensures DecimalLiteral(s) == None
  {
  }

  /** `n` has at most `MaxStrDigits` decimal digits. */
  predicate WithinDigitLimit(n: int) {
    |NatToDecimal(if n < 0 then -n else n)| <= MaxStrDigits
  }

  /**
   * The decimal rendering of `n`: Python's `str(n)` when `n` is within
   * the digit limit (beyond it `str(n)` raises as `int()` does).
   */
  function IntToDecimal(n: int): (r: string)
    ensures r != [] && !IsSpace(r[0]) && !IsSpace(r[|r| - 1])
  {
    if n < 0 then "-" + NatToDecimal(-n) else NatToDecimal(n)
  }

  /**
   * The decimal rendering of any integer within the digit limit, padded
   * with whitespace `int()` skips, parses back to it.
   */
  lemma ParseIntRoundTrip(n: int, lead: string, trail: string)
    requires WithinDigitLimit(n)
    requires AllIntSpace(lead) && AllIntSpace(trail)
    ensures ParseInt(lead + IntToDecimal(n) + trail) == Some(n)
  {
    var t := IntToDecimal(n);
    assert !IsIntSpace(t[0]) && !IsIntSpace(t[|t| - 1]);
    ParseIntPadded(lead, t, trail);
    LiteralOfDecimal(n);
  }

  lemma LiteralOfDecimal(n: int)
    requires WithinDigitLimit(n)
    ensures DecimalLiteral(IntToDecimal(n)) == Some(n)
  {
    if n < 0 {
      LiteralNegative(-n);
    } else {
      LiteralNonNegative(n);
    }
  }

  lemma LiteralNonNegative(n: nat)
    requires |NatToDecimal(n)| <= MaxStrDigits
    ensures DecimalLiteral(NatToDecimal(n)) == Some(n)
  {
    var t := NatToDecimal(n);
    assert IsDigit(t[0]);
    NatToDecimalValue(n);
  }

  lemma LiteralNegative(m: nat)
    requires |NatToDecimal(m)| <= MaxStrDigits
    ensures DecimalLiteral("-" + NatToDecimal(m)) == Some(-(m as int))
  {
    var digits := NatToDecimal(m);
    assert ("-" + digits)[1..] == digits;
    NatToDecimalValue(m);
  }

  /** `get_int_env_var`: `None` when unset, blank or not a decimal integer. */
  function GetIntEnvVar(env: Environment, name: Variable): (r: Option<int>)
    ensures name !in env ==> r == None
    ensures name in env && AllSpace(env[name]) ==> r == None
    ensures name in env && !AllSpace(env[name]) ==> r == ParseInt(env[name])
  {
    if name !in env then None
    else
      StripEmptyIff(env[name]);
      if Strip(env[name]) == "" then None else ParseInt(env[name])
  }

  // ---------------------------------------------------------------------
  // Dates

  datatype Date = Date(year: int, month: int, day: int)

  /** Gregorian leap years. */
  predicate IsLeapYear(y: int) {
    y % 4 == 0 && (y % 100 != 0 || y % 400 == 0)
  }

  function DaysInMonth(y: int, m: int): (n: int)
    requires 1 <= m <= 12
    ensures 28 <= n <= 31
  {
    if m == 2 then (if IsLeapYear(y) then 29 else 28)
    else if m == 4 || m == 6 || m == 9 || m == 11 then 30
    else 31
  }

  /** A date Python's `datetime.date` accepts: years 1 to 9999, real month lengths. */
  predicate IsCalendarDate(d: Date) {
    1 <= d.year <= 9999 && 1 <= d.month <= 12 && 1 <= d.day <= DaysInMonth(d.year, d.month)
  }

  /** `%Y`: exactly four digits. */
  function YearField(t: string): (r: Option<int>)
    ensures r.Some? ==> 0 <= r.value <= 9999
  {
    if |t| == 4 && AllDigits(t) then
      DecimalValueBound(t);
      assert Pow10(4) == 10000;
      Some(DecimalValue(t))
    else None
  }

  /** `%m`: one or two digits naming a month, so "1" and "01" both mean January. */
  function MonthField(t: string): (r: Option<int>)
    ensures r.Some? ==> 1 <= r.value <= 12
  {
    if 1 <= |t| <= 2 && AllDigits(t) && 1 <= DecimalValue(t) <= 12 then Some(DecimalValue(t))
    else None
  }

  /** `%d`: one or two digits from 1 to 31, or a space followed by one digit from 1 to 9. */
  function DayField(t: string): (r: Option<int>)
    ensures r.Some? ==> 1 <= r.value <= 31
  {
    if 1 <= |t| <= 2 && AllDigits(t) && 1 <= DecimalValue(t) <= 31 then Some(DecimalValue(t))
    else if |t| == 2 && t[0] == ' ' && '1' <= t[1] <= '9' then Some(DigitValue(t[1]))
    else None
  }

  /**
   * `datetime.strptime(s, "%Y-%m-%d")`: three dash-separated fields that
   * together name a real calendar date.
   */
  function ParseDate(s: string): (r: Option<Date>)
    ensures r.Some? ==> IsCalendarDate(r.value)
  {
    var parts := Split(s, '-');
    if |parts| != 3 then None
    else
      match (YearField(parts[0]), MonthField(parts[1]), DayField(parts[2]))
      case (Some(y), Some(m), Some(d)) =>
        if IsCalendarDate(Date(y, m, d)) then Some(Date(y, m, d)) else None
      case _ => None
  }

  /** The canonical `YYYY-MM-DD` rendering of a date. */
  function FormatDate(d: Date): string
    requires 0 <= d.year && 0 <= d.month && 0 <= d.day
  {
    PaddedDecimal(d.year, 4) + "-" + PaddedDecimal(d.month, 2) + "-" + PaddedDecimal(d.day, 2)
  }

  /** A string with two dashes splits into the three fields around them. */
  lemma SplitDateFields(ys: string, ms: string, ds: string)
    requires '-' !in ys && '-' !in ms && '-' !in ds
    ensures Split(ys + "-" + ms + "-" + ds, '-') == [ys, ms, ds]
  {
    assert Join([ys, ms, ds], '-') == ys + "-" + ms + "-" + ds by {
      assert Join([ms, ds], '-') == ms + "-" + ds;
      assert [ys, ms, ds][1..] == [ms, ds];
    }
    SplitJoin([ys, ms, ds], '-');
  }

  /**
   * A `YYYY-MM-DD` string whose fields are in range parses to those
   * fields exactly when they form a calendar date.
   */
  lemma ParseFormattedFields(y: int, m: int, d: int)
    requires 1 <= y <= 9999 && 1 <= m <= 12 && 1 <= d <= 31
    ensures ParseDate(FormatDate(Date(y, m, d))) ==
            if IsCalendarDate(Date(y, m, d)) then Some(Date(y, m, d)) else None
  {
    var ys, ms, ds := PaddedDecimal(y, 4), PaddedDecimal(m, 2), PaddedDecimal(d, 2);
    assert Pow10(4) == 10000 && Pow10(2) == 100;
    PaddedDecimalValue(y, 4);
    PaddedDecimalValue(m, 2);
    PaddedDecimalValue(d, 2);
    assert '-' !in ys && '-' !in ms && '-' !in ds;
    SplitDateFields(ys, ms, ds);
  }

  /**
   * Like `strptime`, the parser also takes a one-digit month, and a day
   * written as one digit or as a space and one digit.
   */
  lemma ShortFieldsAccepted(y: int, m: int, d: int)
    requires 1 <= y <= 9999 && 1 <= m <= 9 && 1 <= d <= 9
    ensures ParseDate(PaddedDecimal(y, 4) + "-" + [DigitChar(m)] + "-" + [DigitChar(d)]) == Some(Date(y, m, d))
    ensures ParseDate(PaddedDecimal(y, 4) + "-" + [DigitChar(m)] + "-" + [' ', DigitChar(d)]) == Some(Date(y, m, d))
  {
    var ys := PaddedDecimal(y, 4);
    assert Pow10(4) == 10000;
    PaddedDecimalValue(y, 4);
    var ms, ds, spaced := [DigitChar(m)], [DigitChar(d)], [' ', DigitChar(d)];
    assert DecimalValue(ms) == m && DecimalValue(ds) == d by {
      assert ms[..0] == [] && ds[..0] == [];
    }
    assert YearField(ys) == Some(y);
    assert MonthField(ms) == Some(m);
    assert DayField(ds) == Some(d);
    assert !IsDigit(spaced[0]) && '1' <= spaced[1] <= '9';
    assert DayField(spaced) == Some(d);
    assert DaysInMonth(y, m) >= 28;
    ParseFields(ys, ms, ds, Date(y, m, d));
    ParseFields(ys, ms, spaced, Date(y, m, d));
  }

  lemma ParseFields(ys: string, ms: string, ds: string, date: Date)
    requires '-' !in ys && '-' !in ms && '-' !in ds
    requires YearField(ys) == Some(date.year) && MonthField(ms) == Some(date.month)
    requires DayField(ds) == Some(date.day) && IsCalendarDate(date)
    ensures ParseDate(ys + "-" + ms + "-" + ds) == Some(date)
  {
    SplitDateFields(ys, ms, ds);
  }

  /**
   * What `strptime(s, "%Y-%m-%d")` accepts: exactly the strings made of a
   * year, a month and a day field joined by dashes whose values form a
   * calendar date, and it returns that date.
   */
  lemma ParseDateMeaning(s: string, date: Date)
    ensures ParseDate(s) == Some(date) <==>
              exists ys, ms, ds :: s == ys + "-" + ms + "-" + ds
                && '-' !in ys && '-' !in ms && '-' !in ds
                && YearField(ys) == Some(date.year) && MonthField(ms) == Some(date.month)
                && DayField(ds) == Some(date.day) && IsCalendarDate(date)
  {
    if ParseDate(s) == Some(date) {
      var parts := Split(s, '-');
      JoinSplit(s, '-');
      assert Join(parts, '-') == parts[0] + "-" + parts[1] + "-" + parts[2] by {
        assert parts[1..][1..] == [parts[2]];
        assert Join(parts[1..], '-') == parts[1] + "-" + parts[2];
      }
      assert '-' !in parts[0] && '-' !in parts[1] && '-' !in parts[2];
    }
    if exists ys, ms, ds :: s == ys + "-" + ms + "-" + ds
         && '-' !in ys && '-' !in ms && '-' !in ds
         && YearField(ys) == Some(date.year) && MonthField(ms) == Some(date.month)
         && DayField(ds) == Some(date.day) && IsCalendarDate(date) {
      var ys, ms, ds :| s == ys + "-" + ms + "-" + ds
         && '-' !in ys && '-' !in ms && '-' !in ds
         && YearField(ys) == Some(date.year) && MonthField(ms) == Some(date.month)
         && DayField(ds) == Some(date.day) && IsCalendarDate(date);
      ParseFields(ys, ms, ds, date);
    }
  }

  /** Every calendar date's `YYYY-MM-DD` rendering parses back to it. */
  lemma ParseFormatRoundTrip(d: Date)
    requires IsCalendarDate(d)
    ensures ParseDate(FormatDate(d)) == Some(d)
  {
    ParseFormattedFields(d.year, d.month, d.day);
  }

  /** February 29 of a year is accepted exactly when the year is a leap year. */
  lemma LeapDayAccepted(y: int)
    requires 1 <= y <= 9999
    ensures ParseDate(FormatDate(Date(y, 2, 29))).Some? <==> IsLeapYear(y)
  {
    ParseFormattedFields(y, 2, 29);
  }

  /** A day beyond the length of its month is refused. */
  lemma DayBeyondMonthRefused(y: int, m: int, d: int)
    requires 1 <= y <= 9999 && 1 <= m <= 12 && DaysInMonth(y, m) < d <= 31
    ensures ParseDate(FormatDate(Date(y, m, d))) == None
  {
    ParseFormattedFields(y, m, d);
  }

  /** Errors `get_env_vars` raises. */
  datatype ConfigError = MissingTarget | IncompleteApp | MissingToken | BadDateFormat(variable: Variable)

  /** The text of each raised `ValueError`. */
  function Message(e: ConfigError): string {
    match e
    case MissingTarget =>
      "ORGANIZATION and REPOSITORY environment variables were not set. Please set one"
    case IncompleteApp =>
      "GH_APP_ID set and GH_APP_INSTALLATION_ID or GH_APP_PRIVATE_KEY variable not set"
    case MissingToken => "GH_TOKEN environment variable not set"
    case BadDateFormat(v) => Name(v) + " environment variable not in the format YYYY-MM-DD"
  }

  /** Each error has its own text, so the message tells which check failed and, for a date, which variable. */
  lemma MessagesDistinct(e: ConfigError, f: ConfigError)
    requires e != f
    ensures Message(e) != Message(f)
  {
    if e.BadDateFormat? && f.BadDateFormat? {
      DateMessagesDistinct(e.variable, f.variable);
    } else if e.BadDateFormat? {
      DateMessageEnd(e.variable);
      FixedMessageEnd(f);
    } else if f.BadDateFormat? {
      DateMessageEnd(f.variable);
      FixedMessageEnd(e);
    } else {
      FixedMessagesDistinct(e, f);
    }
  }

  /** The three fixed messages end in a letter other than 'D'. */
  lemma FixedMessageEnd(e: ConfigError)
    requires !e.BadDateFormat?
    ensures Message(e) != [] && Message(e)[|Message(e)| - 1] != 'D'
  {
  }

  /** The three fixed messages differ in length. */
  lemma FixedMessagesDistinct(e: ConfigError, f: ConfigError)
    requires !e.BadDateFormat? && !f.BadDateFormat? && e != f
    ensures |Message(e)| != |Message(f)|
  {
    FixedMessageLength(e);
    FixedMessageLength(f);
  }

  lemma FixedMessageLength(e: ConfigError)
    requires !e.BadDateFormat?
    ensures e.MissingTarget? ==> |Message(e)| == 78
    ensures e.IncompleteApp? ==> |Message(e)| == 79
    ensures e.MissingToken? ==> |Message(e)| == 37
  {
  }

  /** A date error's message ends in 'D'. */
  lemma DateMessageEnd(v: Variable)
    ensures Message(BadDateFormat(v))[|Message(BadDateFormat(v))| - 1] == 'D'
  {
  }

  lemma DateMessagesDistinct(v: Variable, w: Variable)
    requires v != w
    ensures Message(BadDateFormat(v)) != Message(BadDateFormat(w))
  {
    NamesDistinct(v, w);
    var m, n := Message(BadDateFormat(v)), Message(BadDateFormat(w));
    if |Name(v)| == |Name(w)| {
      assert m[..|Name(v)|] == Name(v) && n[..|Name(w)|] == Name(w);
    }
  }

  /**
   * `validate_date_format`: an unset or empty variable gives "", a
   * calendar date is returned unchanged, anything else is an error
   * naming the variable.
   */
  function ValidateDateFormat(env: Environment, name: Variable): (r: Result<string, ConfigError>)
    ensures r.Ok? ==> r.value == GetEnvOr(env, name, "")
    ensures r.Ok? <==> GetEnvOr(env, name, "") == "" || ParseDate(env[name]).Some?
    ensures r.Err? ==> r.error == BadDateFormat(name)
  {
    var v := GetEnvOr(env, name, "");
    if v == "" then Ok(v)
    else if ParseDate(v).Some? then Ok(v)
    else Err(BadDateFormat(name))
  }

  /** A variable holding the `YYYY-MM-DD` rendering of a calendar date is accepted as it is. */
  lemma ValidateFormattedDate(env: Environment, name: Variable, d: Date)
    requires IsCalendarDate(d) && name in env && env[name] == FormatDate(d)
    ensures ValidateDateFormat(env, name) == Ok(FormatDate(d))
  {
    ParseFormatRoundTrip(d);
  }

  // ---------------------------------------------------------------------
  // The whole configuration

  /** The tuple `get_env_vars` returns, field by field. */
  datatype Config = Config(
    organization: Option<string>,
    repositoryList: seq<string>,
    ghAppId: Option<int>,
    ghAppInstallationId: Option<int>,
    ghAppPrivateKey: string,
    ghAppEnterpriseOnly: bool,
    token: string,
    ghe: string,
    startDate: string,
    endDate: string,
    sponsorInfo: bool,
    linkToProfile: bool,
    includeForks: bool)

  /** An organization or a repository is named. */
  predicate HasTarget(env: Environment) {
    Truthy(GetEnv(env, Organization)) || Truthy(GetEnv(env, RepositoryVar))
  }

  /** A non-zero app ID without a private key or without a non-zero installation ID. */
  predicate AppIdWithoutCompanions(env: Environment) {
    IntTruthy(GetIntEnvVar(env, GhAppId))
    && (GetEnvOr(env, GhAppPrivateKey, "") == ""
        || !IntTruthy(GetIntEnvVar(env, GhAppInstallationId)))
  }

  /** No app ID, no private key, no installation ID and no token. */
  predicate NoCredential(env: Environment) {
    !IntTruthy(GetIntEnvVar(env, GhAppId))
    && GetEnvOr(env, GhAppPrivateKey, "") == ""
    && !IntTruthy(GetIntEnvVar(env, GhAppInstallationId))
    && GetEnvOr(env, GhToken, "") == ""
  }

  /**
   * The repository list: nothing when REPOSITORY is unset or empty,
   * otherwise one stripped entry per comma-separated piece, in order.
   */
  function SplitRepositories(v: Option<string>): (r: seq<string>)
    ensures !Truthy(v) ==> r == []
    ensures Truthy(v) ==> |r| == Count(v.value, ',') + 1
    ensures Truthy(v) ==> forall i :: 0 <= i < |r| ==> r[i] == Strip(Split(v.value, ',')[i])
  {
    if Truthy(v) then
      var pieces := Split(v.value, ',');
      seq(|pieces|, i requires 0 <= i < |pieces| => Strip(pieces[i]))
    else []
  }

  /** Every variable `get_env_vars` reads, read the way it reads it. */
  function ReadConfig(env: Environment): Config {
    Config(
      GetEnv(env, Organization),
      SplitRepositories(GetEnv(env, RepositoryVar)),
      GetIntEnvVar(env, GhAppId),
      GetIntEnvVar(env, GhAppInstallationId),
      GetEnvOr(env, GhAppPrivateKey, ""),
      GetBoolEnvVar(env, GithubAppEnterpriseOnly, false),
      GetEnvOr(env, GhToken, ""),
      Strip(GetEnvOr(env, GhEnterpriseUrl, "")),
      GetEnvOr(env, StartDate, ""),
      GetEnvOr(env, EndDate, ""),
      GetBoolEnvVar(env, SponsorInfo, false),
      GetBoolEnvVar(env, LinkToProfile, false),
      GetBoolEnvVar(env, IncludeForks, true))
  }

  /**
   * How the configuration read treats each value: the enterprise URL is
   * stripped, so it is empty exactly when GH_ENTERPRISE_URL is blank and
   * otherwise neither starts nor ends with whitespace; the organization,
   * the token, the private key and both dates are kept exactly as given,
   * with "" for the unset strings; the two IDs go through `int()`.
   */
  lemma ReadConfigFields(env: Environment)
    ensures ReadConfig(env).ghe == [] <==> AllSpace(GetEnvOr(env, GhEnterpriseUrl, ""))
    ensures var ghe := ReadConfig(env).ghe;
            ghe == [] || (!IsSpace(ghe[0]) && !IsSpace(ghe[|ghe| - 1]))
    ensures ReadConfig(env).organization == GetEnv(env, Organization)
    ensures ReadConfig(env).token == GetEnvOr(env, GhToken, "")
    ensures ReadConfig(env).ghAppPrivateKey == GetEnvOr(env, GhAppPrivateKey, "")
    ensures ReadConfig(env).startDate == GetEnvOr(env, StartDate, "")
    ensures ReadConfig(env).endDate == GetEnvOr(env, EndDate, "")
    ensures ReadConfig(env).ghAppId == GetIntEnvVar(env, GhAppId)
    ensures ReadConfig(env).ghAppInstallationId == GetIntEnvVar(env, GhAppInstallationId)
  {
    StripEmptyIff(GetEnvOr(env, GhEnterpriseUrl, ""));
    StripEnds(GetEnvOr(env, GhEnterpriseUrl, ""));
  }

  /**
   * The target and credential checks of `get_env_vars`, in the order it
   * makes them: the first one that fails, or `None`.
   */
  function AccessError(env: Environment): (r: Option<ConfigError>)
    ensures r == None <==> HasTarget(env) && !AppIdWithoutCompanions(env) && !NoCredential(env)
    ensures !HasTarget(env) ==> r == Some(MissingTarget)
    ensures HasTarget(env) && AppIdWithoutCompanions(env) ==> r == Some(IncompleteApp)
    ensures HasTarget(env) && !AppIdWithoutCompanions(env) && NoCredential(env) ==> r == Some(MissingToken)
  {
    var organization := GetEnv(env, Organization);
    var repositories := GetEnv(env, RepositoryVar);
    if !Truthy(organization) && !Truthy(repositories) then Some(MissingTarget)
    else
      var appId := GetIntEnvVar(env, GhAppId);
      var privateKey := GetEnvOr(env, GhAppPrivateKey, "");
      var installationId := GetIntEnvVar(env, GhAppInstallationId);
      if IntTruthy(appId) && (privateKey == "" || !IntTruthy(installationId)) then Some(IncompleteApp)
      else
        var token := GetEnvOr(env, GhToken, "");
        if !IntTruthy(appId) && privateKey == "" && !IntTruthy(installationId) && token == "" then
          Some(MissingToken)
        else None
  }

  /**
   * `get_env_vars`, with the `.env` file already merged into `env`: the
   * target and credential errors first, then a bad START_DATE, then a bad
   * END_DATE; without any of them, the configuration as read.
   */
  function GetEnvVars(env: Environment): (r: Result<Config, ConfigError>)
    ensures r.Ok? <==>
              AccessError(env) == None
              && ValidateDateFormat(env, StartDate).Ok?
              && ValidateDateFormat(env, EndDate).Ok?
    ensures AccessError(env).Some? ==> r == Err(AccessError(env).value)
    ensures AccessError(env) == None && ValidateDateFormat(env, StartDate).Err? ==>
              r == Err(BadDateFormat(StartDate))
    ensures AccessError(env) == None && ValidateDateFormat(env, StartDate).Ok?
            && ValidateDateFormat(env, EndDate).Err? ==>
              r == Err(BadDateFormat(EndDate))
    ensures r.Ok? ==> r.value == ReadConfig(env)
  {
    match AccessError(env)
    case Some(e) => Err(e)
    case None =>
      match ValidateDateFormat(env, StartDate)
      case Err(e) => Err(e)
      case Ok(_) =>
        match ValidateDateFormat(env, EndDate)
        case Err(e) => Err(e)
        case Ok(_) => Ok(ReadConfig(env))
  }

  /**
   * Unset, the fork flag is on and the sponsor and profile-link flags are
   * off in the configuration read, which is what a successful `GetEnvVars`
   * returns.
   */
  lemma ConfigDefaults(env: Environment)
    requires IncludeForks !in env && SponsorInfo !in env && LinkToProfile !in env
    ensures ReadConfig(env).includeForks
    ensures !ReadConfig(env).sponsorInfo && !ReadConfig(env).linkToProfile
  {
  }

  /** An app ID of zero counts as no app ID, so a token alone then suffices. */
  lemma ZeroAppIdIsNoApp(env: Environment)
    requires HasTarget(env) && GhAppId in env && env[GhAppId] == "0"
    requires GetEnvOr(env, GhToken, "") != ""
    ensures GetEnvVars(env).Ok? || GetEnvVars(env).error.BadDateFormat?
  {
    ZeroAppIdReadsZero(env);
    TokenWithoutApp(env);
    OnlyDateErrorsRemain(env);
  }

  lemma ZeroAppIdReadsZero(env: Environment)
    requires GhAppId in env && env[GhAppId] == "0"
    ensures GetIntEnvVar(env, GhAppId) == Some(0)
  {
    ZeroParses(env[GhAppId]);
  }

  lemma TokenWithoutApp(env: Environment)
    requires HasTarget(env) && GetIntEnvVar(env, GhAppId) == Some(0)
    requires GetEnvOr(env, GhToken, "") != ""
    ensures AccessError(env) == None
  {
  }

  lemma OnlyDateErrorsRemain(env: Environment)
    requires AccessError(env) == None
    ensures GetEnvVars(env).Ok? || GetEnvVars(env).error.BadDateFormat?
  {
  }

  lemma ZeroParses(zero: string)
    requires zero == "0"
    ensures !AllSpace(zero) && ParseInt(zero) == Some(0)
  {
    assert !IsSpace(zero[0]);
    StripPadded("", zero, "");
    assert "" + zero + "" == zero;
    assert zero == NatToDecimal(0);
    assert !HasSeparator(zero);
    LiteralNonNegative(0);
  }
}
