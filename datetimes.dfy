/**
 * Naive date-times and the three ways the scheduler turns text into them:
 * `datetime.strptime` against a fixed directive list, `datetime.fromisoformat`
 * and the lenient fallback chain the listing pages use; and the one way it
 * turns them back into text, `strftime("%Y-%m-%d %H:%M:%S")`.
 */
module DateTimes {
  import opened Wrappers
  import opened Text

  /** A naive `datetime`: calendar fields down to microseconds, no time zone. */
  datatype DateTime = DateTime(year: int, month: int, day: int,
                               hour: int, minute: int, second: int, microsecond: int)

  predicate IsLeapYear(y: int) {
    y % 4 == 0 && (y % 100 != 0 || y % 400 == 0)
  }

  function DaysInMonth(y: int, m: int): (n: int)
    requires 1 <= m <= 12
    ensures 28 <= n <= 31
  {
    if m == 2 then (if IsLeapYear(y) then 29 else 28)
    else if m == 4 || m == 6 || m == 9 || m == 11 then 30
    else 31
  }

  function DaysInYear(y: int): int {
    if IsLeapYear(y) then 366 else 365
  }

  /** The ranges the `datetime` constructor enforces (MINYEAR 1 to MAXYEAR 9999). */
  predicate Valid(d: DateTime) {
    && 1 <= d.year <= 9999
    && 1 <= d.month <= 12
    && 1 <= d.day <= DaysInMonth(d.year, d.month)
    && 0 <= d.hour < 24
    && 0 <= d.minute < 60
    && 0 <= d.second < 60
    && 0 <= d.microsecond < 1000000
  }

  // ---------------------------------------------------------------------------
  // The time line

  /** Days in the years before `y`, counting from year 1. */
  function DaysBeforeYear(y: int): int {
    var p := y - 1;
    365 * p + p / 4 - p / 100 + p / 400
  }

  /** Days in the months of year `y` before month `m`. */
  function DaysBeforeMonth(y: int, m: int): int
    requires 1 <= m <= 12
  {
    [0, 31, 59, 90, 120, 151, 181, 212, 243, 273, 304, 334][m - 1]
      + (if m > 2 && IsLeapYear(y) then 1 else 0)
  }

  /** The proleptic Gregorian ordinal of the date, 1 for 0001-01-01 (`date.toordinal()`). */
  function Ordinal(d: DateTime): int
    requires 1 <= d.month <= 12
  {
    DaysBeforeYear(d.year) + DaysBeforeMonth(d.year, d.month) + d.day
  }

  const MicrosPerDay: int := 86400000000
  const MicrosPerHour: int := 3600000000

  /** Microseconds since midnight. */
  function TimeOfDay(d: DateTime): int {
    ((d.hour * 60 + d.minute) * 60 + d.second) * 1000000 + d.microsecond
  }

  /** The point on the time line: microseconds since the start of the ordinal calendar. */
  function Instant(d: DateTime): int
    requires Valid(d)
  {
    Ordinal(d) * MicrosPerDay + TimeOfDay(d)
  }

  /** `a < b` as Python compares two naive datetimes: field by field, most significant first. */
  predicate Before(a: DateTime, b: DateTime) {
    if a.year != b.year then a.year < b.year
    else if a.month != b.month then a.month < b.month
    else if a.day != b.day then a.day < b.day
    else if a.hour != b.hour then a.hour < b.hour
    else if a.minute != b.minute then a.minute < b.minute
    else if a.second != b.second then a.second < b.second
    else a.microsecond < b.microsecond
  }

  /** The leap-year counts in `DaysBeforeYear` grow by one exactly at multiples of 4, 100 and 400. */
  lemma Div4Step(p: int)
    ensures (p + 1) / 4 == p / 4 + (if (p + 1) % 4 == 0 then 1 else 0)
  {
  }

  lemma Div100Step(p: int)
    ensures (p + 1) / 100 == p / 100 + (if (p + 1) % 100 == 0 then 1 else 0)
  {
  }

  lemma Div400Step(p: int)
    ensures (p + 1) / 400 == p / 400 + (if (p + 1) % 400 == 0 then 1 else 0)
  {
  }

  lemma DaysBeforeYearStep(y: int)
    ensures DaysBeforeYear(y + 1) == DaysBeforeYear(y) + DaysInYear(y)
  {
    Div4Step(y - 1);
    Div100Step(y - 1);
    Div400Step(y - 1);
  }

  lemma {:induction false} DaysBeforeYearGrows(y: int, y': int)
    requires y < y'
    ensures DaysBeforeYear(y) + DaysInYear(y) <= DaysBeforeYear(y')
    decreases y' - y
  {
    DaysBeforeYearStep(y);
    if y + 1 < y' {
      DaysBeforeYearGrows(y + 1, y');
    }
  }

  lemma DaysBeforeMonthStep(y: int, m: int)
    requires 1 <= m < 12
    ensures DaysBeforeMonth(y, m) + DaysInMonth(y, m) == DaysBeforeMonth(y, m + 1)
  {
  }

  lemma {:induction false} DaysBeforeMonthGrows(y: int, m: int, m': int)
    requires 1 <= m < m' <= 12
    ensures DaysBeforeMonth(y, m) + DaysInMonth(y, m) <= DaysBeforeMonth(y, m')
    decreases m' - m
  {
    DaysBeforeMonthStep(y, m);
    if m + 1 < m' {
      DaysBeforeMonthGrows(y, m + 1, m');
    }
  }

  lemma DaysBeforeMonthBound(y: int, m: int)
    requires 1 <= m <= 12
    ensures DaysBeforeMonth(y, m) + DaysInMonth(y, m) <= DaysInYear(y)
  {
  }

  /** An earlier date has a smaller ordinal. */
  lemma OrdinalOrder(a: DateTime, b: DateTime)
    requires Valid(a) && Valid(b)
    requires a.year < b.year || (a.year == b.year && a.month < b.month)
             || (a.year == b.year && a.month == b.month && a.day < b.day)
    ensures Ordinal(a) < Ordinal(b)
  {
    if a.year < b.year {
      DaysBeforeMonthBound(a.year, a.month);
      DaysBeforeYearGrows(a.year, b.year);
    } else if a.month < b.month {
      DaysBeforeMonthGrows(a.year, a.month, b.month);
    }
  }

  lemma BeforeMeansEarlier(a: DateTime, b: DateTime)
    requires Valid(a) && Valid(b) && Before(a, b)
    ensures Instant(a) < Instant(b)
  {
    assert 0 <= TimeOfDay(a) < MicrosPerDay && 0 <= TimeOfDay(b) < MicrosPerDay;
    if a.year != b.year || a.month != b.month || a.day != b.day {
      OrdinalOrder(a, b);
    }
  }

  /**
   * Comparing instants is comparing datetimes the way Python does, so the model
   * may order and window events by their instants.
   */
  lemma InstantOrder(a: DateTime, b: DateTime)
    requires Valid(a) && Valid(b)
    ensures Before(a, b) <==> Instant(a) < Instant(b)
    ensures a == b <==> Instant(a) == Instant(b)
  {
    if Before(a, b) {
      BeforeMeansEarlier(a, b);
    } else if Before(b, a) {
      BeforeMeansEarlier(b, a);
    } else {
      assert a == b;
    }
  }

  /** `d` with the microseconds dropped, which is all `strftime` with seconds keeps. */
  function Truncated(d: DateTime): DateTime {
    d.(microsecond := 0)
  }

  // ---------------------------------------------------------------------------
  // strftime("%Y-%m-%d %H:%M:%S")

  function Pad2(n: nat): (s: string)
    requires n < 100
    ensures |s| == 2 && IsDigit(s[0]) && IsDigit(s[1])
  {
    [DigitChar(n / 10), DigitChar(n % 10)]
  }

  function Pad4(n: nat): (s: string)
    requires n < 10000
    ensures |s| == 4 && forall k :: 0 <= k < 4 ==> IsDigit(s[k])
  {
    [DigitChar(n / 1000), DigitChar(n / 100 % 10), DigitChar(n / 10 % 10), DigitChar(n % 10)]
  }

  /** The canonical storage form `YYYY-MM-DD HH:MM:SS` of a datetime. */
  function Format(d: DateTime): (s: string)
    requires Valid(d)
    ensures |s| == 19 && s[4] == '-' && s[7] == '-' && s[10] == ' ' && s[13] == ':' && s[16] == ':'
    ensures forall k :: 0 <= k < 19 && k != 4 && k != 7 && k != 10 && k != 13 && k != 16 ==> IsDigit(s[k])
  {
    var (y, mo, dd) := (Pad4(d.year), Pad2(d.month), Pad2(d.day));
    var (h, mi, se) := (Pad2(d.hour), Pad2(d.minute), Pad2(d.second));
    [y[0], y[1], y[2], y[3], '-', mo[0], mo[1], '-', dd[0], dd[1], ' ',
     h[0], h[1], ':', mi[0], mi[1], ':', se[0], se[1]]
  }

  // ---------------------------------------------------------------------------
  // strptime

  /**
   * The directives of the three formats the scheduler hands to `strptime`.
   * `Whitespace` is a space in the format, which `strptime` matches against one
   * or more whitespace characters.
   */
  datatype Directive = Year | Month | Day | Hour | Minute | Second | Literal(c: char) | Whitespace

  type Pattern = seq<Directive>

  /** "%Y-%m-%dT%H:%M" */
  const IsoMinutes: Pattern :=
    [Year, Literal('-'), Month, Literal('-'), Day, Literal('T'), Hour, Literal(':'), Minute]
  /** "%Y-%m-%d %H:%M:%S", also the form that creation writes */
  const SpaceSeconds: Pattern :=
    [Year, Literal('-'), Month, Literal('-'), Day, Whitespace, Hour, Literal(':'), Minute,
     Literal(':'), Second]
  /** "%Y-%m-%d %H:%M" */
  const SpaceMinutes: Pattern :=
    [Year, Literal('-'), Month, Literal('-'), Day, Whitespace, Hour, Literal(':'), Minute]

  /** The formats the listing pages try, in order, before falling back to `fromisoformat`. */
  const ReadFormats: seq<Pattern> := [IsoMinutes, SpaceSeconds, SpaceMinutes]

  /** The end of the run of ASCII digits that starts at `i`. */
  function DigitRunEnd(s: string, i: nat): (j: nat)
    requires i <= |s|
    ensures i <= j <= |s|
    ensures forall k :: i <= k < j ==> IsDigit(s[k])
    ensures j < |s| ==> !IsDigit(s[j])
    decreases |s| - i
  {
    if i < |s| && IsDigit(s[i]) then DigitRunEnd(s, i + 1) else i
  }

  predicate AllDigits(s: string) {
    forall k :: 0 <= k < |s| ==> IsDigit(s[k])
  }

  /** The decimal value of a string of digits. */
  function NumberValue(s: string): nat
    requires AllDigits(s)
  {
    if s == [] then 0 else NumberValue(s[..|s| - 1]) * 10 + DigitValue(s[|s| - 1])
  }

  /**
   * A numeric field of one or two digits whose value lies in `lo..hi`, with the
   * position after it. This is what the alternations `strptime` builds for
   * %m, %d, %H, %M and %S accept once the text after the field must match a
   * non-digit or the end of the input.
   */
  function NumberField(s: string, i: nat, lo: int, hi: int): (r: Option<(int, nat)>)
    requires i <= |s|
    ensures r.Some? ==> i < r.value.1 <= |s|
  {
    var j := DigitRunEnd(s, i);
    if 1 <= j - i <= 2 && lo <= NumberValue(s[i..j]) <= hi then Some((NumberValue(s[i..j]), j))
    else None
  }

  /** Equal up to ASCII case, as `strptime`'s case-insensitive pattern compares literals. */
  predicate SameIgnoringCase(a: char, b: char) {
    Lower(a) == Lower(b)
  }

  function Lower(c: char): char {
    if 'A' <= c <= 'Z' then (c as int + 32) as char else c
  }

  /** The range `strptime` accepts for a numeric directive other than %Y. */
  function Range(d: Directive): (int, int) {
    match d
    case Month => (1, 12)
    case Day => (1, 31)
    case Hour => (0, 23)
    case Minute => (0, 59)
    case _ => (0, 61)
  }

  /** The field a numeric directive other than %Y writes. */
  function SetField(d: Directive, f: DateTime, v: int): DateTime {
    match d
    case Month => f.(month := v)
    case Day => f.(day := v)
    case Hour => f.(hour := v)
    case Minute => f.(minute := v)
    case _ => f.(second := v)
  }

  /** A one- or two-digit field of directive `d`, in its range. */
  function NumericStep(s: string, i: nat, d: Directive, f: DateTime): (r: Option<(nat, DateTime)>)
    requires i <= |s|
    ensures r.Some? ==> i < r.value.0 <= |s|
  {
    match NumberField(s, i, Range(d).0, Range(d).1)
    case Some((v, j)) => Some((j, SetField(d, f, v)))
    case None => None
  }

  /**
   * Matches one directive at position `i`: the position after it and the
   * fields read so far, or `None` when the text does not fit.
   */
  function Step(s: string, i: nat, d: Directive, f: DateTime): (r: Option<(nat, DateTime)>)
    requires i <= |s|
    ensures r.Some? ==> i < r.value.0 <= |s|
  {
    match d
    case Year =>
      if i + 4 <= |s| && AllDigits(s[i..i + 4]) then Some((i + 4, f.(year := NumberValue(s[i..i + 4])))) else None
    case Month => NumericStep(s, i, d, f)
    case Day =>
      if i + 2 <= |s| && s[i] == ' ' && '1' <= s[i + 1] <= '9' then Some((i + 2, f.(day := DigitValue(s[i + 1]))))
      else NumericStep(s, i, d, f)
    case Hour => NumericStep(s, i, d, f)
    case Minute => NumericStep(s, i, d, f)
    case Second => NumericStep(s, i, d, f)
    case Literal(c) => if i < |s| && SameIgnoringCase(s[i], c) then Some((i + 1, f)) else None
    case Whitespace =>
      var n := LeadingSpace(s[i..]);
      if n > 0 then Some((i + n, f)) else None
  }

  /**
   * Matches `s[i..]` against the directives `p`, recording the fields read into
   * `f`; succeeds only when the whole input is consumed.
   */
  function MatchFrom(s: string, i: nat, p: Pattern, f: DateTime): Option<DateTime>
    requires i <= |s|
    decreases |p|
  {
    if p == [] then (if i == |s| then Some(f) else None)
    else
      match Step(s, i, p[0], f)
      case None => None
      case Some((j, g)) => MatchFrom(s, j, p[1..], g)
  }

  /** The fields `strptime` fills in when the format does not mention them. */
  const StrptimeDefaults: DateTime := DateTime(1900, 1, 1, 0, 0, 0, 0)

  /** `datetime.strptime(s, fmt)`, with `None` for the `ValueError` it raises. */
  function Strptime(s: string, p: Pattern): (r: Option<DateTime>)
    ensures r.Some? ==> Valid(r.value) && r.value.microsecond == 0
  {
    match MatchFrom(s, 0, p, StrptimeDefaults)
    case None => None
    case Some(f) => if Valid(f) && f.microsecond == 0 then Some(f) else None
  }

  // ---------------------------------------------------------------------------
  // fromisoformat, on the subset YYYY-MM-DD[<sep>HH[:MM[:SS]]]

  function FixedNumber(s: string, i: nat, n: nat): Option<int>
    requires i + n <= |s|
  {
    if AllDigits(s[i..i + n]) then Some(NumberValue(s[i..i + n])) else None
  }

  /** The time part of an ISO string: `HH`, `HH:MM` or `HH:MM:SS`. */
  function IsoTime(t: string): Option<(int, int, int)> {
    if |t| != 2 && |t| != 5 && |t| != 8 then None
    else if |t| >= 5 && t[2] != ':' then None
    else if |t| == 8 && t[5] != ':' then None
    else
      var h := FixedNumber(t, 0, 2);
      var m := if |t| >= 5 then FixedNumber(t, 3, 2) else Some(0);
      var sec := if |t| == 8 then FixedNumber(t, 6, 2) else Some(0);
      if h.Some? && m.Some? && sec.Some? then Some((h.value, m.value, sec.value)) else None
  }

  /**
   * `datetime.fromisoformat(s)` on the subset: a `YYYY-MM-DD` date and, after
   * any one separator character, an optional `HH[:MM[:SS]]` time.
   */
  function FromIsoFormat(s: string): (r: Option<DateTime>)
    ensures r.Some? ==> Valid(r.value) && r.value.microsecond == 0
  {
    if |s| < 10 || s[4] != '-' || s[7] != '-' then None
    else
      var y := FixedNumber(s, 0, 4);
      var mo := FixedNumber(s, 5, 2);
      var d := FixedNumber(s, 8, 2);
      var time := if |s| == 10 then Some((0, 0, 0)) else IsoTime(s[11..]);
      if y.None? || mo.None? || d.None? || time.None? then None
      else
        var dt := DateTime(y.value, mo.value, d.value, time.value.0, time.value.1, time.value.2, 0);
        if Valid(dt) then Some(dt) else None
  }

  // ---------------------------------------------------------------------------
  // The two parse policies

  /** Creation: `fromisoformat` when the text contains `T`, else `strptime` with seconds. */
  function ParseForCreate(s: string): (r: Option<DateTime>)
    ensures r.Some? ==> Valid(r.value) && r.value.microsecond == 0
  {
    if 'T' in s then FromIsoFormat(s) else Strptime(s, SpaceSeconds)
  }

  /** The result of the first format in `formats` that `s` matches. */
  function FirstMatch(s: string, formats: seq<Pattern>): (r: Option<DateTime>)
    ensures r.Some? ==> Valid(r.value)
    ensures r.Some? <==> exists k :: 0 <= k < |formats| && Strptime(s, formats[k]).Some?
  {
    if formats == [] then None
    else if Strptime(s, formats[0]).Some? then Strptime(s, formats[0])
    else
      var r := FirstMatch(s, formats[1..]);
      assert forall k :: 1 <= k < |formats| ==> formats[k] == formats[1..][k - 1];
      r
  }

  /** The result is the parse of the first format that matches: every earlier one fails. */
  lemma {:induction false} FirstMatchIsFirst(s: string, formats: seq<Pattern>)
    ensures FirstMatch(s, formats).Some? ==>
      exists k :: 0 <= k < |formats| && FirstMatch(s, formats) == Strptime(s, formats[k])
        && forall k' :: 0 <= k' < k ==> Strptime(s, formats[k']).None?
  {
    if formats != [] {
      if Strptime(s, formats[0]).Some? {
        assert FirstMatch(s, formats) == Strptime(s, formats[0]);
      } else {
        var tail := formats[1..];
        FirstMatchIsFirst(s, tail);
        if FirstMatch(s, formats).Some? {
          assert FirstMatch(s, formats) == FirstMatch(s, tail);
          var k :| 0 <= k < |tail| && FirstMatch(s, tail) == Strptime(s, tail[k])
            && forall k' :: 0 <= k' < k ==> Strptime(s, tail[k']).None?;
          assert tail[k] == formats[k + 1];
          forall k' | 0 <= k' < k + 1 ensures Strptime(s, formats[k']).None? {
            if k' > 0 {
              assert formats[k'] == tail[k' - 1];
            }
          }
        }
      }
    }
  }

  /** Listing: the read formats in order, then `fromisoformat`; `None` when all fail. */
  function LenientParse(s: string): (r: Option<DateTime>)
    ensures r.Some? ==> Valid(r.value)
  {
    match FirstMatch(s, ReadFormats)
    case Some(d) => Some(d)
    case None => FromIsoFormat(s)
  }

  /**
   * The inner loop of the listing pages: try each read format in turn, stop at
   * the first that parses, and fall back to `fromisoformat`.
   */
  method ParseLeniently(s: string) returns (d: Option<DateTime>)
    ensures d == LenientParse(s)
  {
    var formats := ReadFormats;
    d := None;
    var k := 0;
    while k < |formats|
      invariant 0 <= k <= |formats|
      invariant d == None
      invariant FirstMatch(s, formats) == FirstMatch(s, formats[k..])
    {
      var attempt := Strptime(s, formats[k]);
      if attempt.Some? {
        d := attempt;
        break;
      }
      assert formats[k..][1..] == formats[k + 1..];
      k := k + 1;
    }
    if d == None {
      d := FromIsoFormat(s);
    }
  }

  // ---------------------------------------------------------------------------
  // The write/read round trip of the storage form

  lemma Pad2Value(n: nat)
    requires n < 100
    ensures AllDigits(Pad2(n)) && NumberValue(Pad2(n)) == n
  {
    var s := Pad2(n);
    assert s[..1][..0] == [];
    assert NumberValue(s[..1]) == n / 10;
  }

  lemma Pad4Value(n: nat)
    requires n < 10000
    ensures AllDigits(Pad4(n)) && NumberValue(Pad4(n)) == n
  {
    var s := Pad4(n);
    assert NumberValue(s[..1]) == n / 1000 by {
      assert s[..1][..0] == [];
    }
    assert NumberValue(s[..2]) == n / 100 by {
      assert s[..2][..1] == s[..1];
      assert n / 1000 * 10 + n / 100 % 10 == n / 100;
    }
    assert NumberValue(s[..3]) == n / 10 by {
      assert s[..3][..2] == s[..2];
      assert n / 100 * 10 + n / 10 % 10 == n / 10;
    }
    assert s[..3] == s[..|s| - 1];
  }

  /** A zero-padded two-digit number followed by a non-digit reads back as that number. */
  lemma TwoDigitField(s: string, i: nat, n: nat, lo: int, hi: int)
    requires n < 100 && lo <= n <= hi
    requires i + 2 <= |s| && s[i..i + 2] == Pad2(n)
    requires i + 2 < |s| ==> !IsDigit(s[i + 2])
    ensures NumberField(s, i, lo, hi) == Some((n, i + 2))
  {
    assert s[i] == Pad2(n)[0] && s[i + 1] == Pad2(n)[1];
    assert DigitRunEnd(s, i + 2) == i + 2;
    assert DigitRunEnd(s, i + 1) == i + 2;
    Pad2Value(n);
  }

  /** The storage form, piece by piece. */
  lemma FormatLayout(d: DateTime)
    requires Valid(d)
    ensures var s := Format(d);
      && |s| == 19
      && s[0..4] == Pad4(d.year) && s[4] == '-' && s[5..7] == Pad2(d.month) && s[7] == '-'
      && s[8..10] == Pad2(d.day) && s[10] == ' ' && s[11..13] == Pad2(d.hour) && s[13] == ':'
      && s[14..16] == Pad2(d.minute) && s[16] == ':' && s[17..19] == Pad2(d.second)
  {
    var s := Format(d);
    assert s[0..4] == Pad4(d.year);
    assert s[5..7] == Pad2(d.month);
    assert s[8..10] == Pad2(d.day);
    assert s[11..13] == Pad2(d.hour);
    assert s[14..16] == Pad2(d.minute);
    assert s[17..19] == Pad2(d.second);
  }

  // One directive at a time

  /** Matching the first directive, then the rest of the pattern. */
  lemma MatchStep(s: string, i: nat, p: Pattern, f: DateTime, j: nat, g: DateTime)
    requires i <= |s| && p != [] && Step(s, i, p[0], f) == Some((j, g))
    ensures MatchFrom(s, i, p, f) == MatchFrom(s, j, p[1..], g)
  {
  }

  lemma LiteralStep(s: string, i: nat, c: char, f: DateTime)
    requires i < |s| && s[i] == c
    ensures Step(s, i, Literal(c), f) == Some((i + 1, f))
  {
  }

  lemma YearStep(s: string, i: nat, y: nat, f: DateTime)
    requires y < 10000 && i + 4 <= |s| && s[i..i + 4] == Pad4(y)
    ensures Step(s, i, Year, f) == Some((i + 4, f.(year := y)))
  {
    Pad4Value(y);
  }

  /** A zero-padded two-digit field in range, followed by a non-digit, for %m, %d, %H, %M or %S. */
  lemma TwoDigitStep(s: string, i: nat, n: nat, d: Directive, f: DateTime)
    requires d == Month || d == Day || d == Hour || d == Minute || d == Second
    requires n < 100 && Range(d).0 <= n <= Range(d).1
    requires i + 2 <= |s| && s[i..i + 2] == Pad2(n)
    requires i + 2 < |s| ==> !IsDigit(s[i + 2])
    ensures Step(s, i, d, f) == Some((i + 2, SetField(d, f, n)))
  {
    assert s[i] == Pad2(n)[0];
    TwoDigitField(s, i, n, Range(d).0, Range(d).1);
  }

  /** A format space consumes one space that no other whitespace follows. */
  lemma SingleSpace(s: string, i: nat, f: DateTime)
    requires i < |s| && s[i] == ' ' && (i + 1 < |s| ==> !IsSpace(s[i + 1]))
    ensures Step(s, i, Whitespace, f) == Some((i + 1, f))
  {
    assert s[i..] == [' '] + s[i + 1..];
    assert LeadingSpace(s[i + 1..]) == 0;
  }

  /** `%Y-%m-%d` consumes a zero-padded date that no digit follows. */
  lemma DateFields(s: string, y: nat, m: nat, dd: nat, p: Pattern, f: DateTime)
    requires y < 10000 && 1 <= m <= 12 && 1 <= dd <= 31
    requires |s| >= 10 && s[0..4] == Pad4(y) && s[4] == '-' && s[5..7] == Pad2(m) && s[7] == '-'
    requires s[8..10] == Pad2(dd)
    requires |s| > 10 ==> !IsDigit(s[10])
    requires |p| >= 5 && p[0] == Year && p[1] == Literal('-') && p[2] == Month && p[3] == Literal('-') && p[4] == Day
    ensures MatchFrom(s, 0, p, f) == MatchFrom(s, 10, p[5..], f.(year := y, month := m, day := dd))
  {
    var f1 := f.(year := y);
    var f2 := f1.(month := m);
    var p1 := p[1..];
    var p2 := p1[1..];
    var p3 := p2[1..];
    var p4 := p3[1..];
    assert p4[1..] == p[5..];
    YearStep(s, 0, y, f);
    MatchStep(s, 0, p, f, 4, f1);
    LiteralStep(s, 4, '-', f1);
    MatchStep(s, 4, p1, f1, 5, f1);
    TwoDigitStep(s, 5, m, Month, f1);
    MatchStep(s, 5, p2, f1, 7, f2);
    LiteralStep(s, 7, '-', f2);
    MatchStep(s, 7, p3, f2, 8, f2);
    TwoDigitStep(s, 8, dd, Day, f2);
    MatchStep(s, 8, p4, f2, 10, f2.(day := dd));
  }

  /** `%H:%M` consumes a zero-padded time of day that no digit follows. */
  lemma HourMinuteFields(s: string, i: nat, h: nat, mi: nat, p: Pattern, f: DateTime)
    requires h < 24 && mi < 60
    requires i + 5 <= |s| && s[i..i + 2] == Pad2(h) && s[i + 2] == ':' && s[i + 3..i + 5] == Pad2(mi)
    requires i + 5 < |s| ==> !IsDigit(s[i + 5])
    requires |p| >= 3 && p[0] == Hour && p[1] == Literal(':') && p[2] == Minute
    ensures MatchFrom(s, i, p, f) == MatchFrom(s, i + 5, p[3..], f.(hour := h, minute := mi))
  {
    var f1 := f.(hour := h);
    var p1 := p[1..];
    var p2 := p1[1..];
    assert p2[1..] == p[3..];
    TwoDigitStep(s, i, h, Hour, f);
    MatchStep(s, i, p, f, i + 2, f1);
    LiteralStep(s, i + 2, ':', f1);
    MatchStep(s, i + 2, p1, f1, i + 3, f1);
    TwoDigitStep(s, i + 3, mi, Minute, f1);
    MatchStep(s, i + 3, p2, f1, i + 5, f1.(minute := mi));
  }

  /** `:%S` consumes a final zero-padded seconds field. */
  lemma SecondsField(s: string, i: nat, sec: nat, p: Pattern, f: DateTime)
    requires sec < 60
    requires i + 3 == |s| && s[i] == ':' && s[i + 1..i + 3] == Pad2(sec)
    requires |p| == 2 && p[0] == Literal(':') && p[1] == Second
    ensures MatchFrom(s, i, p, f) == Some(f.(second := sec))
  {
    var p1 := p[1..];
    assert p1[1..] == [];
    LiteralStep(s, i, ':', f);
    MatchStep(s, i, p, f, i + 1, f);
    TwoDigitStep(s, i + 1, sec, Second, f);
    MatchStep(s, i + 1, p1, f, i + 3, f.(second := sec));
  }

  /** After the date, " %H:%M:%S" consumes the rest of the storage form. */
  lemma FormatTimeFields(d: DateTime, f: DateTime)
    requires Valid(d)
    ensures MatchFrom(Format(d), 10, SpaceSeconds[5..], f)
         == Some(f.(hour := d.hour, minute := d.minute, second := d.second))
  {
    var s := Format(d);
    FormatLayout(d);
    var p5 := SpaceSeconds[5..];
    var p6 := p5[1..];
    var p9 := p6[3..];
    assert p5[0] == Whitespace && p6[0] == Hour && p6[1] == Literal(':') && p6[2] == Minute;
    assert |p9| == 2 && p9[0] == Literal(':') && p9[1] == Second;
    assert s[11] == Pad2(d.hour)[0];
    SingleSpace(s, 10, f);
    MatchStep(s, 10, p5, f, 11, f);
    HourMinuteFields(s, 11, d.hour, d.minute, p6, f);
    SecondsField(s, 16, d.second, p9, f.(hour := d.hour, minute := d.minute));
  }

  /** "%Y-%m-%d" consumes the date of the storage form. */
  lemma FormatDateFields(d: DateTime, p: Pattern, f: DateTime)
    requires Valid(d)
    requires |p| >= 5 && p[0] == Year && p[1] == Literal('-') && p[2] == Month && p[3] == Literal('-') && p[4] == Day
    ensures MatchFrom(Format(d), 0, p, f) == MatchFrom(Format(d), 10, p[5..], f.(year := d.year, month := d.month, day := d.day))
  {
    FormatLayout(d);
    DateFields(Format(d), d.year, d.month, d.day, p, f);
  }

  /** The storage form, read with "%Y-%m-%d %H:%M:%S", gives back the datetime to the second. */
  lemma FormatRoundTrip(d: DateTime)
    requires Valid(d)
    ensures Strptime(Format(d), SpaceSeconds) == Some(Truncated(d))
  {
    FormatMatches(d);
    StrptimeOfMatch(Format(d), SpaceSeconds, Truncated(d));
  }

  /** A complete match whose fields form a valid datetime is the parse result. */
  lemma StrptimeOfMatch(s: string, p: Pattern, d: DateTime)
    requires MatchFrom(s, 0, p, StrptimeDefaults) == Some(d) && Valid(d) && d.microsecond == 0
    ensures Strptime(s, p) == Some(d)
  {
  }

  lemma FormatMatches(d: DateTime)
    requires Valid(d)
    ensures MatchFrom(Format(d), 0, SpaceSeconds, StrptimeDefaults) == Some(Truncated(d))
  {
    var f := StrptimeDefaults.(year := d.year, month := d.month, day := d.day);
    FormatDateFields(d, SpaceSeconds, StrptimeDefaults);
    FormatTimeFields(d, f);
    assert f.(hour := d.hour, minute := d.minute, second := d.second) == Truncated(d);
  }

  /** The storage form never matches "%Y-%m-%dT%H:%M": its separator is a space. */
  lemma FormatIsNotIsoMinutes(d: DateTime)
    requires Valid(d)
    ensures Strptime(Format(d), IsoMinutes) == None
  {
    var f := StrptimeDefaults.(year := d.year, month := d.month, day := d.day);
    FormatDateFields(d, IsoMinutes, StrptimeDefaults);
    FormatLayout(d);
    var p5 := IsoMinutes[5..];
    assert p5[0] == Literal('T');
    assert Step(Format(d), 10, p5[0], f) == None;
  }

  /**
   * The listing's lenient parse reads every storage-form string back as the
   * datetime that produced it, to the second: the first read format fails on
   * the separator and the second one matches.
   */
  lemma LenientParseOfFormat(d: DateTime)
    requires Valid(d)
    ensures LenientParse(Format(d)) == Some(Truncated(d))
  {
    var s := Format(d);
    FormatIsNotIsoMinutes(d);
    FormatRoundTrip(d);
    var rest := ReadFormats[1..];
    assert ReadFormats[0] == IsoMinutes && rest[0] == SpaceSeconds;
    assert FirstMatch(s, ReadFormats) == FirstMatch(s, rest);
    assert FirstMatch(s, rest) == Strptime(s, SpaceSeconds);
  }

  // ---------------------------------------------------------------------------
  // Example inputs

  lemma FixedPad2(s: string, i: nat, n: nat)
    requires n < 100 && i + 2 <= |s| && s[i..i + 2] == Pad2(n)
    ensures FixedNumber(s, i, 2) == Some(n)
  {
    Pad2Value(n);
  }

  lemma FixedPad4(s: string, i: nat, n: nat)
    requires n < 10000 && i + 4 <= |s| && s[i..i + 4] == Pad4(n)
    ensures FixedNumber(s, i, 4) == Some(n)
  {
    Pad4Value(n);
  }

  /** The date part of "2024-03-01...", read by `fromisoformat`. */
  lemma IsoDateOfExample(s: string)
    requires |s| >= 10 && s[..10] == "2024-03-01"
    ensures s[4] == '-' && s[7] == '-'
    ensures FixedNumber(s, 0, 4) == Some(2024) && FixedNumber(s, 5, 2) == Some(3)
    ensures FixedNumber(s, 8, 2) == Some(1)
  {
    assert s[0..4] == s[..10][0..4] == Pad4(2024);
    assert s[5..7] == s[..10][5..7] == Pad2(3);
    assert s[8..10] == s[..10][8..10] == Pad2(1);
    FixedPad4(s, 0, 2024);
    FixedPad2(s, 5, 3);
    FixedPad2(s, 8, 1);
  }

  lemma ExamplePads()
    ensures Pad4(2024) == "2024" && Pad2(3) == "03" && Pad2(1) == "01"
    ensures Pad2(9) == "09" && Pad2(30) == "30"
  {
  }

  /** The date directives on "2024-03-01...". */
  lemma DateFieldsOfExample(s: string, p: Pattern, f: DateTime)
    requires |s| >= 10 && s[..10] == "2024-03-01" && (|s| > 10 ==> !IsDigit(s[10]))
    requires |p| >= 5 && p[0] == Year && p[1] == Literal('-') && p[2] == Month && p[3] == Literal('-') && p[4] == Day
    ensures MatchFrom(s, 0, p, f) == MatchFrom(s, 10, p[5..], f.(year := 2024, month := 3, day := 1))
  {
    ExamplePads();
    var d := s[..10];
    assert d[0..4] == "2024" && d[5..7] == "03" && d[8..10] == "01";
    assert s[0..4] == d[0..4] && s[5..7] == d[5..7] && s[8..10] == d[8..10];
    assert s[4] == d[4] && s[7] == d[7];
    DateFields(s, 2024, 3, 1, p, f);
  }

  /** What the date-time picker submits is read by `fromisoformat`. */
  lemma CreateAcceptsPickerValue()
    ensures ParseForCreate("2024-03-01T09:30") == Some(DateTime(2024, 3, 1, 9, 30, 0, 0))
  {
    var s := "2024-03-01T09:30";
    assert s[10] == 'T';
    IsoDateOfExample(s);
    var t := s[11..];
    assert t == "09:30";
    assert t[0..2] == Pad2(9) && t[3..5] == Pad2(30);
    FixedPad2(t, 0, 9);
    FixedPad2(t, 3, 30);
  }

  /** Text without `T` is read with "%Y-%m-%d %H:%M:%S". */
  lemma CreateAcceptsSpaceSeconds()
    ensures ParseForCreate("2024-03-01 09:30:00") == Some(DateTime(2024, 3, 1, 9, 30, 0, 0))
  {
    var d := DateTime(2024, 3, 1, 9, 30, 0, 0);
    ExamplePads();
    assert Pad2(0) == "00";
    assert Format(d) == "2024-03-01 09:30:00";
    FormatRoundTrip(d);
  }

  /** A US-style date fits neither policy and is refused. */
  lemma CreateRejectsUsDate()
    ensures ParseForCreate("03/01/2024 9:30am") == None
  {
    var s := "03/01/2024 9:30am";
    assert 'T' !in s;
    assert s[0..4][2] == '/';
    assert Step(s, 0, SpaceSeconds[0], StrptimeDefaults) == None;
  }

  /** " 09:30" after the date of "2024-03-01 09:30". */
  lemma MinutesTimeOfExample(p: Pattern, f: DateTime)
    requires |p| >= 4 && p[0] == Whitespace && p[1] == Hour && p[2] == Literal(':') && p[3] == Minute
    ensures MatchFrom("2024-03-01 09:30", 10, p, f) == MatchFrom("2024-03-01 09:30", 16, p[4..], f.(hour := 9, minute := 30))
  {
    var s := "2024-03-01 09:30";
    var p1 := p[1..];
    assert p1[3..] == p[4..];
    assert s[10] == ' ' && s[11] == '0';
    SingleSpace(s, 10, f);
    MatchStep(s, 10, p, f, 11, f);
    ExamplePads();
    assert s[11..13] == Pad2(9) && s[14..16] == Pad2(30) && s[13] == ':';
    HourMinuteFields(s, 11, 9, 30, p1, f);
  }

  /** "2024-03-01 09:30" up to the end of the minutes, for the two read formats with a space. */
  lemma MinutesExample(p: Pattern)
    requires |p| >= 9 && p[0] == Year && p[1] == Literal('-') && p[2] == Month && p[3] == Literal('-')
    requires p[4] == Day && p[5] == Whitespace && p[6] == Hour && p[7] == Literal(':') && p[8] == Minute
    ensures MatchFrom("2024-03-01 09:30", 0, p, StrptimeDefaults)
         == MatchFrom("2024-03-01 09:30", 16, p[9..], DateTime(2024, 3, 1, 9, 30, 0, 0))
  {
    var s := "2024-03-01 09:30";
    assert s[..10] == "2024-03-01";
    DateFieldsOfExample(s, p, StrptimeDefaults);
    var p5 := p[5..];
    assert p5[4..] == p[9..];
    MinutesTimeOfExample(p5, StrptimeDefaults.(year := 2024, month := 3, day := 1));
  }

  /** Without seconds and without `T`, creation refuses the text... */
  lemma CreateNeedsSeconds()
    ensures ParseForCreate("2024-03-01 09:30") == None
  {
    var s := "2024-03-01 09:30";
    assert 'T' !in s;
    MinutesExampleNoSeconds();
  }

  lemma MinutesExampleNotIso()
    ensures Strptime("2024-03-01 09:30", IsoMinutes) == None
  {
    var s := "2024-03-01 09:30";
    var f := StrptimeDefaults.(year := 2024, month := 3, day := 1);
    assert s[..10] == "2024-03-01";
    DateFieldsOfExample(s, IsoMinutes, StrptimeDefaults);
    var p5 := IsoMinutes[5..];
    assert p5[0] == Literal('T') && s[10] == ' ';
    assert Step(s, 10, p5[0], f) == None;
  }

  lemma MinutesExampleNoSeconds()
    ensures Strptime("2024-03-01 09:30", SpaceSeconds) == None
  {
    MinutesExample(SpaceSeconds);
    assert SpaceSeconds[9..] == [Literal(':'), Second];
    assert Step("2024-03-01 09:30", 16, Literal(':'), DateTime(2024, 3, 1, 9, 30, 0, 0)) == None;
  }

  lemma MinutesExampleMinutes()
    ensures Strptime("2024-03-01 09:30", SpaceMinutes) == Some(DateTime(2024, 3, 1, 9, 30, 0, 0))
  {
    MinutesExample(SpaceMinutes);
    assert SpaceMinutes[9..] == [];
  }

  /** ...which the listing reads with its third format. */
  lemma ListingReadsMinutes()
    ensures LenientParse("2024-03-01 09:30") == Some(DateTime(2024, 3, 1, 9, 30, 0, 0))
  {
    var s := "2024-03-01 09:30";
    MinutesExampleNotIso();
    MinutesExampleNoSeconds();
    MinutesExampleMinutes();
    var rest := ReadFormats[1..];
    assert ReadFormats[0] == IsoMinutes && rest[0] == SpaceSeconds && rest[1..][0] == SpaceMinutes;
    assert FirstMatch(s, ReadFormats) == FirstMatch(s, rest);
    assert FirstMatch(s, rest) == FirstMatch(s, rest[1..]);
  }

  /** A bare date ends where every read format still expects a separator. */
  lemma BareDateFails(p: Pattern)
    requires p == IsoMinutes || p == SpaceSeconds || p == SpaceMinutes
    ensures Strptime("2024-03-01", p) == None
  {
    var s := "2024-03-01";
    var f := StrptimeDefaults.(year := 2024, month := 3, day := 1);
    assert s[..10] == s;
    DateFieldsOfExample(s, p, StrptimeDefaults);
    var p5 := p[5..];
    assert p5[0] == Literal('T') || p5[0] == Whitespace;
    assert s[10..] == [];
    assert Step(s, 10, p5[0], f) == None;
  }

  /** A bare date matches none of the read formats and `fromisoformat` reads it as midnight. */
  lemma ListingReadsBareDate()
    ensures LenientParse("2024-03-01") == Some(DateTime(2024, 3, 1, 0, 0, 0, 0))
  {
    var s := "2024-03-01";
    BareDateFails(IsoMinutes);
    BareDateFails(SpaceSeconds);
    BareDateFails(SpaceMinutes);
    var rest := ReadFormats[1..];
    assert ReadFormats[0] == IsoMinutes && rest[0] == SpaceSeconds && rest[1..][0] == SpaceMinutes;
    assert FirstMatch(s, ReadFormats) == None;
    IsoDateOfExample(s);
  }
}
