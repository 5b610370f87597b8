/** `extract_year` and its month twin: Python's
    `datetime.strptime(text, "%a %b %d, %Y %H:%M %Z")`, falling back to
    `"%a %b %d, %Y"` when that raises `ValueError`.

    `strptime` compiles the format into a regular expression that must
    match the WHOLE text, case-insensitively: each run of whitespace in
    the format matches one or more whitespace characters; `%a` and `%b`
    match the three-letter English weekday and month abbreviations; `%d`
    one or two ASCII digits denoting 1..31; `%Y` exactly four ASCII digits;
    `%H` one or two ASCII digits denoting 0..23; `%M` one or two ASCII
    digits denoting 0..59; `%Z`
    the zone names `UTC` or `GMT`. The matched fields must then form a real
    calendar day (`datetime` rejects 31 April, 29 February of a common year
    and year 0); the weekday is not checked against the date. */
module Dates {
  import opened Wrappers
  import opened Text
  import opened Numerals

  /** What `%a`, `%b` and `%Z` compare against, lower-cased as `strptime`
      keeps them. */
  const WeekdayKeys: seq<string> := ["mon", "tue", "wed", "thu", "fri", "sat", "sun"]
  const MonthKeys: seq<string> := ["jan", "feb", "mar", "apr", "may", "jun", "jul", "aug", "sep", "oct", "nov", "dec"]
  const ZoneKeys: seq<string> := ["utc", "gmt"]

  datatype CalendarDate = CalendarDate(year: int, month: int, day: int)
  datatype ClockTime = ClockTime(hour: int, minute: int)

  /** Raised (as `ValueError`) when neither format matches. */
  datatype DateError = UnparsableDate(text: string)

  predicate IsLeapYear(y: int) {
    y % 4 == 0 && (y % 100 != 0 || y % 400 == 0)
  }

  function DaysInMonth(y: int, m: int): (n: int)
    requires 1 <= m <= 12
    ensures 28 <= n <= 31
  {
    if m == 2 then (if IsLeapYear(y) then 29 else 28)
    else if m == 4 || m == 6 || m == 9 || m == 11 then 30
    else 31
  }

  /** The days `datetime` accepts. */
  predicate ValidDate(d: CalendarDate) {
    1 <= d.year <= 9999 && 1 <= d.month <= 12 && 1 <= d.day <= DaysInMonth(d.year, d.month)
  }

  predicate ValidTime(t: ClockTime) {
    0 <= t.hour <= 23 && 0 <= t.minute <= 59
  }

  function Lower(c: char): char {
    if 'A' <= c <= 'Z' then (c as int + 32) as char else c
  }

  function LowerAll(s: string): (r: string)
    ensures |r| == |s| && forall i :: 0 <= i < |s| ==> r[i] == Lower(s[i])
  {
    seq(|s|, i requires 0 <= i < |s| => Lower(s[i]))
  }

  /** Position of the first key equal to `t`. */
  function IndexOf(t: string, keys: seq<string>): (r: Option<nat>)
    ensures r.Some? ==> r.value < |keys| && keys[r.value] == t
    ensures r.None? ==> t !in keys
  {
    if keys == [] then None
    else if keys[0] == t then Some(0)
    else match IndexOf(t, keys[1..]) {
      case None => None
      case Some(i) => Some(i + 1)
    }
  }

  /** In a list without repetitions every key is found at its own position. */
  lemma {:induction false} IndexOfDistinct(keys: seq<string>, i: nat)
    requires i < |keys|
    requires forall a, b :: 0 <= a < b < |keys| ==> keys[a] != keys[b]
    ensures IndexOf(keys[i], keys) == Some(i)
  {
    if i > 0 {
      assert keys[0] != keys[i];
      assert keys[1..][i - 1] == keys[i];
      IndexOfDistinct(keys[1..], i - 1);
    }
  }

  lemma KeysDistinct()
    ensures forall a, b :: 0 <= a < b < |WeekdayKeys| ==> WeekdayKeys[a] != WeekdayKeys[b]
    ensures forall a, b :: 0 <= a < b < |MonthKeys| ==> MonthKeys[a] != MonthKeys[b]
  {
    forall a, b | 0 <= a < b < |WeekdayKeys| ensures WeekdayKeys[a] != WeekdayKeys[b] {
      assert WeekdayKeys[a][0] != WeekdayKeys[b][0] || WeekdayKeys[a][1] != WeekdayKeys[b][1];
    }
    forall a, b | 0 <= a < b < |MonthKeys| ensures MonthKeys[a] != MonthKeys[b] {
      assert MonthKeys[a][0] != MonthKeys[b][0] || MonthKeys[a][1] != MonthKeys[b][1] || MonthKeys[a][2] != MonthKeys[b][2];
    }
  }

  /** A three-letter name at the front of `s`, compared case-insensitively;
      gives the key's position and the text after it. */
  function MatchName(s: string, keys: seq<string>): (r: Option<(nat, string)>)
    ensures r.Some? ==> |s| >= 3 && r.value.0 < |keys| && keys[r.value.0] == LowerAll(s[..3]) && r.value.1 == s[3..]
  {
    if |s| < 3 then None
    else match IndexOf(LowerAll(s[..3]), keys) {
      case None => None
      case Some(i) => Some((i, s[3..]))
    }
  }

  /** One or more whitespace characters (a blank in the format), then what follows them. */
  function Spaces(s: string): (r: Option<string>)
    ensures r.Some? ==> |r.value| < |s| && r.value == StripLeft(s)
  {
    if s != [] && IsSpace(s[0]) then Some(StripLeft(s)) else None
  }

  /** A literal character of the format. */
  function Literal(s: string, c: char): (r: Option<string>)
    ensures r.Some? ==> s == [c] + r.value
  {
    if s != [] && s[0] == c then Some(s[1..]) else None
  }

  /** `%d`, `%H` and `%M`: one or two digits denoting a number in `lo..hi`. */
  function ShortNumber(s: string, lo: nat, hi: nat): (r: Option<(nat, string)>)
    ensures r.Some? ==> lo <= r.value.0 <= hi
  {
    var (run, rest) := DigitRun(s);
    if 1 <= |run| <= 2 && lo <= Value(run) <= hi then Some((Value(run), rest)) else None
  }

  /** `%Y`: exactly four digits. */
  function YearDigits(s: string): (r: Option<(nat, string)>)
    ensures r.Some? ==> r.value.0 <= 9999
  {
    if |s| >= 4 && AllDigits(s[..4]) then
      ValueBound(s[..4]);
      Some((Value(s[..4]), s[4..]))
    else None
  }

  /** `"%a %b %d, %Y"` at the front of `s`: the fields and the text after them. */
  function MatchDateFields(s: string): (r: Option<(CalendarDate, string)>)
    ensures r.Some? ==> 1 <= r.value.0.month <= 12 && 1 <= r.value.0.day <= 31
  {
    var weekday :- MatchName(s, WeekdayKeys);
    var s1 :- Spaces(weekday.1);
    var month :- MatchName(s1, MonthKeys);
    var s2 :- Spaces(month.1);
    var day :- ShortNumber(s2, 1, 31);
    var s3 :- Literal(day.1, ',');
    var s4 :- Spaces(s3);
    var year :- YearDigits(s4);
    Some((CalendarDate(year.0, month.0 + 1, day.0), year.1))
  }

  /** `" %H:%M %Z"` at the front of `s`: the clock fields and the text after the zone. */
  function MatchClockFields(s: string): (r: Option<(ClockTime, string)>)
    ensures r.Some? ==> ValidTime(r.value.0)
  {
    var s1 :- Spaces(s);
    var hour :- ShortNumber(s1, 0, 23);
    var s2 :- Literal(hour.1, ':');
    var minute :- ShortNumber(s2, 0, 59);
    var s3 :- Spaces(minute.1);
    var zone :- MatchName(s3, ZoneKeys);
    Some((ClockTime(hour.0, minute.0), zone.1))
  }

  /** `strptime(text, "%a %b %d, %Y %H:%M %Z")`. */
  function ParsePrimary(s: string): (r: Option<CalendarDate>)
    ensures r.Some? ==> ValidDate(r.value)
  {
    var date :- MatchDateFields(s);
    var clock :- MatchClockFields(date.1);
    if clock.1 == [] && ValidDate(date.0) then Some(date.0) else None
  }

  /** `strptime(text, "%a %b %d, %Y")`. */
  function ParseFallback(s: string): (r: Option<CalendarDate>)
    ensures r.Some? ==> ValidDate(r.value)
  {
    var date :- MatchDateFields(s);
    if date.1 == [] && ValidDate(date.0) then Some(date.0) else None
  }

  /** The body shared by both `extract_year` definitions: the primary
      format, else the fallback, else the fallback's `ValueError`. */
  function ParseDate(s: string): (r: Result<CalendarDate, DateError>)
    ensures r.Ok? ==> ValidDate(r.value)
    ensures r.Ok? ==> MatchDateFields(s).Some? && MatchDateFields(s).value.0 == r.value
    ensures ParsePrimary(s).Some? ==> r == Ok(ParsePrimary(s).value)
    ensures r.Err? <==> ParsePrimary(s).None? && ParseFallback(s).None?
    ensures r.Err? ==> r.error == UnparsableDate(s)
  {
    match ParsePrimary(s) {
      case Some(d) => Ok(d)
      case None =>
        match ParseFallback(s) {
          case Some(d) => Ok(d)
          case None => Err(UnparsableDate(s))
        }
    }
  }

  /** `extract_year` as first defined: `dt.year`. */
  function ExtractYear(s: string): (r: Result<int, DateError>)
    ensures r.Ok? ==> 1 <= r.value <= 9999
    ensures r.Ok? <==> ParseDate(s).Ok?
  {
    var d :- ParseDate(s);
    Ok(d.year)
  }

  /** `extract_year` as redefined for the month column: `dt.month`. */
  function ExtractMonth(s: string): (r: Result<int, DateError>)
    ensures r.Ok? ==> 1 <= r.value <= 12
    ensures r.Ok? <==> ParseDate(s).Ok?
  {
    var d :- ParseDate(s);
    Ok(d.month)
  }

  /** The keys are lower-case letters. */
  lemma KeysLowercase()
    ensures forall j, k :: 0 <= j < |MonthKeys| && 0 <= k < |MonthKeys[j]| ==> 'a' <= MonthKeys[j][k] <= 'z'
    ensures forall j, k :: 0 <= j < |ZoneKeys| && 0 <= k < |ZoneKeys[j]| ==> 'a' <= ZoneKeys[j][k] <= 'z'
  {
    forall j, k | 0 <= j < |MonthKeys| && 0 <= k < |MonthKeys[j]| ensures 'a' <= MonthKeys[j][k] <= 'z' {
      assert |MonthKeys[j]| == 3;
    }
  }

  // ---------------------------------------------------------------------
  // The two layouts the formats describe, written out, and what parsing
  // them gives back.

  /** A three-letter token that `%a` / `%b` / `%Z` takes for `keys[i]`, in any letter case. */
  predicate SpellsKey(token: string, keys: seq<string>, i: nat) {
    |token| == 3 && i < |keys| && LowerAll(token) == keys[i]
  }

  /** `"<Wkd> <Mon> <DD>, <YYYY>"`. */
  function DateText(weekday: string, month: string, d: CalendarDate): string
    requires ValidDate(d)
  {
    weekday + (" " + (month + (" " + (Padded(d.day, 2) + ("," + (" " + Padded(d.year, 4)))))))
  }

  /** `"<Wkd> <Mon> <DD>, <YYYY> <HH:MM> <TZ>"`, the layout of the data set. */
  function TimestampText(weekday: string, month: string, d: CalendarDate, t: ClockTime, zone: string): string
    requires ValidDate(d) && ValidTime(t)
  {
    DateText(weekday, month, d) + ClockText(t, zone)
  }

  function ClockText(t: ClockTime, zone: string): string
    requires ValidTime(t)
  {
    " " + (Padded(t.hour, 2) + (":" + (Padded(t.minute, 2) + (" " + zone))))
  }

  /** A blank of the format before a digit. */
  lemma BlankThenDigits(p: string, x: string)
    requires p != [] && AllDigits(p)
    ensures Spaces(" " + (p + x)) == Some(p + x)
  {
    var u := " " + (p + x);
    assert u[1..] == p + x;
    assert (p + x)[0] == p[0];
  }

  /** A blank of the format before a name. */
  lemma BlankThenName(token: string, keys: seq<string>, i: nat, x: string)
    requires SpellsKey(token, keys, i)
    requires forall j, k :: 0 <= j < |keys| && 0 <= k < |keys[j]| ==> 'a' <= keys[j][k] <= 'z'
    ensures Spaces(" " + (token + x)) == Some(token + x)
  {
    KeyTokenStartsWithLetter(token, keys, i);
    var u := " " + (token + x);
    assert u[1..] == token + x;
    assert (token + x)[0] == token[0];
  }

  lemma {:induction false} MatchNameOf(token: string, rest: string, keys: seq<string>, i: nat)
    requires SpellsKey(token, keys, i)
    requires forall a, b :: 0 <= a < b < |keys| ==> keys[a] != keys[b]
    ensures MatchName(token + rest, keys) == Some((i, rest))
  {
    var s := token + rest;
    assert s[..3] == token && s[3..] == rest;
    IndexOfDistinct(keys, i);
  }

  /** A token spelling a key starts with a letter, never with whitespace. */
  lemma KeyTokenStartsWithLetter(token: string, keys: seq<string>, i: nat)
    requires SpellsKey(token, keys, i)
    requires forall j, k :: 0 <= j < |keys| && 0 <= k < |keys[j]| ==> 'a' <= keys[j][k] <= 'z'
    ensures !IsSpace(token[0])
  {
    assert LowerAll(token)[0] == Lower(token[0]) == keys[i][0];
  }

  lemma {:induction false} ShortNumberOf(n: nat, lo: nat, hi: nat, rest: string)
    requires lo <= n <= hi && n < 100
    requires rest == [] || !IsDigit(rest[0])
    ensures ShortNumber(Padded(n, 2) + rest, lo, hi) == Some((n, rest))
  {
    PaddedWidth(n, 2);
    DigitRunOf(Padded(n, 2), rest);
  }

  /** The weekday, the blank and the month at the front of the date layout. */
  lemma {:induction false} NamesOfText(weekday: string, wi: nat, month: string, mi: nat, t2: string)
    requires SpellsKey(weekday, WeekdayKeys, wi) && SpellsKey(month, MonthKeys, mi)
    ensures MatchName(weekday + (" " + (month + t2)), WeekdayKeys) == Some((wi, " " + (month + t2)))
    ensures Spaces(" " + (month + t2)) == Some(month + t2)
    ensures MatchName(month + t2, MonthKeys) == Some((mi, t2))
  {
    KeysDistinct();
    MatchNameOf(weekday, " " + (month + t2), WeekdayKeys, wi);
    KeysLowercase();
    BlankThenName(month, MonthKeys, mi, t2);
    MatchNameOf(month, t2, MonthKeys, mi);
  }

  /** The blank, the day, the comma, the blank and the year of the date layout. */
  lemma {:induction false} DayYearOfText(d: CalendarDate, rest: string)
    requires ValidDate(d)
    ensures var t5 := Padded(d.year, 4) + rest;
            var t4 := "," + (" " + t5);
            var t3 := Padded(d.day, 2) + t4;
            && Spaces(" " + t3) == Some(t3)
            && ShortNumber(t3, 1, 31) == Some((d.day, t4))
            && Literal(t4, ',') == Some(" " + t5)
            && Spaces(" " + t5) == Some(t5)
            && YearDigits(t5) == Some((d.year, rest))
  {
    var dd, yy := Padded(d.day, 2), Padded(d.year, 4);
    var t5 := yy + rest;
    var t4 := "," + (" " + t5);
    PaddedWidth(d.day, 2);
    PaddedWidth(d.year, 4);
    BlankThenDigits(dd, t4);
    ShortNumberOf(d.day, 1, 31, t4);
    BlankThenDigits(yy, rest);
    assert t5[..4] == yy && t5[4..] == rest;
  }

  /** Parsing the date layout gives back its calendar day, whatever follows it. */
  lemma {:induction false} DateFieldsOfText(weekday: string, wi: nat, month: string, d: CalendarDate, rest: string)
    requires ValidDate(d)
    requires SpellsKey(weekday, WeekdayKeys, wi) && SpellsKey(month, MonthKeys, d.month - 1)
    ensures MatchDateFields(DateText(weekday, month, d) + rest) == Some((d, rest))
  {
    var t5 := Padded(d.year, 4) + rest;
    var t3 := Padded(d.day, 2) + ("," + (" " + t5));
    assert DateText(weekday, month, d) + rest == weekday + (" " + (month + (" " + t3)));
    NamesOfText(weekday, wi, month, d.month - 1, " " + t3);
    DayYearOfText(d, rest);
  }

  lemma {:induction false} ClockFieldsOfText(t: ClockTime, zone: string, zi: nat)
    requires ValidTime(t) && SpellsKey(zone, ZoneKeys, zi)
    ensures MatchClockFields(ClockText(t, zone)) == Some((t, []))
  {
    var u3 := " " + zone;
    var u2 := Padded(t.minute, 2) + u3;
    assert ClockText(t, zone) == " " + (Padded(t.hour, 2) + (":" + u2));
    ClockNumbersOfText(t, u3);
    ZoneOfText(zone, zi);
  }

  /** The blank and the zone that end the clock layout. */
  lemma ZoneOfText(zone: string, zi: nat)
    requires SpellsKey(zone, ZoneKeys, zi)
    ensures Spaces(" " + zone) == Some(zone)
    ensures MatchName(zone, ZoneKeys) == Some((zi, []))
  {
    KeysLowercase();
    BlankThenName(zone, ZoneKeys, zi, []);
    assert zone + [] == zone;
    assert ZoneKeys[0] != ZoneKeys[1];
    MatchNameOf(zone, [], ZoneKeys, zi);
  }

  /** The blank, hour, colon and minute of the clock layout. */
  lemma {:induction false} ClockNumbersOfText(t: ClockTime, u3: string)
    requires ValidTime(t) && (u3 == [] || !IsDigit(u3[0]))
    ensures var u2 := Padded(t.minute, 2) + u3;
            var u0 := Padded(t.hour, 2) + (":" + u2);
            && Spaces(" " + u0) == Some(u0)
            && ShortNumber(u0, 0, 23) == Some((t.hour, ":" + u2))
            && Literal(":" + u2, ':') == Some(u2)
            && ShortNumber(u2, 0, 59) == Some((t.minute, u3))
  {
    var u2 := Padded(t.minute, 2) + u3;
    PaddedWidth(t.hour, 2);
    BlankThenDigits(Padded(t.hour, 2), ":" + u2);
    ShortNumberOf(t.hour, 0, 23, ":" + u2);
    ShortNumberOf(t.minute, 0, 59, u3);
  }

  /** A timestamp in the data set's layout parses through the primary
      format, and the same text without the clock and zone parses through
      the fallback; both give the same year and month. */
  lemma DateRoundTrip(weekday: string, wi: nat, month: string, d: CalendarDate, t: ClockTime, zone: string, zi: nat)
    requires ValidDate(d) && ValidTime(t)
    requires SpellsKey(weekday, WeekdayKeys, wi) && SpellsKey(month, MonthKeys, d.month - 1)
    requires SpellsKey(zone, ZoneKeys, zi)
    ensures ParsePrimary(TimestampText(weekday, month, d, t, zone)) == Some(d)
    ensures ParseFallback(TimestampText(weekday, month, d, t, zone)).None?
    ensures ParseDate(TimestampText(weekday, month, d, t, zone)) == Ok(d)
    ensures ParsePrimary(DateText(weekday, month, d)).None?
    ensures ParseDate(DateText(weekday, month, d)) == Ok(d)
    ensures ExtractYear(TimestampText(weekday, month, d, t, zone)) == ExtractYear(DateText(weekday, month, d)) == Ok(d.year)
    ensures ExtractMonth(TimestampText(weekday, month, d, t, zone)) == ExtractMonth(DateText(weekday, month, d)) == Ok(d.month)
  {
    DateFieldsOfText(weekday, wi, month, d, ClockText(t, zone));
    ClockFieldsOfText(t, zone, zi);
    DateFieldsOfText(weekday, wi, month, d, []);
    assert DateText(weekday, month, d) + [] == DateText(weekday, month, d);
  }

  /** Both formats read the same leading fields, so a text whose fields do
      not name a real day is rejected by both, whatever follows them. */
  lemma ImpossibleDayRejected(s: string)
    requires MatchDateFields(s).Some? && !ValidDate(MatchDateFields(s).value.0)
    ensures ParseDate(s).Err?
  {
  }
}
