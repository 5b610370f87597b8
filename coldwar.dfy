/** The Cold War cells (lines 524-596): the launches of the two superpowers,
    sorted by year and cut at 1991, their counts per country, and the
    failures per year, absolute and as a percentage of the year's launches. */
module ColdWar {
  import opened Wrappers
  import opened Series
  import opened Counts
  import opened Records

  function CountryField(l: Launch): string {
    l.country
  }

  function YearField(l: Launch): int {
    l.year
  }

  /** `(df['Country']=='USA') | (df['Country']=='Russia')`. */
  predicate IsSuperpower(l: Launch) {
    l.country == "USA" || l.country == "Russia"
  }

  /** `war.Year <= 1991`: the Cold War lasted until 1991. */
  predicate DuringColdWar(l: Launch) {
    l.year <= 1991
  }

  /** `CW_df` (line 524). */
  function ColdWarLaunches(ls: seq<Launch>): seq<Launch> {
    Filter(ls, IsSuperpower)
  }

  /** `CW_df` holds each American or Russian launch as often as the frame
      does, no other launch, and keeps the frame's order. */
  lemma ColdWarLaunchesFacts(ls: seq<Launch>, l: Launch)
    ensures multiset(ColdWarLaunches(ls))[l] == if IsSuperpower(l) then multiset(ls)[l] else 0
    ensures forall a, b :: ColdWarLaunches(a + b) == ColdWarLaunches(a) + ColdWarLaunches(b)
  {
    FilterCount(ls, IsSuperpower, l);
    forall a, b ensures ColdWarLaunches(a + b) == ColdWarLaunches(a) + ColdWarLaunches(b) {
      FilterConcat(a, b, IsSuperpower);
    }
  }

  /** `CW_df.sort_values("Year")` (line 530). */
  function SortByYear(ls: seq<Launch>): seq<Launch> {
    SortBy(ls, YearField)
  }

  /** `war[(war.Year <= 1991)]` (line 531). */
  function ColdWarEra(ls: seq<Launch>): seq<Launch> {
    Filter(SortByYear(ColdWarLaunches(ls)), DuringColdWar)
  }

  /** The Cold War view holds exactly the American and Russian launches up to
      1991, each as often as the frame does, in order of year. */
  lemma ColdWarEraFacts(ls: seq<Launch>, l: Launch)
    ensures Ordered(ColdWarEra(ls), YearField)
    ensures multiset(ColdWarEra(ls))[l] == if IsSuperpower(l) && DuringColdWar(l) then multiset(ls)[l] else 0
  {
    var cw := ColdWarLaunches(ls);
    SortByOrdered(cw, YearField);
    FilterOrdered(SortByYear(cw), DuringColdWar, YearField);
    FilterCount(SortByYear(cw), DuringColdWar, l);
    SortByPermutes(cw, YearField);
    FilterCount(ls, IsSuperpower, l);
  }

  /** `CW_df["Country"].value_counts()` (line 541). */
  function SuperpowerCounts(ls: seq<Launch>): seq<Entry<string>> {
    ValueCounts(Project(ColdWarLaunches(ls), CountryField))
  }

  /** At most two rows, `USA` and `Russia`, each with its number of launches,
      the larger first; a superpower with a launch has a row, and the rows
      add up to the Cold War launches. */
  lemma SuperpowerCountsFacts(ls: seq<Launch>)
    ensures |SuperpowerCounts(ls)| <= 2
    ensures forall i :: 0 <= i < |SuperpowerCounts(ls)| ==> SuperpowerCounts(ls)[i].key in ["USA", "Russia"]
    ensures forall i :: 0 <= i < |SuperpowerCounts(ls)| ==>
      SuperpowerCounts(ls)[i].count == |Filter(ls, HasCountry(SuperpowerCounts(ls)[i].key))|
    ensures forall c :: c in ["USA", "Russia"] && Filter(ls, HasCountry(c)) != [] ==> c in Keys(SuperpowerCounts(ls))
    ensures Total(SuperpowerCounts(ls)) == |ColdWarLaunches(ls)|
    ensures NonIncreasing(SuperpowerCounts(ls))
  {
    var cw := ColdWarLaunches(ls);
    var countries := Project(cw, CountryField);
    var vc := SuperpowerCounts(ls);
    ValueCountsFacts(countries);
    forall i | 0 <= i < |vc| ensures vc[i].key in ["USA", "Russia"] {
      var j :| 0 <= j < |countries| && countries[j] == vc[i].key;
      assert IsSuperpower(cw[j]);
    }
    AtMostTwo(Keys(vc));
    forall i | 0 <= i < |vc| ensures vc[i].count == |Filter(ls, HasCountry(vc[i].key))| {
      OccurrencesOfCountry(ls, vc[i].key);
    }
    forall c | c in ["USA", "Russia"] && Filter(ls, HasCountry(c)) != [] ensures c in Keys(vc) {
      SuperpowerListed(ls, c);
    }
  }

  /** A superpower with a launch occurs in `CW_df["Country"]`, so it is a key of its counts. */
  lemma SuperpowerListed(ls: seq<Launch>, c: string)
    requires c in ["USA", "Russia"] && Filter(ls, HasCountry(c)) != []
    ensures c in Keys(SuperpowerCounts(ls))
  {
    var countries := Project(ColdWarLaunches(ls), CountryField);
    OccurrencesOfCountry(ls, c);
    assert c in multiset(countries);
    var j :| 0 <= j < |countries| && countries[j] == c;
    ValueCountsFacts(countries);
  }

  lemma AtMostTwo(keys: seq<string>)
    requires Distinct(keys) && forall i :: 0 <= i < |keys| ==> keys[i] in ["USA", "Russia"]
    ensures |keys| <= 2
  {
    FirstThree(keys);
  }

  lemma FirstThree(keys: seq<string>)
    ensures |keys| > 2 ==>
      || keys[0] == keys[1] || keys[0] == keys[2] || keys[1] == keys[2]
      || keys[0] !in ["USA", "Russia"] || keys[1] !in ["USA", "Russia"] || keys[2] !in ["USA", "Russia"]
  {
  }

  /** The row selector `df['Country'] == c`. */
  function HasCountry(c: string): Launch -> bool {
    (l: Launch) => l.country == c
  }

  /** For `USA` and `Russia`, the superpower rows with that country are all that country's rows. */
  lemma {:induction false} OccurrencesOfCountry(ls: seq<Launch>, c: string)
    requires c in ["USA", "Russia"]
    ensures multiset(Project(ColdWarLaunches(ls), CountryField))[c] == |Filter(ls, HasCountry(c))|
  {
    if ls != [] {
      var rest := ls[1..];
      var head := if IsSuperpower(ls[0]) then [ls[0]] else [];
      OccurrencesOfCountry(rest, c);
      assert ColdWarLaunches(ls) == head + ColdWarLaunches(rest);
      ProjectConcat(head, ColdWarLaunches(rest), CountryField);
      assert multiset(Project(head, CountryField))[c] == if ls[0].country == c then 1 else 0;
      assert Filter(ls, HasCountry(c)) == (if ls[0].country == c then [ls[0]] else []) + Filter(rest, HasCountry(c));
    }
  }

  // Failures (lines 568-569 and 594-596)

  /** `mission_failures.groupby('Year').size()`: the failures of each year with at least one. */
  function FailuresPerYear(cw: seq<Launch>): seq<Entry<int>> {
    GroupSizes(Project(Filter(cw, Failed), YearField))
  }

  /** `CW_df.groupby('Year').size()`. */
  function LaunchesPerYear(cw: seq<Launch>): seq<Entry<int>> {
    GroupSizes(Project(cw, YearField))
  }

  /** `(failures / total_missions) * 100`: aligned on the year, with no value
      (NaN) for a year without failures. */
  function FailurePercentage(cw: seq<Launch>): (r: seq<(int, Option<real>)>)
    ensures |r| == |LaunchesPerYear(cw)|
  {
    var totals, failures := LaunchesPerYear(cw), FailuresPerYear(cw);
    seq(|totals|, i requires 0 <= i < |totals| => (totals[i].key, Percentage(CountOf(failures, totals[i].key), totals[i].count)))
  }

  /** `f / n * 100` for a year with `f` failures among `n` launches; NaN when there is no failure. */
  function Percentage(f: nat, n: nat): Option<real> {
    if f == 0 || n == 0 then None else Some((f as real / n as real) * 100.0)
  }

  /** The failures listed for a year are the failed launches of that year,
      never more than all its launches. */
  lemma FailuresPerYearFacts(cw: seq<Launch>, y: int)
    ensures CountOf(FailuresPerYear(cw), y) == |Filter(cw, FailedIn(y))|
    ensures CountOf(FailuresPerYear(cw), y) <= CountOf(LaunchesPerYear(cw), y)
  {
    GroupSizesFacts(Project(Filter(cw, Failed), YearField));
    GroupSizesFacts(Project(cw, YearField));
    CountOfCounts(FailuresPerYear(cw), Project(Filter(cw, Failed), YearField), y);
    CountOfCounts(LaunchesPerYear(cw), Project(cw, YearField), y);
    FailuresOfYear(cw, y);
  }

  function FailedIn(y: int): Launch -> bool {
    (l: Launch) => Failed(l) && l.year == y
  }

  function InYear(y: int): Launch -> bool {
    (l: Launch) => l.year == y
  }

  lemma FailuresOfYear(cw: seq<Launch>, y: int)
    ensures multiset(Project(Filter(cw, Failed), YearField))[y] == |Filter(cw, FailedIn(y))|
    ensures multiset(Project(cw, YearField))[y] == |Filter(cw, InYear(y))|
    ensures |Filter(cw, FailedIn(y))| <= |Filter(cw, InYear(y))|
  {
    YearOccurrences(Filter(cw, Failed), y);
    FailedFilters(cw, y);
    YearOccurrences(cw, y);
    FailedOfYearBound(cw, y);
  }

  /** The rows of year `y` are as many as the occurrences of `y` in the `Year` column. */
  lemma {:induction false} YearOccurrences(cw: seq<Launch>, y: int)
    ensures multiset(Project(cw, YearField))[y] == |Filter(cw, InYear(y))|
  {
    if cw != [] {
      YearOccurrences(cw[1..], y);
      ProjectHead(cw, YearField);
      assert Filter(cw, InYear(y)) == (if cw[0].year == y then [cw[0]] else []) + Filter(cw[1..], InYear(y));
    }
  }

  /** Selecting the failures and then year `y` selects the failures of year `y`. */
  lemma {:induction false} FailedFilters(cw: seq<Launch>, y: int)
    ensures Filter(Filter(cw, Failed), InYear(y)) == Filter(cw, FailedIn(y))
  {
    if cw != [] {
      FailedFilters(cw[1..], y);
      var head := if Failed(cw[0]) then [cw[0]] else [];
      FilterConcat(head, Filter(cw[1..], Failed), InYear(y));
    }
  }

  lemma {:induction false} FailedOfYearBound(cw: seq<Launch>, y: int)
    ensures |Filter(cw, FailedIn(y))| <= |Filter(cw, InYear(y))|
  {
    if cw != [] {
      FailedOfYearBound(cw[1..], y);
    }
  }

  /** One row per year with launches, in increasing year order; the
      percentage is missing exactly when the year had no failure, and is
      otherwise the share of that year's launches that failed, above 0 and
      at most 100. */
  lemma FailurePercentageFacts(cw: seq<Launch>)
    ensures forall i :: 0 <= i < |cw| ==> exists k :: 0 <= k < |FailurePercentage(cw)| && FailurePercentage(cw)[k].0 == cw[i].year
    ensures forall i, j :: 0 <= i < j < |FailurePercentage(cw)| ==> FailurePercentage(cw)[i].0 < FailurePercentage(cw)[j].0
    ensures forall k :: 0 <= k < |FailurePercentage(cw)| ==> PercentageOfYear(cw, FailurePercentage(cw)[k])
  {
    var totals, r := LaunchesPerYear(cw), FailurePercentage(cw);
    var years := Project(cw, YearField);
    GroupSizesFacts(years);
    assert forall k :: 0 <= k < |r| ==> r[k].0 == totals[k].key;
    forall i | 0 <= i < |cw| ensures exists k :: 0 <= k < |r| && r[k].0 == cw[i].year {
      assert years[i] == cw[i].year;
      var k :| 0 <= k < |totals| && Keys(totals)[k] == years[i];
      assert r[k].0 == cw[i].year;
    }
    forall k | 0 <= k < |r| ensures PercentageOfYear(cw, r[k]) {
      PercentageAt(cw, k);
    }
  }

  /** The row for year `y` is a year with launches and holds that year's
      failure percentage, or nothing when it had no failure. */
  ghost predicate PercentageOfYear(cw: seq<Launch>, row: (int, Option<real>)) {
    var (y, p) := row;
    var f, n := |Filter(cw, FailedIn(y))|, |Filter(cw, InYear(y))|;
    && n > 0
    && (p.None? <==> f == 0)
    && (p.Some? ==> p.value == (f as real / n as real) * 100.0 && 0.0 < p.value <= 100.0)
  }

  lemma PercentageAt(cw: seq<Launch>, k: nat)
    requires k < |FailurePercentage(cw)|
    ensures PercentageOfYear(cw, FailurePercentage(cw)[k])
  {
    var totals := LaunchesPerYear(cw);
    var years := Project(cw, YearField);
    var y := totals[k].key;
    GroupSizesFacts(years);
    FailuresPerYearFacts(cw, y);
    FailuresOfYear(cw, y);
    CountOfEntry(totals, k);
    var f, n := |Filter(cw, FailedIn(y))|, |Filter(cw, InYear(y))|;
    assert n == totals[k].count >= 1;
    assert CountOf(FailuresPerYear(cw), y) == f;
    assert FailurePercentage(cw)[k] == (y, Percentage(f, n));
    if f > 0 {
      ShareBounds(f, n);
    }
  }

  /** A share of a total, as a percentage, lies in (0, 100]. */
  lemma ShareBounds(f: nat, n: nat)
    requires 0 < f <= n
    ensures 0.0 < (f as real / n as real) * 100.0 <= 100.0
  {
    var q := f as real / n as real;
    assert q * n as real == f as real;
  }
}
