/** The ranking cells: the ten organisations with the most launches and
    their rows (lines 471-476), and the country with the most launches in
    each year (lines 624-629). */
module Rankings {
  import opened Series
  import opened Counts
  import opened Records
  import opened ColdWar

  function OrganisationField(l: Launch): string {
    l.mission.organisation
  }

  /** The row selector `df.Organisation == val`. */
  function HasOrganisation(org: string): Launch -> bool {
    (l: Launch) => l.mission.organisation == org
  }

  /** `df.groupby("Organisation").count().sort_values("Date", ascending=False)[:10].index`:
      every row has a date, so the count of dates is the number of launches. */
  function TopOrganisations(ls: seq<Launch>): seq<string> {
    var counts := ValueCounts(Project(ls, OrganisationField));
    Keys(counts)[..if |counts| < 10 then |counts| else 10]
  }

  /** The number of launches of `org`. */
  function LaunchCount(ls: seq<Launch>, org: string): nat {
    multiset(Project(ls, OrganisationField))[org]
  }

  /** At most ten distinct organisations, ten if the frame has that many. */
  lemma TopOrganisationsFacts(ls: seq<Launch>)
    ensures |TopOrganisations(ls)| <= 10 && Distinct(TopOrganisations(ls))
    ensures |TopOrganisations(ls)| == if |Unique(Project(ls, OrganisationField))| < 10 then |Unique(Project(ls, OrganisationField))| else 10
  {
    var orgs := Project(ls, OrganisationField);
    var counts := ValueCounts(orgs);
    ValueCountsFacts(orgs);
    var n := if |counts| < 10 then |counts| else 10;
    assert forall i :: 0 <= i < n ==> Keys(counts)[..n][i] == Keys(counts)[i];
  }

  /** Each chosen organisation is one of the frame's. */
  lemma TopOrganisationsOccur(ls: seq<Launch>)
    ensures forall i :: 0 <= i < |TopOrganisations(ls)| ==> TopOrganisations(ls)[i] in Project(ls, OrganisationField)
  {
    var orgs := Project(ls, OrganisationField);
    var counts := ValueCounts(orgs);
    ValueCountsFacts(orgs);
    var n := if |counts| < 10 then |counts| else 10;
    assert forall i :: 0 <= i < n ==> Keys(counts)[..n][i] == counts[i].key;
  }

  /** The chosen organisations are listed from the most launches down. */
  lemma TopOrganisationsOrdered(ls: seq<Launch>)
    ensures forall i, j :: 0 <= i < j < |TopOrganisations(ls)| ==>
      LaunchCount(ls, TopOrganisations(ls)[i]) >= LaunchCount(ls, TopOrganisations(ls)[j])
  {
    var orgs := Project(ls, OrganisationField);
    var counts := ValueCounts(orgs);
    ValueCountsFacts(orgs);
    var n := if |counts| < 10 then |counts| else 10;
    assert forall i :: 0 <= i < n ==> Keys(counts)[..n][i] == counts[i].key;
  }

  /** Every organisation left out has at most as many launches as each one chosen. */
  lemma TopOrganisationsDominate(ls: seq<Launch>, i: nat, k: nat)
    requires i < |TopOrganisations(ls)| && k < |ls| && ls[k].mission.organisation !in TopOrganisations(ls)
    ensures LaunchCount(ls, ls[k].mission.organisation) <= LaunchCount(ls, TopOrganisations(ls)[i])
  {
    var orgs := Project(ls, OrganisationField);
    var counts := ValueCounts(orgs);
    ValueCountsFacts(orgs);
    var n := if |counts| < 10 then |counts| else 10;
    assert orgs[k] == ls[k].mission.organisation;
    LeftOutDominated(orgs, counts, n, i, orgs[k]);
  }

  /** In a non-increasing table of the counts of `s`, a value not among the
      first `n` keys occurs at most as often as each of those `n`. */
  lemma LeftOutDominated(s: seq<string>, counts: seq<Entry<string>>, n: nat, i: nat, x: string)
    requires CountsOf(counts, s) && NonIncreasing(counts)
    requires i < n <= |counts| && x in s && x !in Keys(counts)[..n]
    ensures multiset(s)[x] <= multiset(s)[Keys(counts)[..n][i]]
  {
    var k :| 0 <= k < |s| && s[k] == x;
    var j :| 0 <= j < |counts| && Keys(counts)[j] == x;
    assert forall y :: 0 <= y < n ==> Keys(counts)[..n][y] == Keys(counts)[y];
    assert counts[i].count >= counts[j].count;
  }

  /** `df[df.Organisation == val]`. */
  function RowsOf(ls: seq<Launch>, org: string): seq<Launch> {
    Filter(ls, HasOrganisation(org))
  }

  /** The rows of each organisation of `orgs`, one organisation after the other. */
  function Gathered(ls: seq<Launch>, orgs: seq<string>): seq<Launch> {
    if orgs == [] then [] else Gathered(ls, orgs[..|orgs| - 1]) + RowsOf(ls, orgs[|orgs| - 1])
  }

  /** For distinct organisations, the gathered rows are exactly the rows of
      those organisations, each as often as in the frame. */
  lemma {:induction false} GatheredCount(ls: seq<Launch>, orgs: seq<string>, l: Launch)
    requires Distinct(orgs)
    ensures multiset(Gathered(ls, orgs))[l] == if l.mission.organisation in orgs then multiset(ls)[l] else 0
  {
    if orgs != [] {
      var init, last := orgs[..|orgs| - 1], orgs[|orgs| - 1];
      assert Distinct(init);
      GatheredCount(ls, init, l);
      FilterCount(ls, HasOrganisation(last), l);
      assert orgs == init + [last];
      assert last !in init;
    }
  }

  /** The loop at lines 471-476, which collects `top_10_org` by concatenating
      the rows of each of the ten organisations in turn. */
  method GatherTopOrganisations(ls: seq<Launch>) returns (top10: seq<Launch>)
    ensures top10 == Gathered(ls, TopOrganisations(ls))
    ensures forall l :: multiset(top10)[l] == if l.mission.organisation in TopOrganisations(ls) then multiset(ls)[l] else 0
  {
    var top := TopOrganisations(ls);
    top10 := [];
    var i := 0;
    while i < |top|
      invariant 0 <= i <= |top|
      invariant top10 == Gathered(ls, top[..i])
    {
      var org := RowsOf(ls, top[i]);
      assert top[..i + 1][..i] == top[..i];
      top10 := top10 + org;
      i := i + 1;
    }
    assert top[..i] == top;
    TopOrganisationsFacts(ls);
    forall l ensures multiset(top10)[l] == if l.mission.organisation in top then multiset(ls)[l] else 0 {
      GatheredCount(ls, top, l);
    }
  }

  /** `c` has the most launches among the launches of year `y`, and has at least one. */
  ghost predicate LeadsYear(ls: seq<Launch>, y: int, c: string) {
    var countries := Project(Filter(ls, InYear(y)), CountryField);
    c in countries && forall j :: 0 <= j < |countries| ==> multiset(countries)[countries[j]] <= multiset(countries)[c]
  }

  /** `year_data['Country'].value_counts().idxmax()` for the launches of year
      `y`; it is only asked for years that have launches (`idxmax()` raises on
      an empty year, which the loop never meets). */
  function YearLeader(ls: seq<Launch>, y: int): string {
    var counts := ValueCounts(Project(Filter(ls, InYear(y)), CountryField));
    if counts == [] then "" else counts[0].key
  }

  /** The country `idxmax()` picks has the most launches of its year. */
  lemma YearLeaderLeads(ls: seq<Launch>, y: int)
    requires y in Project(ls, YearField)
    ensures LeadsYear(ls, y, YearLeader(ls, y))
  {
    var countries := Project(Filter(ls, InYear(y)), CountryField);
    YearHasLaunches(ls, y);
    MostFrequentFirst(countries);
    ValueCountsFacts(countries);
  }

  /** The body of the loop at lines 626-627 for one year. */
  method TopCountry(ls: seq<Launch>, year: int) returns (country: string)
    requires year in Project(ls, YearField)
    ensures LeadsYear(ls, year, country)
    ensures country == YearLeader(ls, year)
  {
    var yearData := Filter(ls, InYear(year));
    YearHasLaunches(ls, year);
    MostFrequentFirst(Project(yearData, CountryField));
    var counts := ValueCounts(Project(yearData, CountryField));
    country := counts[0].key;
    YearLeaderLeads(ls, year);
  }

  /** The loop at lines 624-629: for each year, in order of first appearance,
      the country with the most launches that year. */
  method LeadingCountries(ls: seq<Launch>) returns (top: seq<(int, string)>)
    ensures |top| == |Unique(Project(ls, YearField))|
    ensures forall i :: 0 <= i < |top| ==> top[i].0 == Unique(Project(ls, YearField))[i]
    ensures forall i :: 0 <= i < |top| ==> top[i].1 == YearLeader(ls, top[i].0)
    ensures forall i :: 0 <= i < |top| ==> LeadsYear(ls, top[i].0, top[i].1)
  {
    var years := Unique(Project(ls, YearField));
    UniqueMembers(Project(ls, YearField));
    top := [];
    var i := 0;
    while i < |years|
      invariant 0 <= i <= |years| && |top| == i
      invariant forall k :: 0 <= k < i ==> top[k].0 == years[k]
      invariant forall k :: 0 <= k < i ==> top[k].1 == YearLeader(ls, top[k].0)
    {
      var year := years[i];
      var country := TopCountry(ls, year);
      LeaderAppended(ls, years, top, (year, country));
      top := top + [(year, country)];
      i := i + 1;
    }
    forall k | 0 <= k < |top| ensures LeadsYear(ls, top[k].0, top[k].1) {
      YearLeaderLeads(ls, top[k].0);
    }
  }

  /** One more year and its leader keep the loop's table in step with the years. */
  lemma LeaderAppended(ls: seq<Launch>, years: seq<int>, top: seq<(int, string)>, entry: (int, string))
    requires |top| < |years| && entry.0 == years[|top|] && entry.1 == YearLeader(ls, entry.0)
    requires forall k :: 0 <= k < |top| ==> top[k].0 == years[k] && top[k].1 == YearLeader(ls, top[k].0)
    ensures forall k :: 0 <= k < |top| + 1 ==> (top + [entry])[k].0 == years[k]
    ensures forall k :: 0 <= k < |top| + 1 ==> (top + [entry])[k].1 == YearLeader(ls, (top + [entry])[k].0)
  {
  }

  /** A year of the `Year` column has at least one launch. */
  lemma YearHasLaunches(ls: seq<Launch>, y: int)
    requires y in Project(ls, YearField)
    ensures Filter(ls, InYear(y)) != []
  {
    var k :| 0 <= k < |ls| && ls[k].year == y;
    FilterCount(ls, InYear(y), ls[k]);
    assert ls[k] in multiset(ls);
  }
}
