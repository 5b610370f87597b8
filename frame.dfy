/** The notebook's data frame `df`. Its `Country`, `Year` and `Month` columns
    are added in place (lines 232, 294, 329) and `Country` is later rewritten
    in place (line 518); the frame is a class whose optional column fields
    are `None` until the cell that creates them has run. */
module Frame {
  import opened Wrappers
  import opened Series
  import opened Dates
  import opened Records
  import opened Prices

  /** `Location.str.split(',').str[-1].str.strip()` on one row. */
  function LocationCountry(m: Mission): string {
    CountryOf(m.location)
  }

  function DateField(m: Mission): string {
    m.date
  }

  /** The derived `Country` column. */
  function CountryColumn(ms: seq<Mission>): seq<string> {
    Project(ms, LocationCountry)
  }

  /** The `Date` column. */
  function DateColumn(ms: seq<Mission>): seq<string> {
    Project(ms, DateField)
  }

  /** `countries_to_replace` (line 517). */
  const SovietSites: seq<string> := ["Kazakhstan", "Russia"]

  /** The assignment at line 518 applied to one cell. */
  function MergeCountry(c: string): string {
    if c in SovietSites then "Russia" else c
  }

  /** `df.loc[df['Country'].isin(countries_to_replace), 'Country'] = 'Russia'`:
      launches from Kazakhstan (Baikonur) are counted as Russian, every other
      cell is left as it was. */
  function MergeColumn(cs: seq<string>): (r: seq<string>)
    ensures |r| == |cs|
    ensures "Kazakhstan" !in r
    ensures forall i :: 0 <= i < |cs| ==> (r[i] == "Russia" <==> cs[i] in SovietSites)
    ensures forall i :: 0 <= i < |cs| && cs[i] !in SovietSites ==> r[i] == cs[i]
  {
    seq(|cs|, i requires 0 <= i < |cs| => MergeCountry(cs[i]))
  }

  /** Running the merge cell a second time changes nothing. */
  lemma MergeColumnIdempotent(cs: seq<string>)
    ensures MergeColumn(MergeColumn(cs)) == MergeColumn(cs)
  {
  }

  /** The `Year` column exists exactly when every date parses, and then holds
      each row's year, between 1 and 9999. */
  lemma YearColumnFacts(ms: seq<Mission>)
    ensures MapAll(DateColumn(ms), ExtractYear).Ok? <==> forall i :: 0 <= i < |ms| ==> ParseDate(ms[i].date).Ok?
    ensures MapAll(DateColumn(ms), ExtractYear).Ok? ==>
      forall i :: 0 <= i < |ms| ==>
        && MapAll(DateColumn(ms), ExtractYear).value[i] == ParseDate(ms[i].date).value.year
        && 1 <= MapAll(DateColumn(ms), ExtractYear).value[i] <= 9999
  {
    var dates := DateColumn(ms);
    MapAllSucceeds(dates, ExtractYear);
    assert forall i :: 0 <= i < |ms| ==> dates[i] == ms[i].date;
  }

  /** The `Month` column exists exactly when every date parses, and then holds
      each row's month, between 1 and 12. */
  lemma MonthColumnFacts(ms: seq<Mission>)
    ensures MapAll(DateColumn(ms), ExtractMonth).Ok? <==> forall i :: 0 <= i < |ms| ==> ParseDate(ms[i].date).Ok?
    ensures MapAll(DateColumn(ms), ExtractMonth).Ok? ==>
      forall i :: 0 <= i < |ms| ==>
        && MapAll(DateColumn(ms), ExtractMonth).value[i] == ParseDate(ms[i].date).value.month
        && 1 <= MapAll(DateColumn(ms), ExtractMonth).value[i] <= 12
  {
    var dates := DateColumn(ms);
    MapAllSucceeds(dates, ExtractMonth);
    assert forall i :: 0 <= i < |ms| ==> dates[i] == ms[i].date;
  }

  class MissionFrame {
    const rows: seq<Mission>
    var country: Option<seq<string>>
    var year: Option<seq<int>>
    var month: Option<seq<int>>

    /** Every column that exists has one cell per row. */
    ghost predicate Valid()
      reads this
    {
      && (country.Some? ==> |country.value| == |rows|)
      && (year.Some? ==> |year.value| == |rows|)
      && (month.Some? ==> |month.value| == |rows|)
    }

    /** `df = df_data.drop(columns_to_drop, axis=1)`: the rows, no derived column yet. */
    constructor (rows: seq<Mission>)
      ensures Valid() && this.rows == rows
      ensures country.None? && year.None? && month.None?
    {
      this.rows := rows;
      country, year, month := None, None, None;
    }

    /** Line 232: `df['Country'] = …`. */
    method AddCountryColumn()
      requires Valid()
      modifies this
      ensures Valid() && country.Some?
      ensures forall i :: 0 <= i < |rows| ==> country.value[i] == CountryOf(rows[i].location)
      ensures year == old(year) && month == old(month)
    {
      country := Some(CountryColumn(rows));
    }

    /** Line 294: `df['Year'] = df['Date'].apply(extract_year)`. `apply`
        raises on the first date neither format accepts, and the column is
        then not assigned. */
    method AddYearColumn() returns (outcome: Result<(), DateError>)
      requires Valid()
      modifies this
      ensures Valid()
      ensures outcome.Ok? <==> MapAll(DateColumn(rows), ExtractYear).Ok?
      ensures outcome.Ok? ==> year == Some(MapAll(DateColumn(rows), ExtractYear).value)
      ensures outcome.Err? ==> year == old(year) && outcome.error == MapAll(DateColumn(rows), ExtractYear).error
      ensures country == old(country) && month == old(month)
    {
      var dates := DateColumn(rows);
      match MapAll(dates, ExtractYear) {
        case Ok(ys) =>
          year := Some(ys);
          outcome := Ok(());
        case Err(e) =>
          outcome := Err(e);
      }
    }

    /** Line 329: `df['Month'] = df['Date'].apply(extract_year)`, with the
        second `extract_year`, which returns the month. */
    method AddMonthColumn() returns (outcome: Result<(), DateError>)
      requires Valid()
      modifies this
      ensures Valid()
      ensures outcome.Ok? <==> MapAll(DateColumn(rows), ExtractMonth).Ok?
      ensures outcome.Ok? ==> month == Some(MapAll(DateColumn(rows), ExtractMonth).value)
      ensures outcome.Err? ==> month == old(month) && outcome.error == MapAll(DateColumn(rows), ExtractMonth).error
      ensures country == old(country) && year == old(year)
    {
      var dates := DateColumn(rows);
      match MapAll(dates, ExtractMonth) {
        case Ok(ms) =>
          month := Some(ms);
          outcome := Ok(());
        case Err(e) =>
          outcome := Err(e);
      }
    }

    /** Line 518, on the frame's own `Country` column. */
    method MergeSovietSites()
      requires Valid() && country.Some?
      modifies this
      ensures Valid() && country == Some(MergeColumn(old(country.value)))
      ensures year == old(year) && month == old(month)
      ensures year.Some? && month.Some? ==> forall i :: 0 <= i < |rows| ==> Launches()[i].country != "Kazakhstan"
    {
      country := Some(MergeColumn(country.value));
    }

    /** The rows with their derived columns, once all three exist. */
    function Launches(): (r: seq<Launch>)
      reads this
      requires Valid() && country.Some? && year.Some? && month.Some?
      ensures |r| == |rows|
      ensures forall i :: 0 <= i < |r| ==>
        r[i].mission == rows[i] && r[i].country == country.value[i] && r[i].year == year.value[i] && r[i].month == month.value[i]
    {
      var countries, years, months := country.value, year.value, month.value;
      seq(|rows|, i requires 0 <= i < |rows| => Launch(rows[i], countries[i], years[i], months[i]))
    }
  }

  /** The `Price` column of a priced copy: the texts of the data set until
      `astype(float)` has replaced them with amounts. */
  datatype PriceColumn = Texts(texts: seq<string>) | Amounts(amounts: seq<real>)

  /** `df_data[df_data["Price"].notna()].copy()` (lines 268 and 387), whose
      `Price` column is then rewritten in place (lines 269 and 389). */
  class PricedFrame {
    const rows: seq<Mission>
    var price: PriceColumn

    ghost predicate Valid()
      reads this
    {
      && (forall i :: 0 <= i < |rows| ==> rows[i].price.Some?)
      && (price.Texts? ==> |price.texts| == |rows| && forall i :: 0 <= i < |rows| ==> rows[i].price == Some(price.texts[i]))
      && (price.Amounts? ==> |price.amounts| == |rows|)
    }

    /** Keeps the rows that have a price, with their price texts. */
    constructor (ms: seq<Mission>)
      ensures Valid() && rows == DropMissingPrice(ms) && price == Texts(PriceTexts(ms))
    {
      rows := DropMissingPrice(ms);
      price := Texts(PriceTexts(ms));
    }

    /** `["Price"] = ["Price"].str.replace(',', '').astype(float)`: every text
        becomes its amount, or `astype` raises on the first text that is not
        a number and the column keeps its texts. */
    method CleanPriceColumn() returns (outcome: Result<(), PriceError>)
      requires Valid() && price.Texts?
      modifies this
      ensures Valid()
      ensures outcome.Ok? <==> MapAll(old(price.texts), PriceValue).Ok?
      ensures outcome.Ok? ==> price == Amounts(MapAll(old(price.texts), PriceValue).value)
      ensures outcome.Err? ==> price == old(price) && outcome.error == MapAll(old(price.texts), PriceValue).error
    {
      match MapAll(price.texts, PriceValue) {
        case Ok(amounts) =>
          price := Amounts(amounts);
          outcome := Ok(());
        case Err(e) =>
          outcome := Err(e);
      }
    }
  }
}
