/** One row of `mission_launches.csv` (after the two index columns are
    dropped), the columns the notebook derives from it, and the cleaning of
    the `Price` column. */
module Records {
  import opened Wrappers
  import opened Text
  import opened Series
  import opened Prices

  /** A launch as the data set records it; `price` is missing for most rows. */
  datatype Mission = Mission(
    organisation: string,
    location: string,
    date: string,
    detail: string,
    rocketStatus: string,
    price: Option<string>,
    missionStatus: string)

  /** A row together with the `Country`, `Year` and `Month` columns derived from it. */
  datatype Launch = Launch(mission: Mission, country: string, year: int, month: int)

  /** `Location.str.split(',').str[-1].str.strip()`: the text after the last comma, trimmed. */
  function CountryOf(location: string): string {
    Strip(LastPiece(location, ','))
  }

  /** The country is the trimmed last comma-separated part of the location:
      it holds no comma and no surrounding whitespace, and a location without
      a comma is its own country once trimmed. */
  lemma CountryOfLocation(location: string)
    ensures ',' !in CountryOf(location)
    ensures Strip(CountryOf(location)) == CountryOf(location)
    ensures ',' !in location ==> CountryOf(location) == Strip(location)
    ensures ',' in location ==>
      exists k :: 0 <= k < |location| && location[k] == ','
        && ',' !in location[k + 1..] && CountryOf(location) == Strip(location[k + 1..])
  {
    var last := LastPiece(location, ',');
    LastPieceIsTail(location, ',');
    StripIdempotent(last);
    StripKeepsAbsent(last, ',');
  }

  /** `Mission_Status == 'Failure'` (line 568). */
  predicate Failed(l: Launch) {
    l.mission.missionStatus == "Failure"
  }

  // The Price column

  predicate HasPrice(m: Mission) {
    m.price.Some?
  }

  /** `dropna(subset=['Price'])` and `df[df["Price"].notna()]`. */
  function DropMissingPrice(ms: seq<Mission>): seq<Mission> {
    Filter(ms, HasPrice)
  }

  /** Dropping the missing prices keeps exactly the rows that have one, in order. */
  lemma DropMissingPriceFacts(ms: seq<Mission>, m: Mission)
    ensures forall i :: 0 <= i < |DropMissingPrice(ms)| ==> DropMissingPrice(ms)[i].price.Some?
    ensures multiset(DropMissingPrice(ms))[m] == if m.price.Some? then multiset(ms)[m] else 0
    ensures DropMissingPrice(DropMissingPrice(ms)) == DropMissingPrice(ms)
  {
    FilterCount(ms, HasPrice, m);
    FilterIdempotent(ms, HasPrice);
  }

  /** The price texts of the rows that have one. */
  function PriceTexts(ms: seq<Mission>): (r: seq<string>)
    ensures |r| == |DropMissingPrice(ms)|
    ensures forall i :: 0 <= i < |r| ==> DropMissingPrice(ms)[i].price == Some(r[i])
  {
    var kept := DropMissingPrice(ms);
    seq(|kept|, i requires 0 <= i < |kept| => kept[i].price.value)
  }

  /** `Price.str.replace(',', '').astype(float)` on the rows that have a price:
      the amounts in row order, or the error of the first price that is not a number. */
  function CleanPrices(ms: seq<Mission>): (r: Result<seq<real>, PriceError>)
    ensures r.Ok? ==> |r.value| == |DropMissingPrice(ms)|
    ensures r.Ok? ==> forall i :: 0 <= i < |PriceTexts(ms)| ==> PriceValue(PriceTexts(ms)[i]) == Ok(r.value[i])
  {
    MapAll(PriceTexts(ms), PriceValue)
  }

  /** The cleaning fails exactly when some priced row holds a text that is not a number. */
  lemma CleanPricesSucceed(ms: seq<Mission>)
    ensures CleanPrices(ms).Ok? <==> forall i :: 0 <= i < |PriceTexts(ms)| ==> PriceValue(PriceTexts(ms)[i]).Ok?
  {
    MapAllSucceeds(PriceTexts(ms), PriceValue);
  }
}
