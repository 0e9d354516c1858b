/**
 * `display_weather_data`: the case-insensitive city search over the scraped
 * table and the optional sort by temperature, which first overwrites the
 * temperature column with the unit removed.
 */
module View {
  import opened Wrappers
  import opened Text
  import opened Scrape

  /** Characters with a special meaning in a Python regular expression. */
  predicate IsRegexMeta(c: char) {
    c in ".^$*+?{}[]\\|()"
  }

  /** A query that a regular expression matches literally. */
  predicate IsLiteralPattern(q: string) {
    forall i :: 0 <= i < |q| ==> !IsRegexMeta(q[i])
  }

  /** The search mask: the city contains the query, ignoring letter case. */
  predicate CityMatches(city: string, query: string) {
    Contains(ToLower(city), ToLower(query))
  }

  /** The rows that the search mask selects, in table order. */
  function Matching(t: Table, query: string): Table {
    if t == [] then []
    else (if CityMatches(t[0].city, query) then [t[0]] else []) + Matching(t[1..], query)
  }

  /** `a` is `b` with some rows left out and the order of the rest kept. */
  predicate IsSubsequence(a: Table, b: Table)
    decreases |b|
  {
    a == [] || (b != [] && ((a[0] == b[0] && IsSubsequence(a[1..], b[1..])) || IsSubsequence(a, b[1..])))
  }

  lemma {:induction false} MatchingSubsequence(t: Table, query: string)
    ensures IsSubsequence(Matching(t, query), t)
  {
    if t != [] {
      MatchingSubsequence(t[1..], query);
      if CityMatches(t[0].city, query) {
        assert Matching(t, query)[1..] == Matching(t[1..], query);
      } else {
        assert Matching(t, query) == Matching(t[1..], query);
      }
    }
  }

  /** A matching row appears as often as in the table; any other row never. */
  lemma {:induction false} MatchingCount(t: Table, query: string, row: WeatherRecord)
    ensures multiset(Matching(t, query))[row] ==
              if CityMatches(row.city, query) then multiset(t)[row] else 0
  {
    if t != [] {
      MatchingCount(t[1..], query, row);
      assert t == [t[0]] + t[1..];
      assert multiset(t) == multiset{t[0]} + multiset(t[1..]);
    }
  }

  /** The search selects nothing exactly when no city matches. */
  lemma {:induction false} MatchingEmpty(t: Table, query: string)
    ensures Matching(t, query) == [] <==>
              forall k :: 0 <= k < |t| ==> !CityMatches(t[k].city, query)
  {
    if t != [] {
      MatchingEmpty(t[1..], query);
      assert forall k :: 1 <= k < |t| ==> t[k] == t[1..][k - 1];
    }
  }

  const NoResultsMessage := "No results found for that city."

  /** What the search area shows. */
  datatype SearchOutcome =
    | NoSearch
    | NoResults(message: string)
    | Results(heading: string, rows: Table)

  /** The rows a search outcome shows, none when it shows no table. */
  function Rows(o: SearchOutcome): Table {
    if o.Results? then o.rows else []
  }

  /** The search block of `display_weather_data` for the text in the search box. */
  function Search(t: Table, searchCity: string): (r: SearchOutcome)
    requires IsLiteralPattern(searchCity)
    ensures r.NoSearch? <==> searchCity == ""
    ensures r.NoResults? <==> searchCity != "" && Matching(t, searchCity) == []
    ensures r.NoResults? ==> r.message == NoResultsMessage
    ensures r.Results? ==> r.rows == Matching(t, searchCity) && r.rows != []
  {
    if searchCity == "" then NoSearch
    else
      var searchResult := Matching(t, searchCity);
      if searchResult != [] then Results("Results for '" + searchCity + "':", searchResult)
      else NoResults(NoResultsMessage)
  }

  /** The mask depends on the query only through its lower-cased form. */
  lemma {:induction false} MatchingIgnoresCase(t: Table, q1: string, q2: string)
    requires ToLower(q1) == ToLower(q2)
    ensures Matching(t, q1) == Matching(t, q2)
  {
    if t != [] {
      MatchingIgnoresCase(t[1..], q1, q2);
    }
  }

  /** The "no results" message is shown exactly when the query is non-empty
      and no city in the table contains it. */
  lemma NoResultsIffNoCityMatches(t: Table, searchCity: string)
    requires IsLiteralPattern(searchCity)
    ensures Search(t, searchCity).NoResults? <==>
              searchCity != "" && forall k :: 0 <= k < |t| ==> !CityMatches(t[k].city, searchCity)
  {
    MatchingEmpty(t, searchCity);
  }

  /** Two queries that differ only in letter case show the same rows. */
  lemma SearchIgnoresCase(t: Table, q1: string, q2: string)
    requires IsLiteralPattern(q1) && IsLiteralPattern(q2)
    requires ToLower(q1) == ToLower(q2)
    ensures Search(t, q1).NoSearch? == Search(t, q2).NoSearch?
    ensures Search(t, q1).NoResults? == Search(t, q2).NoResults?
    ensures Rows(Search(t, q1)) == Rows(Search(t, q2))
  {
    assert |q1| == |ToLower(q1)|;
    MatchingIgnoresCase(t, q1, q2);
  }

  /** The unit text removed from every temperature before sorting: the
      degree sign as it reads after a Latin-1 decoding of UTF-8, then `C`. */
  const DegreeSuffix: string := "\U{C2}\U{B0}C"

  /** `df['Temperature'].str.replace('Â°C', '')` applied to every row. */
  function StripTemperatures(t: Table): Table {
    seq(|t|, i requires 0 <= i < |t| => t[i].(temperature := RemoveAll(t[i].temperature, DegreeSuffix)))
  }

  /** A reading written as a value followed by the unit loses exactly the
      unit: the instance of `RemoveAllSuffix` for the degree suffix, kept as
      the named example of the column replace. */
  lemma StripReading(value: string)
    requires forall k :: 0 <= k < |value| ==> value[k] != DegreeSuffix[0]
    ensures RemoveAll(value + DegreeSuffix, DegreeSuffix) == value
  {
    RemoveAllSuffix(value, DegreeSuffix);
  }

  /** Temperatures as strings, in non-decreasing code-point order. */
  predicate SortedByTemperature(t: Table) {
    forall i, j :: 0 <= i < j < |t| ==> LexLe(t[i].temperature, t[j].temperature)
  }

  /** Places a row before the first row whose temperature is not smaller. */
  function Insert(x: WeatherRecord, t: Table): Table {
    if t == [] then [x]
    else if LexLe(x.temperature, t[0].temperature) then [x] + t
    else [t[0]] + Insert(x, t[1..])
  }

  lemma {:induction false} InsertSorted(x: WeatherRecord, t: Table)
    requires SortedByTemperature(t)
    ensures SortedByTemperature(Insert(x, t))
    ensures multiset(Insert(x, t)) == multiset(t) + multiset{x}
  {
    if t == [] {
    } else if LexLe(x.temperature, t[0].temperature) {
      forall j | 0 <= j < |t|
        ensures LexLe(x.temperature, t[j].temperature)
      {
        if j > 0 {
          LexLeTransitive(x.temperature, t[0].temperature, t[j].temperature);
        }
      }
      assert t == [t[0]] + t[1..];
    } else {
      LexLeTotal(x.temperature, t[0].temperature);
      var rest := t[1..];
      InsertSorted(x, rest);
      var ins := Insert(x, rest);
      forall j | 0 <= j < |ins|
        ensures LexLe(t[0].temperature, ins[j].temperature)
      {
        assert ins[j] in multiset(ins);
        if ins[j] != x {
          assert ins[j] in rest;
        }
      }
      assert t == [t[0]] + rest;
    }
  }

  /** `sort_values(by='Temperature', ascending=True)`: the rows in
      non-decreasing temperature order; the order of equal temperatures is
      not specified. */
  function SortByTemperature(t: Table): (r: Table)
    ensures SortedByTemperature(r)
    ensures multiset(r) == multiset(t)
  {
    if t == [] then []
    else
      var rest := SortByTemperature(t[1..]);
      InsertSorted(t[0], rest);
      assert t == [t[0]] + t[1..];
      Insert(t[0], rest)
  }

  /** The order is on strings, not numbers: "10" comes before "9". */
  lemma StringOrderNotNumeric()
    ensures LexLe("10", "9") && !LexLe("9", "10")
  {
  }

  /** Readings 22, 9 and 15 come out as 15, 22, 9. */
  lemma SortExample()
    ensures var t := [WeatherRecord("A", "22", "Sunny"), WeatherRecord("B", "9", "Cloudy"),
                      WeatherRecord("C", "15", "Rain")];
            SortByTemperature(t) ==
              [WeatherRecord("C", "15", "Rain"), WeatherRecord("A", "22", "Sunny"),
               WeatherRecord("B", "9", "Cloudy")]
  {
    var a, b, c := WeatherRecord("A", "22", "Sunny"), WeatherRecord("B", "9", "Cloudy"),
                   WeatherRecord("C", "15", "Rain");
    var t := [a, b, c];
    assert SortByTemperature([b, c]) == [c, b] by {
      assert [b, c][1..] == [c] && [c][1..] == [];
      assert SortByTemperature([c]) == [c];
      assert !LexLe(b.temperature, c.temperature);
    }
    assert Insert(a, [c, b]) == [c, a, b] by {
      assert !LexLe(a.temperature, c.temperature) && LexLe(a.temperature, b.temperature);
      assert [c, b][1..] == [b];
    }
    assert t[1..] == [b, c];
  }

  /** The sorted table shown when the sort choice is `'Yes'`, none otherwise. */
  function SortedView(t: Table, sortOption: string): (r: Option<Table>)
    ensures r.Some? <==> sortOption == "Yes"
    ensures r.Some? ==> SortedByTemperature(r.value)
    ensures r.Some? ==> multiset(r.value) == multiset(StripTemperatures(t))
  {
    if sortOption == "Yes" then Some(SortByTemperature(StripTemperatures(t))) else None
  }

  /** Every sorted row is an input row with the unit removed from its
      temperature: city and condition stay with their own temperature. */
  lemma SortedRowsFromInput(t: Table, sortOption: string)
    requires sortOption == "Yes"
    ensures |SortedView(t, sortOption).value| == |t|
    ensures forall k :: 0 <= k < |SortedView(t, sortOption).value| ==>
              exists i :: 0 <= i < |t| &&
                SortedView(t, sortOption).value[k] ==
                  WeatherRecord(t[i].city, RemoveAll(t[i].temperature, DegreeSuffix), t[i].condition)
  {
    var r, s := SortedView(t, sortOption).value, StripTemperatures(t);
    assert |r| == |multiset(r)| == |multiset(s)| == |s|;
    forall k | 0 <= k < |r|
      ensures exists i :: 0 <= i < |t| &&
                r[k] == WeatherRecord(t[i].city, RemoveAll(t[i].temperature, DegreeSuffix), t[i].condition)
    {
      assert r[k] in multiset(r);
      assert r[k] in s;
      var i :| 0 <= i < |s| && s[i] == r[k];
    }
  }

  /** The DataFrame `display_weather_data` holds, whose temperature column is
      overwritten in place before sorting. */
  class WeatherFrame {
    var rows: Table

    constructor (rows: Table)
      ensures this.rows == rows
    {
      this.rows := rows;
    }

    /** `df['Temperature'] = df['Temperature'].str.replace('Â°C', '').astype(str)` */
    method ReplaceTemperatureUnit()
      modifies this
      ensures |rows| == |old(rows)|
      ensures forall i :: 0 <= i < |rows| ==>
                rows[i].city == old(rows[i].city) && rows[i].condition == old(rows[i].condition) &&
                rows[i].temperature == RemoveAll(old(rows[i].temperature), DegreeSuffix)
      ensures rows == StripTemperatures(old(rows))
    {
      rows := StripTemperatures(rows);
    }
  }

  /** What one run of the page shows. */
  datatype Screen =
    | Crashed(error: ScrapeError)
    | Shown(table: Table, search: SearchOutcome, sorted: Option<Table>)

  /** `display_weather_data` for the texts of the matched elements, the text
      in the search box and the sort choice. */
  method DisplayWeatherData(cities: seq<string>, tempText: seq<string>, searchCity: string, sortOption: string)
    returns (screen: Screen)
    requires IsLiteralPattern(searchCity)
    ensures screen.Crashed? <==> !(|CityNames(cities)| == |Conditions| && |tempText| == |Conditions|)
    ensures screen.Shown? ==> ScrapedTable(cities, tempText) == Success(screen.table)
    ensures screen.Shown? ==> screen.search == Search(screen.table, searchCity)
    ensures screen.Shown? ==> screen.sorted == SortedView(screen.table, sortOption)
  {
    var scraped := ScrapeWeatherData(cities, tempText);
    if scraped.Failure? {
      return Crashed(scraped.error);
    }
    var df := new WeatherFrame(scraped.value);
    var searchResult := Search(df.rows, searchCity);
    var sorted := None;
    if sortOption == "Yes" {
      df.ReplaceTemperatureUnit();
      sorted := Some(SortByTemperature(df.rows));
    }
    screen := Shown(scraped.value, searchResult, sorted);
  }
}
