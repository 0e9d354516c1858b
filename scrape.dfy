/**
 * `scrape_weather_data`: the city and temperature texts of the page, taken as
 * the texts of the matched `span` elements in document order, are stripped,
 * filtered and zipped with the fixed condition labels into a table.
 */
module Scrape {
  import opened Wrappers
  import opened Text

  /** Link texts that are page navigation, not cities. */
  const Denylist: seq<string> := ["Home", "All countries"]

  /** The placeholder condition of each row, in row order. */
  const Conditions: seq<string> :=
    ["Sunny", "Cloudy", "Sunny", "Rain", "Sunny", "Cloudy", "Rain", "Sunny", "Cloudy", "Smoky"]

  datatype WeatherRecord = WeatherRecord(city: string, temperature: string, condition: string)

  type Table = seq<WeatherRecord>

  /** The DataFrame constructor rejects columns of different lengths. */
  datatype ScrapeError = LengthMismatch

  /** The city list: the stripped element texts without the navigation entries. */
  function CityNames(texts: seq<string>): seq<string> {
    DropNavigation(Stripped(texts))
  }

  /** Drops the denylisted values from a list of stripped texts, keeping order. */
  function DropNavigation(s: seq<string>): seq<string> {
    if s == [] then []
    else DropNavigation(s[..|s| - 1]) + (if s[|s| - 1] !in Denylist then [s[|s| - 1]] else [])
  }

  /** The temperature list built from the `temp` element texts. */
  function Stripped(texts: seq<string>): seq<string> {
    if texts == [] then [] else Stripped(texts[..|texts| - 1]) + [Strip(texts[|texts| - 1])]
  }

  /** The temperature list is parallel to the element texts: entry `i` is the
      stripped text of element `i`. */
  lemma {:induction false} StrippedAt(texts: seq<string>)
    ensures |Stripped(texts)| == |texts|
    ensures forall i :: 0 <= i < |texts| ==> Stripped(texts)[i] == Strip(texts[i])
    decreases |texts|
  {
    if texts != [] {
      StrippedAt(texts[..|texts| - 1]);
    }
  }

  /** The city loop of `scrape_weather_data`. */
  method ExtractCities(cities: seq<string>) returns (cityName: seq<string>)
    ensures cityName == CityNames(cities)
    ensures forall k :: 0 <= k < |cityName| ==> cityName[k] !in Denylist && NoEdgeSpace(cityName[k])
  {
    cityName := [];
    for i := 0 to |cities|
      invariant cityName == CityNames(cities[..i])
    {
      var cityText := Strip(cities[i]);
      if cityText !in Denylist {
        cityName := cityName + [cityText];
      }
      assert cities[..i + 1][..i] == cities[..i];
      assert Stripped(cities[..i + 1]) == Stripped(cities[..i]) + [cityText];
    }
    assert cities[..|cities|] == cities;
    CityNamesClean(cities);
  }

  /** The temperature loop of `scrape_weather_data`. */
  method ExtractTemperatures(tempText: seq<string>) returns (temperature: seq<string>)
    ensures temperature == Stripped(tempText)
    ensures |temperature| == |tempText|
    ensures forall i :: 0 <= i < |tempText| ==> temperature[i] == Strip(tempText[i])
  {
    temperature := [];
    for i := 0 to |tempText|
      invariant temperature == Stripped(tempText[..i])
    {
      var eachTemp := Strip(tempText[i]);
      temperature := temperature + [eachTemp];
      assert tempText[..i + 1][..i] == tempText[..i];
    }
    assert tempText[..|tempText|] == tempText;
    StrippedAt(tempText);
  }

  /** The city list keeps document order: it is built element by element. */
  lemma {:induction false} DropNavigationAppend(a: seq<string>, b: seq<string>)
    ensures DropNavigation(a + b) == DropNavigation(a) + DropNavigation(b)
    decreases |b|
  {
    if b == [] {
      assert a + b == a;
    } else {
      var b' := b[..|b| - 1];
      assert (a + b)[..|a + b| - 1] == a + b';
      assert (a + b)[|a + b| - 1] == b[|b| - 1];
      DropNavigationAppend(a, b');
    }
  }

  /** Every value outside the denylist is kept, as often as it occurs;
      denylisted values never appear. */
  lemma {:induction false} DropNavigationCount(s: seq<string>, x: string)
    ensures multiset(DropNavigation(s))[x] == if x in Denylist then 0 else multiset(s)[x]
    decreases |s|
  {
    if s != [] {
      var init, last := s[..|s| - 1], s[|s| - 1];
      DropNavigationCount(init, x);
      assert s == init + [last];
      assert multiset(s) == multiset(init) + multiset{last};
    }
  }

  lemma CityNamesCount(texts: seq<string>, x: string)
    ensures multiset(CityNames(texts))[x] ==
              if x in Denylist then 0 else multiset(Stripped(texts))[x]
  {
    DropNavigationCount(Stripped(texts), x);
  }

  lemma CityNamesAppend(a: seq<string>, b: seq<string>)
    ensures CityNames(a + b) == CityNames(a) + CityNames(b)
  {
    StrippedAppend(a, b);
    DropNavigationAppend(Stripped(a), Stripped(b));
  }

  lemma {:induction false} StrippedAppend(a: seq<string>, b: seq<string>)
    ensures Stripped(a + b) == Stripped(a) + Stripped(b)
    decreases |b|
  {
    if b == [] {
      assert a + b == a;
    } else {
      var b' := b[..|b| - 1];
      assert (a + b)[..|a + b| - 1] == a + b';
      assert (a + b)[|a + b| - 1] == b[|b| - 1];
      StrippedAppend(a, b');
    }
  }

  /** What survives the filter comes from the input and is not navigation. */
  lemma DropNavigationClean(s: seq<string>)
    ensures forall k :: 0 <= k < |DropNavigation(s)| ==>
              DropNavigation(s)[k] !in Denylist && DropNavigation(s)[k] in s
  {
    var r := DropNavigation(s);
    forall k | 0 <= k < |r|
      ensures r[k] !in Denylist && r[k] in s
    {
      DropNavigationCount(s, r[k]);
      assert r[k] in multiset(r);
    }
  }

  /** Each city is the stripped text of some element, is not navigation and
      has no whitespace at either end. */
  lemma CityNamesClean(texts: seq<string>)
    ensures forall k :: 0 <= k < |CityNames(texts)| ==>
              CityNames(texts)[k] !in Denylist && NoEdgeSpace(CityNames(texts)[k]) &&
              exists i :: 0 <= i < |texts| && Strip(texts[i]) == CityNames(texts)[k]
  {
    var r, s := CityNames(texts), Stripped(texts);
    StrippedAt(texts);
    DropNavigationClean(s);
    forall k | 0 <= k < |r|
      ensures r[k] !in Denylist && NoEdgeSpace(r[k]) &&
              exists i :: 0 <= i < |texts| && Strip(texts[i]) == r[k]
    {
      var i :| 0 <= i < |s| && s[i] == r[k];
      StripTrimmed(texts[i]);
    }
  }

  /** The navigation links are dropped and the cities kept. */
  lemma DropNavigationExample()
    ensures DropNavigation(["Home", "All countries", "Lahore", "Karachi"]) == ["Lahore", "Karachi"]
  {
    DropNavigationAppend(["Home", "All countries"], ["Lahore", "Karachi"]);
    assert ["Home", "All countries"] + ["Lahore", "Karachi"] == ["Home", "All countries", "Lahore", "Karachi"];
    assert DropNavigation(["Home"]) == [];
    assert DropNavigation(["Lahore"]) == ["Lahore"];
  }

  /** `pd.DataFrame({'City': ..., 'Temperature': ..., 'Condition': conditions})`. */
  function BuildTable(cityName: seq<string>, temperature: seq<string>): (r: Result<Table, ScrapeError>)
    ensures r.Success? <==> |cityName| == |Conditions| && |temperature| == |Conditions|
    ensures r.Success? ==> |r.value| == |Conditions|
    ensures r.Success? ==> forall i :: 0 <= i < |r.value| ==>
              r.value[i] == WeatherRecord(cityName[i], temperature[i], Conditions[i])
  {
    if |cityName| == |temperature| == |Conditions| then
      Success(seq(|Conditions|, i requires 0 <= i < |Conditions| =>
                    WeatherRecord(cityName[i], temperature[i], Conditions[i])))
    else
      Failure(LengthMismatch)
  }

  function Cities(t: Table): seq<string> {
    seq(|t|, i requires 0 <= i < |t| => t[i].city)
  }

  function Temperatures(t: Table): seq<string> {
    seq(|t|, i requires 0 <= i < |t| => t[i].temperature)
  }

  function ConditionColumn(t: Table): seq<string> {
    seq(|t|, i requires 0 <= i < |t| => t[i].condition)
  }

  /** A built table gives back its columns, and every table whose condition
      column is the fixed list is built from its own columns. */
  lemma BuildTableColumns(cityName: seq<string>, temperature: seq<string>, t: Table)
    ensures BuildTable(cityName, temperature) == Success(t) <==>
              (Cities(t) == cityName && Temperatures(t) == temperature &&
               ConditionColumn(t) == Conditions)
  {
    if BuildTable(cityName, temperature) == Success(t) {
      assert Cities(t) == cityName;
      assert Temperatures(t) == temperature;
      assert ConditionColumn(t) == Conditions;
    }
    if Cities(t) == cityName && Temperatures(t) == temperature && ConditionColumn(t) == Conditions {
      assert |t| == |Conditions|;
      var r := BuildTable(cityName, temperature);
      assert r.Success?;
      assert forall i :: 0 <= i < |t| ==> t[i] == r.value[i];
      assert t == r.value;
    }
  }

  /** Every condition label is one of the four placeholder values. */
  lemma ConditionsEnumeration(cityName: seq<string>, temperature: seq<string>)
    requires BuildTable(cityName, temperature).Success?
    ensures forall r :: r in BuildTable(cityName, temperature).value ==>
              r.condition in {"Sunny", "Cloudy", "Rain", "Smoky"}
  {
  }

  /** The table `scrape_weather_data` returns for the given element texts. */
  function ScrapedTable(cities: seq<string>, tempText: seq<string>): Result<Table, ScrapeError> {
    BuildTable(CityNames(cities), Stripped(tempText))
  }

  /** `scrape_weather_data` after the page has been fetched and parsed. */
  method ScrapeWeatherData(cities: seq<string>, tempText: seq<string>) returns (df: Result<Table, ScrapeError>)
    ensures df == ScrapedTable(cities, tempText)
    ensures df.Success? <==> |CityNames(cities)| == |Conditions| && |tempText| == |Conditions|
  {
    var cityName := ExtractCities(cities);
    var temperature := ExtractTemperatures(tempText);
    df := BuildTable(cityName, temperature);
  }
}
