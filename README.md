# Pakistan weather table: scrape, search and sort

A Dafny model of the data path of a small Streamlit script (`main.py`). The
script fetches the Met Office page for Pakistan and reads two lists from it:
city names from the `link-text` spans and temperatures from the `temp` spans.
It zips them with a fixed list of ten condition labels into a pandas
DataFrame. It then lets the user search the table by city and sort it by
temperature.

The fetch and the HTML parse are not modelled. The model starts from their
result: the texts of the matched elements, in document order, as `seq<string>`.

- `wrappers.dfy` (`Wrappers`): `Option` and `Result`.
- `text.dfy` (`Text`): the Python string built-ins the script uses, or
  approximations of them: `str.strip()`, `str.replace(pat, '')` and the
  code-point order of `str` comparison exactly; the case-insensitive regular
  expression search of `str.contains(..., case=False)` approximated by ASCII
  lower-casing and plain substring search.
- `scrape.dfy` (`Scrape`): `scrape_weather_data`. The two extraction loops are
  methods with loop invariants, proved against the functions `CityNames` and
  `Stripped`. The DataFrame constructor is `BuildTable`, which fails unless all
  three columns have the same length.
- `view.dfy` (`View`): `display_weather_data`. The search is a pure function.
  So is the sort, whose contract promises sorted order and a permutation. The in-place
  overwrite of the temperature column is the class `WeatherFrame`.
  `DisplayWeatherData` runs the whole pipeline and returns what the page shows.

Behaviour of the code that the model keeps as written:

- Table length: `pd.DataFrame` raises `ValueError` unless all three lists have
  the same length. The condition list has ten entries, so a table exists only
  when exactly ten cities and ten temperatures were scraped (`BuildTable`;
  `DisplayWeatherData` returns `Crashed`). Nothing is truncated.
- Empty search: no search output (`NoSearch`). The full table is always shown
  above it.
- Sort choice `'No'`: no sorted table is shown (`None`). The table shown first
  keeps the scraped order.
- Sort order: the comment at main.py:73 speaks of numeric conversion, but the
  code sorts strings. The model keeps the code-point order, so "10" sorts
  before "9" (`StringOrderNotNumeric`, `SortExample`).

## Model

| member | source | states |
|---|---|---|
| Text.Strip | main.py:27 | `str.strip()`, also used at main.py:34; no contract of its own, see TrimStartSuffix, TrimEndPrefix, StripTrimmed, StripPadded, StripIdempotent |
| Text.TrimStartSuffix | main.py:27 | the result is a suffix of the input, everything cut off is whitespace, and it does not start with whitespace |
| Text.TrimEndPrefix | main.py:27 | the result is a prefix of the input, everything cut off is whitespace, and it does not end with whitespace |
| Text.StripTrimmed | main.py:27 | `strip()` returns a slice `s[i..j]` with only whitespace outside it, and no whitespace at either end |
| Text.StripPadded | main.py:27 | stripping undoes any whitespace padding around a string with no whitespace at its ends |
| Text.StripIdempotent | main.py:27 | stripping a stripped text changes nothing (a general fact of `strip()`, used at main.py:27 and 34) |
| Text.RemoveAll | main.py:74 | `replace(pat, '')` never makes a string longer |
| Text.RemoveAllAbsent | main.py:74 | a text without the pattern is left unchanged |
| Text.RemoveAllSplit | main.py:74 | for every string containing the pattern: the first occurrence is removed, the text before it kept, and the rest processed the same way |
| Text.RemoveAllSuffix | main.py:74 | a value followed by the pattern gives back the value, when the value does not use the pattern's first character |
| Text.LexLe | main.py:75 | the code-point `str` order `sort_values` compares by; no contract of its own, see LexLeTotal, LexLeTransitive, LexLeAntisymmetric, StringOrderNotNumeric |
| Text.LexLeTotal | main.py:75 | any two strings are comparable in code-point order |
| Text.LexLeTransitive | main.py:75 | code-point order on strings is transitive |
| Text.LexLeAntisymmetric | main.py:75 | two strings each at most the other are equal |
| Scrape.CityNames | main.py:26-29 | the city list the loop builds; no contract of its own, see CityNamesCount, CityNamesAppend, CityNamesClean, ExtractCities |
| Scrape.DropNavigation | main.py:28-29 | the denylist test on stripped texts; no contract of its own, see DropNavigationAppend, DropNavigationCount, DropNavigationClean |
| Scrape.Stripped | main.py:32-35 | the temperature list the loop builds; no contract of its own, see StrippedAt, StrippedAppend, ExtractTemperatures |
| Scrape.ExtractCities | main.py:25-29 | the loop builds exactly the filtered city list; every city is off the denylist and has no edge whitespace |
| Scrape.ExtractTemperatures | main.py:32-35 | the loop builds a list as long as the element list, whose entry i is the stripped text of element i |
| Scrape.StrippedAt | main.py:32-35 | the temperature list has the elements' length and entry i is `strip()` of element i |
| Scrape.StrippedAppend | main.py:33-35 | stripping keeps document order: it distributes over concatenation |
| Scrape.DropNavigationAppend | main.py:26-29 | the denylist filter keeps document order: it distributes over concatenation |
| Scrape.DropNavigationCount | main.py:28-29 | a value off the denylist is kept as often as it occurs; a denylisted value never appears |
| Scrape.DropNavigationClean | main.py:28-29 | every kept value is off the denylist and comes from the input |
| Scrape.DropNavigationExample | main.py:28 | "Home", "All countries", "Lahore", "Karachi" gives "Lahore", "Karachi" |
| Scrape.CityNamesCount | main.py:26-29 | each stripped text off the denylist appears in the city list exactly as often as among the stripped texts, duplicates included; "Home" and "All countries" never appear |
| Scrape.CityNamesAppend | main.py:26-29 | the city list of two runs of elements is the concatenation of their city lists |
| Scrape.CityNamesClean | main.py:27-29 | every city is off the denylist, has no edge whitespace, and is the stripped text of some element |
| Scrape.BuildTable | main.py:38-42 | a table exists iff both lists have the condition list's length 10; row i is then (city i, temperature i, condition i) |
| Scrape.BuildTableColumns | main.py:38-42 | a built table's columns are exactly the lists it was built from, and every table whose condition column is the fixed list is built from its own columns |
| Scrape.ConditionsEnumeration | main.py:21-22 | every condition in a table is Sunny, Cloudy, Rain or Smoky |
| Scrape.ScrapeWeatherData | main.py:19-42 | the scraped table is the filtered cities zipped with the stripped temperatures; it exists iff 10 cities and 10 temperatures were found |
| View.CityMatches | main.py:63 | the search mask for one city; no contract of its own, see MatchingIgnoresCase, SearchIgnoresCase |
| View.Matching | main.py:63 | the rows the mask selects; no contract of its own, see MatchingSubsequence, MatchingCount, MatchingEmpty |
| View.MatchingSubsequence | main.py:63 | the rows the search mask keeps are a subsequence of the table, in table order |
| View.MatchingCount | main.py:63 | a row whose city contains the query is kept as often as it occurs; every other row is dropped |
| View.MatchingEmpty | main.py:63-64 | the search selects nothing iff no city contains the query |
| View.MatchingIgnoresCase | main.py:63 | queries that lower-case alike select the same rows |
| View.Search | main.py:60-68 | empty query: no search output; non-empty query selecting no row: the "No results found for that city." message; otherwise a non-empty table of exactly the selected rows |
| View.NoResultsIffNoCityMatches | main.py:63-68 | the message is shown iff the query is non-empty and no city in the table contains it, ignoring case |
| View.SearchIgnoresCase | main.py:63 | queries that differ only in letter case show the same outcome and the same rows |
| View.StripTemperatures | main.py:74 | the replace applied to the temperature column; no contract of its own, see WeatherFrame.ReplaceTemperatureUnit, SortedRowsFromInput, StripReading |
| View.StripReading | main.py:74 | a temperature written as a value followed by "Â°C" becomes the value |
| View.StringOrderNotNumeric | main.py:73-75 | "10" is ordered before "9" |
| View.SortExample | main.py:75 | temperatures 22, 9, 15 come out as 15, 22, 9 |
| View.InsertSorted | main.py:75 | inserting a row into a sorted table keeps it sorted and adds exactly that row |
| View.SortByTemperature | main.py:75 | the result is sorted by temperature in code-point order and is a permutation of the rows |
| View.SortedView | main.py:71-75 | a sorted table exists iff the choice is 'Yes'; it is sorted and a permutation of the rows with "Â°C" removed |
| View.SortedRowsFromInput | main.py:74-75 | the sorted table has the table's length and every sorted row is an input row whose temperature lost "Â°C", with its own city and condition |
| View.WeatherFrame.constructor | main.py:38-42 | the frame holds the given rows |
| View.WeatherFrame.ReplaceTemperatureUnit | main.py:74 | the temperature column is overwritten with "Â°C" removed; cities, conditions and row count unchanged |
| View.DisplayWeatherData | main.py:46-79 | the page crashes iff the scrape did not give 10 and 10 entries; otherwise it shows the scraped table, the search outcome for the query and the sorted view for the choice |

## Left out

- The HTTP GET at main.py:15 is network I/O. The model takes the element texts as parameters.
- BeautifulSoup parsing and `find_all` (main.py:16, 25, 32) belong to a foreign library. Their results are the input sequences.
- Streamlit rendering (`st.title`, `st.subheader`, `st.dataframe`, `st.text_input`, `st.radio`, `st.write`) is left out. Only the data each call shows, or the message it writes, is modelled (`Screen`, `SearchOutcome`).
- Streamlit reruns the whole script on every interaction. That is framework behaviour. One call of `DisplayWeatherData` is one run.
- Search: requires a query without regular-expression metacharacters, so `str.contains` is plain substring search. Queries that are real patterns are not modelled.
- CityMatches: lower-cases ASCII letters only, not full Unicode case folding.
- SortByTemperature: its contract promises only sorted order and a permutation, because pandas' default quicksort is not stable and may order rows with equal temperatures either way. The function itself computes the stable insertion order, one of the orders pandas may produce, and `DisplayWeatherData` (through `SortedView`) returns that order; the model does not capture the other tie orders pandas may show.
- Whether the page really contains the mis-decoded "Â°C" depends on decoding in libraries not modelled. Only the literal replace is modelled.
- pandas index labels and the `astype(str)` no-op at main.py:74 are left out. The index is not part of the row values.
- `na=False` at main.py:63 is left out. A scraped city is never missing.
