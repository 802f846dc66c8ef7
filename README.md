# climate_wildfires — a verified model of the data transformations

The repository is a set of browser scripts that chart climate and wildfire
data. This project models the parts of those scripts that compute something.
The map, chart, network and DOM wiring around them is left out.

- **climate_data.js.** `processDataByYearAndMonth` groups CSV rows into
  `year → month → city → temperatures`, creating each level on demand, and
  then replaces every list with its average. `plotDataForYearAndCity` and
  `compareYears` read that index as twelve-month series. `populateYearDropdown`
  sorts the year keys as strings. Modules: `ClimateData`, `ClimateCharts`,
  `PropertyKeys`.
- **logic.js and logic_1.js.** Two versions of a climate page share
  `celsiusToFahrenheit` and a guard on the open-meteo response (module
  `Temperature`).
  - In logic.js, every daily maximum becomes a heat point at the city
    (module `Logic`).
  - In logic_1.js, the city field alone starts a lookup for 2023 (module
    `LogicOne`).
  - Both popups show `temperaturesInFahrenheit[0]`, which is the first day's
    maximum.
- **burnSeverity.js.** Wildfire features are filtered to those of 1984 and
  later. Each kept feature becomes a heat point at the first vertex of its
  first ring, with longitude and latitude swapped (module `BurnSeverity`).

Grouping and averaging are imperative, as in the source:
- `GroupRows` is a loop that reassigns a nested map.
- `AverageIndex` loops over the key sets.
- Each is proved against the specification functions `TemperaturesFor` and
  `Mean`, and `ProcessDataByYearAndMonth` combines them.

Everything else is made of pure expressions and is modelled as functions
and lemmas.

Object keys follow JavaScript:
- Integer keys become decimal strings.
- `Object.keys` lists array-index keys in ascending order.
- `.sort()` compares UTF-16 code units, modelled as `char` comparison.

A natural design would skip rows with a bad date or temperature. The code
pushes every row as it is (climate_data.js:48-67), and the model follows the
code, so no row is ever dropped (`ClimateData.RowIsKept`).

## Model

| member | source | states |
|---|---|---|
| `PropertyKeys.NaturalString` | Wildfire_Analysis/JS/climate_data.js:86 | The property-key string of a non-negative integer has at least one digit, and has exactly one digit when the number is below 10. |
| `PropertyKeys.NumeralStartsWithDigit` | Wildfire_Analysis/JS/climate_data.js:21 | A month key's string starts with a digit, so it can never be a city name that starts with a letter. |
| `PropertyKeys.StrLeTotal` | Wildfire_Analysis/JS/climate_data.js:86 | The default `sort` order on keys is total: any two keys are comparable. |
| `PropertyKeys.StrLeReflexive` | Wildfire_Analysis/JS/climate_data.js:86 | Every key is ordered before or equal to itself. |
| `PropertyKeys.StrLeAntisymmetric` | Wildfire_Analysis/JS/climate_data.js:86 | Two keys ordered both ways are the same string. |
| `PropertyKeys.StrLeTransitive` | Wildfire_Analysis/JS/climate_data.js:86 | The code-unit order is transitive. |
| `PropertyKeys.Insert` | Wildfire_Analysis/JS/climate_data.js:86 | Inserting a key into a sorted list keeps the list sorted and adds exactly one copy of the key. |
| `PropertyKeys.SortKeys` | Wildfire_Analysis/JS/climate_data.js:86 | The sorted keys are in code-unit order and are a permutation of the input keys. |
| `PropertyKeys.SortedPermutationsEqual` | Wildfire_Analysis/JS/climate_data.js:86 | A sorted permutation is unique, so the sort result depends only on which keys there are. |
| `PropertyKeys.KeyStrings` | Wildfire_Analysis/JS/climate_data.js:86 | `Object.keys` on integer-keyed data gives one decimal string per key, in order. |
| `PropertyKeys.MapPermutation` | Wildfire_Analysis/JS/climate_data.js:86 | Converting each key independently carries any rearrangement of the keys over to their strings. |
| `PropertyKeys.KeyStringsPermutation` | Wildfire_Analysis/JS/climate_data.js:86 | Permuting the integer keys permutes their strings. |
| `PropertyKeys.YearOptions` | Wildfire_Analysis/JS/climate_data.js:85-96 | The year dropdown's options are sorted and are a permutation of the year keys' strings. |
| `PropertyKeys.YearOptionsIgnoreListingOrder` | Wildfire_Analysis/JS/climate_data.js:86 | The options do not depend on the order in which the years are listed. |
| `PropertyKeys.YearOptionsOfferListedYears` | Wildfire_Analysis/JS/climate_data.js:90-95 | There is one option per year, and a string is an option exactly when it is the string of some year. |
| `PropertyKeys.SameDigitCountOrder` | Wildfire_Analysis/JS/climate_data.js:86 | For numerals of equal length, the string order is the numeric order, in both directions. |
| `PropertyKeys.FourDigitYearsSortChronologically` | Wildfire_Analysis/JS/climate_data.js:86 | Years 1000 to 9999 sort chronologically, in both directions. |
| `PropertyKeys.YearOptionsNotChronologicalAcrossDigitCounts` | Wildfire_Analysis/JS/climate_data.js:86 | Across digit counts the order is not chronological: 999 and 1000 are listed as "1000", "999". |
| `ClimateData.ProducedHasTemperatures` | Wildfire_Analysis/JS/climate_data.js:55-67 | A key that some row produced holds a non-empty list, because a list is created just before a push. So the average's division is defined. |
| `ClimateData.NotProducedHasNoTemperatures` | Wildfire_Analysis/JS/climate_data.js:48-68 | A key that no row produced collects no temperatures. |
| `ClimateData.RowIsKept` | Wildfire_Analysis/JS/climate_data.js:48-67 | Every row's temperature ends up in its key's list. No row is skipped. |
| `ClimateData.MeanWithinRange` | Wildfire_Analysis/JS/climate_data.js:75 | The average of readings within [lo, hi] lies in [lo, hi]. |
| `ClimateData.GroupRows` | Wildfire_Analysis/JS/climate_data.js:46-68 | After the loop, a (year, month, city) key exists exactly when some row produced it. Its list is that key's temperatures in input order, and no level is empty. |
| `ClimateData.AverageCities` | Wildfire_Analysis/JS/climate_data.js:73-77 | Same city keys, and each value is the mean of its list. |
| `ClimateData.AverageMonths` | Wildfire_Analysis/JS/climate_data.js:72-78 | Same month and city keys, and each value is the mean of its list. |
| `ClimateData.AverageIndex` | Wildfire_Analysis/JS/climate_data.js:71-79 | Averaging adds or removes no year, month or city key, and every value is the mean of the list it replaces. |
| `ClimateData.ProcessDataByYearAndMonth` | Wildfire_Analysis/JS/climate_data.js:45-82 | The index holds exactly the produced keys, each with the mean of its rows' temperatures and no empty level. An empty input gives an empty index. |
| `ClimateData.AggregatesEmpty` | Wildfire_Analysis/JS/climate_data.js:46-81 | The only index that aggregates no rows is the empty one. |
| `ClimateData.AggregatesUnique` | Wildfire_Analysis/JS/climate_data.js:45-82 | The rows determine the index completely. |
| `ClimateData.JanuaryAndFebruaryExample` | Wildfire_Analysis/JS/climate_data.js:48-76 | Rows 70 and 80 in January and 50 in February group as [70, 80] and [50], which average to 75 and 50. |
| `ClimateData.JanuaryAndFebruaryAggregate` | Wildfire_Analysis/JS/climate_data.js:45-82 | Any index those three rows aggregate to is exactly {2023: {0: {X: 75}, 1: {X: 50}}}. |
| `ClimateCharts.PlotDataForYearAndCity` | Wildfire_Analysis/JS/climate_data.js:114-117 | A year the index lacks throws (None). Otherwise the series has 12 entries: the stored average when the month and city exist and the average is non-zero, else null. |
| `ClimateCharts.CompareYears` | Wildfire_Analysis/JS/climate_data.js:137-159 | Each trace is the twelve-month series of its year, with a missing year read as empty. |
| `ClimateCharts.CompareYearsMissingYearIsBlank` | Wildfire_Analysis/JS/climate_data.js:138-145 | A year without data compares as twelve nulls. |
| `ClimateCharts.PlottedValueIsMeanOfRows` | Wildfire_Analysis/JS/climate_data.js:114-117 | End to end, a plotted month is non-null exactly when the city has rows that month with a non-zero mean, and then it is that mean. |
| `ClimateCharts.FirstKey` | Wildfire_Analysis/JS/climate_data.js:21 | `Object.keys(o)[0]` of index-keyed data is the least key. |
| `ClimateCharts.InitialPlotAsWrittenIsBlank` | Wildfire_Analysis/JS/climate_data.js:21 | As written, with real city names, the first chart looks up a city named after a month number and is twelve nulls. |
| `ClimateCharts.InitialSelection` | Wildfire_Analysis/JS/climate_data.js:99-101 | The starting selection is the first year, its first month and a city of that month, and the key is present. |
| `ClimateCharts.InitialPlot` | Wildfire_Analysis/JS/climate_data.js:21 | Corrected: the first chart exists exactly when there is data. It is the twelve-month series of the selected year and city, so the selected month shows that city's average when it is non-zero. |
| `ClimateCharts.InitialPlotExample` | Wildfire_Analysis/JS/climate_data.js:21 | With one Phoenix reading of 70 in January 2023, the chart as written is blank. The corrected chart shows 70 in January. |
| `Temperature.ConversionRoundTrip` | Wildfire_Analysis/JS/logic.js:13-15 | The Celsius-to-Fahrenheit conversion is inverted by the Fahrenheit-to-Celsius one in both directions, so no two readings merge. |
| `Temperature.ConversionStrictlyIncreasing` | Wildfire_Analysis/JS/logic.js:14 | A warmer Celsius reading is a warmer Fahrenheit reading. |
| `Temperature.ConversionLandmarks` | Wildfire_Analysis/JS/logic.js:14 | The conversion maps 0 to 32, 100 to 212 and -40 to -40. |
| `Temperature.MinusFortyIsTheOnlyFixedPoint` | Wildfire_Analysis/JS/logic_1.js:14 | A reading is unchanged by the conversion exactly when it is -40. |
| `Temperature.ToFahrenheit` | Wildfire_Analysis/JS/logic.js:27 | The converted array has the same length, and entry i is the conversion of Celsius entry i. |
| `Temperature.ToFahrenheitRoundTrip` | Wildfire_Analysis/JS/logic_1.js:27 | Converting the array back gives the readings the API sent. |
| `Temperature.DailyMaxima` | Wildfire_Analysis/JS/logic.js:25-26 | Readings are released exactly when the response, its `daily`, and both its `time` and `temperature_2m_max` arrays are present. They are the `temperature_2m_max` array. |
| `Logic.HeatArray` | Wildfire_Analysis/JS/logic.js:42 | There is one heat point per temperature, and point i is [lat, lng, F_i]. |
| `Logic.HeatArrayKeepsTemperatures` | Wildfire_Analysis/JS/logic.js:42 | The heat points' intensities are the temperatures, unchanged and in order. |
| `Logic.ShowClimateData` | Wildfire_Analysis/JS/logic.js:23-47 | A failed guard shows nothing, and an empty array stops at the popup. Otherwise the popup holds the first day's Fahrenheit maximum and there is one heat point per day at the city. |
| `Logic.ShownHeatRecoversReadings` | Wildfire_Analysis/JS/logic.js:25-43 | The heat layer's intensities convert back to the Celsius readings of the response. |
| `Logic.OnFetchClick` | Wildfire_Analysis/JS/logic.js:70-84 | A lookup starts exactly when city, start date and end date are all non-empty, and it carries those three values. |
| `LogicOne.ShowClimateData` | Wildfire_Analysis/JS/logic_1.js:23-42 | A failed guard shows nothing, and an empty array stops at the popup. Otherwise the popup holds the first day's Fahrenheit maximum, and the converted array converts back to the readings. |
| `LogicOne.OnCitySearch` | Wildfire_Analysis/JS/logic_1.js:65-75 | A lookup starts exactly for a non-empty city name, for 2023-01-01 to 2023-12-31. |
| `BurnSeverity.Filter` | Wildfire_Analysis/JS/burnSeverity.js:20-23 | The filter keeps no more features than it gets, and keeps a feature exactly when it is in the input and passes the test. |
| `BurnSeverity.FilterAppend` | Wildfire_Analysis/JS/burnSeverity.js:20 | Filtering a concatenation filters each part in place, so kept features keep their relative order. |
| `BurnSeverity.KeepRecent` | Wildfire_Analysis/JS/burnSeverity.js:20-23 | Corrected: a fire is kept exactly when its stated year is 1984 or later (1984 included), and the kept list is no longer than the input. |
| `BurnSeverity.KeepRecentAppend` | Wildfire_Analysis/JS/burnSeverity.js:20 | Filtering two batches separately gives the fires of filtering them together, in order. |
| `BurnSeverity.HeatPoints` | Wildfire_Analysis/JS/burnSeverity.js:28-33 | Points exist exactly when every feature has a first vertex. Then there is one point per feature, in order: [v[1], v[0], 1] for the vertex v = rings[0][0]. |
| `BurnSeverity.ProcessWildfireData` | Wildfire_Analysis/JS/burnSeverity.js:17-57 | Corrected: the year test reads the stated year. Missing features produce only the error branch. A kept fire without a first vertex stops before any layer. Otherwise the perimeters are the recent fires in input order (`KeepRecent`), each with its heat point of intensity 1. |
| `BurnSeverity.NumericYearIsReadAsMilliseconds` | Wildfire_Analysis/JS/burnSeverity.js:21 | As written, a year sent as a number 0..9999 is a time a few seconds from 1970. Its local year is 1969 or 1970, by the sign of the local offset. |
| `BurnSeverity.NumericYearsAreAllDropped` | Wildfire_Analysis/JS/burnSeverity.js:20-23 | As written, a batch whose years are numbers loses every fire. |
| `BurnSeverity.TextYearWestOfUtc` | Wildfire_Analysis/JS/burnSeverity.js:21 | As written, the text "1984" is 1983 in any local time behind UTC. |
| `BurnSeverity.TextYearAtOrEastOfUtc` | Wildfire_Analysis/JS/burnSeverity.js:21 | As written, the text "1984" is 1984 at UTC or ahead of it. |
| `BurnSeverity.Fire2020Example` | Wildfire_Analysis/JS/burnSeverity.js:20-23 | A 2020 fire with a numeric year is dropped as written and kept by the corrected filter. |

## Left out

- CSV download and parsing with `Papa.parse` (climate_data.js:4-42) are not modelled: the rows are a given sequence.
- Date parsing of rows is not modelled (climate_data.js:49-51): each row carries its year and month as integers.
- `parseFloat` is modelled as a `real` temperature. NaN and IEEE-754 rounding are not modelled, and sums are exact.
- The DOM is not modelled: creating option elements, clearing with `innerHTML`, event listeners, and `populateCityDropdown`.
- Plotly and Leaflet are not modelled: charts, month labels from `toLocaleString`, maps, tile layers, marker removal, popups, `toFixed(1)` formatting, the heat and GeoJSON layers, and their styles.
- The network is not modelled: `fetch`, `getCoordinates` (Nominatim), URL building, promise chains and console messages.
  - A response is a given parsed value.
  - Coordinates are given reals.
  - A query is the city and date range a lookup is started with.
- Module-level state is passed explicitly: `climateData` and the Leaflet `map`.
- ClimateData.AverageIndex builds a new map with the same keys instead of overwriting each list with a number in place. Dafny map values have one type, so the in-place change of type is not captured.
- City names that are `Object.prototype` members ("constructor", "__proto__") are not modelled. On such names `!obj[city]` is false and the push throws.
- ClimateCharts.InitialSelection picks some city of the first month, not the first-inserted one, because the insertion order of city keys is not modelled.
- ClimateCharts.InitialPlotAsWritten requires years that are array indices and months 0..11. Negative years would be listed in insertion order.
- BurnSeverity.FireYearAsWritten takes the local-time offset as a parameter. Daylight-saving rules, which make the offset depend on the date, are not modelled.
- BurnSeverity.TimeValueAsWritten reads `YearText(n)` as the four-digit, zero-padded text of n. It treats years outside 0..9999 as invalid dates. Other text forms and host-specific fallback parsing are not modelled.
- BurnSeverity.NumericYearsAreAllDropped covers years sent as numbers 0..9999 and offsets within ±14 hours.
- A feature without `attributes` and a `features` value that is not an array are not modelled. Both would throw.

## Findings

| source | as written | input that shows it | evidently intended | confidence | as-written member | corrected member |
|---|---|---|---|---|---|---|
| Wildfire_Analysis/JS/climate_data.js:21 | The city argument of the first chart is `Object.keys(climateData[firstYear])[0]`, which is a month key such as "0". | One CSV row for Phoenix, January 2023, at 70 °F: the first chart is twelve nulls. | Plot the first city of the first month, as the city dropdown lists it. | not executed | `ClimateCharts.InitialPlotAsWrittenIsBlank` | `ClimateCharts.InitialPlot` |
| Wildfire_Analysis/JS/burnSeverity.js:21 | `new Date(FIRE_YEAR).getFullYear()`: a numeric year is taken as milliseconds since 1970, and a text year is midnight UTC. | FIRE_YEAR = 2020 as a number is read as 1969 or 1970 and dropped. FIRE_YEAR = "1984" in any time zone behind UTC is read as 1983 and dropped. | Compare the year the attribute states with 1984. | not executed | `BurnSeverity.NumericYearsAreAllDropped` | `BurnSeverity.KeepRecent` |
