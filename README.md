# Country statistics aggregation

A Dafny model of the statistics step of a small country-browser web page. The
page fetches country records from a public country-data service and, in
`displayStatistics` (`src/app.ts`), aggregates them into:

- general totals: the number of countries, the total population and the
  average population;
- one detail row per country: its common name and its population, or `N/A`;
- a region table: how many countries fall in each region, with a fallback
  bucket `Unknown`;
- a currency table: how many currency entries carry each currency name.

The model has three modules, one per concern:

- `Countries` (`countries.dfy`): the loosely-typed records as optional
  fields (`population: Option<nat>`, `region: Option<string>`,
  `currencies: Option<seq<Currency>>`), and the JavaScript truthiness rules
  by which the page reads them. A population of 0 is falsy like an absent
  one: it adds 0 and shows `N/A`. An empty region is falsy like an absent
  one: it goes to `Unknown`.
- `Histograms` (`histograms.dfy`): the counting specification both tables
  share. `Histogram(xs)` counts a sequence of labels left to right. Lemmas
  prove that its keys are exactly the labels that occur, that each count is
  at least 1 and equals the number of occurrences (`Occurrences`), and that
  the counts add up to `|xs|`.
- `Statistics` (`statistics.dfy`): the report. The count, the population
  `reduce` and the row `map` are pure functions. The two `forEach` loops are
  methods that mutate a local `map<string, nat>` exactly as the page mutates
  its `Record<string, number>`: a missing (falsy) key is first set to 0, then
  incremented. Each method is proved equal to the histogram of the labels it
  visits. `Aggregate` runs the whole step and is proved equal to the pure
  `StatisticsOf`, whose contract states the report's properties.

Aggregation only reads its input: countries are immutable values, and no
method has a `modifies` clause.

Currencies are counted per entry, not per country. A country listing the
same name twice adds 2, so a currency's count can exceed the number of
countries (`RepeatedEntryCountsTwice`). On the worked input, where country B
lists `Euro` twice, `Euro` is counted 3 times (`SampleCurrencies`).

## Model

| member | source | states |
|---|---|---|
| `Countries.PopulationOrZero` | src/app.ts:56 | the population or 0 is non-zero exactly when the population is present and non-zero, and is then that population |
| `Countries.RegionLabel` | src/app.ts:68 | the bucket is never empty; it is `Unknown` exactly when the region is absent, empty or literally `Unknown`; any other bucket is the country's own region |
| `Countries.Names` | src/app.ts:85-86 | the names of a currencies object's values, one per entry, in order, repeats kept |
| `Statistics.ReducePopulation` | src/app.ts:56 | the `reduce` as written, a left fold of the population or 0; from any starting sum it adds exactly the total population (absent or zero populations contributing 0), so from 0 it yields the total population |
| `Statistics.TotalPopulationAppend` | src/app.ts:56 | the total population of two concatenated inputs is the sum of their totals |
| `Statistics.Average` | src/app.ts:57 | no average exactly when there are no countries; otherwise average times count equals the total population |
| `Statistics.RowOf` | src/app.ts:59-63 | a row keeps the country's name; its population column is `N/A` exactly when the population is absent or 0, and otherwise shows the country's population |
| `Statistics.CountryRows` | src/app.ts:59-64 | one row per country, same length and same order as the input |
| `Statistics.RowsAddUpToTotal` | src/app.ts:56-64 | the figures shown in the rows add up to the total population, so the `N/A` rows are exactly those contributing nothing |
| `Statistics.Increment` | src/app.ts:69-72 | setting a falsy count to 0 and then incrementing it gives the table with that key added if needed and its count raised by one, all other counts unchanged |
| `Statistics.CountRegions` | src/app.ts:66-73 | the region loop builds exactly the histogram of the countries' buckets |
| `Statistics.RegionStep` | src/app.ts:67-72 | each further country raises exactly one region count by one, that of its own bucket |
| `Statistics.RegionTable` | src/app.ts:66-73 | the region table's keys are exactly the buckets the countries resolve to, every count is at least 1 and is the number of countries resolving to that bucket, and the counts add up to the number of countries |
| `Statistics.CountCurrencies` | src/app.ts:82-93 | the currency loop builds exactly the histogram of the names of all currency entries, country by country |
| `Statistics.CountEntries` | src/app.ts:85-91 | the inner loop over one country's currency values extends the table by every entry's name, repeats included |
| `Statistics.CurrencyNamesSnoc` | src/app.ts:83-92 | one more country adds exactly its own entry names to the names visited, and none when it has no currencies |
| `Statistics.CurrencyCountIsEntryCount` | src/app.ts:83-93 | a currency's count is the number of entries with that name across all countries, with no per-country deduplication; a name no entry carries has no count |
| `Statistics.NoCurrenciesNoChange` | src/app.ts:84 | a country with no `currencies` field, or an empty one, leaves the currency table unchanged |
| `Statistics.RepeatedEntryCountsTwice` | src/app.ts:85-91 | one country listing a currency twice gives it a count of 2, more than the number of countries |
| `Statistics.StatisticsOf` | src/app.ts:55-93 | the report: count equals input length; total population equals the `reduce`; average absent exactly on empty input; rows match the input one to one and add up to the total; average is the total divided by the count; region keys are the buckets, each count the number of countries in that bucket, at least 1, summing to the count; each currency count equals its number of entries; empty input gives empty tables |
| `Statistics.Aggregate` | src/app.ts:54-93 | the step as the page runs it (count, `reduce`, row `map`, both counting loops) yields exactly `StatisticsOf` of its input |
| `Statistics.SampleCurrencyNames` | src/app.ts:83-86 | on the worked input the currency loop visits `Euro` three times, twice for country B |
| `Statistics.SampleCurrencies` | src/app.ts:82-93 | on the worked input, where country B lists `Euro` twice, `Euro` is counted 3 times |
| `Statistics.SampleRegions` | src/app.ts:66-73 | on the worked input the table is `Europe` 2 and `Unknown` 1 |
| `Statistics.SampleReport` | src/app.ts:55-93 | on the worked input the whole report is 3 countries, population 15, average 5, rows A 10, B `N/A`, C 5, and the two tables above |
| `Histograms.Occurrences` | src/app.ts:69-72 | a label's number of occurrences is at most the length and is 0 exactly when the label does not occur |
| `Histograms.OccurrencesAppend` | src/app.ts:69-72 | occurrences in a concatenation add up |
| `Histograms.HistogramCounts` | src/app.ts:69-72 | a histogram's keys are exactly the labels that occur, every count is at least 1, and each count is the label's number of occurrences |
| `Histograms.HistogramSnoc` | src/app.ts:69-72 | counting one more label is one `Bump` of that label on the previous histogram (which, by `BumpCounts`, raises that label's count only) |
| `Histograms.BumpCounts` | src/app.ts:69-72 | one increment adds the key if it is missing, raises its count by one and keeps every other count |
| `Histograms.TotalBump` | src/app.ts:69-72 | one increment raises the sum of all counts by exactly one |
| `Histograms.HistogramTotal` | src/app.ts:66-73 | the counts of a histogram add up to the number of labels counted |

## Left out

- DOM lookup, form and button wiring (src/app.ts:1-18): browser glue.
- `fetchAllCountries` and `fetchCountriesByName` (src/app.ts:20-52): network I/O and error display. The model starts from the sequence of records they pass on.
- HTML building and the `innerHTML` assignment (src/app.ts:59-64 markup, 75-80, 95-186): presentation. Rows are modelled as name and population-or-`N/A` pairs.
- `Object.entries` iteration order of the two tables (src/app.ts:75, 95): the maps are unordered. JavaScript objects yield integer-like keys first and the rest in insertion order.
- `Statistics.Average`: modelled as an exact `real`, absent on empty input. JavaScript computes a floating-point value (rounded) and `NaN` when there are no countries. `toLocaleString` formatting (src/app.ts:122, 126) is left out.
- `Statistics.Increment`: a key with no own count in the table is taken to have no inherited value either. On a plain JavaScript object, keys such as `constructor` or `__proto__` find an inherited property instead of `undefined`. This is engine behaviour, not counting logic.
- `Countries.Names`: assumes every currency value has a string `name`. A value without one would be counted under the key `undefined`.
- Countries: the common name is taken as a present string. A `name` object without `common` shows `undefined` in its row (src/app.ts:61). A record with no `name` at all makes the row `map` raise a `TypeError`; the `catch` blocks of the fetch functions (src/app.ts:28-33, 44-51) then show an error message instead of the statistics.
- Numbers: populations, their total and the counts are unbounded `nat`. The page adds them as JavaScript doubles, which are exact integers only up to 2^53, and a population delivered as a non-integer would be summed as such.
- The commented-out markup block (src/app.ts:187-268): dead code.
