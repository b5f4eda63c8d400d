/** The aggregation at the head of the statistics page: general totals, one
    detail row per country, and the region and currency tables. */
module Statistics {
  import opened Countries
  import opened Histograms

  /** The population column of a detail row: the figure, or 'N/A'. */
  datatype PopulationCell = Figure(n: nat) | NotAvailable

  /** A country detail row: common name and population column. */
  datatype Row = Row(name: string, population: PopulationCell)

  /** Everything the page shows, before formatting. */
  datatype Report = Report(
    totalCountries: nat,
    totalPopulation: nat,
    average: Option<real>,
    rows: seq<Row>,
    regions: map<string, nat>,
    currencies: map<string, nat>)

  // ---------------------------------------------------------------------------
  // General totals

  /** Reference definition of the total population: the sum over the records
      of their population, absent or zero counting 0. */
  function TotalPopulation(cs: seq<Country>): nat {
    if cs == [] then 0 else TotalPopulation(cs[..|cs| - 1]) + PopulationOrZero(cs[|cs| - 1])
  }

  lemma {:induction false} TotalPopulationAppend(a: seq<Country>, b: seq<Country>)
    ensures TotalPopulation(a + b) == TotalPopulation(a) + TotalPopulation(b)
    decreases |b|
  {
    if b == [] {
      assert a + b == a;
    } else {
      assert (a + b)[..|a + b| - 1] == a + b[..|b| - 1];
      TotalPopulationAppend(a, b[..|b| - 1]);
    }
  }

  /** The population `reduce` as written: a left fold that adds
      `country.population || 0` to the running sum. From any starting sum it
      adds exactly the total population; from 0 it yields that total. */
  function ReducePopulation(sum: nat, cs: seq<Country>): (r: nat)
    ensures r == sum + TotalPopulation(cs)
    decreases |cs|
  {
    if cs == [] then sum
    else
      assert cs == [cs[0]] + cs[1..];
      assert [cs[0]][..0] == [];
      TotalPopulationAppend([cs[0]], cs[1..]);
      ReducePopulation(sum + PopulationOrZero(cs[0]), cs[1..])
  }

  /** `totalPopulation / totalCountries`, with the division by zero of the
      empty input made an explicit absence instead of NaN. */
  function Average(total: nat, count: nat): (avg: Option<real>)
    ensures avg.None? <==> count == 0
    ensures avg.Some? ==> avg.value * count as real == total as real
  {
    if count == 0 then None else Some(total as real / count as real)
  }

  // ---------------------------------------------------------------------------
  // Country detail rows

  /** One detail row: the population column shows the figure when the
      population is truthy and 'N/A' otherwise. */
  function RowOf(c: Country): (row: Row)
    ensures row.name == c.name
    ensures row.population == NotAvailable <==> !HasPopulation(c)
    ensures row.population.Figure? ==> c.population == Some(row.population.n)
  {
    Row(c.name, if HasPopulation(c) then Figure(c.population.value) else NotAvailable)
  }

  /** The detail rows: one per country, in input order. */
  function CountryRows(cs: seq<Country>): (rows: seq<Row>)
    ensures |rows| == |cs|
    ensures forall i :: 0 <= i < |cs| ==> rows[i] == RowOf(cs[i])
  {
    seq(|cs|, i requires 0 <= i < |cs| => RowOf(cs[i]))
  }

  /** The figure a row shows, 0 for 'N/A'. */
  function CellValue(row: Row): nat {
    match row.population
    case Figure(n) => n
    case NotAvailable => 0
  }

  /** The sum of the figures the rows show. */
  function RowsTotal(rows: seq<Row>): nat {
    if rows == [] then 0 else CellValue(rows[0]) + RowsTotal(rows[1..])
  }

  /** The total population is exactly the sum of the figures in the detail
      rows: the rows showing 'N/A' are those that contribute nothing. */
  lemma {:induction false} RowsAddUpToTotal(cs: seq<Country>)
    ensures RowsTotal(CountryRows(cs)) == TotalPopulation(cs)
  {
    if cs != [] {
      RowsAddUpToTotal(cs[1..]);
      assert CountryRows(cs)[1..] == CountryRows(cs[1..]);
      assert cs == [cs[0]] + cs[1..];
      TotalPopulationAppend([cs[0]], cs[1..]);
      assert [cs[0]][..0] == [];
    }
  }

  // ---------------------------------------------------------------------------
  // Region table

  /** One step of either counting loop: a key whose count is missing (or
      falsy) is set to 0, then its count is incremented. */
  method Increment(stats: map<string, nat>, key: string) returns (stats': map<string, nat>)
    ensures stats' == Bump(stats, key)
  {
    stats' := stats;
    if !(key in stats' && stats'[key] != 0) {
      stats' := stats'[key := 0];
    }
    stats' := stats'[key := stats'[key] + 1];
  }

  /** The bucket each country is counted under, in input order. */
  function RegionLabels(cs: seq<Country>): (labels: seq<string>)
    ensures |labels| == |cs|
    ensures forall i :: 0 <= i < |cs| ==> labels[i] == RegionLabel(cs[i])
  {
    seq(|cs|, i requires 0 <= i < |cs| => RegionLabel(cs[i]))
  }

  /** The region counting loop: each country raises the count of its bucket by
      one, setting a missing (falsy) count to 0 first. */
  method CountRegions(cs: seq<Country>) returns (regionStats: map<string, nat>)
    ensures regionStats == Histogram(RegionLabels(cs))
  {
    regionStats := map[];
    assert RegionLabels(cs[..0]) == [];
    var i := 0;
    while i < |cs|
      invariant 0 <= i <= |cs|
      invariant regionStats == Histogram(RegionLabels(cs[..i]))
    {
      var region := RegionLabel(cs[i]);
      regionStats := Increment(regionStats, region);
      assert cs[..i + 1] == cs[..i] + [cs[i]];
      RegionStep(cs[..i], cs[i]);
      i := i + 1;
    }
    assert cs[..i] == cs;
  }

  /** Each further country raises exactly one region count by one: that of
      its own bucket. */
  lemma RegionStep(cs: seq<Country>, c: Country)
    ensures Histogram(RegionLabels(cs + [c])) == Bump(Histogram(RegionLabels(cs)), RegionLabel(c))
  {
    assert RegionLabels(cs + [c]) == RegionLabels(cs) + [RegionLabel(c)];
    HistogramSnoc(RegionLabels(cs), RegionLabel(c));
  }

  /** The region table's keys are exactly the buckets the countries resolve
      to, each with a count of at least one that is the number of countries
      resolving to it, and the counts add up to the number of countries. */
  lemma RegionTable(cs: seq<Country>)
    ensures Histogram(RegionLabels(cs)).Keys == set c | c in cs :: RegionLabel(c)
    ensures forall l :: l in Histogram(RegionLabels(cs)) ==> Histogram(RegionLabels(cs))[l] >= 1
    ensures forall l :: CountOf(Histogram(RegionLabels(cs)), l) == Occurrences(RegionLabels(cs), l)
    ensures Total(Histogram(RegionLabels(cs))) == |cs|
  {
    var labels := RegionLabels(cs);
    HistogramCounts(labels);
    forall l ensures l in labels <==> l in set c | c in cs :: RegionLabel(c) {
      if l in labels {
        var i :| 0 <= i < |labels| && labels[i] == l;
        assert cs[i] in cs;
      }
    }
    HistogramTotal(labels);
  }

  // ---------------------------------------------------------------------------
  // Currency table

  /** The currency names the counting loop visits, country by country and
      entry by entry. */
  function CurrencyNames(cs: seq<Country>): seq<string> {
    if cs == [] then [] else EntryNames(cs[0]) + CurrencyNames(cs[1..])
  }

  lemma {:induction false} CurrencyNamesAppend(a: seq<Country>, b: seq<Country>)
    ensures CurrencyNames(a + b) == CurrencyNames(a) + CurrencyNames(b)
  {
    if a == [] {
      assert a + b == b;
    } else {
      assert (a + b)[1..] == a[1..] + b;
      CurrencyNamesAppend(a[1..], b);
    }
  }

  /** The currency counting loop: for every entry of every country that has a
      currencies object, the count of the entry's name goes up by one, a
      missing (falsy) count being set to 0 first. */
  method CountCurrencies(cs: seq<Country>) returns (currencyStats: map<string, nat>)
    ensures currencyStats == Histogram(CurrencyNames(cs))
  {
    currencyStats := map[];
    assert CurrencyNames(cs[..0]) == [];
    var i := 0;
    while i < |cs|
      invariant 0 <= i <= |cs|
      invariant currencyStats == Histogram(CurrencyNames(cs[..i]))
    {
      var country := cs[i];
      if country.currencies.Some? {
        currencyStats := CountEntries(currencyStats, country.currencies.value, CurrencyNames(cs[..i]));
      } else {
        assert CurrencyNames(cs[..i]) + EntryNames(country) == CurrencyNames(cs[..i]);
      }
      CurrencyNamesSnoc(cs, i);
      i := i + 1;
    }
    assert cs[..i] == cs;
  }

  /** The inner loop over the values of one country's currencies object: each
      entry raises the count of its name by one, so a name listed twice is
      counted twice. `counted` is what the table has counted so far. */
  method CountEntries(stats: map<string, nat>, entries: seq<Currency>, ghost counted: seq<string>)
    returns (stats': map<string, nat>)
    requires stats == Histogram(counted)
    ensures stats' == Histogram(counted + Names(entries))
  {
    stats' := stats;
    ghost var seen := counted;
    var j := 0;
    while j < |entries|
      invariant 0 <= j <= |entries|
      invariant seen == counted + Names(entries)[..j]
      invariant stats' == Histogram(seen)
    {
      var currencyName := entries[j].name;
      stats' := Increment(stats', currencyName);
      HistogramSnoc(seen, currencyName);
      seen := seen + [currencyName];
      assert Names(entries)[..j + 1] == Names(entries)[..j] + [currencyName];
      j := j + 1;
    }
    assert Names(entries)[..j] == Names(entries);
  }

  lemma CurrencyNamesSnoc(cs: seq<Country>, i: nat)
    requires i < |cs|
    ensures CurrencyNames(cs[..i + 1]) == CurrencyNames(cs[..i]) + EntryNames(cs[i])
  {
    assert cs[..i + 1] == cs[..i] + [cs[i]];
    CurrencyNamesAppend(cs[..i], [cs[i]]);
    assert CurrencyNames([cs[i]]) == EntryNames(cs[i]) + CurrencyNames([]);
  }

  /** The number of currency entries named `n` in a list of entries. */
  function NamedEntries(entries: seq<Currency>, n: string): nat {
    if entries == [] then 0
    else (if entries[0].name == n then 1 else 0) + NamedEntries(entries[1..], n)
  }

  /** The number of currency entries named `n` that a country lists. */
  function CountryEntriesNamed(c: Country, n: string): nat {
    match c.currencies
    case None => 0
    case Some(entries) => NamedEntries(entries, n)
  }

  /** The number of currency entries named `n` across all countries, repeats
      within one country included. */
  function EntriesNamed(cs: seq<Country>, n: string): nat {
    if cs == [] then 0 else CountryEntriesNamed(cs[0], n) + EntriesNamed(cs[1..], n)
  }

  lemma {:induction false} EntryNamesCount(entries: seq<Currency>, c: Country, n: string)
    requires c.currencies == Some(entries)
    ensures Occurrences(EntryNames(c), n) == NamedEntries(entries, n)
  {
    if entries != [] {
      var rest := c.(currencies := Some(entries[1..]));
      EntryNamesCount(entries[1..], rest, n);
      assert EntryNames(c) == [entries[0].name] + EntryNames(rest);
      OccurrencesAppend([entries[0].name], EntryNames(rest), n);
      assert [entries[0].name][1..] == [];
    }
  }

  /** A currency's count is the number of entries carrying its name across all
      countries, with no deduplication within a country; a name no entry
      carries has no count. */
  lemma {:induction false} CurrencyCountIsEntryCount(cs: seq<Country>, n: string)
    ensures CountOf(Histogram(CurrencyNames(cs)), n) == EntriesNamed(cs, n)
  {
    HistogramCounts(CurrencyNames(cs));
    if cs != [] {
      HistogramCounts(CurrencyNames(cs[1..]));
      CurrencyCountIsEntryCount(cs[1..], n);
      OccurrencesAppend(EntryNames(cs[0]), CurrencyNames(cs[1..]), n);
      match cs[0].currencies
      case None =>
      case Some(entries) => EntryNamesCount(entries, cs[0], n);
    }
  }

  /** A country without currencies, or with an empty currencies object, leaves
      the currency table as it was. */
  lemma NoCurrenciesNoChange(cs: seq<Country>, c: Country)
    requires c.currencies.None? || c.currencies == Some([])
    ensures Histogram(CurrencyNames(cs + [c])) == Histogram(CurrencyNames(cs))
  {
    CurrencyNamesAppend(cs, [c]);
    assert CurrencyNames([c]) == [];
    assert CurrencyNames(cs) + [] == CurrencyNames(cs);
  }

  /** A single country listing the same currency twice gives that currency a
      count of 2: a currency's count can exceed the number of countries. */
  lemma RepeatedEntryCountsTwice(c: Country, x: Currency)
    requires c.currencies == Some([x, x])
    ensures CountOf(Histogram(CurrencyNames([c])), x.name) == 2 > |[c]|
  {
    CurrencyCountIsEntryCount([c], x.name);
    assert [x, x][1..] == [x] && [x][1..] == [];
    assert NamedEntries([x], x.name) == 1;
    assert NamedEntries([x, x], x.name) == 2;
    assert [c][1..] == [];
    assert EntriesNamed([c], x.name) == 2;
  }

  // ---------------------------------------------------------------------------
  // The whole aggregation

  /** The report the page computes for `cs`. */
  function StatisticsOf(cs: seq<Country>): (r: Report)
    ensures r.totalCountries == |cs|
    ensures r.totalPopulation == ReducePopulation(0, cs)
    ensures r.average.None? <==> cs == []
    ensures r.average == Average(r.totalPopulation, r.totalCountries)
    ensures |r.rows| == |cs| && forall i :: 0 <= i < |cs| ==> r.rows[i] == RowOf(cs[i])
    ensures RowsTotal(r.rows) == r.totalPopulation
    ensures r.regions.Keys == set c | c in cs :: RegionLabel(c)
    ensures forall l :: l in r.regions ==> r.regions[l] >= 1
    ensures forall l :: CountOf(r.regions, l) == Occurrences(RegionLabels(cs), l)
    ensures Total(r.regions) == |cs|
    ensures forall n :: n in r.currencies ==> r.currencies[n] >= 1
    ensures forall n :: CountOf(r.currencies, n) == EntriesNamed(cs, n)
    ensures cs == [] ==> r.regions == map[] && r.currencies == map[]
  {
    RegionTable(cs);
    RowsAddUpToTotal(cs);
    HistogramCounts(CurrencyNames(cs));
    assert forall n :: CountOf(Histogram(CurrencyNames(cs)), n) == EntriesNamed(cs, n) by {
      forall n ensures CountOf(Histogram(CurrencyNames(cs)), n) == EntriesNamed(cs, n) {
        CurrencyCountIsEntryCount(cs, n);
      }
    }
    var total := TotalPopulation(cs);
    Report(
      |cs|,
      total,
      Average(total, |cs|),
      CountryRows(cs),
      Histogram(RegionLabels(cs)),
      Histogram(CurrencyNames(cs)))
  }

  /** The aggregation as the page runs it: the count, the population reduce,
      the row map, then the two counting loops. It only reads `countries`. */
  method Aggregate(countries: seq<Country>) returns (r: Report)
    ensures r == StatisticsOf(countries)
  {
    var totalCountries := |countries|;
    var totalPopulation := ReducePopulation(0, countries);
    var avgPopulation := Average(totalPopulation, totalCountries);
    var rows := CountryRows(countries);
    var regionStats := CountRegions(countries);
    var currencyStats := CountCurrencies(countries);
    r := Report(totalCountries, totalPopulation, avgPopulation, rows, regionStats, currencyStats);
  }

  /** A worked input: A (population 10, Europe, one Euro entry), B (no
      population, Europe, two Euro entries) and C (population 5, no region, no
      currencies). */
  function Sample(): seq<Country> {
    [Country("A", Some(10), Some("Europe"), Some([Currency("Euro")])),
     Country("B", None, Some("Europe"), Some([Currency("Euro"), Currency("Euro")])),
     Country("C", Some(5), None, None)]
  }

  /** The currency entries of the worked input, entry by entry. */
  lemma SampleCurrencyNames()
    ensures CurrencyNames(Sample()) == ["Euro", "Euro", "Euro"]
  {
    var cs := Sample();
    assert EntryNames(cs[0]) == ["Euro"];
    assert EntryNames(cs[1]) == ["Euro", "Euro"];
    assert cs[1..][1..] == [cs[2]];
    assert [cs[2]][1..] == [];
    assert CurrencyNames([cs[2]]) == [];
    assert CurrencyNames(cs[1..]) == ["Euro", "Euro"];
  }

  /** On the worked input B's repeated entry is counted twice, so "Euro"
      reaches 3 although only two countries use it. */
  lemma SampleCurrencies()
    ensures Histogram(CurrencyNames(Sample())) == map["Euro" := 3]
  {
    SampleCurrencyNames();
    HistogramSnoc([], "Euro");
    HistogramSnoc(["Euro"], "Euro");
    HistogramSnoc(["Euro", "Euro"], "Euro");
  }

  /** On the worked input the two European countries share one bucket and C,
      having no region, is counted under Unknown. */
  lemma SampleRegions()
    ensures Histogram(RegionLabels(Sample())) == map["Europe" := 2, UnknownRegion := 1]
  {
    var cs := Sample();
    assert RegionLabels(cs) == ["Europe", "Europe", UnknownRegion];
    HistogramSnoc([], "Europe");
    HistogramSnoc(["Europe"], "Europe");
    HistogramSnoc(["Europe", "Europe"], UnknownRegion);
  }

  /** The whole report for the worked input. */
  lemma SampleReport()
    ensures StatisticsOf(Sample()) == Report(
      3, 15, Some(5.0),
      [Row("A", Figure(10)), Row("B", NotAvailable), Row("C", Figure(5))],
      map["Europe" := 2, UnknownRegion := 1],
      map["Euro" := 3])
  {
    var cs := Sample();
    SampleCurrencies();
    SampleRegions();
    assert cs[..2][..1] == [cs[0]];
    assert [cs[0]][..0] == [];
    assert TotalPopulation([cs[0]]) == 10;
    assert TotalPopulation(cs[..2]) == 10;
    assert TotalPopulation(cs) == 15;
    assert CountryRows(cs) == [Row("A", Figure(10)), Row("B", NotAvailable), Row("C", Figure(5))];
  }
}
