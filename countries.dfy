/** The loosely-typed country records the statistics page receives, and the
    JavaScript truthiness rules by which each optional field is read. */
module Countries {

  datatype Option<T> = None | Some(value: T)

  /** One value of a country's `currencies` object; only its display name is read. */
  datatype Currency = Currency(name: string)

  /** A country record as the data source delivers it. Only the common name is
      always present; `currencies` lists the values of the currencies object in
      the order the object yields them. */
  datatype Country = Country(
    name: string,
    population: Option<nat>,
    region: Option<string>,
    currencies: Option<seq<Currency>>)

  /** The bucket a country without a usable region is counted under. */
  const UnknownRegion: string := "Unknown"

  /** `country.population` is truthy: present and not 0. */
  predicate HasPopulation(c: Country) {
    c.population.Some? && c.population.value != 0
  }

  /** `country.population || 0`: the country's share of the total population. */
  function PopulationOrZero(c: Country): (p: nat)
    ensures p != 0 <==> HasPopulation(c)
    ensures HasPopulation(c) ==> p == c.population.value
  {
    if c.population.Some? then c.population.value else 0
  }

  /** `country.region || 'Unknown'`: an absent or empty region is falsy and
      falls back to the Unknown bucket. */
  function RegionLabel(c: Country): (bucket: string)
    ensures bucket != ""
    ensures bucket == UnknownRegion <==> c.region.None? || c.region.value in {"", UnknownRegion}
    ensures bucket != UnknownRegion ==> c.region == Some(bucket)
  {
    if c.region.Some? && c.region.value != "" then c.region.value else UnknownRegion
  }

  /** The names of a list of currency entries, in order and with repeats. */
  function Names(entries: seq<Currency>): (names: seq<string>)
    ensures |names| == |entries|
    ensures forall k :: 0 <= k < |entries| ==> names[k] == entries[k].name
  {
    seq(|entries|, k requires 0 <= k < |entries| => entries[k].name)
  }

  /** The names of the currency entries a country lists, entry by entry and
      without removing repeats; a country without currencies lists none. */
  function EntryNames(c: Country): seq<string> {
    match c.currencies
    case None => []
    case Some(entries) => Names(entries)
  }
}
