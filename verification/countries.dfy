/**
 * Country resolution of the Google geocoder: classifying the country token
 * (`isoCodeType`), querying the static country table with exactly one filter
 * (`fetchCountries` and the exact-name query of `lookup`), and rewriting the
 * token to the record's local short name and top-level domain when exactly
 * one record matches.
 *
 * The table is a sequence of records; a query is the order-preserving
 * selection of the records a filter matches.
 */
module Countries {
  import opened PhpStrings

  /** The shape of a country token: ISO 3166-1 numeric, alpha-2, alpha-3, or a free-text name. */
  datatype CodeType = Numeric | Alpha2 | Alpha3 | Name

  /**
   * The type of a country token. `isInt` stands for the framework's
   * `canBeInterpretedAsInteger`, whose definition is not part of this model.
   * The integer test wins over the length test.
   */
  function IsoCodeType(token: Bytes, isInt: Bytes -> bool): (t: CodeType)
    ensures t == Numeric <==> isInt(token)
    ensures t == Alpha2 <==> !isInt(token) && |token| == 2
    ensures t == Alpha3 <==> !isInt(token) && |token| == 3
    ensures t == Name <==> !isInt(token) && |token| != 2 && |token| != 3
  {
    if isInt(token) then Numeric
    else if |token| == 2 then Alpha2
    else if |token| == 3 then Alpha3
    else Name
  }

  /** The framework's integer test rejects the empty string, which is then a name. */
  lemma EmptyTokenIsName(isInt: Bytes -> bool)
    requires !isInt([])
    ensures IsoCodeType([], isInt) == Name
  {
  }

  /** One row of the `static_countries` table, reduced to the columns the geocoder reads. */
  datatype CountryRecord = CountryRecord(
    officialNameLocal: Bytes,  // cn_official_name_local
    officialNameEn: Bytes,     // cn_official_name_en
    shortLocal: Bytes,         // cn_short_local
    shortEn: Bytes,            // cn_short_en
    isoNr: Bytes,              // cn_iso_nr, as its decimal text
    iso2: Bytes,               // cn_iso_2
    iso3: Bytes,               // cn_iso_3
    tldomain: Bytes            // cn_tldomain
  )

  /** The WHERE clauses the geocoder issues against the country table. */
  datatype Filter =
    | NameContains(part: Bytes)  // LIKE '%part%' over official local, official English and short local name
    | NameEquals(name: Bytes)    // = over official local/English and short local/English name
    | IsoNrIs(nr: Bytes)
    | Iso2Is(code: Bytes)
    | Iso3Is(code: Bytes)

  predicate Matches(f: Filter, r: CountryRecord) {
    match f
    case NameContains(p) =>
      Contains(r.officialNameLocal, p) || Contains(r.officialNameEn, p) || Contains(r.shortLocal, p)
    case NameEquals(n) =>
      r.officialNameLocal == n || r.officialNameEn == n || r.shortLocal == n || r.shortEn == n
    case IsoNrIs(nr) => r.isoNr == nr
    case Iso2Is(code) => r.iso2 == code
    case Iso3Is(code) => r.iso3 == code
  }

  /** The rows a query with filter `f` returns, in table order. */
  function Select(table: seq<CountryRecord>, f: Filter): (rows: seq<CountryRecord>)
    ensures |rows| <= |table|
    ensures forall r :: r in rows <==> r in table && Matches(f, r)
  {
    if table == [] then []
    else (if Matches(f, table[0]) then [table[0]] else []) + Select(table[1..], f)
  }

  /** When exactly one position of the table matches, the query returns exactly that record. */
  lemma {:induction false} SelectUnique(table: seq<CountryRecord>, f: Filter, i: nat)
    requires i < |table| && Matches(f, table[i])
    requires forall j :: 0 <= j < |table| && j != i ==> !Matches(f, table[j])
    ensures Select(table, f) == [table[i]]
  {
    if i == 0 {
      SelectNone(table[1..], f);
    } else {
      assert !Matches(f, table[0]);
      SelectUnique(table[1..], f, i - 1);
    }
  }

  /** When no position matches, the query returns no rows. */
  lemma {:induction false} SelectNone(table: seq<CountryRecord>, f: Filter)
    requires forall j :: 0 <= j < |table| ==> !Matches(f, table[j])
    ensures Select(table, f) == []
  {
    if table != [] {
      SelectNone(table[1..], f);
    }
  }

  /** When two different positions match, the query returns at least two rows. */
  lemma {:induction false} SelectTwo(table: seq<CountryRecord>, f: Filter, i: nat, j: nat)
    requires i < j < |table| && Matches(f, table[i]) && Matches(f, table[j])
    ensures |Select(table, f)| >= 2
  {
    if i == 0 {
      assert table[j] in table[1..];
    } else {
      SelectTwo(table[1..], f, i - 1, j - 1);
    }
  }

  /**
   * The single filter `fetchCountries` applies. Each non-empty argument
   * overwrites the filter chosen so far, in the order name, numeric,
   * alpha-2, alpha-3; codes are trimmed. The LIKE pattern is `'%' + name + '%'`,
   * which `trim` leaves unchanged (see `LikePatternUntrimmed`).
   */
  function FetchFilter(country: Bytes, iso2: Bytes, iso3: Bytes, isonr: Bytes): (f: Option<Filter>)
    ensures iso3 != [] ==> f == Some(Iso3Is(Trim(iso3)))
    ensures iso3 == [] && iso2 != [] ==> f == Some(Iso2Is(Trim(iso2)))
    ensures iso3 == [] && iso2 == [] && isonr != [] ==> f == Some(IsoNrIs(Trim(isonr)))
    ensures iso3 == [] && iso2 == [] && isonr == [] && country != [] ==> f == Some(NameContains(country))
    ensures f == None <==> country == [] && iso2 == [] && iso3 == [] && isonr == []
  {
    var byName := if country != [] then Some(NameContains(country)) else None;
    var byNr := if isonr != [] then Some(IsoNrIs(Trim(isonr))) else byName;
    var by2 := if iso2 != [] then Some(Iso2Is(Trim(iso2))) else byNr;
    if iso3 != [] then Some(Iso3Is(Trim(iso3))) else by2
  }

  /** `trim` does not touch a pattern that starts and ends with `%`, so the LIKE filter is a plain substring test. */
  lemma LikePatternUntrimmed(country: Bytes)
    ensures Trim(['%'] + country + ['%']) == ['%'] + country + ['%']
  {
    TrimUntouched(['%'] + country + ['%']);
  }

  /** `fetchCountries`: the rows matching the one chosen filter, or no rows and no query when every argument is empty. */
  function FetchCountries(table: seq<CountryRecord>, country: Bytes, iso2: Bytes, iso3: Bytes, isonr: Bytes)
    : (rows: seq<CountryRecord>)
    ensures country == [] && iso2 == [] && iso3 == [] && isonr == [] ==> rows == []
    ensures iso3 != [] ==> forall r :: r in rows <==> r in table && r.iso3 == Trim(iso3)
    ensures iso3 == [] && iso2 != [] ==> forall r :: r in rows <==> r in table && r.iso2 == Trim(iso2)
    ensures iso3 == [] && iso2 == [] && isonr != [] ==>
              forall r :: r in rows <==> r in table && r.isoNr == Trim(isonr)
    ensures iso3 == [] && iso2 == [] && isonr == [] ==>
              forall r :: r in rows <==> r in table && country != [] && Matches(NameContains(country), r)
  {
    match FetchFilter(country, iso2, iso3, isonr)
    case None => []
    case Some(f) => Select(table, f)
  }

  /**
   * The exact-name query of `lookup`'s name branch. PHP's `$countryArray`
   * stays unset (None) when the token is empty or the query returns no row.
   */
  function ExactNameRows(table: seq<CountryRecord>, country: Bytes): (rows: Option<seq<CountryRecord>>)
    ensures rows.Some? <==> country != [] && exists r :: r in table && Matches(NameEquals(Trim(country)), r)
    ensures rows.Some? ==> rows.value == Select(table, NameEquals(Trim(country)))
  {
    if country == [] then None
    else
      var found := Select(table, NameEquals(Trim(country)));
      if found == [] then None else assert found[0] in found; Some(found)
  }

  /** The candidate records (`$countryArray`) `lookup` gathers for a country token. */
  function Candidates(table: seq<CountryRecord>, isInt: Bytes -> bool, country: Bytes): (rows: seq<CountryRecord>)
    ensures country == [] ==> rows == []
    ensures forall r :: r in rows ==> r in table
  {
    match IsoCodeType(country, isInt)
    case Numeric => FetchCountries(table, [], [], [], country)
    case Alpha2 => FetchCountries(table, [], country, [], [])
    case Alpha3 => FetchCountries(table, [], [], country, [])
    case Name =>
      match ExactNameRows(table, country)
      case Some(rows) => rows
      case None => FetchCountries(table, country, [], [], [])
  }

  /**
   * The one filter the candidates come from. For a name, the exact match
   * is used when it finds anything, the substring match otherwise.
   */
  function TokenFilter(table: seq<CountryRecord>, isInt: Bytes -> bool, country: Bytes): Filter {
    match IsoCodeType(country, isInt)
    case Numeric => IsoNrIs(Trim(country))
    case Alpha2 => Iso2Is(Trim(country))
    case Alpha3 => Iso3Is(Trim(country))
    case Name =>
      if ExactNameRows(table, country).Some? then NameEquals(Trim(country)) else NameContains(country)
  }

  /**
   * Every non-empty token is looked up with exactly the filter its code
   * type calls for, and the exact name match takes precedence over the
   * substring match; an empty token yields no candidates.
   */
  lemma CandidatesUseTokenFilter(table: seq<CountryRecord>, isInt: Bytes -> bool, country: Bytes)
    ensures country == [] ==> Candidates(table, isInt, country) == []
    ensures country != [] ==> Candidates(table, isInt, country) == Select(table, TokenFilter(table, isInt, country))
  {
  }

  /** Outcome of country resolution: the country text handed to formatting, and the region hint. */
  datatype Resolution = Resolution(country: Bytes, region: Bytes)

  /**
   * The rewrite step of `lookup`: with exactly one candidate, the token
   * becomes its local short name and the region its top-level domain;
   * otherwise the token is kept and the region stays empty.
   */
  function ResolveCountry(table: seq<CountryRecord>, isInt: Bytes -> bool, country: Bytes): (res: Resolution)
    ensures res == Resolution(country, [])
            || exists r :: r in table && res == Resolution(r.shortLocal, r.tldomain)
  {
    var rows := Candidates(table, isInt, country);
    if |rows| == 1 then Resolution(rows[0].shortLocal, rows[0].tldomain) else Resolution(country, [])
  }

  /** A token whose filter matches exactly one record resolves to that record's name and domain. */
  lemma {:induction false} ResolveUnique(table: seq<CountryRecord>, isInt: Bytes -> bool, country: Bytes, i: nat)
    requires country != [] && i < |table|
    requires Matches(TokenFilter(table, isInt, country), table[i])
    requires forall j :: 0 <= j < |table| && j != i ==> !Matches(TokenFilter(table, isInt, country), table[j])
    ensures ResolveCountry(table, isInt, country) == Resolution(table[i].shortLocal, table[i].tldomain)
  {
    CandidatesUseTokenFilter(table, isInt, country);
    SelectUnique(table, TokenFilter(table, isInt, country), i);
  }

  /** A token that matches no record is kept as it is and gets no region. */
  lemma {:induction false} ResolveNoMatch(table: seq<CountryRecord>, isInt: Bytes -> bool, country: Bytes)
    requires country != []
    requires forall j :: 0 <= j < |table| ==> !Matches(TokenFilter(table, isInt, country), table[j])
    ensures ResolveCountry(table, isInt, country) == Resolution(country, [])
  {
    CandidatesUseTokenFilter(table, isInt, country);
    SelectNone(table, TokenFilter(table, isInt, country));
  }

  /** A token that matches two records is kept as it is and gets no region. */
  lemma {:induction false} ResolveAmbiguous(table: seq<CountryRecord>, isInt: Bytes -> bool, country: Bytes, i: nat, j: nat)
    requires country != [] && i < j < |table|
    requires Matches(TokenFilter(table, isInt, country), table[i])
    requires Matches(TokenFilter(table, isInt, country), table[j])
    ensures ResolveCountry(table, isInt, country) == Resolution(country, [])
  {
    CandidatesUseTokenFilter(table, isInt, country);
    SelectTwo(table, TokenFilter(table, isInt, country), i, j);
  }

  /** An empty token is never resolved. */
  lemma EmptyTokenUnresolved(table: seq<CountryRecord>, isInt: Bytes -> bool)
    ensures ResolveCountry(table, isInt, []) == Resolution([], [])
  {
    CandidatesUseTokenFilter(table, isInt, []);
  }
}
