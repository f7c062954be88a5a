/**
 * The country search front end: the list of countries matching the search
 * text, and the choice of what to display from how many there are.
 */
module CountrySearch {
  import opened JsStrings
  import opened Seqs

  /** A country as the REST service describes it; only the fields the search and keys use. */
  datatype Country = Country(commonName: string, cca2: string)

  /** The four displays the component chooses between. */
  datatype Outcome =
    | TooManyMatches
    | CountryList(countries: seq<Country>)
    | CountryDetail(country: Country)
    | NoMatches

  /** Above this many matches only a "be more specific" message is shown. */
  const MaxListed := 10

  /** A country matches when its lowered common name includes the lowered search text. */
  predicate Matches(c: Country, search: string) {
    Contains(Lower(c.commonName), Lower(search))
  }

  /**
   * The filtered list the effect stores: empty for a blank search, otherwise
   * the matching countries in their original order.
   */
  function FilterCountries(countries: seq<Country>, search: string): (r: seq<Country>)
    ensures AllWhitespace(search) ==> r == []
    ensures |r| <= |countries|
    ensures !AllWhitespace(search) ==>
              && IsSubsequence(r, countries)
              && (forall c :: multiset(r)[c] == if Matches(c, search) then multiset(countries)[c] else 0)
  {
    TrimEmptyIff(search);
    if Trim(search) == [] then []
    else
      var keep := (c: Country) => Matches(c, search);
      FilterIsSubsequence(countries, keep);
      FilterCounts(countries, keep);
      Filter(countries, keep)
  }

  /** The nested choice on the number of matches. */
  function Classify(filtered: seq<Country>): (r: Outcome)
    ensures r.TooManyMatches? <==> |filtered| > MaxListed
    ensures r.CountryList? <==> 2 <= |filtered| <= MaxListed
    ensures r.CountryDetail? <==> |filtered| == 1
    ensures r.NoMatches? <==> filtered == []
    ensures r.CountryList? ==> r.countries == filtered
    ensures r.CountryDetail? ==> r.country == filtered[0]
  {
    if |filtered| > MaxListed then TooManyMatches
    else if |filtered| > 1 then CountryList(filtered)
    else if |filtered| == 1 then CountryDetail(filtered[0])
    else NoMatches
  }

  /**
   * What the component shows for a search text over the loaded countries: a
   * blank search finds nothing, a detail is always of a loaded matching
   * country, and "too many" needs more than 10 loaded countries.
   */
  function Search(countries: seq<Country>, search: string): (r: Outcome)
    ensures AllWhitespace(search) ==> r == NoMatches
    ensures r.CountryDetail? ==> r.country in countries && Matches(r.country, search)
    ensures r.TooManyMatches? ==> !AllWhitespace(search) && |countries| > MaxListed
  {
    var filtered := FilterCountries(countries, search);
    assert filtered != [] ==> multiset(filtered)[filtered[0]] > 0;
    Classify(filtered)
  }

  /** The list display holds exactly the matching countries, in order. */
  lemma ListedAreTheMatches(countries: seq<Country>, search: string)
    requires Search(countries, search).CountryList?
    ensures var listed := Search(countries, search).countries;
            && 2 <= |listed| <= MaxListed
            && IsSubsequence(listed, countries)
            && (forall c :: c in listed <==> c in countries && Matches(c, search))
            && forall c :: multiset(listed)[c] == if Matches(c, search) then multiset(countries)[c] else 0
  {
  }

  /** The detail display is shown for a country exactly when it is the one position that matches. */
  lemma DetailIsTheOnlyMatch(countries: seq<Country>, search: string, c: Country)
    ensures Search(countries, search) == CountryDetail(c) <==>
            && !AllWhitespace(search)
            && exists i :: 0 <= i < |countries| && countries[i] == c && Matches(c, search) &&
                           forall j :: 0 <= j < |countries| && j != i ==> !Matches(countries[j], search)
  {
    TrimEmptyIff(search);
    var keep := (d: Country) => Matches(d, search);
    FilterSingleton(countries, keep, c);
    if !AllWhitespace(search) {
      assert FilterCountries(countries, search) == Filter(countries, keep);
    }
  }

  /** No match at all, or a blank search, shows "no countries found". */
  lemma NoMatchesIff(countries: seq<Country>, search: string)
    ensures Search(countries, search) == NoMatches <==>
            AllWhitespace(search) || forall i :: 0 <= i < |countries| ==> !Matches(countries[i], search)
  {
  }
}
