/**
 * The earlier search of the directory page: a record is kept when the
 * lower-cased term occurs in one of its fields taken separately (first
 * name, last name, city, degree, any one specialty, or the years of
 * experience written in decimal). The page state holds the loaded records
 * and the term; resetting the search clears the term only.
 */
module LegacySearch {
  import opened Seqs
  import opened Text
  import opened Types
  import Refine

  /** The keys the page looks up on each record, in the order it tries them. */
  datatype SearchKey = FirstName | LastName | City | Degree | Specialties | YearsOfExperience

  const SearchKeys: seq<SearchKey> := [FirstName, LastName, City, Degree, Specialties, YearsOfExperience]

  /** The lower-cased term occurs in the field named by `key`; for the
      specialty list, in one of its entries. */
  predicate KeyMatches(a: Advocate, key: SearchKey, term: string)
  {
    match key
    case FirstName => Includes(Lower(a.firstName), term)
    case LastName => Includes(Lower(a.lastName), term)
    case City => Includes(Lower(a.city), term)
    case Degree => Includes(Lower(a.degree), term)
    case Specialties => exists j :: 0 <= j < |a.specialties| && Includes(Lower(a.specialties[j]), term)
    case YearsOfExperience => Includes(Lower(DecimalString(a.yearsOfExperience)), term)
  }

  /** Some key matches the (already lower-cased) term. */
  predicate LegacyMatches(a: Advocate, term: string)
  {
    exists i :: 0 <= i < |SearchKeys| && KeyMatches(a, SearchKeys[i], term)
  }

  function LegacyMatchesFn(term: string): Advocate -> bool
  {
    a => LegacyMatches(a, term)
  }

  /** `filterAdvocates`: the term is lower-cased once, then the records are
      filtered in order. */
  function FilterAdvocates(searchTerm: string, advocates: seq<Advocate>): (r: seq<Advocate>)
    ensures |r| <= |advocates|
    ensures forall i :: 0 <= i < |r| ==> r[i] in advocates && LegacyMatches(r[i], Lower(searchTerm))
    ensures forall i :: 0 <= i < |advocates| ==> (advocates[i] in r <==> LegacyMatches(advocates[i], Lower(searchTerm)))
  {
    Filter(LegacyMatchesFn(Lower(searchTerm)), advocates)
  }

  /** The keep condition field by field: the lower-cased term occurs in the
      lower-cased first name, last name, city, degree, one specialty, or the
      decimal years of experience. */
  lemma LegacyMatchesSpec(a: Advocate, searchTerm: string)
    ensures LegacyMatches(a, Lower(searchTerm)) <==>
      var t := Lower(searchTerm);
      || (exists i :: OccursAt(Lower(a.firstName), t, i))
      || (exists i :: OccursAt(Lower(a.lastName), t, i))
      || (exists i :: OccursAt(Lower(a.city), t, i))
      || (exists i :: OccursAt(Lower(a.degree), t, i))
      || (exists j, i :: 0 <= j < |a.specialties| && OccursAt(Lower(a.specialties[j]), t, i))
      || (exists i :: OccursAt(DecimalString(a.yearsOfExperience), t, i))
  {
    var t := Lower(searchTerm);
    LowerOfLowerCase(DecimalString(a.yearsOfExperience));
    assert LegacyMatches(a, t) <==>
      || KeyMatches(a, FirstName, t) || KeyMatches(a, LastName, t) || KeyMatches(a, City, t)
      || KeyMatches(a, Degree, t) || KeyMatches(a, Specialties, t) || KeyMatches(a, YearsOfExperience, t)
    by {
      assert SearchKeys[0] == FirstName && SearchKeys[1] == LastName && SearchKeys[2] == City;
      assert SearchKeys[3] == Degree && SearchKeys[4] == Specialties && SearchKeys[5] == YearsOfExperience;
    }
    if KeyMatches(a, Specialties, t) {
      var j :| 0 <= j < |a.specialties| && Includes(Lower(a.specialties[j]), t);
      var i :| OccursAt(Lower(a.specialties[j]), t, i);
    }
    if exists j, i :: 0 <= j < |a.specialties| && OccursAt(Lower(a.specialties[j]), t, i) {
      var j, i :| 0 <= j < |a.specialties| && OccursAt(Lower(a.specialties[j]), t, i);
      assert Includes(Lower(a.specialties[j]), t);
    }
  }

  /** The kept records form an order-preserving subsequence of the input. */
  lemma FilterAdvocatesIsSubsequence(searchTerm: string, advocates: seq<Advocate>)
    ensures IsSubsequence(FilterAdvocates(searchTerm, advocates), advocates)
  {
    FilterIsSubsequence(LegacyMatchesFn(Lower(searchTerm)), advocates);
  }

  /** An empty term keeps every record. */
  lemma EmptyTermKeepsAll(advocates: seq<Advocate>)
    ensures FilterAdvocates("", advocates) == advocates
  {
    forall i | 0 <= i < |advocates|
      ensures LegacyMatches(advocates[i], Lower(""))
    {
      IncludesEmpty(Lower(advocates[i].firstName));
      assert KeyMatches(advocates[i], SearchKeys[0], Lower(""));
    }
    FilterAllPass(LegacyMatchesFn(Lower("")), advocates);
  }

  /** Filtering the filtered list again with the same term changes nothing. */
  lemma FilterAdvocatesIdempotent(searchTerm: string, advocates: seq<Advocate>)
    ensures FilterAdvocates(searchTerm, FilterAdvocates(searchTerm, advocates)) == FilterAdvocates(searchTerm, advocates)
  {
    FilterIdempotent(LegacyMatchesFn(Lower(searchTerm)), advocates);
  }

  /** The phone number is never consulted: two records that differ only in
      it are kept or dropped together. */
  lemma PhoneNumberIgnored(a: Advocate, phoneNumber: int, searchTerm: string)
    ensures LegacyMatches(a.(phoneNumber := phoneNumber), Lower(searchTerm)) <==> LegacyMatches(a, Lower(searchTerm))
  {
    var b := a.(phoneNumber := phoneNumber);
    forall i | 0 <= i < |SearchKeys|
      ensures KeyMatches(b, SearchKeys[i], Lower(searchTerm)) <==> KeyMatches(a, SearchKeys[i], Lower(searchTerm))
    {
    }
  }

  /** Where the two searches agree: a term found in the first name, last
      name, city or degree is also found by the refinement search (a name
      part is inside the full name). */
  lemma NameCityDegreeMatchesCarryOver(a: Advocate, searchTerm: string)
    requires var t := Lower(searchTerm);
      KeyMatches(a, FirstName, t) || KeyMatches(a, LastName, t) || KeyMatches(a, City, t) || KeyMatches(a, Degree, t)
    ensures Refine.MatchesSearch(a, searchTerm)
  {
    var t := Lower(searchTerm);
    var first, last := Lower(a.firstName), Lower(a.lastName);
    LowerConcat(a.firstName + " ", a.lastName);
    LowerConcat(a.firstName, " ");
    assert Lower(Refine.FullName(a)) == first + " " + last;
    var fields := Refine.SearchedFields(a);
    if KeyMatches(a, FirstName, t) {
      IncludesLeft(first, " ", t);
      IncludesLeft(first + " ", last, t);
    } else if KeyMatches(a, LastName, t) {
      IncludesRight(first + " ", last, t);
    } else if KeyMatches(a, City, t) {
      assert Includes(Lower(fields[0]), t);
    } else {
      assert Includes(Lower(fields[1]), t);
    }
  }

  /** Conversely, a refinement-search hit in the city or degree is a hit of
      this search too. */
  lemma CityDegreeMatchesCarryBack(a: Advocate, searchTerm: string)
    requires var t := Lower(searchTerm);
      Includes(Lower(a.city), t) || Includes(Lower(a.degree), t)
    ensures LegacyMatches(a, Lower(searchTerm))
  {
    var t := Lower(searchTerm);
    if Includes(Lower(a.city), t) {
      assert KeyMatches(a, SearchKeys[2], t);
    } else {
      assert KeyMatches(a, SearchKeys[3], t);
    }
  }

  /** What the page keeps: the loaded records and the search term. */
  datatype PageState = PageState(advocates: seq<Advocate>, searchTerm: string)

  /** The records the page lists. */
  function FilteredAdvocates(s: PageState): seq<Advocate>
  {
    FilterAdvocates(s.searchTerm, s.advocates)
  }

  /** `handleSearchChange`: the typed text becomes the term. */
  function HandleSearchChange(s: PageState, value: string): (r: PageState)
    ensures r.searchTerm == value && r.advocates == s.advocates
  {
    s.(searchTerm := value)
  }

  /** `resetSearch`: the term is cleared and the records stay. */
  function ResetSearch(s: PageState): (r: PageState)
    ensures r.searchTerm == "" && r.advocates == s.advocates
  {
    s.(searchTerm := "")
  }

  /** After the search is reset the page lists every loaded record, and a
      second reset changes nothing. */
  lemma ResetSearchShowsAll(s: PageState)
    ensures FilteredAdvocates(ResetSearch(s)) == s.advocates
    ensures ResetSearch(ResetSearch(s)) == ResetSearch(s)
  {
    EmptyTermKeepsAll(s.advocates);
  }
}
