/**
 * The refinement engine: a stable filter over the advocate records that
 * keeps a record when the text search, the specialty, city and degree
 * selections and the experience bucket all accept it; and the refinement
 * state (search term plus active filters) with its atomic reset.
 */
module Refine {
  import opened Seqs
  import opened Text
  import opened Types
  import opened Experience

  /** `DEFAULT_ACTIVE_FILTERS`: no category constraint, any experience. */
  const DefaultActiveFilters := ActiveFilterValues("", "", "", "Any")

  /** The first and last name joined by one space, as typed in a search. */
  function FullName(a: Advocate): string
  {
    a.firstName + " " + a.lastName
  }

  /** The fields searched one by one after the full name, each in its
      `String(...)` form: city, degree and phone number. */
  function SearchedFields(a: Advocate): seq<string>
  {
    [a.city, a.degree, DecimalString(a.phoneNumber)]
  }

  /** Case-insensitive text search over full name, city, degree and phone
      number. */
  predicate MatchesSearch(a: Advocate, searchTerm: string)
  {
    var term := Lower(searchTerm);
    || Includes(Lower(FullName(a)), term)
    || exists i :: 0 <= i < |SearchedFields(a)| && Includes(Lower(SearchedFields(a)[i]), term)
  }

  /** An empty selection admits everything; otherwise the record must list
      the selected specialty. */
  predicate MatchesSpecialty(a: Advocate, specialty: string)
  {
    specialty == "" || specialty in a.specialties
  }

  /** An empty selection admits everything; otherwise exact equality. */
  predicate MatchesCategory(value: string, selected: string)
  {
    selected == "" || value == selected
  }

  /** The five predicates of the refinement, all required. */
  predicate Matches(a: Advocate, searchTerm: string, filters: ActiveFilterValues)
  {
    && MatchesSearch(a, searchTerm)
    && MatchesSpecialty(a, filters.specialty)
    && MatchesCategory(a.city, filters.city)
    && MatchesCategory(a.degree, filters.degree)
    && MatchesExperience(filters.experienceRange, a.yearsOfExperience)
  }

  /** The refinement predicate as a value, so that every statement about the
      refined list speaks of the same filter. */
  function MatchesFn(searchTerm: string, filters: ActiveFilterValues): Advocate -> bool
  {
    a => Matches(a, searchTerm, filters)
  }

  /** `refinedAdvocates`: the records accepted by all five predicates, in
      their original order. */
  function RefinedAdvocates(advocates: seq<Advocate>, searchTerm: string, filters: ActiveFilterValues): (r: seq<Advocate>)
    ensures |r| <= |advocates|
    ensures forall i :: 0 <= i < |r| ==> r[i] in advocates && Matches(r[i], searchTerm, filters)
    ensures forall i :: 0 <= i < |advocates| ==> (advocates[i] in r <==> Matches(advocates[i], searchTerm, filters))
  {
    Filter(MatchesFn(searchTerm, filters), advocates)
  }

  /** The search predicate in plain terms: the lower-cased term occurs in the
      lower-cased full name, city, degree or decimal phone number. */
  lemma MatchesSearchSpec(a: Advocate, searchTerm: string)
    ensures MatchesSearch(a, searchTerm) <==>
      var term := Lower(searchTerm);
      || (exists i :: OccursAt(Lower(a.firstName) + " " + Lower(a.lastName), term, i))
      || (exists i :: OccursAt(Lower(a.city), term, i))
      || (exists i :: OccursAt(Lower(a.degree), term, i))
      || (exists i :: OccursAt(DecimalString(a.phoneNumber), term, i))
  {
    LowerConcat(a.firstName + " ", a.lastName);
    LowerConcat(a.firstName, " ");
    assert Lower(FullName(a)) == Lower(a.firstName) + " " + Lower(a.lastName);
    LowerOfLowerCase(DecimalString(a.phoneNumber));
    var fields := SearchedFields(a);
    var term := Lower(searchTerm);
    assert Lower(fields[2]) == DecimalString(a.phoneNumber);
    assert (exists i :: 0 <= i < |fields| && Includes(Lower(fields[i]), term)) <==>
      Includes(Lower(fields[0]), term) || Includes(Lower(fields[1]), term) || Includes(Lower(fields[2]), term);
  }

  /** An empty search term matches every record. */
  lemma EmptyTermMatches(a: Advocate)
    ensures MatchesSearch(a, "")
  {
    IncludesEmpty(Lower(FullName(a)));
  }

  /** A record is in the refined list iff it is in the input and passes each
      of the five predicates, stated field by field. */
  lemma RefinedMembership(advocates: seq<Advocate>, searchTerm: string, filters: ActiveFilterValues, a: Advocate)
    ensures a in RefinedAdvocates(advocates, searchTerm, filters) <==>
      && a in advocates
      && MatchesSearch(a, searchTerm)
      && (filters.specialty == "" || filters.specialty in a.specialties)
      && (filters.city == "" || a.city == filters.city)
      && (filters.degree == "" || a.degree == filters.degree)
      && (exists k :: 0 <= k < |ExperienceRanges| && ExperienceRanges[k].name == filters.experienceRange
                      && ExperienceRanges[k].min <= a.yearsOfExperience
                      && (ExperienceRanges[k].max.None? || a.yearsOfExperience < ExperienceRanges[k].max.value))
  {
    var found := FindRange(ExperienceRanges, filters.experienceRange);
    if found.Some? {
      LabelsDistinct();
    }
  }

  /** The refined list is an order-preserving subsequence of the records: no
      record is added and none is moved. */
  lemma RefinedIsSubsequence(advocates: seq<Advocate>, searchTerm: string, filters: ActiveFilterValues)
    ensures IsSubsequence(RefinedAdvocates(advocates, searchTerm, filters), advocates)
  {
    FilterIsSubsequence(MatchesFn(searchTerm, filters), advocates);
  }

  /** Each accepted record keeps every one of its copies; each rejected one
      loses all of them. */
  lemma RefinedCounts(advocates: seq<Advocate>, searchTerm: string, filters: ActiveFilterValues, a: Advocate)
    ensures multiset(RefinedAdvocates(advocates, searchTerm, filters))[a] ==
      if Matches(a, searchTerm, filters) then multiset(advocates)[a] else 0
  {
    FilterCounts(MatchesFn(searchTerm, filters), advocates, a);
  }

  /** Refining an already refined list with the same term and filters
      changes nothing. */
  lemma RefineIdempotent(advocates: seq<Advocate>, searchTerm: string, filters: ActiveFilterValues)
    ensures var once := RefinedAdvocates(advocates, searchTerm, filters);
            RefinedAdvocates(once, searchTerm, filters) == once
  {
    FilterIdempotent(MatchesFn(searchTerm, filters), advocates);
  }

  /** Refining the concatenation of two lists refines each one. */
  lemma RefineAppend(a: seq<Advocate>, b: seq<Advocate>, searchTerm: string, filters: ActiveFilterValues)
    ensures RefinedAdvocates(a + b, searchTerm, filters) ==
      RefinedAdvocates(a, searchTerm, filters) + RefinedAdvocates(b, searchTerm, filters)
  {
    FilterAppend(MatchesFn(searchTerm, filters), a, b);
  }

  /** With an empty term and the default filters every record with a
      non-negative number of years is shown, in order. */
  lemma UnconstrainedRefineIsIdentity(advocates: seq<Advocate>)
    requires forall i :: 0 <= i < |advocates| ==> advocates[i].yearsOfExperience >= 0
    ensures RefinedAdvocates(advocates, "", DefaultActiveFilters) == advocates
  {
    forall i | 0 <= i < |advocates|
      ensures Matches(advocates[i], "", DefaultActiveFilters)
    {
      EmptyTermMatches(advocates[i]);
    }
    FilterAllPass(MatchesFn("", DefaultActiveFilters), advocates);
  }

  /** A record with a negative number of years is hidden even by the default
      filters, because "Any" starts at zero. */
  lemma NegativeYearsHiddenByDefault(advocates: seq<Advocate>, a: Advocate)
    requires a.yearsOfExperience < 0
    ensures a !in RefinedAdvocates(advocates, "", DefaultActiveFilters)
  {
    UnboundedBuckets(a.yearsOfExperience);
  }

  /** An experience label outside the table empties the list, whatever the
      other selections (fail closed). */
  lemma UnknownRangeShowsNothing(advocates: seq<Advocate>, searchTerm: string, filters: ActiveFilterValues)
    requires !IsKnownLabel(filters.experienceRange)
    ensures RefinedAdvocates(advocates, searchTerm, filters) == []
  {
    FilterNonePass(MatchesFn(searchTerm, filters), advocates);
  }

  /** `g` constrains no more than `f`: each category of `g` is either open
      or the same as in `f`, and both name the same experience range. */
  ghost predicate NoStricter(g: ActiveFilterValues, f: ActiveFilterValues)
  {
    && (g.specialty == "" || g.specialty == f.specialty)
    && (g.city == "" || g.city == f.city)
    && (g.degree == "" || g.degree == f.degree)
    && g.experienceRange == f.experienceRange
  }

  /** Adding category constraints only removes records: the list under the
      stricter filters is a subsequence of the list under the looser ones. */
  lemma StricterFiltersNarrow(advocates: seq<Advocate>, searchTerm: string, f: ActiveFilterValues, g: ActiveFilterValues)
    requires NoStricter(g, f)
    ensures IsSubsequence(RefinedAdvocates(advocates, searchTerm, f), RefinedAdvocates(advocates, searchTerm, g))
  {
    FilterMonotone(MatchesFn(searchTerm, f), MatchesFn(searchTerm, g), advocates);
  }

  /** The refinement state the page keeps: the search term and the active
      filters. */
  datatype RefinementState = RefinementState(searchTerm: string, activeFilters: ActiveFilterValues)

  /** The records the page shows in a given state. */
  function View(advocates: seq<Advocate>, s: RefinementState): seq<Advocate>
  {
    RefinedAdvocates(advocates, s.searchTerm, s.activeFilters)
  }

  /** `resetSearchAndFilters`: both halves of the state return to their
      defaults in one step. */
  function ResetSearchAndFilters(s: RefinementState): (r: RefinementState)
    ensures r.searchTerm == "" && r.activeFilters == DefaultActiveFilters
  {
    RefinementState("", DefaultActiveFilters)
  }

  /** `setSearchTerm`: the typed text replaces the term, the filters stay. */
  function SetSearchTerm(s: RefinementState, searchTerm: string): (r: RefinementState)
    ensures r.searchTerm == searchTerm && r.activeFilters == s.activeFilters
  {
    s.(searchTerm := searchTerm)
  }

  /** Reset forgets the state it starts from, so applying it twice is
      applying it once. */
  lemma ResetIdempotent(s: RefinementState, t: RefinementState)
    ensures ResetSearchAndFilters(s) == ResetSearchAndFilters(t)
    ensures ResetSearchAndFilters(ResetSearchAndFilters(s)) == ResetSearchAndFilters(s)
  {
  }

  /** After a reset the page shows every record (all years non-negative). */
  lemma ResetShowsEverything(advocates: seq<Advocate>, s: RefinementState)
    requires forall i :: 0 <= i < |advocates| ==> advocates[i].yearsOfExperience >= 0
    ensures View(advocates, ResetSearchAndFilters(s)) == advocates
  {
    UnconstrainedRefineIsIdentity(advocates);
  }
}
