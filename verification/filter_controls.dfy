/**
 * The filter selectors: each `onChange` handler replaces one field of the
 * active filter selection. Selecting a value narrows the refined list,
 * choosing "Any" (the empty value) widens it, and a value offered by the
 * derived options never empties it.
 */
module FilterControls {
  import opened Seqs
  import opened Types
  import opened Experience
  import opened Refine
  import FilterOptions

  /** The specialty selector's `onChange`. */
  function OnSpecialtyChange(f: ActiveFilterValues, value: string): (r: ActiveFilterValues)
    ensures r.specialty == value
    ensures r.city == f.city && r.degree == f.degree && r.experienceRange == f.experienceRange
  {
    f.(specialty := value)
  }

  /** The city selector's `onChange`. */
  function OnCityChange(f: ActiveFilterValues, value: string): (r: ActiveFilterValues)
    ensures r.city == value
    ensures r.specialty == f.specialty && r.degree == f.degree && r.experienceRange == f.experienceRange
  {
    f.(city := value)
  }

  /** The degree selector's `onChange`. */
  function OnDegreeChange(f: ActiveFilterValues, value: string): (r: ActiveFilterValues)
    ensures r.degree == value
    ensures r.specialty == f.specialty && r.city == f.city && r.experienceRange == f.experienceRange
  {
    f.(degree := value)
  }

  /** The experience-range selector's `onChange`. */
  function OnExperienceRangeChange(f: ActiveFilterValues, value: string): (r: ActiveFilterValues)
    ensures r.experienceRange == value
    ensures r.specialty == f.specialty && r.city == f.city && r.degree == f.degree
  {
    f.(experienceRange := value)
  }

  /** Choosing "Any" in a category selector never hides a record that was
      shown: the old list is a subsequence of the new one. */
  lemma ChoosingAnyWidens(advocates: seq<Advocate>, searchTerm: string, f: ActiveFilterValues)
    ensures IsSubsequence(RefinedAdvocates(advocates, searchTerm, f),
                          RefinedAdvocates(advocates, searchTerm, OnSpecialtyChange(f, "")))
    ensures IsSubsequence(RefinedAdvocates(advocates, searchTerm, f),
                          RefinedAdvocates(advocates, searchTerm, OnCityChange(f, "")))
    ensures IsSubsequence(RefinedAdvocates(advocates, searchTerm, f),
                          RefinedAdvocates(advocates, searchTerm, OnDegreeChange(f, "")))
  {
    StricterFiltersNarrow(advocates, searchTerm, f, OnSpecialtyChange(f, ""));
    StricterFiltersNarrow(advocates, searchTerm, f, OnCityChange(f, ""));
    StricterFiltersNarrow(advocates, searchTerm, f, OnDegreeChange(f, ""));
  }

  /** Selecting a value in an open category selector only hides records:
      the new list is a subsequence of the old one. */
  lemma SelectingNarrows(advocates: seq<Advocate>, searchTerm: string, f: ActiveFilterValues, value: string)
    ensures f.specialty == "" ==> IsSubsequence(RefinedAdvocates(advocates, searchTerm, OnSpecialtyChange(f, value)),
                                                RefinedAdvocates(advocates, searchTerm, f))
    ensures f.city == "" ==> IsSubsequence(RefinedAdvocates(advocates, searchTerm, OnCityChange(f, value)),
                                           RefinedAdvocates(advocates, searchTerm, f))
    ensures f.degree == "" ==> IsSubsequence(RefinedAdvocates(advocates, searchTerm, OnDegreeChange(f, value)),
                                             RefinedAdvocates(advocates, searchTerm, f))
  {
    if f.specialty == "" {
      StricterFiltersNarrow(advocates, searchTerm, OnSpecialtyChange(f, value), f);
    }
    if f.city == "" {
      StricterFiltersNarrow(advocates, searchTerm, OnCityChange(f, value), f);
    }
    if f.degree == "" {
      StricterFiltersNarrow(advocates, searchTerm, OnDegreeChange(f, value), f);
    }
  }

  /** The selection invariant the selectors keep: the experience range is a
      label of the table (the range selector lists only those). */
  ghost predicate ValidSelection(f: ActiveFilterValues)
  {
    IsKnownLabel(f.experienceRange)
  }

  /** The default selection is valid, every category change keeps validity,
      and a range change keeps it when the value comes from the table. */
  lemma SelectorsPreserveValidity(f: ActiveFilterValues, value: string)
    ensures ValidSelection(DefaultActiveFilters)
    ensures ValidSelection(f) ==> ValidSelection(OnSpecialtyChange(f, value))
    ensures ValidSelection(f) ==> ValidSelection(OnCityChange(f, value))
    ensures ValidSelection(f) ==> ValidSelection(OnDegreeChange(f, value))
    ensures IsKnownLabel(value) ==> ValidSelection(OnExperienceRangeChange(f, value))
  {
    assert ExperienceRanges[0].name == "Any";
  }

  /** Under a valid selection the experience predicate is the bucket test of
      the selected range and never the fail-closed case. */
  lemma ValidSelectionUsesBucket(f: ActiveFilterValues, years: int)
    requires ValidSelection(f)
    ensures exists k :: 0 <= k < |ExperienceRanges| && ExperienceRanges[k].name == f.experienceRange
                        && (MatchesExperience(f.experienceRange, years) <==> InRange(ExperienceRanges[k], years))
  {
    var found := FindRange(ExperienceRanges, f.experienceRange);
    var k :| 0 <= k < |ExperienceRanges| && ExperienceRanges[k] == found.value && found.value.name == f.experienceRange
             && forall j :: 0 <= j < k ==> ExperienceRanges[j].name != f.experienceRange;
  }

  /** A city taken from the derived options, selected with an empty search
      and otherwise default filters, shows at least one record (all years
      non-negative); likewise for a degree and a specialty. */
  lemma OfferedOptionsAreInhabited(advocates: seq<Advocate>, value: string)
    requires forall i :: 0 <= i < |advocates| ==> advocates[i].yearsOfExperience >= 0
    ensures value in FilterOptions.DynamicFilterOptionsOf(advocates).cities ==>
              RefinedAdvocates(advocates, "", OnCityChange(DefaultActiveFilters, value)) != []
    ensures value in FilterOptions.DynamicFilterOptionsOf(advocates).degrees ==>
              RefinedAdvocates(advocates, "", OnDegreeChange(DefaultActiveFilters, value)) != []
    ensures value in FilterOptions.DynamicFilterOptionsOf(advocates).specialties ==>
              RefinedAdvocates(advocates, "", OnSpecialtyChange(DefaultActiveFilters, value)) != []
  {
    var options := FilterOptions.DynamicFilterOptionsOf(advocates);
    if value in options.cities {
      FilterOptions.CityOptionsSpec(advocates);
      var i :| 0 <= i < |advocates| && advocates[i].city == value;
      ShownWithEmptyTerm(advocates, i, OnCityChange(DefaultActiveFilters, value));
    }
    if value in options.degrees {
      FilterOptions.DegreeOptionsSpec(advocates);
      var i :| 0 <= i < |advocates| && advocates[i].degree == value;
      ShownWithEmptyTerm(advocates, i, OnDegreeChange(DefaultActiveFilters, value));
    }
    if value in options.specialties {
      FilterOptions.SpecialtyOptionsSpec(advocates);
      var i :| 0 <= i < |advocates| && value in advocates[i].specialties;
      ShownWithEmptyTerm(advocates, i, OnSpecialtyChange(DefaultActiveFilters, value));
    }
  }

  /** A record that passes the category selections of `f`, under "Any"
      experience and an empty term, is shown. */
  lemma ShownWithEmptyTerm(advocates: seq<Advocate>, i: int, f: ActiveFilterValues)
    requires 0 <= i < |advocates| && advocates[i].yearsOfExperience >= 0
    requires f.experienceRange == "Any"
    requires MatchesSpecialty(advocates[i], f.specialty)
    requires MatchesCategory(advocates[i].city, f.city) && MatchesCategory(advocates[i].degree, f.degree)
    ensures advocates[i] in RefinedAdvocates(advocates, "", f)
  {
    EmptyTermMatches(advocates[i]);
    UnboundedBuckets(advocates[i].yearsOfExperience);
  }
}
