# Advocate directory: search and refinement

A model of the filtering core of a small web directory of health-care
advocates. Each advocate record has a first and last name, a city, a degree, a
list of specialties, years of experience and a phone number. The model covers
these parts:

- **Refinement engine** (`useRefineAdvocates`). It keeps a search term and an
  active filter selection: specialty, city, degree and experience-range label.
  It shows the records, in their original order, that pass five predicates:
  - a case-insensitive text search over the full name, city, degree and phone
    number;
  - "has the selected specialty";
  - "is in the selected city";
  - "has the selected degree";
  - "years of experience fall in the selected half-open bucket".

  An empty category selection admits everything. A label outside the bucket
  table admits nothing. `resetSearchAndFilters` restores the term and the
  selection to their defaults in one step.
- **Filter option deriver** (`useDynamicFilterOptions`). It makes one pass
  over the records and collects every specialty, city and degree into
  insertion-ordered JavaScript `Set`s, which are then read back as arrays.
- **Earlier page search** (`filterAdvocates` in `page.tsx`). It keeps a record
  when the lower-cased term occurs in one of its fields taken separately:
  first name, last name, city, degree, any single specialty, or the years of
  experience. The page's `resetSearch` clears the term.
- **Filter selectors** (the four `onChange` handlers of `AdvocatesFilters`).
  Each replaces one field of the selection.

Modules, one file each:

| module | file | contents |
|---|---|---|
| `Options` and `Types` | `types.dfy` | the record and the two small structures |
| `Seqs` | `seqs.dfy` | `Array.prototype.filter` and the subsequence order |
| `OrderedSets` | `ordered_sets.dfy` | a JavaScript `Set` read back with `Array.from` |
| `Text` | `text.dfy` | lower-casing, `String.prototype.includes`, `String(number)` |
| `Experience` | `experience.dfy` | the bucket table and the experience predicate |
| `Refine` | `refine.dfy` | the refinement engine and its state |
| `FilterOptions` | `filter_options.dfy` | the option deriver |
| `LegacySearch` | `legacy_search.dfy` | the earlier page search and its state |
| `FilterControls` | `filter_controls.dfy` | the selectors |
| `Scenarios` | `scenarios.dfy` | two concrete records run through all of the above |

JavaScript numbers are modelled as mathematical integers. `Infinity` as a
bucket bound is an absent upper bound. `String(n)` is an optional minus sign
followed by the decimal digits.

Every record handed to the engine is assumed to have a non-negative number of
years of experience. The claim "an empty term and the default filters show
every record" holds only under that assumption: the "Any" bucket starts at
zero, so the code hides a record with negative years even under the defaults.
The model follows the code. `Refine.UnconstrainedRefineIsIdentity` states the
assumption, and `Refine.NegativeYearsHiddenByDefault` shows the other case.

## Model

| member | source | states |
|---|---|---|
| Experience.FindRange | src/app/hooks/useRefineAdvocates.ts:50-52 | returns nothing exactly when no range carries the label; otherwise returns the first range that carries it |
| Experience.MatchesExperienceSpec | src/app/hooks/useRefineAdvocates.ts:5-11 | the experience predicate is exactly the five half-open intervals of the table, `Infinity` meaning no upper bound |
| Experience.UnknownLabelMatchesNothing | src/app/hooks/useRefineAdvocates.ts:54-57 | a label that is not in the table admits no record, whatever its years (`selectedRange` is undefined) |
| Experience.UnboundedBuckets | src/app/hooks/useRefineAdvocates.ts:6-10 | "Any" admits exactly the non-negative years; "10+ years" admits exactly 10 and above |
| Experience.BucketBoundaries | src/app/hooks/useRefineAdvocates.ts:54-57 | 1, 5 and 10 years belong to the bucket that starts there, not to the one that ends there |
| Experience.BucketsPartition | src/app/hooks/useRefineAdvocates.ts:7-10 | the four proper buckets cover every non-negative number of years, never overlap, and contain no negative number |
| Experience.LabelsDistinct | src/app/hooks/useRefineAdvocates.ts:5-11 | no label occurs twice in the table |
| Text.Lower | src/app/hooks/useRefineAdvocates.ts:28 | lower-casing keeps the length, maps each upper-case letter to its lower-case form and leaves every other character alone |
| Text.LowerIdempotent | src/app/hooks/useRefineAdvocates.ts:31 | lower-casing twice is lower-casing once |
| Text.Includes | src/app/hooks/useRefineAdvocates.ts:34 | `includes` holds exactly when the term occurs at some position of the text |
| Text.IncludesLeft | src/app/hooks/useRefineAdvocates.ts:29-31 | a term found in the first name is found in the joined full name |
| Text.IncludesRight | src/app/hooks/useRefineAdvocates.ts:29-31 | a term found in the last name is found in the joined full name |
| Text.IncludedCharsOccur | src/app/hooks/useRefineAdvocates.ts:34 | every character of a term that is included occurs in the text |
| Text.DecimalString | src/app/hooks/useRefineAdvocates.ts:37 | `String(n)` is non-empty, has no upper-case letters, and starts with a minus sign exactly when `n` is negative |
| Text.ParseNatToString | src/app/hooks/useRefineAdvocates.ts:37 | reading the decimal digits back gives the number |
| Text.DecimalStringInjective | src/app/hooks/useRefineAdvocates.ts:35-37 | different numbers give different decimal strings, so searching the phone number searches that number's own digits |
| Seqs.Filter | src/app/hooks/useRefineAdvocates.ts:27 | the result is no longer than the input; it keeps exactly the input elements the predicate accepts |
| Seqs.FilterCounts | src/app/hooks/useRefineAdvocates.ts:27 | each accepted element keeps every copy; each rejected one loses all copies |
| Seqs.FilterIsSubsequence | src/app/hooks/useRefineAdvocates.ts:27 | the result is an order-preserving subsequence of the input |
| Seqs.FilterMonotone | src/app/hooks/useRefineAdvocates.ts:27 | a stronger predicate keeps a subsequence of what a weaker one keeps |
| Refine.RefinedAdvocates | src/app/hooks/useRefineAdvocates.ts:26-67 | the refined list is no longer than the records; it holds exactly the records that pass all five predicates |
| Refine.MatchesSearchSpec | src/app/hooks/useRefineAdvocates.ts:28-38 | the search accepts a record exactly when the lower-cased term occurs in the lower-cased "first last" name, city or degree, or in the decimal phone number |
| Refine.EmptyTermMatches | src/app/hooks/useRefineAdvocates.ts:33-34 | the empty term matches every record |
| Refine.RefinedMembership | src/app/hooks/useRefineAdvocates.ts:40-65 | a record is shown exactly when it is among the records, matches the search, has the selected specialty (or none is selected), city and degree, and its years lie in the bucket of the selected label |
| Refine.RefinedIsSubsequence | src/app/hooks/useRefineAdvocates.ts:27 | the refined list adds no record and reorders none |
| Refine.RefinedCounts | src/app/hooks/useRefineAdvocates.ts:27-66 | duplicate records are all kept or all dropped |
| Refine.RefineIdempotent | src/app/hooks/useRefineAdvocates.ts:26-67 | refining the refined list again changes nothing |
| Refine.RefineAppend | src/app/hooks/useRefineAdvocates.ts:27-66 | refining a concatenation is concatenating the refinements, since the decision is per record |
| Refine.UnconstrainedRefineIsIdentity | src/app/hooks/useRefineAdvocates.ts:13-18 | an empty term and the default filters show every record (all years non-negative) in the original order |
| Refine.NegativeYearsHiddenByDefault | src/app/hooks/useRefineAdvocates.ts:6 | a record with negative years is hidden even under the default filters |
| Refine.UnknownRangeShowsNothing | src/app/hooks/useRefineAdvocates.ts:54-57 | an experience label outside the table empties the list |
| Refine.StricterFiltersNarrow | src/app/hooks/useRefineAdvocates.ts:40-48 | adding category constraints shows a subsequence of what was shown before |
| Refine.ResetSearchAndFilters | src/app/hooks/useRefineAdvocates.ts:69-72 | the reset sets the term to empty and the selection to the default, both in one step |
| Refine.SetSearchTerm | src/app/hooks/useRefineAdvocates.ts:21 | setting the term leaves the filters unchanged |
| Refine.ResetIdempotent | src/app/hooks/useRefineAdvocates.ts:69-72 | the reset ignores the state it starts from, so a second reset changes nothing |
| Refine.ResetShowsEverything | src/app/hooks/useRefineAdvocates.ts:69-72 | after a reset every record (all years non-negative) is shown |
| OrderedSets.Add | src/app/hooks/useDynamicFilterOptions.ts:14 | `Set.add` keeps the set duplicate-free, adds the value to its contents and keeps the earlier values in place |
| OrderedSets.AddAll | src/app/hooks/useDynamicFilterOptions.ts:13 | adding a batch keeps the set duplicate-free, unions in the batch's values and keeps the earlier values in place |
| OrderedSets.AddAllAppend | src/app/hooks/useDynamicFilterOptions.ts:12-13 | adding two batches in turn is adding their concatenation |
| OrderedSets.DedupSpec | src/app/hooks/useDynamicFilterOptions.ts:18-22 | `Array.from(new Set(s))` has no repeats, has the values of `s`, and lists them in first-occurrence order |
| OrderedSets.DedupUnique | src/app/hooks/useDynamicFilterOptions.ts:18-22 | those three properties determine the result completely |
| OrderedSets.DedupOrderInsensitive | src/app/hooks/useDynamicFilterOptions.ts:8-16 | as a set, the result does not depend on the order of the input |
| FilterOptions.AllSpecialtiesMembership | src/app/hooks/useDynamicFilterOptions.ts:13 | a value is among the flattened specialties exactly when some record lists it |
| FilterOptions.DynamicFilterOptionsOf | src/app/hooks/useDynamicFilterOptions.ts:7-23 | no records give three empty lists; each of the three lists is duplicate-free |
| FilterOptions.CityOptionsAreDeduplicated | src/app/hooks/useDynamicFilterOptions.ts:14 | the city options are the deduplicated city column |
| FilterOptions.DegreeOptionsAreDeduplicated | src/app/hooks/useDynamicFilterOptions.ts:15 | the degree options are the deduplicated degree column |
| FilterOptions.SpecialtyOptionsAreDeduplicated | src/app/hooks/useDynamicFilterOptions.ts:13 | the specialty options are the deduplicated flattened specialty lists |
| FilterOptions.CityOptionsSpec | src/app/hooks/useDynamicFilterOptions.ts:9-20 | the city options have no repeats, are exactly the cities of the records, and come in first-occurrence order |
| FilterOptions.DegreeOptionsSpec | src/app/hooks/useDynamicFilterOptions.ts:10-21 | the degree options have no repeats, are exactly the degrees of the records, and come in first-occurrence order |
| FilterOptions.SpecialtyOptionsSpec | src/app/hooks/useDynamicFilterOptions.ts:8-19 | the specialty options have no repeats, are exactly the union of the records' specialty lists, and come in first-occurrence order |
| FilterOptions.OptionsOrderInsensitive | src/app/hooks/useDynamicFilterOptions.ts:7-23 | as sets, the three option lists do not depend on the order of the records |
| LegacySearch.FilterAdvocates | src/app/page.tsx:24-44 | the kept list is no longer than the records; it holds exactly the records for which some searched key matches the lower-cased term |
| LegacySearch.LegacyMatchesSpec | src/app/page.tsx:28-42 | a record is kept exactly when the lower-cased term occurs in the lower-cased first name, last name, city, degree or one specialty, or in the decimal years of experience |
| LegacySearch.FilterAdvocatesIsSubsequence | src/app/page.tsx:29 | the kept list is an order-preserving subsequence of the records |
| LegacySearch.EmptyTermKeepsAll | src/app/page.tsx:29-43 | the empty term keeps every record |
| LegacySearch.FilterAdvocatesIdempotent | src/app/page.tsx:24-44 | filtering again with the same term changes nothing |
| LegacySearch.PhoneNumberIgnored | src/app/page.tsx:30-37 | the phone number is never searched |
| LegacySearch.NameCityDegreeMatchesCarryOver | src/app/page.tsx:30-35 | a term the page search finds in a name, the city or the degree is also found by the refinement search |
| LegacySearch.CityDegreeMatchesCarryBack | src/app/page.tsx:32-33 | a term the refinement search finds in the city or degree is also found by the page search |
| LegacySearch.HandleSearchChange | src/app/page.tsx:66-69 | the typed text becomes the term and the loaded records stay |
| LegacySearch.ResetSearch | src/app/page.tsx:71-74 | the reset clears the term and keeps the loaded records |
| LegacySearch.ResetSearchShowsAll | src/app/page.tsx:71-79 | after the reset the page lists every loaded record, and a second reset changes nothing |
| FilterControls.OnSpecialtyChange | src/app/components/AdvocatesFilters.tsx:26-28 | the specialty becomes the chosen value; city, degree and range are unchanged |
| FilterControls.OnCityChange | src/app/components/AdvocatesFilters.tsx:36-38 | the city becomes the chosen value; specialty, degree and range are unchanged |
| FilterControls.OnDegreeChange | src/app/components/AdvocatesFilters.tsx:46-48 | the degree becomes the chosen value; specialty, city and range are unchanged |
| FilterControls.OnExperienceRangeChange | src/app/components/AdvocatesFilters.tsx:56-58 | the range label becomes the chosen value; the three categories are unchanged |
| FilterControls.ChoosingAnyWidens | src/app/components/CategoryFilter.tsx:26 | choosing "Any" in a category selector hides no record that was shown |
| FilterControls.SelectingNarrows | src/app/components/AdvocatesFilters.tsx:26-48 | selecting a value in an open category selector only hides records |
| FilterControls.SelectorsPreserveValidity | src/app/components/RangeFilter.tsx:26-30 | the default selection names a table label, category changes keep that true, and so does a range change to a table label |
| FilterControls.ValidSelectionUsesBucket | src/app/hooks/useRefineAdvocates.ts:50-57 | under a table label the experience predicate is that bucket's interval test |
| FilterControls.OfferedOptionsAreInhabited | src/app/components/AdvocatesFilters.tsx:21-49 | selecting a city, degree or specialty that the options offer (empty term, otherwise default filters) shows at least one record |
| FilterControls.ShownWithEmptyTerm | src/app/hooks/useRefineAdvocates.ts:40-57 | a record passing the category selections, under "Any" and an empty term, is shown |
| Scenarios.SearchByFirstName | src/app/hooks/useRefineAdvocates.ts:29-34 | searching "jane" among John Doe and Jane Smith finds Jane Smith only |
| Scenarios.SelectBySpecialty | src/app/hooks/useRefineAdvocates.ts:40-42 | selecting "Cardiology" finds John Doe only |
| Scenarios.SelectByExperience | src/app/hooks/useRefineAdvocates.ts:10 | selecting "10+ years" finds Jane Smith (12 years) only |
| Scenarios.PhoneNumberOnlyInRefineSearch | src/app/hooks/useRefineAdvocates.ts:35 | "555" finds John Doe through his phone number in the refinement search but not in the page search |
| Scenarios.SpecialtyOnlyInLegacySearch | src/app/page.tsx:34-41 | "cardio" finds John Doe through his specialty in the page search but not in the refinement search |
| Scenarios.FullNameOnlyInRefineSearch | src/app/hooks/useRefineAdvocates.ts:29-31 | "John Doe" with its space is found by the refinement search but by none of the page search's single fields |

## Left out

- Fetching the records (`useAdvocates`, the API route, the database module, and the page's fetch effect) is not modelled. The records are a parameter of every operation.
- Rendering (the JSX of the table, search bar and selectors) is not modelled. The selectors appear only as their `onChange` effect on the selection.
- React memoization (`useMemo`, `useCallback`) and state scheduling are not modelled. Each derived value is a pure function of its inputs, which is what memoization preserves.
- `console.log` and `console.error` calls are left out, since they have no effect on the state.
- Text.Lower: lower-cases ASCII letters only, whereas `toLowerCase` also maps non-ASCII letters (and a few characters to several).
- Text.DecimalString: covers whole numbers only. `String` on fractional numbers, `NaN`, and numbers of 1e21 and above (which JavaScript writes in exponent form) is not modelled, and numbers are unbounded integers rather than IEEE doubles.
- Experience.MatchesExperienceSpec: years of experience are integers. Fractional years, which the source type would allow, are not modelled.
- The record's `id` is kept in the data type but no modelled operation reads it.
