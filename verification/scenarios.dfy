/**
 * Two concrete records run through both searches and the filters, showing
 * where the refinement search and the earlier page search part ways.
 */
module Scenarios {
  import opened Text
  import opened Types
  import opened Experience
  import opened Refine
  import LegacySearch

  const John := Advocate(1, "John", "Doe", "Springfield", "MD", ["Cardiology"], 3, 5551234)
  const Jane := Advocate(2, "Jane", "Smith", "Shelbyville", "PhD", ["Psychology"], 12, 5555678)

  /** The lower-cased names of John Doe. */
  lemma JohnNames()
    ensures Lower("John") == "john" && Lower("Doe") == "doe"
  {
  }

  /** The lower-cased city and degree of John Doe. */
  lemma JohnPlace()
    ensures Lower("Springfield") == "springfield"
    ensures Lower("MD") == "md"
  {
    assert Lower("MD") == "md";
  }

  /** The lower-cased specialty of John Doe. */
  lemma JohnSpecialty()
    ensures Lower("Cardiology") == "cardiology"
  {
  }

  /** The decimal years and phone number of John Doe. */
  lemma JohnNumbers()
    ensures DecimalString(5551234) == "5551234" && DecimalString(3) == "3"
  {
    assert NatToString(55) == "55";
    assert NatToString(555) == "555";
    assert NatToString(5551) == "5551";
    assert NatToString(55512) == "55512";
    assert NatToString(555123) == "555123";
    assert NatToString(5551234) == "5551234";
  }

  /** A term with a character that none of John Doe's searched fields
      holds is not found by the refinement search. */
  lemma RefineMissesJohn(term: string, c: char)
    requires c in Lower(term)
    requires c !in "john doe" && c !in "springfield" && c !in "md" && c !in "5551234"
    ensures !MatchesSearch(John, term)
  {
    var t := Lower(term);
    JohnNames();
    JohnPlace();
    JohnNumbers();
    assert Lower(FullName(John)) == "john doe" by {
      LowerConcat("John" + " ", "Doe");
      LowerConcat("John", " ");
    }
    IncludedCharsOccur("john doe", t);
    IncludedCharsOccur("springfield", t);
    IncludedCharsOccur("md", t);
    IncludedCharsOccur("5551234", t);
    LowerOfLowerCase("5551234");
    var fields := SearchedFields(John);
    assert Lower(fields[0]) == "springfield" && Lower(fields[1]) == "md" && Lower(fields[2]) == "5551234";
  }

  /** A term with a character that none of John Doe's fields, taken one by
      one, holds is not found by the page search. */
  lemma LegacyMissesJohn(term: string, c: char)
    requires c in Lower(term)
    requires c !in "john" && c !in "doe" && c !in "springfield" && c !in "md"
    requires c !in "cardiology" && c !in "3"
    ensures !LegacySearch.LegacyMatches(John, Lower(term))
  {
    var t := Lower(term);
    JohnNames();
    JohnPlace();
    JohnSpecialty();
    JohnNumbers();
    IncludedCharsOccur("john", t);
    IncludedCharsOccur("doe", t);
    IncludedCharsOccur("springfield", t);
    IncludedCharsOccur("md", t);
    IncludedCharsOccur("cardiology", t);
    IncludedCharsOccur("3", t);
    LowerOfLowerCase("3");
    assert John.specialties == ["Cardiology"];
    forall i | 0 <= i < |LegacySearch.SearchKeys|
      ensures !LegacySearch.KeyMatches(John, LegacySearch.SearchKeys[i], t)
    {
    }
  }

  /** Refining the two records keeps exactly those the predicate accepts. */
  lemma RefinePair(term: string, filters: ActiveFilterValues)
    ensures RefinedAdvocates([John, Jane], term, filters) ==
      (if Matches(John, term, filters) then [John] else []) + (if Matches(Jane, term, filters) then [Jane] else [])
  {
    var p := MatchesFn(term, filters);
    assert [John, Jane][1..] == [Jane];
    assert Seqs.Filter(p, [Jane]) == if p(Jane) then [Jane] else [] by {
      assert [Jane][1..] == [];
    }
  }

  /** The lower-cased names of Jane Smith. */
  lemma JaneNames()
    ensures Lower("Jane") == "jane" && Lower("Smith") == "smith"
  {
  }

  /** Jane Smith is found by her first name. */
  lemma JaneFoundByFirstName()
    ensures MatchesSearch(Jane, "jane")
  {
    assert Lower(FullName(Jane)) == "jane smith" by {
      JaneNames();
      LowerConcat("Jane" + " ", "Smith");
      LowerConcat("Jane", " ");
    }
    assert Lower("jane") == "jane";
    assert OccursAt("jane smith", "jane", 0);
  }

  /** Searching "jane" finds Jane Smith only. */
  lemma SearchByFirstName()
    ensures RefinedAdvocates([John, Jane], "jane", DefaultActiveFilters) == [Jane]
  {
    assert Lower("jane") == "jane";
    RefineMissesJohn("jane", 'a');
    JaneFoundByFirstName();
    UnboundedBuckets(12);
    RefinePair("jane", DefaultActiveFilters);
  }

  /** Selecting the "Cardiology" specialty finds John Doe only. */
  lemma SelectBySpecialty()
    ensures RefinedAdvocates([John, Jane], "", ActiveFilterValues("Cardiology", "", "", "Any")) == [John]
  {
    EmptyTermMatches(John);
    UnboundedBuckets(3);
    assert !MatchesSpecialty(Jane, "Cardiology");
    RefinePair("", ActiveFilterValues("Cardiology", "", "", "Any"));
  }

  /** Selecting "10+ years" finds Jane Smith only. */
  lemma SelectByExperience()
    ensures RefinedAdvocates([John, Jane], "", ActiveFilterValues("", "", "", "10+ years")) == [Jane]
  {
    EmptyTermMatches(Jane);
    UnboundedBuckets(3);
    UnboundedBuckets(12);
    RefinePair("", ActiveFilterValues("", "", "", "10+ years"));
  }

  /** The refinement search finds a record by its phone number; the page
      search never does. */
  lemma PhoneNumberOnlyInRefineSearch()
    ensures MatchesSearch(John, "555")
    ensures !LegacySearch.LegacyMatches(John, Lower("555"))
  {
    assert Lower("555") == "555";
    LegacyMissesJohn("555", '5');
    JohnNumbers();
    assert Includes(Lower(SearchedFields(John)[2]), Lower("555")) by {
      LowerOfLowerCase("5551234");
      assert OccursAt("5551234", "555", 0);
    }
  }

  /** The page search finds a record by a specialty; the refinement search
      does not look at specialties. */
  lemma SpecialtyOnlyInLegacySearch()
    ensures LegacySearch.LegacyMatches(John, Lower("cardio"))
    ensures !MatchesSearch(John, "cardio")
  {
    assert Lower("cardio") == "cardio";
    RefineMissesJohn("cardio", 'c');
    JohnSpecialty();
    assert OccursAt("cardiology", "cardio", 0);
    assert LegacySearch.KeyMatches(John, LegacySearch.SearchKeys[4], "cardio") by {
      assert Includes(Lower(John.specialties[0]), "cardio");
    }
  }

  /** Only the refinement search matches a full name typed with its space. */
  lemma FullNameOnlyInRefineSearch()
    ensures MatchesSearch(John, "John Doe")
    ensures !LegacySearch.LegacyMatches(John, Lower("John Doe"))
  {
    assert Lower("John Doe") == "john doe";
    LegacyMissesJohn("John Doe", ' ');
    assert Lower(FullName(John)) == "john doe" by {
      JohnNames();
      LowerConcat("John" + " ", "Doe");
      LowerConcat("John", " ");
    }
    assert OccursAt("john doe", "john doe", 0);
  }
}
