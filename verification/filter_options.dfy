/**
 * The filter option deriver: one pass over the records that adds every
 * specialty, the city and the degree of each record to three
 * insertion-ordered sets, read back as lists.
 */
module FilterOptions {
  import opened OrderedSets
  import opened Types

  const NoOptions := DynamicFilterOptions([], [], [])

  /** The city of every record, in record order, repeats included. */
  function Cities(advocates: seq<Advocate>): (r: seq<string>)
    ensures |r| == |advocates|
    ensures forall i :: 0 <= i < |advocates| ==> r[i] == advocates[i].city
  {
    seq(|advocates|, i requires 0 <= i < |advocates| => advocates[i].city)
  }

  /** The degree of every record, in record order, repeats included. */
  function Degrees(advocates: seq<Advocate>): (r: seq<string>)
    ensures |r| == |advocates|
    ensures forall i :: 0 <= i < |advocates| ==> r[i] == advocates[i].degree
  {
    seq(|advocates|, i requires 0 <= i < |advocates| => advocates[i].degree)
  }

  /** The specialty lists of all records, flattened in record order. */
  function AllSpecialties(advocates: seq<Advocate>): seq<string>
    decreases |advocates|
  {
    if |advocates| == 0 then []
    else AllSpecialties(advocates[..|advocates| - 1]) + advocates[|advocates| - 1].specialties
  }

  /** A value is among the flattened specialties iff some record lists it. */
  lemma {:induction false} AllSpecialtiesMembership(advocates: seq<Advocate>, s: string)
    ensures s in AllSpecialties(advocates) <==>
      exists i :: 0 <= i < |advocates| && s in advocates[i].specialties
    decreases |advocates|
  {
    if |advocates| > 0 {
      var init := advocates[..|advocates| - 1];
      AllSpecialtiesMembership(init, s);
      if s in AllSpecialties(init) {
        var i :| 0 <= i < |init| && s in init[i].specialties;
        assert advocates[i] == init[i];
      }
      if exists i :: 0 <= i < |advocates| && s in advocates[i].specialties {
        var i :| 0 <= i < |advocates| && s in advocates[i].specialties;
        if i < |init| {
          assert init[i] == advocates[i];
        }
      }
    }
  }

  /** The body of the `forEach`: one record's specialties, city and degree
      are added to the three sets. */
  function AddRecord(options: DynamicFilterOptions, a: Advocate): DynamicFilterOptions
  {
    DynamicFilterOptions(
      AddAll(options.specialties, a.specialties),
      Add(options.cities, a.city),
      Add(options.degrees, a.degree))
  }

  /** `useDynamicFilterOptions`: the records are visited in order, starting
      from three empty sets. */
  function DynamicFilterOptionsOf(advocates: seq<Advocate>): (r: DynamicFilterOptions)
    ensures |advocates| == 0 ==> r == NoOptions
    ensures Distinct(r.specialties) && Distinct(r.cities) && Distinct(r.degrees)
    decreases |advocates|
  {
    if |advocates| == 0 then NoOptions
    else AddRecord(DynamicFilterOptionsOf(advocates[..|advocates| - 1]), advocates[|advocates| - 1])
  }

  /** One more record adds its values to the options derived so far. */
  lemma OptionsSnoc(advocates: seq<Advocate>)
    requires |advocates| > 0
    ensures DynamicFilterOptionsOf(advocates) ==
      AddRecord(DynamicFilterOptionsOf(advocates[..|advocates| - 1]), advocates[|advocates| - 1])
  {
  }

  /** One more record appends its city and its degree to the columns. */
  lemma ColumnsSnoc(advocates: seq<Advocate>)
    requires |advocates| > 0
    ensures Cities(advocates) == Cities(advocates[..|advocates| - 1]) + [advocates[|advocates| - 1].city]
    ensures Degrees(advocates) == Degrees(advocates[..|advocates| - 1]) + [advocates[|advocates| - 1].degree]
  {
  }

  /** The city options are the duplicate-free city column. */
  lemma {:induction false} CityOptionsAreDeduplicated(advocates: seq<Advocate>)
    ensures DynamicFilterOptionsOf(advocates).cities == Dedup(Cities(advocates))
    decreases |advocates|
  {
    if |advocates| > 0 {
      var init, last := advocates[..|advocates| - 1], advocates[|advocates| - 1];
      CityOptionsAreDeduplicated(init);
      OptionsSnoc(advocates);
      ColumnsSnoc(advocates);
      AddAllSnoc([], Cities(init), last.city);
    }
  }

  /** The degree options are the duplicate-free degree column. */
  lemma {:induction false} DegreeOptionsAreDeduplicated(advocates: seq<Advocate>)
    ensures DynamicFilterOptionsOf(advocates).degrees == Dedup(Degrees(advocates))
    decreases |advocates|
  {
    if |advocates| > 0 {
      var init, last := advocates[..|advocates| - 1], advocates[|advocates| - 1];
      DegreeOptionsAreDeduplicated(init);
      OptionsSnoc(advocates);
      ColumnsSnoc(advocates);
      AddAllSnoc([], Degrees(init), last.degree);
    }
  }

  /** The specialty options are the duplicate-free flattened specialty
      lists. */
  lemma {:induction false} SpecialtyOptionsAreDeduplicated(advocates: seq<Advocate>)
    ensures DynamicFilterOptionsOf(advocates).specialties == Dedup(AllSpecialties(advocates))
    decreases |advocates|
  {
    if |advocates| > 0 {
      var init, last := advocates[..|advocates| - 1], advocates[|advocates| - 1];
      SpecialtyOptionsAreDeduplicated(init);
      AddAllAppend([], AllSpecialties(init), last.specialties);
    }
  }

  /** Some record is in city `c`. */
  ghost predicate SomeCity(advocates: seq<Advocate>, c: string)
  {
    exists i :: 0 <= i < |advocates| && advocates[i].city == c
  }

  /** Some record has degree `d`. */
  ghost predicate SomeDegree(advocates: seq<Advocate>, d: string)
  {
    exists i :: 0 <= i < |advocates| && advocates[i].degree == d
  }

  /** Some record lists specialty `s`. */
  ghost predicate SomeSpecialty(advocates: seq<Advocate>, s: string)
  {
    exists i :: 0 <= i < |advocates| && s in advocates[i].specialties
  }

  /** The values of the city column are the cities of the records. */
  lemma CityColumnValues(advocates: seq<Advocate>)
    ensures forall c :: c in Elements(Cities(advocates)) <==> SomeCity(advocates, c)
  {
    var column := Cities(advocates);
    forall c | c in Elements(column) ensures SomeCity(advocates, c) {
      var i :| 0 <= i < |column| && column[i] == c;
    }
  }

  /** The values of the degree column are the degrees of the records. */
  lemma DegreeColumnValues(advocates: seq<Advocate>)
    ensures forall d :: d in Elements(Degrees(advocates)) <==> SomeDegree(advocates, d)
  {
    var column := Degrees(advocates);
    forall d | d in Elements(column) ensures SomeDegree(advocates, d) {
      var i :| 0 <= i < |column| && column[i] == d;
    }
  }

  /** The city options: no repeats, exactly the record cities, in the order
      in which they first occur. */
  lemma CityOptionsSpec(advocates: seq<Advocate>)
    ensures var r := DynamicFilterOptionsOf(advocates).cities;
      && Distinct(r)
      && (forall c :: c in r <==> SomeCity(advocates, c))
      && InFirstOccurrenceOrder(r, Cities(advocates))
  {
    var column := Cities(advocates);
    CityOptionsAreDeduplicated(advocates);
    DedupSpec(column);
    CityColumnValues(advocates);
    var r := Dedup(column);
    assert forall c :: c in r <==> c in Elements(r);
  }

  /** The degree options: no repeats, exactly the record degrees, in the
      order in which they first occur. */
  lemma DegreeOptionsSpec(advocates: seq<Advocate>)
    ensures var r := DynamicFilterOptionsOf(advocates).degrees;
      && Distinct(r)
      && (forall d :: d in r <==> SomeDegree(advocates, d))
      && InFirstOccurrenceOrder(r, Degrees(advocates))
  {
    var column := Degrees(advocates);
    DegreeOptionsAreDeduplicated(advocates);
    DedupSpec(column);
    DegreeColumnValues(advocates);
    var r := Dedup(column);
    assert forall d :: d in r <==> d in Elements(r);
  }

  /** The specialty options: no repeats, exactly the union of the records'
      specialty lists, in the order in which they first occur. */
  lemma SpecialtyOptionsSpec(advocates: seq<Advocate>)
    ensures var r := DynamicFilterOptionsOf(advocates).specialties;
      && Distinct(r)
      && (forall s :: s in r <==> SomeSpecialty(advocates, s))
      && InFirstOccurrenceOrder(r, AllSpecialties(advocates))
  {
    SpecialtyOptionsAreDeduplicated(advocates);
    var column := AllSpecialties(advocates);
    DedupSpec(column);
    forall s ensures s in Dedup(column) <==> SomeSpecialty(advocates, s) {
      assert s in Dedup(column) <==> s in Elements(column);
      AllSpecialtiesMembership(advocates, s);
    }
  }

  /** Two lists holding the same records have the same cities, degrees and
      specialties. */
  lemma SameRecordsSameValues(a: seq<Advocate>, b: seq<Advocate>)
    requires forall x :: x in a ==> x in b
    ensures forall c :: SomeCity(a, c) ==> SomeCity(b, c)
    ensures forall d :: SomeDegree(a, d) ==> SomeDegree(b, d)
    ensures forall s :: SomeSpecialty(a, s) ==> SomeSpecialty(b, s)
  {
    forall c | SomeCity(a, c) ensures SomeCity(b, c) {
      var i :| 0 <= i < |a| && a[i].city == c;
      assert a[i] in b;
      var j :| 0 <= j < |b| && b[j] == a[i];
    }
    forall d | SomeDegree(a, d) ensures SomeDegree(b, d) {
      var i :| 0 <= i < |a| && a[i].degree == d;
      assert a[i] in b;
      var j :| 0 <= j < |b| && b[j] == a[i];
    }
    forall s | SomeSpecialty(a, s) ensures SomeSpecialty(b, s) {
      var i :| 0 <= i < |a| && s in a[i].specialties;
      assert a[i] in b;
      var j :| 0 <= j < |b| && b[j] == a[i];
    }
  }

  /** Record lists with the same cities give the same city options. */
  lemma CitiesAgree(a: seq<Advocate>, b: seq<Advocate>)
    requires forall c :: SomeCity(a, c) <==> SomeCity(b, c)
    ensures Elements(DynamicFilterOptionsOf(a).cities) == Elements(DynamicFilterOptionsOf(b).cities)
  {
    CityOptionsSpec(a);
    CityOptionsSpec(b);
  }

  /** Record lists with the same degrees give the same degree options. */
  lemma DegreesAgree(a: seq<Advocate>, b: seq<Advocate>)
    requires forall d :: SomeDegree(a, d) <==> SomeDegree(b, d)
    ensures Elements(DynamicFilterOptionsOf(a).degrees) == Elements(DynamicFilterOptionsOf(b).degrees)
  {
    DegreeOptionsSpec(a);
    DegreeOptionsSpec(b);
  }

  /** Record lists with the same specialties give the same specialty options. */
  lemma SpecialtiesAgree(a: seq<Advocate>, b: seq<Advocate>)
    requires forall s :: SomeSpecialty(a, s) <==> SomeSpecialty(b, s)
    ensures Elements(DynamicFilterOptionsOf(a).specialties) == Elements(DynamicFilterOptionsOf(b).specialties)
  {
    SpecialtyOptionsSpec(a);
    SpecialtyOptionsSpec(b);
  }

  /** As sets, the options do not depend on the order of the records. */
  lemma OptionsOrderInsensitive(a: seq<Advocate>, b: seq<Advocate>)
    requires multiset(a) == multiset(b)
    ensures Elements(DynamicFilterOptionsOf(a).specialties) == Elements(DynamicFilterOptionsOf(b).specialties)
    ensures Elements(DynamicFilterOptionsOf(a).cities) == Elements(DynamicFilterOptionsOf(b).cities)
    ensures Elements(DynamicFilterOptionsOf(a).degrees) == Elements(DynamicFilterOptionsOf(b).degrees)
  {
    forall x ensures x in a <==> x in b {
      assert x in a <==> x in multiset(a);
      assert x in b <==> x in multiset(b);
    }
    SameRecordsSameValues(a, b);
    SameRecordsSameValues(b, a);
    CitiesAgree(a, b);
    DegreesAgree(a, b);
    SpecialtiesAgree(a, b);
  }
}
