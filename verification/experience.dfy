/**
 * The fixed table of years-of-experience buckets and the experience
 * predicate of the refinement engine. A bucket is half-open, `min <= years <
 * max`, and an absent upper bound stands for JavaScript's `Infinity`.
 */
module Experience {
  import opened Options

  /** A bucket; `name` is the label shown in the selector. */
  datatype ExperienceRange = ExperienceRange(name: string, min: int, max: Option<int>)

  /** `EXPERIENCE_RANGES`, in the order the selector lists them. */
  const ExperienceRanges: seq<ExperienceRange> := [
    ExperienceRange("Any", 0, None),
    ExperienceRange("Less than 1 year", 0, Some(1)),
    ExperienceRange("1 to 5 years", 1, Some(5)),
    ExperienceRange("5 to 10 years", 5, Some(10)),
    ExperienceRange("10+ years", 10, None)
  ]

  /** The labels a range selector built from the table can offer. */
  ghost predicate IsKnownLabel(name: string)
  {
    exists i :: 0 <= i < |ExperienceRanges| && ExperienceRanges[i].name == name
  }

  /** `ranges.find(range => range.name === name)`: the first range carrying
      the label, or nothing when no range does. */
  function FindRange(ranges: seq<ExperienceRange>, name: string): (r: Option<ExperienceRange>)
    ensures r.None? <==> forall i :: 0 <= i < |ranges| ==> ranges[i].name != name
    ensures r.Some? ==> exists i :: 0 <= i < |ranges| && ranges[i] == r.value && r.value.name == name
                          && forall j :: 0 <= j < i ==> ranges[j].name != name
  {
    if |ranges| == 0 then None
    else if ranges[0].name == name then Some(ranges[0])
    else
      var rest := FindRange(ranges[1..], name);
      if rest.Some? then
        var i :| 0 <= i < |ranges[1..]| && ranges[1..][i] == rest.value && rest.value.name == name
                 && forall j :: 0 <= j < i ==> ranges[1..][j].name != name;
        assert ranges[i + 1] == rest.value;
        rest
      else rest
  }

  /** `years >= range.min && years < range.max`. */
  predicate InRange(range: ExperienceRange, years: int)
  {
    range.min <= years && (range.max.None? || years < range.max.value)
  }

  /** The experience predicate: the labelled bucket holds the years, and an
      unknown label holds nothing. */
  predicate MatchesExperience(name: string, years: int)
  {
    match FindRange(ExperienceRanges, name)
    case None => false
    case Some(range) => InRange(range, years)
  }

  /** The experience predicate agrees with the table read as a list of
      half-open intervals. */
  lemma MatchesExperienceSpec(name: string, years: int)
    ensures MatchesExperience(name, years) <==>
      || (name == "Any" && 0 <= years)
      || (name == "Less than 1 year" && 0 <= years < 1)
      || (name == "1 to 5 years" && 1 <= years < 5)
      || (name == "5 to 10 years" && 5 <= years < 10)
      || (name == "10+ years" && 10 <= years)
  {
    var r := ExperienceRanges;
    if name == r[0].name {
    } else if name == r[1].name {
    } else if name == r[2].name {
    } else if name == r[3].name {
    } else if name == r[4].name {
    } else {
      assert FindRange(r, name).None?;
    }
  }

  /** Fail closed: a label outside the table admits no record. */
  lemma UnknownLabelMatchesNothing(name: string, years: int)
    requires !IsKnownLabel(name)
    ensures !MatchesExperience(name, years)
  {
  }

  /** "Any" admits exactly the non-negative years, "10+ years" has no upper
      bound. */
  lemma UnboundedBuckets(years: int)
    ensures MatchesExperience("Any", years) <==> 0 <= years
    ensures MatchesExperience("10+ years", years) <==> 10 <= years
  {
    MatchesExperienceSpec("Any", years);
    MatchesExperienceSpec("10+ years", years);
  }

  /** The boundaries belong to the upper bucket: 1, 5 and 10 years each fall
      into the bucket that starts there and not into the one that ends there. */
  lemma BucketBoundaries()
    ensures MatchesExperience("1 to 5 years", 1) && !MatchesExperience("Less than 1 year", 1)
    ensures MatchesExperience("5 to 10 years", 5) && !MatchesExperience("1 to 5 years", 5)
    ensures MatchesExperience("10+ years", 10) && !MatchesExperience("5 to 10 years", 10)
  {
    MatchesExperienceSpec("1 to 5 years", 1);
    MatchesExperienceSpec("Less than 1 year", 1);
    MatchesExperienceSpec("5 to 10 years", 5);
    MatchesExperienceSpec("1 to 5 years", 5);
    MatchesExperienceSpec("10+ years", 10);
    MatchesExperienceSpec("5 to 10 years", 10);
  }

  /** Apart from "Any", the buckets split the non-negative years: every such
      number lies in exactly one of them, and no negative number lies in any. */
  lemma BucketsPartition(years: int)
    ensures 0 <= years ==> exists i :: 1 <= i < |ExperienceRanges| && InRange(ExperienceRanges[i], years)
    ensures forall i, j :: 1 <= i < j < |ExperienceRanges| ==>
              !(InRange(ExperienceRanges[i], years) && InRange(ExperienceRanges[j], years))
    ensures years < 0 ==> forall i :: 0 <= i < |ExperienceRanges| ==> !InRange(ExperienceRanges[i], years)
  {
    if 0 <= years {
      var r := ExperienceRanges;
      if years < 1 {
        assert InRange(r[1], years);
      } else if years < 5 {
        assert InRange(r[2], years);
      } else if years < 10 {
        assert InRange(r[3], years);
      } else {
        assert InRange(r[4], years);
      }
    }
  }

  /** No label occurs twice, so "the first range with this label" is "the
      range with this label". */
  lemma LabelsDistinct()
    ensures forall i, j :: 0 <= i < j < |ExperienceRanges| ==> ExperienceRanges[i].name != ExperienceRanges[j].name
  {
  }
}
