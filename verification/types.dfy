/** `undefined`-or-value, as returned by JavaScript's `Array.prototype.find`. */
module Options {

  datatype Option<T> = None | Some(value: T)
}

/**
 * The record shapes shared by the client: an advocate as delivered by the
 * record source, the filter options derived from the loaded records, and the
 * user's active filter selection. JavaScript numbers are whole numbers here.
 */
module Types {

  datatype Advocate = Advocate(
    id: int,
    firstName: string,
    lastName: string,
    city: string,
    degree: string,
    specialties: seq<string>,
    yearsOfExperience: int,
    phoneNumber: int)

  datatype DynamicFilterOptions = DynamicFilterOptions(
    specialties: seq<string>,
    cities: seq<string>,
    degrees: seq<string>)

  /** An empty category selection means "no constraint"; the experience
      range is named by its label. */
  datatype ActiveFilterValues = ActiveFilterValues(
    specialty: string,
    city: string,
    degree: string,
    experienceRange: string)
}
