/**
 * `ServiceContracts.DTO.PersonResponse`: the read-only view of a person. Its
 * `country` field is filled in by the persons service; `age` is derived from
 * the date of birth by a caller-supplied function standing for the
 * comparison with the current date.
 */
module PersonResponses {
  import opened Optional
  import opened Dates
  import opened Entities

  datatype PersonResponse = PersonResponse(
    personID: Guid,
    personName: Option<string>,
    email: Option<string>,
    dateOfBirth: Option<Date>,
    gender: Option<string>,
    countryID: Option<Guid>,
    country: Option<string>,
    address: Option<string>,
    receiveNewsLetters: bool,
    age: Option<int>)

  /** `Person.ToPersonResponse()`: every stored field copied, no country name yet. */
  function ToPersonResponse(p: Person, ageOf: Date -> int): (r: PersonResponse)
    ensures r.personID == p.personID && r.personName == p.personName && r.email == p.email
    ensures r.dateOfBirth == p.dateOfBirth && r.gender == p.gender && r.countryID == p.countryID
    ensures r.address == p.address && r.receiveNewsLetters == p.receiveNewsLetters
    ensures r.country.None?
    ensures r.age.None? <==> p.dateOfBirth.None?
    ensures p.dateOfBirth.Some? ==> r.age == Some(ageOf(p.dateOfBirth.value))
  {
    PersonResponse(p.personID, p.personName, p.email, p.dateOfBirth, p.gender, p.countryID, None,
                   p.address, p.receiveNewsLetters,
                   if p.dateOfBirth.Some? then Some(ageOf(p.dateOfBirth.value)) else None)
  }
}
