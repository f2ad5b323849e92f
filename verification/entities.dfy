/** The stored records: `Entities.Person` and the `Country` it references. */
module Entities {
  import opened Optional
  import opened Dates

  /** A `System.Guid`; `EmptyGuid` is `Guid.Empty`. */
  datatype Guid = Guid(bits: nat)

  const EmptyGuid: Guid := Guid(0)

  datatype Person = Person(
    personID: Guid,
    personName: Option<string>,
    email: Option<string>,
    dateOfBirth: Option<Date>,
    gender: Option<string>,
    countryID: Option<Guid>,
    address: Option<string>,
    receiveNewsLetters: bool)

  datatype Country = Country(countryID: Guid, countryName: Option<string>)
}
