/** `ServiceContracts.DTO.PersonAddRequest`: its validation attributes and `ToPerson`. */
module PersonAddRequests {
  import opened Optional
  import opened Dates
  import opened Entities
  import opened Enums
  import opened Validation

  datatype PersonAddRequest = PersonAddRequest(
    personName: Option<string>,
    email: Option<string>,
    dateOfBirth: Option<Date>,
    gender: Option<GenderOptions>,
    countryID: Option<Guid>,
    address: Option<string>,
    receiveNewsLetters: bool)

  /**
   * Every constraint the request breaks, in property declaration order:
   * `[Required]` name, `[Required, EmailAddress]` email, `[Required]` gender
   * and `[Required]` country id.
   */
  function Violations(r: PersonAddRequest): (v: seq<Violation>)
    ensures PersonNameRequired in v <==> !RequiredText(r.personName)
    ensures EmailRequired in v <==> !RequiredText(r.email)
    ensures EmailInvalid in v <==> RequiredText(r.email) && !EmailAddress(r.email)
    ensures GenderRequired in v <==> !RequiredValue(r.gender)
    ensures CountryRequired in v <==> !RequiredValue(r.countryID)
    ensures |v| <= 4
  {
    (if RequiredText(r.personName) then [] else [PersonNameRequired])
    + EmailViolations(r.email)
    + (if RequiredValue(r.gender) then [] else [GenderRequired])
    + (if RequiredValue(r.countryID) then [] else [CountryRequired])
  }

  predicate IsValid(r: PersonAddRequest) {
    Violations(r) == []
  }

  /** A request is valid exactly when name, email (email-shaped), gender and country id are all present. */
  lemma IsValidMeans(r: PersonAddRequest)
    ensures IsValid(r) <==>
      && RequiredText(r.personName)
      && RequiredText(r.email) && EmailAddress(r.email)
      && r.gender.Some?
      && r.countryID.Some?
  {
    if !IsValid(r) {
      assert Violations(r)[0] in Violations(r);
    }
  }

  /** Date of birth, address and the newsletter flag carry no constraint. */
  lemma OptionalFieldsUnconstrained(r: PersonAddRequest, dateOfBirth: Option<Date>, address: Option<string>, flag: bool)
    ensures Violations(r.(dateOfBirth := dateOfBirth, address := address, receiveNewsLetters := flag)) == Violations(r)
  {
  }

  /**
   * The entity the request describes. Its id is left at `Guid.Empty` for the
   * service to assign; the gender is stored as the option's name.
   */
  function ToPerson(r: PersonAddRequest): (p: Person)
    ensures p.personID == EmptyGuid
    ensures p.personName == r.personName && p.email == r.email
    ensures p.dateOfBirth == r.dateOfBirth && p.address == r.address
    ensures p.countryID == r.countryID && p.receiveNewsLetters == r.receiveNewsLetters
    ensures p.gender == Some(GenderText(r.gender))
  {
    Person(EmptyGuid, r.personName, r.email, r.dateOfBirth, Some(GenderText(r.gender)),
           r.countryID, r.address, r.receiveNewsLetters)
  }

  /** `ToPerson` loses nothing: different requests give different entities. */
  lemma ToPersonInjective(a: PersonAddRequest, b: PersonAddRequest)
    requires ToPerson(a) == ToPerson(b)
    ensures a == b
  {
    GenderTextParsesBack(a.gender);
    GenderTextParsesBack(b.gender);
  }
}
