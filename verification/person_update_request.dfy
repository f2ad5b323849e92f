/** `ServiceContracts.DTO.PersonUpdateRequest`: its validation attributes and `ToPerson`. */
module PersonUpdateRequests {
  import opened Optional
  import opened Dates
  import opened Entities
  import opened Enums
  import opened Validation

  /** The id is a non-nullable `Guid`, so its `[Required]` check cannot fail. */
  datatype PersonUpdateRequest = PersonUpdateRequest(
    personID: Guid,
    personName: Option<string>,
    email: Option<string>,
    dateOfBirth: Option<Date>,
    gender: Option<GenderOptions>,
    countryID: Option<Guid>,
    address: Option<string>,
    receiveNewsLetters: bool)

  /** Every constraint the request breaks: `[Required]` name, then `[Required, EmailAddress]` email. */
  function Violations(r: PersonUpdateRequest): (v: seq<Violation>)
    ensures PersonNameRequired in v <==> !RequiredText(r.personName)
    ensures EmailRequired in v <==> !RequiredText(r.email)
    ensures EmailInvalid in v <==> RequiredText(r.email) && !EmailAddress(r.email)
    ensures GenderRequired !in v && CountryRequired !in v
    ensures |v| <= 2
  {
    (if RequiredText(r.personName) then [] else [PersonNameRequired]) + EmailViolations(r.email)
  }

  predicate IsValid(r: PersonUpdateRequest) {
    Violations(r) == []
  }

  /** A request is valid exactly when the name is present and the email is present and email-shaped. */
  lemma IsValidMeans(r: PersonUpdateRequest)
    ensures IsValid(r) <==> RequiredText(r.personName) && RequiredText(r.email) && EmailAddress(r.email)
  {
    if !IsValid(r) {
      assert Violations(r)[0] in Violations(r);
    }
  }

  /** Unlike an add request, id, gender, country id, date of birth and address are all unconstrained. */
  lemma OptionalFieldsUnconstrained(r: PersonUpdateRequest, id: Guid, gender: Option<GenderOptions>,
                                    countryID: Option<Guid>, dateOfBirth: Option<Date>, address: Option<string>)
    ensures Violations(r.(personID := id, gender := gender, countryID := countryID,
                          dateOfBirth := dateOfBirth, address := address)) == Violations(r)
  {
  }

  /** The entity the request describes, id included; an absent gender becomes the empty text. */
  function ToPerson(r: PersonUpdateRequest): (p: Person)
    ensures p.personID == r.personID
    ensures p.personName == r.personName && p.email == r.email
    ensures p.dateOfBirth == r.dateOfBirth && p.address == r.address
    ensures p.countryID == r.countryID && p.receiveNewsLetters == r.receiveNewsLetters
    ensures p.gender == Some(GenderText(r.gender))
    ensures r.gender.None? ==> p.gender == Some("")
  {
    Person(r.personID, r.personName, r.email, r.dateOfBirth, Some(GenderText(r.gender)),
           r.countryID, r.address, r.receiveNewsLetters)
  }

  /** `ToPerson` loses nothing: different requests give different entities. */
  lemma ToPersonInjective(a: PersonUpdateRequest, b: PersonUpdateRequest)
    requires ToPerson(a) == ToPerson(b)
    ensures a == b
  {
    GenderTextParsesBack(a.gender);
    GenderTextParsesBack(b.gender);
  }
}
