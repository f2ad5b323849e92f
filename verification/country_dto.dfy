/**
 * `ServiceContracts.DTO.CountryResponse`: the read-only view of a country,
 * its value equality, and the entity-to-view mapping `ToCountryResponse`.
 * Also the add request the countries service accepts.
 */
module CountryDto {
  import opened Optional
  import opened Entities

  datatype CountryAddRequest = CountryAddRequest(countryName: Option<string>)

  /** The entity a request describes; its id is still `Guid.Empty`. */
  function ToCountry(request: CountryAddRequest): (c: Country)
    ensures c.countryID == EmptyGuid
    ensures c.countryName == request.countryName
  {
    Country(EmptyGuid, request.countryName)
  }

  datatype CountryResponse = CountryResponse(countryID: Guid, countryName: Option<string>)

  /**
   * What an `object?` argument of `Equals` can be, as far as `Equals` tells
   * them apart: null, an instance whose runtime type is exactly
   * `CountryResponse`, or anything else (a subclass included).
   */
  datatype Object = NullObject | CountryResponseObject(response: CountryResponse) | OtherObject

  /** `CountryResponse.Equals(object?)`. */
  function Equals(self: CountryResponse, obj: Object): (r: bool)
    ensures obj.NullObject? ==> !r
    ensures obj.OtherObject? ==> !r
    ensures r <==> obj == CountryResponseObject(self)
  {
    match obj
    case NullObject => false
    case OtherObject => false
    case CountryResponseObject(other) =>
      self.countryID == other.countryID && self.countryName == other.countryName
  }

  /** `Equals` is an equivalence relation on country views. */
  lemma EqualsIsEquivalence(a: CountryResponse, b: CountryResponse, c: CountryResponse)
    ensures Equals(a, CountryResponseObject(a))
    ensures Equals(a, CountryResponseObject(b)) <==> Equals(b, CountryResponseObject(a))
    ensures Equals(a, CountryResponseObject(b)) && Equals(b, CountryResponseObject(c))
      ==> Equals(a, CountryResponseObject(c))
  {
  }

  /** `CountryExtensions.ToCountryResponse`. */
  function ToCountryResponse(country: Country): (r: CountryResponse)
    ensures r.countryID == country.countryID
    ensures r.countryName == country.countryName
  {
    CountryResponse(country.countryID, country.countryName)
  }

  /** The view keeps every field of the entity, so distinct countries have views that are not `Equals`. */
  lemma ToCountryResponseFaithful(a: Country, b: Country)
    ensures Equals(ToCountryResponse(a), CountryResponseObject(ToCountryResponse(b))) <==> a == b
  {
  }
}
