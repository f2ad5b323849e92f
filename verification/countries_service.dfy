/**
 * `Services.CountriesService` over an abstract countries repository: the
 * repository is the sequence of stored rows, and every operation is one
 * atomic step from a store to a result (and, for `AddCountry`, a new store).
 */
module Countries {
  import opened Optional
  import opened Entities
  import opened Errors
  import opened CountryDto

  datatype CountriesService = CountriesService(countries: seq<Country>)

  predicate HasID(svc: CountriesService, id: Guid) {
    exists c :: c in svc.countries && c.countryID == id
  }

  predicate HasName(svc: CountriesService, name: string) {
    exists c :: c in svc.countries && c.countryName == Some(name)
  }

  /** The repository's look-up by id: the first stored row with that id. */
  function FindByID(countries: seq<Country>, id: Guid): (r: Option<Country>)
    ensures r.None? <==> forall c :: c in countries ==> c.countryID != id
    ensures r.Some? ==> r.value in countries && r.value.countryID == id
  {
    if countries == [] then None
    else if countries[0].countryID == id then Some(countries[0])
    else FindByID(countries[1..], id)
  }

  /**
   * `AddCountry`: a null request, a null name and a name already stored
   * (exact, case-sensitive match) are rejected in that order; otherwise the
   * country is stored under the fresh id and its view returned. A rejected
   * request leaves the store as it was, since no new store is produced.
   */
  function AddCountry(svc: CountriesService, request: Option<CountryAddRequest>, freshID: Guid)
    : (r: Result<(CountriesService, CountryResponse)>)
    requires freshID != EmptyGuid && !HasID(svc, freshID)
    ensures request.None? ==> r == Err(NullArgument)
    ensures request.Some? && request.value.countryName.None? ==> r == Err(CountryNameMissing)
    ensures request.Some? && request.value.countryName.Some? && HasName(svc, request.value.countryName.value)
      ==> r == Err(DuplicateCountryName)
    ensures r.Ok? <==>
      request.Some? && request.value.countryName.Some? && !HasName(svc, request.value.countryName.value)
    ensures r.Ok? ==>
      && r.value.0.countries == svc.countries + [Country(freshID, request.value.countryName)]
      && r.value.1 == CountryResponse(freshID, request.value.countryName)
      && r.value.1.countryID != EmptyGuid
  {
    if request.None? then Err(NullArgument)
    else if request.value.countryName.None? then Err(CountryNameMissing)
    else if HasName(svc, request.value.countryName.value) then Err(DuplicateCountryName)
    else
      var country := ToCountry(request.value).(countryID := freshID);
      Ok((CountriesService(svc.countries + [country]), ToCountryResponse(country)))
  }

  /** `GetAllCountries`: the stored rows mapped one by one through `ToCountryResponse`. */
  function GetAllCountries(svc: CountriesService): (r: seq<CountryResponse>)
    ensures |r| == |svc.countries|
    ensures forall i :: 0 <= i < |r| ==> r[i] == ToCountryResponse(svc.countries[i])
    decreases |svc.countries|
  {
    if svc.countries == [] then []
    else [ToCountryResponse(svc.countries[0])] + GetAllCountries(CountriesService(svc.countries[1..]))
  }

  /** `GetCountryByCountryID`: null for a null or unknown id, never a failure. */
  function GetCountryByCountryID(svc: CountriesService, id: Option<Guid>): (r: Option<CountryResponse>)
    ensures id.None? ==> r.None?
    ensures id.Some? ==> (r.None? <==> !HasID(svc, id.value))
    ensures r.Some? ==> exists c :: c in svc.countries && c.countryID == id.value && r.value == ToCountryResponse(c)
  {
    if id.None? then None
    else
      match FindByID(svc.countries, id.value)
      case None => None
      case Some(c) => Some(ToCountryResponse(c))
  }

  /** No two stored countries share a name. */
  predicate UniqueNames(svc: CountriesService) {
    forall i, j :: 0 <= i < j < |svc.countries| ==> svc.countries[i].countryName != svc.countries[j].countryName
  }

  /** With `AddCountry` as the only writer, names stay unique. */
  lemma AddCountryKeepsNamesUnique(svc: CountriesService, request: Option<CountryAddRequest>, freshID: Guid)
    requires freshID != EmptyGuid && !HasID(svc, freshID)
    requires UniqueNames(svc)
    requires AddCountry(svc, request, freshID).Ok?
    ensures UniqueNames(AddCountry(svc, request, freshID).value.0)
  {
    var cs := AddCountry(svc, request, freshID).value.0.countries;
    var name := request.value.countryName.value;
    forall i, j | 0 <= i < j < |cs|
      ensures cs[i].countryName != cs[j].countryName
    {
      if j == |cs| - 1 {
        assert cs[i] in svc.countries;
      }
    }
  }

  /** A country just added is listed by `GetAllCountries`. */
  lemma AddedCountryIsListed(svc: CountriesService, request: Option<CountryAddRequest>, freshID: Guid)
    requires freshID != EmptyGuid && !HasID(svc, freshID)
    requires AddCountry(svc, request, freshID).Ok?
    ensures var (after, response) := AddCountry(svc, request, freshID).value;
      response in GetAllCountries(after)
  {
    var (after, response) := AddCountry(svc, request, freshID).value;
    var all := GetAllCountries(after);
    assert all[|all| - 1] == response;
  }

  /** A country just added is found by its new id, as the same view. */
  lemma AddedCountryIsFound(svc: CountriesService, request: Option<CountryAddRequest>, freshID: Guid)
    requires freshID != EmptyGuid && !HasID(svc, freshID)
    requires AddCountry(svc, request, freshID).Ok?
    ensures var (after, response) := AddCountry(svc, request, freshID).value;
      GetCountryByCountryID(after, Some(freshID)) == Some(response)
  {
    var (after, response) := AddCountry(svc, request, freshID).value;
    assert after.countries[|after.countries| - 1].countryID == freshID;
  }

  /** Adding the same name a second time fails, whatever else is stored. */
  lemma SecondAddOfSameNameFails(svc: CountriesService, request: CountryAddRequest, id1: Guid, id2: Guid)
    requires id1 != EmptyGuid && !HasID(svc, id1)
    requires AddCountry(svc, Some(request), id1).Ok?
    requires id2 != EmptyGuid && !HasID(AddCountry(svc, Some(request), id1).value.0, id2)
    ensures AddCountry(AddCountry(svc, Some(request), id1).value.0, Some(request), id2) == Err(DuplicateCountryName)
  {
    var after := AddCountry(svc, Some(request), id1).value.0;
    assert after.countries[|after.countries| - 1] in after.countries;
  }
}
