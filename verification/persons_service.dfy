/**
 * `Services.PersonsService` (the in-memory revision): a list of persons plus
 * the countries service it resolves country names through. Every operation
 * is one atomic step from a service state to a result and, for the writers,
 * a new state; a failure produces no new state, so it changes nothing.
 */
module Persons {
  import opened Optional
  import opened Dates
  import opened Entities
  import opened Enums
  import opened Errors
  import opened Seqs
  import opened Sorting
  import opened PersonResponses
  import Text
  import Countries
  import PersonAddRequests
  import PersonUpdateRequests

  datatype PersonsService = PersonsService(persons: seq<Person>, countries: Countries.CountriesService)

  predicate HasID(persons: seq<Person>, id: Guid) {
    exists p :: p in persons && p.personID == id
  }

  /** No two stored persons share an id. */
  predicate UniqueIDs(persons: seq<Person>) {
    forall i, j :: 0 <= i < j < |persons| ==> persons[i].personID != persons[j].personID
  }

  function SeedPerson(id: nat, name: string, email: string, born: Date, gender: string,
                      address: string, newsLetters: bool, country: nat): Person
  {
    Person(Guid(id), Some(name), Some(email), Some(born), Some(gender), Some(Guid(country)),
           Some(address), newsLetters)
  }

  /** The constructor: five sample persons when `initialize` is set, none otherwise. */
  function Initial(initialize: bool, countries: Countries.CountriesService): (svc: PersonsService)
    ensures svc.countries == countries
    ensures initialize ==> |svc.persons| == 5 && UniqueIDs(svc.persons)
    ensures !initialize ==> svc.persons == []
  {
    var seeds := [
      SeedPerson(0xFE48F4E1_4596_4B95_B1C0_DC34A0E6BA52, "Elia", "eesposito0@cdbaby.com",
                 DateParts(1993, 11, 14), "Male", "23073 Sycamore Junction", false,
                 0x3BA2FBCC_B1AA_48C9_8175_1F0D410F8804),
      SeedPerson(0x01F25BE8_81AF_4C58_85EC_97AD009F5399, "Sondra", "shirsthouse1@yolasite.com",
                 DateParts(1995, 6, 19), "Female", "88 Anzinger Trail", true,
                 0x20DEA190_7755_470B_BD49_FC8E1E6887F5),
      SeedPerson(0xF3D3F76D_0FAA_4897_BF09_DBBA899BF530, "Kippie", "ktretter2@slashdot.org",
                 DateParts(1993, 9, 20), "Male", "07837 Florence", true,
                 0xA5A63E9C_CF28_4039_B95C_6C5980C1DF7B),
      SeedPerson(0x93C382C7_575B_4202_8CAC_BC0191B04470, "Hershel", "hweber3@creativecommons.org",
                 DateParts(1992, 10, 5), "Male", "931 Green Ridge Park", false,
                 0x97580049_15E0_4019_A75A_DE32297D3164),
      SeedPerson(0x46A91456_0FA8_4BC5_8CDA_1A4098C09ACD, "Jillene", "jmacaree4@netlog.com",
                 DateParts(1994, 10, 23), "Female", "3398 Doe Crossing Parkway", false,
                 0xD3BE1E3E_F733_44EB_B812_1ED2DA2B0CD8)
    ];
    PersonsService(if initialize then seeds else [], countries)
  }

  /**
   * `ConvertPersonIntoPersonResponse`: the stored fields, plus the name of the
   * country the person's country id resolves to (null when the id is null or
   * unknown).
   */
  function ConvertPersonIntoPersonResponse(svc: PersonsService, p: Person, ageOf: Date -> int)
    : (r: PersonResponse)
    ensures r.(country := None) == ToPersonResponse(p, ageOf)
    ensures p.countryID.None? ==> r.country.None?
    ensures p.countryID.Some? && !Countries.HasID(svc.countries, p.countryID.value) ==> r.country.None?
    ensures r.country.Some? ==>
      exists c :: c in svc.countries.countries && Some(c.countryID) == p.countryID && c.countryName == r.country
    ensures p.countryID.Some? && Countries.HasID(svc.countries, p.countryID.value) ==>
      exists c :: c in svc.countries.countries && c.countryID == p.countryID.value && r.country == c.countryName
  {
    var country := Countries.GetCountryByCountryID(svc.countries, p.countryID);
    ToPersonResponse(p, ageOf).(country := if country.Some? then country.value.countryName else None)
  }

  function ConvertAll(svc: PersonsService, persons: seq<Person>, ageOf: Date -> int): (r: seq<PersonResponse>)
    ensures |r| == |persons|
    ensures forall i :: 0 <= i < |r| ==> r[i] == ConvertPersonIntoPersonResponse(svc, persons[i], ageOf)
  {
    if persons == [] then []
    else [ConvertPersonIntoPersonResponse(svc, persons[0], ageOf)] + ConvertAll(svc, persons[1..], ageOf)
  }

  /** `GetAllPersons`: every stored person's view, in store order. */
  function GetAllPersons(svc: PersonsService, ageOf: Date -> int): (r: seq<PersonResponse>)
    ensures |r| == |svc.persons|
    ensures forall i :: 0 <= i < |r| ==> r[i] == ConvertPersonIntoPersonResponse(svc, svc.persons[i], ageOf)
  {
    ConvertAll(svc, svc.persons, ageOf)
  }

  /** Index of the first stored person with the id (`FirstOrDefault`). */
  function FirstIndexOf(persons: seq<Person>, id: Guid): (r: Option<nat>)
    ensures r.None? <==> !HasID(persons, id)
    ensures r.Some? ==> r.value < |persons| && persons[r.value].personID == id
    ensures r.Some? ==> forall j :: 0 <= j < r.value ==> persons[j].personID != id
  {
    if persons == [] then None
    else if persons[0].personID == id then Some(0)
    else
      var rest := FirstIndexOf(persons[1..], id);
      assert forall p :: p in persons[1..] ==> p in persons;
      assert forall p :: p in persons && p != persons[0] ==> p in persons[1..];
      if rest.None? then None else Some(rest.value + 1)
  }

  /** `GetPersonByPersonID`: null for a null or unknown id, never a failure. */
  function GetPersonByPersonID(svc: PersonsService, id: Option<Guid>, ageOf: Date -> int)
    : (r: Option<PersonResponse>)
    ensures id.None? ==> r.None?
    ensures id.Some? ==> (r.None? <==> !HasID(svc.persons, id.value))
    ensures r.Some? ==>
      exists i :: && 0 <= i < |svc.persons| && svc.persons[i].personID == id.value
                  && (forall j :: 0 <= j < i ==> svc.persons[j].personID != id.value)
                  && r.value == ConvertPersonIntoPersonResponse(svc, svc.persons[i], ageOf)
  {
    if id.None? then None
    else
      match FirstIndexOf(svc.persons, id.value)
      case None => None
      case Some(i) => Some(ConvertPersonIntoPersonResponse(svc, svc.persons[i], ageOf))
  }

  /**
   * `AddPerson`: a null request is an `ArgumentNullException`; a request
   * breaking any constraint fails with all its violations; otherwise the
   * request's entity is appended under the fresh id and its view returned.
   */
  function AddPerson(svc: PersonsService, request: Option<PersonAddRequests.PersonAddRequest>,
                     freshID: Guid, ageOf: Date -> int)
    : (r: Result<(PersonsService, PersonResponse)>)
    requires freshID != EmptyGuid && !HasID(svc.persons, freshID)
    ensures request.None? ==> r == Err(NullArgument)
    ensures request.Some? && !PersonAddRequests.IsValid(request.value) ==>
      r == Err(ValidationFailed(PersonAddRequests.Violations(request.value)))
      && PersonAddRequests.Violations(request.value) != []
    ensures r.Ok? <==> request.Some? && PersonAddRequests.IsValid(request.value)
    ensures r.Ok? ==>
      var (after, response) := r.value;
      && after.countries == svc.countries
      && |after.persons| == |svc.persons| + 1
      && after.persons[..|svc.persons|] == svc.persons
      && after.persons[|svc.persons|] == PersonAddRequests.ToPerson(request.value).(personID := freshID)
      && response == ConvertPersonIntoPersonResponse(after, after.persons[|svc.persons|], ageOf)
      && response.personID == freshID
  {
    if request.None? then Err(NullArgument)
    else if !PersonAddRequests.IsValid(request.value) then
      Err(ValidationFailed(PersonAddRequests.Violations(request.value)))
    else
      var person := PersonAddRequests.ToPerson(request.value).(personID := freshID);
      var after := svc.(persons := svc.persons + [person]);
      Ok((after, ConvertPersonIntoPersonResponse(after, person, ageOf)))
  }

  /** The fields `GetFilteredPersons` can search, by the `searchBy` names it recognises. */
  datatype SearchField =
    | SearchPersonName
    | SearchEmail
    | SearchDateOfBirth
    | SearchGender
    | SearchCountry
    | SearchAddress

  /** The `searchBy` switch; `"CountryID"` selects the resolved country name. */
  function SearchFieldOf(searchBy: string): (f: Option<SearchField>)
    ensures f.Some? <==> searchBy in {"PersonName", "Email", "DateOfBirth", "Gender", "CountryID", "Address"}
    ensures searchBy == "CountryID" <==> f == Some(SearchCountry)
  {
    match searchBy
    case "PersonName" => Some(SearchPersonName)
    case "Email" => Some(SearchEmail)
    case "DateOfBirth" => Some(SearchDateOfBirth)
    case "Gender" => Some(SearchGender)
    case "CountryID" => Some(SearchCountry)
    case "Address" => Some(SearchAddress)
    case _ => None
  }

  /** A text field passes when it is null or empty, or contains the search text ignoring case. */
  predicate TextMatches(field: Option<string>, searchString: string) {
    Text.IsNullOrEmpty(field) || Text.ContainsIgnoreCase(field.value, searchString)
  }

  /** The per-field condition a person must meet to be kept by the search. */
  predicate Matches(field: SearchField, searchString: string, p: PersonResponse) {
    match field
    case SearchPersonName => TextMatches(p.personName, searchString)
    case SearchEmail => TextMatches(p.email, searchString)
    case SearchDateOfBirth =>
      p.dateOfBirth.None? || Text.ContainsIgnoreCase(FormatDdMmYyyy(p.dateOfBirth.value), searchString)
    case SearchGender => TextMatches(p.gender, searchString)
    case SearchCountry => TextMatches(p.country, searchString)
    case SearchAddress => TextMatches(p.address, searchString)
  }

  function Matcher(field: SearchField, searchString: string): PersonResponse -> bool {
    p => Matches(field, searchString, p)
  }

  /** The search is a no-op for an absent or empty key or text, and for a key it does not recognise. */
  predicate SearchIsNoOp(searchBy: Option<string>, searchString: Option<string>) {
    Text.IsNullOrEmpty(searchBy) || Text.IsNullOrEmpty(searchString) || SearchFieldOf(searchBy.value).None?
  }

  /**
   * `GetFilteredPersons`: all persons when the search is a no-op; otherwise
   * exactly those meeting the field's condition, in store order.
   */
  function GetFilteredPersons(svc: PersonsService, searchBy: Option<string>, searchString: Option<string>,
                              ageOf: Date -> int)
    : (r: seq<PersonResponse>)
    ensures SearchIsNoOp(searchBy, searchString) ==> r == GetAllPersons(svc, ageOf)
    ensures !SearchIsNoOp(searchBy, searchString) ==>
      var all := GetAllPersons(svc, ageOf);
      var field := SearchFieldOf(searchBy.value).value;
      && IsSubsequence(r, all)
      && (forall p :: p in r ==> Matches(field, searchString.value, p))
      && (forall p :: multiset(r)[p] == if Matches(field, searchString.value, p) then multiset(all)[p] else 0)
  {
    var all := GetAllPersons(svc, ageOf);
    if SearchIsNoOp(searchBy, searchString) then all
    else
      var keep := Matcher(SearchFieldOf(searchBy.value).value, searchString.value);
      FilterIsSubsequence(all, keep);
      FilterCount(all, keep);
      Filter(all, keep)
  }

  /** The `(sortBy, sortOrder)` switch: which key and direction each recognised pair sorts by. */
  function SortKeyOf(sortBy: string, order: SortOrderOptions): (r: Option<(Selector, bool)>)
    ensures r.Some? <==> sortBy in {"PersonName", "Email", "DateOfBirth", "Age", "Gender", "Country",
                                     "Address", "ReceiveNewsLetters"}
    ensures r.Some? ==> r.value.1 == (order == DESC)
    ensures sortBy == "Age" && order == DESC ==> r == Some((PersonNameDefault, true))
  {
    var descending := order == DESC;
    match sortBy
    case "PersonName" => Some((PersonNameIgnoreCase, descending))
    case "Email" => Some((EmailIgnoreCase, descending))
    case "DateOfBirth" => Some((DateOfBirth, descending))
    case "Age" => if descending then Some((PersonNameDefault, true)) else Some((Age, false))
    case "Gender" => Some((GenderIgnoreCase, descending))
    case "Country" => Some((CountryIgnoreCase, descending))
    case "Address" => Some((AddressIgnoreCase, descending))
    case "ReceiveNewsLetters" => Some((ReceiveNewsLetters, descending))
    case _ => None
  }

  /** Sorts by the chosen key, or returns the input when there is none. */
  function SortWith(persons: seq<PersonResponse>, key: Option<(Selector, bool)>): (r: seq<PersonResponse>)
    ensures key.None? ==> r == persons
    ensures key.Some? ==>
      && multiset(r) == multiset(persons)
      && IsSortedBy(key.value.0, key.value.1, r)
      && forall k :: Ties(key.value.0, r, k) == Ties(key.value.0, persons, k)
  {
    match key
    case None => persons
    case Some((sel, descending)) =>
      SortByIsStableForAllKeys(sel, descending, persons);
      SortBy(sel, descending, persons)
  }

  /**
   * `GetSortedPersons` as written: the input itself for an empty or
   * unrecognised key; otherwise a permutation of it, ordered by the key the
   * switch selects and stable on equal keys.
   */
  function GetSortedPersons(persons: seq<PersonResponse>, sortBy: Option<string>, order: SortOrderOptions)
    : (r: seq<PersonResponse>)
    ensures Text.IsNullOrEmpty(sortBy) || SortKeyOf(sortBy.value, order).None? ==> r == persons
    ensures !Text.IsNullOrEmpty(sortBy) && SortKeyOf(sortBy.value, order).Some? ==>
      var (sel, descending) := SortKeyOf(sortBy.value, order).value;
      && multiset(r) == multiset(persons)
      && IsSortedBy(sel, descending, r)
      && forall k :: Ties(sel, r, k) == Ties(sel, persons, k)
  {
    if Text.IsNullOrEmpty(sortBy) then persons else SortWith(persons, SortKeyOf(sortBy.value, order))
  }

  /** The switch with `(Age, DESC)` ordering by age, as the other pairs do by their own property. */
  function IntendedSortKeyOf(sortBy: string, order: SortOrderOptions): (r: Option<(Selector, bool)>)
    ensures sortBy == "Age" ==> r == Some((Age, order == DESC))
    ensures sortBy != "Age" ==> r == SortKeyOf(sortBy, order)
  {
    if sortBy == "Age" then Some((Age, order == DESC)) else SortKeyOf(sortBy, order)
  }

  /** `GetSortedPersons` with the `(Age, DESC)` case ordering by age. */
  function GetSortedPersonsIntended(persons: seq<PersonResponse>, sortBy: Option<string>, order: SortOrderOptions)
    : (r: seq<PersonResponse>)
    ensures sortBy == Some("Age") ==>
      && multiset(r) == multiset(persons)
      && IsSortedBy(Age, order == DESC, r)
      && forall k :: Ties(Age, r, k) == Ties(Age, persons, k)
    ensures sortBy != Some("Age") ==> r == GetSortedPersons(persons, sortBy, order)
  {
    if Text.IsNullOrEmpty(sortBy) then persons else SortWith(persons, IntendedSortKeyOf(sortBy.value, order))
  }

  /**
   * `UpdatePerson`: a null request is an `ArgumentNullException`; an invalid
   * request fails with its violations; an id no stored person has is an
   * `ArgumentException`. Otherwise the first person with the id gets all
   * seven mutable fields from the request and keeps its id.
   */
  function UpdatePerson(svc: PersonsService, request: Option<PersonUpdateRequests.PersonUpdateRequest>,
                        ageOf: Date -> int)
    : (r: Result<(PersonsService, PersonResponse)>)
    ensures request.None? ==> r == Err(NullArgument)
    ensures request.Some? && !PersonUpdateRequests.IsValid(request.value) ==>
      r == Err(ValidationFailed(PersonUpdateRequests.Violations(request.value)))
    ensures (request.Some? && PersonUpdateRequests.IsValid(request.value)
             && !HasID(svc.persons, request.value.personID)) ==> r == Err(UnknownPersonID)
    ensures r.Ok? <==> (request.Some? && PersonUpdateRequests.IsValid(request.value)
                        && HasID(svc.persons, request.value.personID))
    ensures r.Ok? ==>
      var (after, response) := r.value;
      && after.countries == svc.countries
      && |after.persons| == |svc.persons|
      && exists i ::
        && 0 <= i < |svc.persons|
        && svc.persons[i].personID == request.value.personID
        && (forall j :: 0 <= j < i ==> svc.persons[j].personID != request.value.personID)
        && after.persons[i] == PersonUpdateRequests.ToPerson(request.value)
        && (forall j :: 0 <= j < |svc.persons| && j != i ==> after.persons[j] == svc.persons[j])
        && response == ConvertPersonIntoPersonResponse(after, after.persons[i], ageOf)
  {
    if request.None? then Err(NullArgument)
    else if !PersonUpdateRequests.IsValid(request.value) then
      Err(ValidationFailed(PersonUpdateRequests.Violations(request.value)))
    else
      var req := request.value;
      match FirstIndexOf(svc.persons, req.personID)
      case None => Err(UnknownPersonID)
      case Some(i) =>
        var updated := svc.persons[i].(
          personName := req.personName,
          email := req.email,
          dateOfBirth := req.dateOfBirth,
          gender := Some(GenderText(req.gender)),
          countryID := req.countryID,
          address := req.address,
          receiveNewsLetters := req.receiveNewsLetters);
        var after := svc.(persons := svc.persons[i := updated]);
        Ok((after, ConvertPersonIntoPersonResponse(after, updated, ageOf)))
  }

  function Other(id: Guid): Person -> bool {
    (p: Person) => p.personID != id
  }

  /**
   * `DeletePerson`: a null id is an `ArgumentNullException`; an unknown id
   * gives `false` and the same state; a known id gives `true` and removes
   * every person with it, keeping the rest in order.
   */
  function DeletePerson(svc: PersonsService, id: Option<Guid>): (r: Result<(PersonsService, bool)>)
    ensures id.None? ==> r == Err(NullArgument)
    ensures id.Some? ==> r.Ok?
    ensures id.Some? && !HasID(svc.persons, id.value) ==> r.value == (svc, false)
    ensures id.Some? && HasID(svc.persons, id.value) ==>
      var after := r.value.0;
      && r.value.1
      && after.countries == svc.countries
      && !HasID(after.persons, id.value)
      && IsSubsequence(after.persons, svc.persons)
      && (forall p: Person :: p.personID != id.value ==> multiset(after.persons)[p] == multiset(svc.persons)[p])
  {
    if id.None? then Err(NullArgument)
    else if FirstIndexOf(svc.persons, id.value).None? then Ok((svc, false))
    else
      FilterIsSubsequence(svc.persons, Other(id.value));
      FilterCount(svc.persons, Other(id.value));
      Ok((svc.(persons := Filter(svc.persons, Other(id.value))), true))
  }

  /** The text a search field is matched against; the date of birth as its `"dd MM yyyy"` rendering. */
  function FieldText(field: SearchField, p: PersonResponse): Option<string> {
    match field
    case SearchPersonName => p.personName
    case SearchEmail => p.email
    case SearchDateOfBirth => if p.dateOfBirth.Some? then Some(FormatDdMmYyyy(p.dateOfBirth.value)) else None
    case SearchGender => p.gender
    case SearchCountry => p.country
    case SearchAddress => p.address
  }

  /**
   * One rule for every field: a person is kept exactly when the field's text
   * is null or empty, or contains the search text ignoring case.
   */
  lemma MatchesIffFieldTextMatches(field: SearchField, searchString: string, p: PersonResponse)
    ensures Matches(field, searchString, p) <==> TextMatches(FieldText(field, p), searchString)
  {
    if field == SearchDateOfBirth && p.dateOfBirth.Some? {
      assert |FormatDdMmYyyy(p.dateOfBirth.value)| == 10;
    }
  }

  /**
   * Searching by `"CountryID"` matches the name of the person's country, not
   * its id: when the id resolves to a country, the person is kept exactly
   * when that country's name is null or empty or contains the search text.
   */
  lemma CountrySearchMatchesCountryName(svc: PersonsService, p: Person, c: Country,
                                        searchString: string, ageOf: Date -> int)
    requires c in svc.countries.countries && p.countryID == Some(c.countryID)
    requires forall d :: d in svc.countries.countries && d.countryID == c.countryID ==> d == c
    ensures Matches(SearchCountry, searchString, ConvertPersonIntoPersonResponse(svc, p, ageOf))
      <==> TextMatches(c.countryName, searchString)
  {
  }

  /** Each recognised `searchBy` name matches the property of the same name (`"CountryID"`: the country's name). */
  lemma SearchKeysSelectNamedFields(searchString: string, p: PersonResponse)
    ensures Matches(SearchFieldOf("PersonName").value, searchString, p) <==> TextMatches(p.personName, searchString)
    ensures Matches(SearchFieldOf("Email").value, searchString, p) <==> TextMatches(p.email, searchString)
    ensures Matches(SearchFieldOf("DateOfBirth").value, searchString, p)
      <==> p.dateOfBirth.None? || TextMatches(Some(FormatDdMmYyyy(p.dateOfBirth.value)), searchString)
    ensures Matches(SearchFieldOf("Gender").value, searchString, p) <==> TextMatches(p.gender, searchString)
    ensures Matches(SearchFieldOf("CountryID").value, searchString, p) <==> TextMatches(p.country, searchString)
    ensures Matches(SearchFieldOf("Address").value, searchString, p) <==> TextMatches(p.address, searchString)
  {
    if p.dateOfBirth.Some? {
      assert |FormatDdMmYyyy(p.dateOfBirth.value)| == 10;
    }
  }

  /** The search ignores case: upper-casing the search text keeps exactly the same persons. */
  lemma SearchIgnoresCase(field: SearchField, searchString: string, p: PersonResponse)
    ensures Matches(field, Text.Upper(searchString), p) <==> Matches(field, searchString, p)
  {
    MatchesIffFieldTextMatches(field, Text.Upper(searchString), p);
    MatchesIffFieldTextMatches(field, searchString, p);
    var text := FieldText(field, p);
    if text.Some? {
      Text.ContainsIgnoreCaseFoldsCase(text.value, searchString);
    }
  }

  /**
   * Searching by `"PersonName"` keeps exactly the persons whose name is null
   * or empty or contains the (non-empty) search text ignoring case.
   */
  lemma SearchByPersonNameKeepsMatchingNames(svc: PersonsService, searchString: string, ageOf: Date -> int)
    requires searchString != ""
    ensures var r := GetFilteredPersons(svc, Some("PersonName"), Some(searchString), ageOf);
      forall p :: p in r <==> p in GetAllPersons(svc, ageOf) && TextMatches(p.personName, searchString)
  {
    var r := GetFilteredPersons(svc, Some("PersonName"), Some(searchString), ageOf);
    var all := GetAllPersons(svc, ageOf);
    forall p
      ensures p in r <==> p in all && TextMatches(p.personName, searchString)
    {
      assert multiset(r)[p] == if TextMatches(p.personName, searchString) then multiset(all)[p] else 0;
    }
  }

  /** Null first, then texts ordinally after upper-casing (`StringComparer.OrdinalIgnoreCase`). */
  predicate IgnoreCaseInOrder(a: Option<string>, b: Option<string>) {
    a.None? || (b.Some? && Text.LexLe(Text.Upper(a.value), Text.Upper(b.value)))
  }

  /** Null first, then texts ordinally, case included. */
  predicate OrdinalInOrder(a: Option<string>, b: Option<string>) {
    a.None? || (b.Some? && Text.LexLe(a.value, b.value))
  }

  /** Null first, then `x` before `y` exactly when `le(x, y)`. */
  predicate ValueInOrder<T>(a: Option<T>, b: Option<T>, le: (T, T) -> bool) {
    a.None? || (b.Some? && le(a.value, b.value))
  }

  /** How the comparers order two text keys, stated on the texts. */
  lemma TextKeyOrder(a: Option<string>, b: Option<string>)
    ensures KeyLe(TextKeyOf(a, true), TextKeyOf(b, true)) <==> IgnoreCaseInOrder(a, b)
    ensures KeyLe(TextKeyOf(a, false), TextKeyOf(b, false)) <==> OrdinalInOrder(a, b)
  {
  }

  /**
   * A sort by `sel`, whose key is the text property `field` compared ignoring
   * case, puts the property's values in order, null first when ascending.
   */
  lemma SortedIgnoringCase(sel: Selector, field: PersonResponse -> Option<string>, descending: bool,
                           r: seq<PersonResponse>)
    requires forall p :: KeyOf(sel, p) == TextKeyOf(field(p), true)
    requires IsSortedBy(sel, descending, r)
    ensures forall i, j :: 0 <= i < j < |r| ==>
      if descending then IgnoreCaseInOrder(field(r[j]), field(r[i])) else IgnoreCaseInOrder(field(r[i]), field(r[j]))
  {
    forall i, j | 0 <= i < j < |r|
      ensures if descending then IgnoreCaseInOrder(field(r[j]), field(r[i]))
              else IgnoreCaseInOrder(field(r[i]), field(r[j]))
    {
      assert Precedes(sel, descending, r[i], r[j]);
      TextKeyOrder(field(r[i]), field(r[j]));
      TextKeyOrder(field(r[j]), field(r[i]));
    }
  }

  /** `"PersonName"` orders by the person's name ignoring case. */
  lemma SortByPersonNameIgnoresCase(ps: seq<PersonResponse>, order: SortOrderOptions)
    ensures var r := GetSortedPersons(ps, Some("PersonName"), order);
      forall i, j :: 0 <= i < j < |r| ==>
        if order == DESC then IgnoreCaseInOrder(r[j].personName, r[i].personName)
        else IgnoreCaseInOrder(r[i].personName, r[j].personName)
  {
    assert SortKeyOf("PersonName", order) == Some((PersonNameIgnoreCase, order == DESC));
    SortedIgnoringCase(PersonNameIgnoreCase, (p: PersonResponse) => p.personName, order == DESC,
                       GetSortedPersons(ps, Some("PersonName"), order));
  }

  /** `"Email"` orders by the email ignoring case. */
  lemma SortByEmailIgnoresCase(ps: seq<PersonResponse>, order: SortOrderOptions)
    ensures var r := GetSortedPersons(ps, Some("Email"), order);
      forall i, j :: 0 <= i < j < |r| ==>
        if order == DESC then IgnoreCaseInOrder(r[j].email, r[i].email)
        else IgnoreCaseInOrder(r[i].email, r[j].email)
  {
    assert SortKeyOf("Email", order) == Some((EmailIgnoreCase, order == DESC));
    SortedIgnoringCase(EmailIgnoreCase, (p: PersonResponse) => p.email, order == DESC,
                       GetSortedPersons(ps, Some("Email"), order));
  }

  /** `"Gender"` orders by the gender text ignoring case. */
  lemma SortByGenderIgnoresCase(ps: seq<PersonResponse>, order: SortOrderOptions)
    ensures var r := GetSortedPersons(ps, Some("Gender"), order);
      forall i, j :: 0 <= i < j < |r| ==>
        if order == DESC then IgnoreCaseInOrder(r[j].gender, r[i].gender)
        else IgnoreCaseInOrder(r[i].gender, r[j].gender)
  {
    assert SortKeyOf("Gender", order) == Some((GenderIgnoreCase, order == DESC));
    SortedIgnoringCase(GenderIgnoreCase, (p: PersonResponse) => p.gender, order == DESC,
                       GetSortedPersons(ps, Some("Gender"), order));
  }

  /** `"Country"` orders by the resolved country name ignoring case. */
  lemma SortByCountryIgnoresCase(ps: seq<PersonResponse>, order: SortOrderOptions)
    ensures var r := GetSortedPersons(ps, Some("Country"), order);
      forall i, j :: 0 <= i < j < |r| ==>
        if order == DESC then IgnoreCaseInOrder(r[j].country, r[i].country)
        else IgnoreCaseInOrder(r[i].country, r[j].country)
  {
    assert SortKeyOf("Country", order) == Some((CountryIgnoreCase, order == DESC));
    SortedIgnoringCase(CountryIgnoreCase, (p: PersonResponse) => p.country, order == DESC,
                       GetSortedPersons(ps, Some("Country"), order));
  }

  /** `"Address"` orders by the address ignoring case. */
  lemma SortByAddressIgnoresCase(ps: seq<PersonResponse>, order: SortOrderOptions)
    ensures var r := GetSortedPersons(ps, Some("Address"), order);
      forall i, j :: 0 <= i < j < |r| ==>
        if order == DESC then IgnoreCaseInOrder(r[j].address, r[i].address)
        else IgnoreCaseInOrder(r[i].address, r[j].address)
  {
    assert SortKeyOf("Address", order) == Some((AddressIgnoreCase, order == DESC));
    SortedIgnoringCase(AddressIgnoreCase, (p: PersonResponse) => p.address, order == DESC,
                       GetSortedPersons(ps, Some("Address"), order));
  }

  /** `"DateOfBirth"` orders by date, null first when ascending. */
  lemma SortByDateOfBirth(ps: seq<PersonResponse>, order: SortOrderOptions)
    ensures var r := GetSortedPersons(ps, Some("DateOfBirth"), order);
      forall i, j :: 0 <= i < j < |r| ==>
        if order == DESC then ValueInOrder(r[j].dateOfBirth, r[i].dateOfBirth, OnOrBefore)
        else ValueInOrder(r[i].dateOfBirth, r[j].dateOfBirth, OnOrBefore)
  {
    var r := GetSortedPersons(ps, Some("DateOfBirth"), order);
    assert SortKeyOf("DateOfBirth", order) == Some((DateOfBirth, order == DESC));
    forall i, j | 0 <= i < j < |r|
      ensures if order == DESC then ValueInOrder(r[j].dateOfBirth, r[i].dateOfBirth, OnOrBefore)
              else ValueInOrder(r[i].dateOfBirth, r[j].dateOfBirth, OnOrBefore)
    {
      assert Precedes(DateOfBirth, order == DESC, r[i], r[j]);
    }
  }

  /** `"ReceiveNewsLetters"` puts `false` before `true` when ascending. */
  lemma SortByReceiveNewsLetters(ps: seq<PersonResponse>, order: SortOrderOptions)
    ensures var r := GetSortedPersons(ps, Some("ReceiveNewsLetters"), order);
      forall i, j :: 0 <= i < j < |r| ==>
        if order == DESC then !r[j].receiveNewsLetters || r[i].receiveNewsLetters
        else !r[i].receiveNewsLetters || r[j].receiveNewsLetters
  {
    var r := GetSortedPersons(ps, Some("ReceiveNewsLetters"), order);
    assert SortKeyOf("ReceiveNewsLetters", order) == Some((ReceiveNewsLetters, order == DESC));
    forall i, j | 0 <= i < j < |r|
      ensures if order == DESC then !r[j].receiveNewsLetters || r[i].receiveNewsLetters
              else !r[i].receiveNewsLetters || r[j].receiveNewsLetters
    {
      assert Precedes(ReceiveNewsLetters, order == DESC, r[i], r[j]);
    }
  }

  /** `("Age", ASC)` orders by age, null first. */
  lemma SortByAgeAscending(ps: seq<PersonResponse>)
    ensures var r := GetSortedPersons(ps, Some("Age"), ASC);
      forall i, j :: 0 <= i < j < |r| ==> ValueInOrder(r[i].age, r[j].age, (x: int, y: int) => x <= y)
  {
    var r := GetSortedPersons(ps, Some("Age"), ASC);
    assert SortKeyOf("Age", ASC) == Some((Age, false));
    forall i, j | 0 <= i < j < |r|
      ensures ValueInOrder(r[i].age, r[j].age, (x: int, y: int) => x <= y)
    {
      assert Precedes(Age, false, r[i], r[j]);
    }
  }

  /** `("Age", DESC)` orders by the person's name, descending and case-sensitive. */
  lemma SortByAgeDescendingUsesName(ps: seq<PersonResponse>)
    ensures var r := GetSortedPersons(ps, Some("Age"), DESC);
      forall i, j :: 0 <= i < j < |r| ==> OrdinalInOrder(r[j].personName, r[i].personName)
  {
    var r := GetSortedPersons(ps, Some("Age"), DESC);
    forall i, j | 0 <= i < j < |r|
      ensures OrdinalInOrder(r[j].personName, r[i].personName)
    {
      assert Precedes(PersonNameDefault, true, r[i], r[j]);
      TextKeyOrder(r[j].personName, r[i].personName);
    }
  }

  /** After `AddPerson`, looking the returned id up gives back the returned view. */
  lemma AddedPersonIsFound(svc: PersonsService, request: PersonAddRequests.PersonAddRequest,
                           freshID: Guid, ageOf: Date -> int)
    requires freshID != EmptyGuid && !HasID(svc.persons, freshID)
    requires AddPerson(svc, Some(request), freshID, ageOf).Ok?
    ensures var (after, response) := AddPerson(svc, Some(request), freshID, ageOf).value;
      && GetPersonByPersonID(after, Some(response.personID), ageOf) == Some(response)
      && response in GetAllPersons(after, ageOf)
  {
    var (after, response) := AddPerson(svc, Some(request), freshID, ageOf).value;
    var n := |svc.persons|;
    assert forall j :: 0 <= j < n ==> after.persons[j] in svc.persons;
    assert FirstIndexOf(after.persons, freshID) == Some(n);
    assert GetAllPersons(after, ageOf)[n] == response;
  }

  /** After `UpdatePerson`, looking the id up gives the returned view. */
  lemma UpdatedPersonIsFound(svc: PersonsService, request: PersonUpdateRequests.PersonUpdateRequest,
                             ageOf: Date -> int)
    requires UpdatePerson(svc, Some(request), ageOf).Ok?
    ensures var (after, response) := UpdatePerson(svc, Some(request), ageOf).value;
      GetPersonByPersonID(after, Some(request.personID), ageOf) == Some(response)
  {
    var (after, response) := UpdatePerson(svc, Some(request), ageOf).value;
    var i := FirstIndexOf(svc.persons, request.personID).value;
    assert FirstIndexOf(after.persons, request.personID) == Some(i);
  }

  /** After deleting a known id, looking it up gives null. */
  lemma DeletedPersonIsGone(svc: PersonsService, id: Guid, ageOf: Date -> int)
    requires HasID(svc.persons, id)
    ensures var (after, deleted) := DeletePerson(svc, Some(id)).value;
      deleted && GetPersonByPersonID(after, Some(id), ageOf).None?
  {
  }

  /** A person just added can be deleted, which restores the persons stored before. */
  lemma AddedPersonCanBeDeleted(svc: PersonsService, request: PersonAddRequests.PersonAddRequest,
                                freshID: Guid, ageOf: Date -> int)
    requires freshID != EmptyGuid && !HasID(svc.persons, freshID)
    requires AddPerson(svc, Some(request), freshID, ageOf).Ok?
    ensures var after := AddPerson(svc, Some(request), freshID, ageOf).value.0;
      DeletePerson(after, Some(freshID)) == Ok((svc, true))
  {
    var after := AddPerson(svc, Some(request), freshID, ageOf).value.0;
    var p := after.persons[|svc.persons|];
    assert after.persons == svc.persons + [p];
    assert HasID(after.persons, freshID);
    RemoveAppended(svc.persons, p);
  }

  lemma RemoveAppended(s: seq<Person>, p: Person)
    requires !HasID(s, p.personID)
    ensures Filter(s + [p], Other(p.personID)) == s
  {
    FilterConcat(s, [p], Other(p.personID));
    FilterAll(s, Other(p.personID));
    FilterNone([p], Other(p.personID));
  }

  /** Adding under a fresh id keeps ids unique. */
  lemma AddPersonKeepsIDsUnique(svc: PersonsService, request: Option<PersonAddRequests.PersonAddRequest>,
                                freshID: Guid, ageOf: Date -> int)
    requires freshID != EmptyGuid && !HasID(svc.persons, freshID)
    requires UniqueIDs(svc.persons)
    requires AddPerson(svc, request, freshID, ageOf).Ok?
    ensures UniqueIDs(AddPerson(svc, request, freshID, ageOf).value.0.persons)
  {
    var after := AddPerson(svc, request, freshID, ageOf).value.0.persons;
    forall i, j | 0 <= i < j < |after|
      ensures after[i].personID != after[j].personID
    {
      assert after[i] == svc.persons[i];
      if j < |svc.persons| {
        assert after[j] == svc.persons[j];
      }
    }
  }

  /** Updating never changes an id, so ids stay unique. */
  lemma UpdatePersonKeepsIDsUnique(svc: PersonsService,
                                   request: Option<PersonUpdateRequests.PersonUpdateRequest>,
                                   ageOf: Date -> int)
    requires UniqueIDs(svc.persons)
    requires UpdatePerson(svc, request, ageOf).Ok?
    ensures UniqueIDs(UpdatePerson(svc, request, ageOf).value.0.persons)
  {
    var after := UpdatePerson(svc, request, ageOf).value.0.persons;
    assert forall k :: 0 <= k < |after| ==> after[k].personID == svc.persons[k].personID;
  }

  /** Deleting keeps ids unique. */
  lemma DeletePersonKeepsIDsUnique(svc: PersonsService, id: Option<Guid>)
    requires UniqueIDs(svc.persons)
    requires DeletePerson(svc, id).Ok?
    ensures UniqueIDs(DeletePerson(svc, id).value.0.persons)
  {
    if HasID(svc.persons, id.value) {
      FilterKeepsIDsUnique(svc.persons, Other(id.value));
    }
  }

  lemma {:induction false} FilterKeepsIDsUnique(s: seq<Person>, keep: Person -> bool)
    requires UniqueIDs(s)
    ensures UniqueIDs(Filter(s, keep))
  {
    if s != [] {
      var rest := Filter(s[1..], keep);
      FilterKeepsIDsUnique(s[1..], keep);
      if keep(s[0]) {
        var r := [s[0]] + rest;
        forall i, j | 0 <= i < j < |r|
          ensures r[i].personID != r[j].personID
        {
          if i == 0 {
            assert r[j] in rest;
            var k :| 0 <= k < |s[1..]| && s[1..][k] == r[j];
            assert s[k + 1] == r[j];
          } else {
            assert r[i] == rest[i - 1] && r[j] == rest[j - 1];
          }
        }
      }
    }
  }

  /** A view with only a name and an age, for the examples below. */
  function NamedAged(id: nat, name: string, age: int): PersonResponse {
    PersonResponse(Guid(id), Some(name), None, None, None, None, None, None, false, Some(age))
  }

  /**
   * `(Age, DESC)` as written orders by name, descending: of two persons aged
   * 40 ("Ann") and 20 ("Bob"), the younger comes first, so the ages come out
   * ascending.
   */
  lemma AgeDescendingOrdersByName()
    ensures var older := NamedAged(1, "Ann", 40);
            var younger := NamedAged(2, "Bob", 20);
            var r := GetSortedPersons([older, younger], Some("Age"), DESC);
      && r == [younger, older]
      && !IsSortedBy(Age, true, r)
  {
    var older := NamedAged(1, "Ann", 40);
    var younger := NamedAged(2, "Bob", 20);
    assert !Text.LexLe("Bob", "Ann");
    assert SortBy(PersonNameDefault, true, [younger]) == [younger];
    assert [older, younger][1..] == [younger];
    assert !Precedes(PersonNameDefault, true, older, younger);
    assert !Precedes(Age, true, younger, older);
  }

  /** With the intended `(Age, DESC)`, the same two persons come out oldest first. */
  lemma IntendedAgeDescendingOrdersByAge()
    ensures var older := NamedAged(1, "Ann", 40);
            var younger := NamedAged(2, "Bob", 20);
      GetSortedPersonsIntended([older, younger], Some("Age"), DESC) == [older, younger]
  {
    var older := NamedAged(1, "Ann", 40);
    var younger := NamedAged(2, "Bob", 20);
    assert SortBy(Age, true, [younger]) == [younger];
    assert [older, younger][1..] == [younger];
    assert Precedes(Age, true, older, younger);
  }
}
