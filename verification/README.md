# Persons and countries business logic, modelled in Dafny

This project models the business-logic layer of a CRUD web application that
manages **Person** records linked to **Country** reference data: the persons
service (add, list, look up, search, sort, update, delete), the countries
service (add with a name-uniqueness check, list, look up), the two person
request DTOs with their validation attributes and `ToPerson` mappings, and the
`CountryResponse` view with its value equality.

Everything is pure. A service is an immutable value holding its store as a
sequence (`Persons.PersonsService` holds the persons and the countries service
it resolves country names through; `Countries.CountriesService` holds the
country rows). Each operation is one atomic step returning an
`Errors.Result` and, for the writers, the new service value. A failure carries
no new state, so a failed call changes nothing. The source's exceptions become
`Errors.Error` constructors: `NullArgument` is the `ArgumentNullException`,
and every other constructor is an `ArgumentException`. A `null` result
(`Optional.None`) is a value, never an error.

Inputs the code takes from the outside world are parameters:
- fresh GUIDs, with a `requires` that they are non-empty and not yet stored;
- the age derived from a date of birth, an `ageOf: Date -> int` function that stands for the comparison with the current date.

Modules follow the source layout:
- `Entities`: `Person` and `Country`.
- `Enums`: `GenderOptions` and `SortOrderOptions`.
- `CountryDto`: `CountryResponse.cs`.
- `PersonAddRequests` and `PersonUpdateRequests`: the two request DTOs.
- `PersonResponses`: the person view.
- `Countries`: `CountriesService.cs`.
- `Persons`: `PersonsService.cs`.
- Helpers from the .NET base library: `Text` (null/empty/white-space tests, ordinal-ignore-case `Contains` and comparison), `Dates` (calendar dates, `"dd MM yyyy"`), `Validation` (`[Required]`, `[EmailAddress]`).
- `Seqs`: `Filter`, which models both the LINQ `Where` used by search and the `List.RemoveAll` used by delete (as `Filter` with the predicate negated).
- `Sorting`: the stable `OrderBy`/`OrderByDescending` used by sort.

Points where the code's behaviour may be unexpected:
- `AddCountry` rejects only a null name. An empty name is accepted.
- `GetAllCountries` returns the stored rows in store order.
- `[Required]` on a string rejects null, empty and white-space-only text. This is the .NET attribute's rule, not just a null check.
- Search recognises the key `"CountryID"` and matches it against the resolved country name. Sort recognises `"Country"` instead.
- `UpdatePerson` validates before it looks the id up. A request with an unknown id and a missing name therefore fails validation, not the id check.
- `UpdatePerson` overwrites the first person with the id (`FirstOrDefault`). `DeletePerson` removes every person with it (`RemoveAll`). When ids are unique, the two readings agree, and every writer keeps ids unique.
- The constructor `PersonsService(initialize = true)` seeds five persons, so the default-constructed service is not empty.

Source files this model needs but that are not part of it:
- `ValidationHelper` is not part of this model. Validation is modelled as the list of every violated constraint, in property declaration order, carried by `ValidationFailed`.
- `PersonResponse.cs` is not part of this model. `ToPersonResponse` is taken to copy the stored fields and derive the age, and view equality is taken to be equality of all fields.
- `CountryAddRequest.cs` is not part of this model. `ToCountry` is taken to copy the name.

## Model

| member | source | states |
|---|---|---|
| `Persons.Initial` | Services/PersonsService.cs:16-83 | With `initialize` the store holds five seed persons with pairwise distinct ids; without it the store is empty |
| `Persons.ConvertPersonIntoPersonResponse` | Services/PersonsService.cs:85-91 | The view has the person's stored fields. When the person's country id is stored, its country is that country's name. It is null when the id is null or unknown |
| `Persons.AddPerson` | Services/PersonsService.cs:93-115 | Null request: `ArgumentNullException`. Invalid request: failure listing every violation (never an empty list). It succeeds exactly for a valid request; the store then grows by one, earlier entries and the countries are unchanged, the new entry is the request's entity under the fresh non-empty id, and the result is its view |
| `Persons.GetAllPersons` | Services/PersonsService.cs:117-120 | One view per stored person, same length and order |
| `Persons.GetPersonByPersonID` | Services/PersonsService.cs:122-137 | Null for a null id and for an id no stored person has (never a failure); otherwise the view of the first person with that id |
| `Persons.AddedPersonIsFound` | Services/PersonsService.cs:93-137 | After a successful add, looking up the returned id yields a value equal to the add result, and the result is among all persons |
| `Persons.SearchFieldOf` | Services/PersonsService.cs:149-177 | Exactly `PersonName`, `Email`, `DateOfBirth`, `Gender`, `CountryID`, `Address` are recognised search keys, and `CountryID` selects the country-name field |
| `Persons.GetFilteredPersons` | Services/PersonsService.cs:139-181 | A null/empty key, a null/empty search text or an unrecognised key returns all persons in store order; otherwise the result is an order-preserving subsequence of all persons holding each person exactly as often as it occurs when it matches and not at all when it does not |
| `Persons.MatchesIffFieldTextMatches` | Services/PersonsService.cs:152-172 | For every field, a person is kept iff the field's text is null or empty or contains the search text ignoring case; the date of birth is matched as its `"dd MM yyyy"` rendering |
| `Persons.SearchKeysSelectNamedFields` | Services/PersonsService.cs:149-178 | Each recognised search key matches on the property it names. `"CountryID"` matches on the country's name. The date of birth is matched as its `"dd MM yyyy"` text |
| `Persons.SearchIgnoresCase` | Services/PersonsService.cs:152 | Upper-casing the search text keeps exactly the same persons, for every field |
| `Persons.SearchByPersonNameKeepsMatchingNames` | Services/PersonsService.cs:151-153 | With a non-empty search text, searching by `"PersonName"` returns exactly the persons whose name is null, empty or contains the text ignoring case |
| `Text.ContainsIgnoreCaseFoldsCase` | Services/PersonsService.cs:152 | Upper-casing the text or the searched value does not change whether it is contained |
| `Persons.CountrySearchMatchesCountryName` | Services/PersonsService.cs:167-168 | Searching by `CountryID` keeps a person iff the name of the country its id resolves to is null/empty or contains the search text; the id itself is not matched |
| `Persons.SortKeyOf` | Services/PersonsService.cs:190-225 | Exactly the eight property names are recognised sort keys, the direction follows the sort order, and `(Age, DESC)` selects the person name with the default comparer |
| `Persons.GetSortedPersons` | Services/PersonsService.cs:183-228 | An empty or unrecognised key returns the input unchanged; otherwise the output is a permutation of the input, ordered by the selected key (non-decreasing for ASC, non-increasing for DESC, null lowest, texts upper-cased for ignore-case keys) and stable: persons with equal keys keep their input order |
| `Persons.SortByPersonNameIgnoresCase` | Services/PersonsService.cs:192-194 | `"PersonName"` orders the names ignoring case: nulls first and upper-cased names ordinally non-decreasing for ASC, the reverse for DESC |
| `Persons.SortByEmailIgnoresCase` | Services/PersonsService.cs:196-198 | `"Email"` orders the emails the same way, ignoring case |
| `Persons.SortByDateOfBirth` | Services/PersonsService.cs:200-202 | `"DateOfBirth"` orders by date: nulls first and dates non-decreasing for ASC, the reverse for DESC |
| `Persons.SortByAgeAscending` | Services/PersonsService.cs:204 | `("Age", ASC)` orders by age, nulls first |
| `Persons.SortByAgeDescendingUsesName` | Services/PersonsService.cs:206 | As written, `("Age", DESC)` orders by the person's name, descending and case-sensitive |
| `Persons.SortByGenderIgnoresCase` | Services/PersonsService.cs:208-210 | `"Gender"` orders the gender texts ignoring case |
| `Persons.SortByCountryIgnoresCase` | Services/PersonsService.cs:212-214 | `"Country"` orders the resolved country names ignoring case |
| `Persons.SortByAddressIgnoresCase` | Services/PersonsService.cs:216-218 | `"Address"` orders the addresses ignoring case |
| `Persons.SortByReceiveNewsLetters` | Services/PersonsService.cs:220-222 | `"ReceiveNewsLetters"` puts `false` before `true` for ASC, the reverse for DESC |
| `Persons.AgeDescendingOrdersByName` | Services/PersonsService.cs:206 | As written, `(Age, DESC)` puts "Bob" (20) before "Ann" (40), so ages come out ascending and the result is not sorted by age descending |
| `Persons.GetSortedPersonsIntended` | Services/PersonsService.cs:204-206 | With the key `Age` both directions give a permutation sorted by age (descending for DESC), stable on equal ages; every other key behaves as `GetSortedPersons` |
| `Persons.IntendedAgeDescendingOrdersByAge` | Services/PersonsService.cs:206 | With the corrected case, the same two persons come out oldest first |
| `Persons.UpdatePerson` | Services/PersonsService.cs:230-256 | Null request: `ArgumentNullException`; invalid request: validation failure; unknown id: `ArgumentException`. It succeeds exactly for a valid request whose id is stored; the store length and countries are unchanged, the first person with the id becomes the request's entity (id kept, seven fields overwritten), every other person is untouched, and the result is its view |
| `Persons.UpdatedPersonIsFound` | Services/PersonsService.cs:239-255 | After a successful update, looking up the id yields the update's result |
| `Persons.DeletePerson` | Services/PersonsService.cs:258-275 | Null id: `ArgumentNullException`. Unknown id: `false`, same state. Known id: `true`; no entry with the id remains, the others keep their order and multiplicity, and the countries are unchanged |
| `Persons.DeletedPersonIsGone` | Services/PersonsService.cs:258-275 | After deleting a known id, the delete reports `true` and looking the id up gives null |
| `Persons.AddedPersonCanBeDeleted` | Services/PersonsService.cs:265-274 | Deleting a person just added reports `true` and restores the service as it was before the add |
| `Persons.AddPersonKeepsIDsUnique` | Services/PersonsService.cs:107-111 | Adding under a fresh id keeps all stored ids distinct |
| `Persons.UpdatePersonKeepsIDsUnique` | Services/PersonsService.cs:246-253 | Updating keeps all stored ids distinct, since no id changes |
| `Persons.DeletePersonKeepsIDsUnique` | Services/PersonsService.cs:272 | Deleting keeps all stored ids distinct |
| `PersonResponses.ToPersonResponse` | Services/PersonsService.cs:87 | The view copies every stored field, has no country name yet, and has an age exactly when there is a date of birth |
| `Sorting.SortBy` | Services/PersonsService.cs:192-222 | The sort returns a permutation of its input ordered by the key in the chosen direction |
| `Sorting.SortByIsStable` | Services/PersonsService.cs:192-222 | For every key value, the persons having it appear in the output in the same order as in the input |
| `Sorting.KeyLeTransitive` | Services/PersonsService.cs:192 | The comparers' order (null first, ordinal texts) is transitive |
| `Text.ContainsIgnoreCase` | Services/PersonsService.cs:152 | The scan answers true iff some window of the text equals the search text up to case |
| `Dates.FormatParsesBack` | Services/PersonsService.cs:160 | The `"dd MM yyyy"` rendering of a date reads back to the same date |
| `Dates.FormatInjective` | Services/PersonsService.cs:160 | Distinct dates render differently, so a date search sees each date as its own text |
| `Countries.AddCountry` | Services/CountriesService.cs:20-46 | Null request: `ArgumentNullException`; null name: `ArgumentException`; name already stored (exact match): `ArgumentException`. It succeeds exactly otherwise, appending the country under the fresh non-empty id and returning its view |
| `Countries.GetAllCountries` | Services/CountriesService.cs:48-53 | Maps the store one-to-one through `ToCountryResponse`: same length, same order |
| `Countries.GetCountryByCountryID` | Services/CountriesService.cs:55-70 | Null for a null id or an unknown id (never a failure); otherwise the view of a stored country with that id |
| `Countries.AddCountryKeepsNamesUnique` | Services/CountriesService.cs:34-43 | With `AddCountry` as the only writer, no two stored countries share a name |
| `Countries.AddedCountryIsListed` | Services/CountriesService.cs:39-53 | A country just added is in `GetAllCountries` |
| `Countries.AddedCountryIsFound` | Services/CountriesService.cs:39-70 | Looking up the new id yields the view `AddCountry` returned |
| `Countries.SecondAddOfSameNameFails` | Services/CountriesService.cs:34-37 | Adding the same name twice fails the second time with `ArgumentException`, whatever was stored before |
| `CountryDto.Equals` | ServiceContracts/DTO/CountryResponse.cs:16-31 | False for null and for an object of another runtime type; otherwise true iff the other view has the same id and name, i.e. is the same value |
| `CountryDto.EqualsIsEquivalence` | ServiceContracts/DTO/CountryResponse.cs:28-30 | `Equals` is reflexive, symmetric and transitive |
| `CountryDto.ToCountryResponse` | ServiceContracts/DTO/CountryResponse.cs:41-48 | The view has the country's id and name |
| `CountryDto.ToCountryResponseFaithful` | ServiceContracts/DTO/CountryResponse.cs:41-48 | Two countries' views are `Equals` iff the countries are equal |
| `CountryDto.ToCountry` | Services/CountriesService.cs:39 | The entity has the request's name and the empty id until the service assigns one |
| `PersonAddRequests.Violations` | ServiceContracts/DTO/PersonAddRequest.cs:13-32 | Reports a missing name, a missing email, a non-email-shaped email, a missing gender and a missing country id, each exactly when it occurs |
| `PersonAddRequests.IsValidMeans` | ServiceContracts/DTO/PersonAddRequest.cs:13-28 | Valid iff name, email (email-shaped), gender and country id are all present |
| `PersonAddRequests.OptionalFieldsUnconstrained` | ServiceContracts/DTO/PersonAddRequest.cs:21-32 | Date of birth, address and the newsletter flag never affect validity |
| `PersonAddRequests.ToPerson` | ServiceContracts/DTO/PersonAddRequest.cs:38-50 | Copies name, email, date of birth, address, country id and flag; stores gender as the option's name; leaves the id at `Guid.Empty` |
| `PersonAddRequests.ToPersonInjective` | ServiceContracts/DTO/PersonAddRequest.cs:38-50 | Distinct requests map to distinct entities, so storing gender as text loses nothing |
| `PersonUpdateRequests.Violations` | ServiceContracts/DTO/PersonUpdateRequest.cs:14-22 | Reports a missing name, a missing email and a non-email-shaped email, each exactly when it occurs, and nothing about gender or country |
| `PersonUpdateRequests.IsValidMeans` | ServiceContracts/DTO/PersonUpdateRequest.cs:17-22 | Valid iff the name is present and the email is present and email-shaped |
| `PersonUpdateRequests.OptionalFieldsUnconstrained` | ServiceContracts/DTO/PersonUpdateRequest.cs:14-30 | Id, gender, country id, date of birth and address never affect validity |
| `PersonUpdateRequests.ToPerson` | ServiceContracts/DTO/PersonUpdateRequest.cs:38-51 | Keeps the id and copies every other field; an absent gender becomes the empty text |
| `PersonUpdateRequests.ToPersonInjective` | ServiceContracts/DTO/PersonUpdateRequest.cs:38-51 | Distinct requests map to distinct entities |
| `Validation.EmailViolations` | ServiceContracts/DTO/PersonAddRequest.cs:16-19 | A required email reports "required" when null or blank, otherwise "invalid" when not email-shaped, and at most one of the two |
| `Validation.EmailShapedMeansOneInnerAt` | ServiceContracts/DTO/PersonAddRequest.cs:17 | The email check holds iff the text has exactly one `'@'`, neither first nor last |
| `Enums.GenderText` | ServiceContracts/DTO/PersonAddRequest.cs:45 | The text of a gender is empty exactly when the gender is null |
| `Enums.GenderTextParsesBack` | ServiceContracts/DTO/PersonUpdateRequest.cs:46 | Every gender text reads back to the option it came from |

## Findings

| source | as written | input that shows it | evidently intended | confidence | as-written member | corrected member |
|---|---|---|---|---|---|---|
| Services/PersonsService.cs:206 | `(Age, DESC)` orders by `PersonName` descending with the default string comparer | persons "Ann" aged 40 and "Bob" aged 20: the result is Bob, Ann, with ages ascending | order by `Age` descending, as `(Age, ASC)` orders by `Age` ascending | high, not executed | `Persons.AgeDescendingOrdersByName` | `Persons.GetSortedPersonsIntended` |

`Persons.GetSortedPersons` keeps the as-written behaviour. Whether the
`(Age, DESC)` case is deliberate is an open question for the system's owners.
`Persons.GetSortedPersonsIntended` is the alternative if it is not.

## Left out

- Controllers, MVC filters, routing, views, dependency injection and hosting: framework plumbing with no business rule.
  - The list filter resets a misspelt argument `"sesrchBy"`, so an unknown `searchBy` still reaches the service unchanged. The service treats it as a no-op.
  - The list filter offers the search field `"Country"`, which the service does not recognise.
- Asynchronous `Task` wrappers and concurrent access to the shared list: each operation is one atomic step. Two concurrent adds of the same country name can both pass the uniqueness check.
- Repository internals and Entity Framework, including `GetFilteredPersons(Expression)`: stores are plain sequences.
- GUID generation: fresh ids are parameters.
- Age computation against the current date: `ageOf` is a parameter.
- Time of day inside `DateTime`: dates are calendar dates, which is what the date-of-birth field holds.
- `Person` entity `[StringLength]` attributes: a database-schema concern that the validated request DTOs do not carry.
- `CountryResponse.GetHashCode`: it is reference-based and inconsistent with `Equals`.
- `ToString` formatting, and the message texts of the validation failures: violations are constructors, not messages.
- `Text.ContainsIgnoreCase`: case folding covers the ASCII letters only; the .NET ordinal-ignore-case rules for other scripts are not modelled.
- `Sorting.KeyLeTransitive`: the ignore-case order upper-cases ASCII letters only, for the same reason.
- `Persons.GetSortedPersons`: the `(Age, DESC)` case uses the culture-sensitive default string comparer; the model compares those names ordinally, because culture collation tables are outside the model.
- `Persons.SortByAgeDescendingUsesName`: states an ordinal, case-sensitive name order for `(Age, DESC)`; the source's default comparer is culture-sensitive, for the same reason.
- `Text.LexLe`: compares characters as Unicode scalar values, while .NET ordinal comparison works on UTF-16 code units. Names outside the Basic Multilingual Plane can therefore sort differently: .NET puts `"\U{1F600}"` before `"\U{FF21}"`, and the model puts it after. Dafny strings have no UTF-16 view.
- `Dates.FormatDdMmYyyy`: renders the year in the Gregorian calendar. `ToString("dd MM yyyy")` uses the current culture's calendar, so under a culture such as th-TH the year 1993 renders as 2536. Culture settings are outside the model.
- `Text.IsWhiteSpace`: lists the white-space characters of `char.IsWhiteSpace` explicitly rather than deriving them from Unicode categories.
