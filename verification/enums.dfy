/** `ServiceContracts.Enums`: the gender options and the sort direction. */
module Enums {
  import opened Optional

  datatype GenderOptions = Male | Female | Other

  datatype SortOrderOptions = ASC | DESC

  /** `gender.ToString()` on a `GenderOptions?`: the member name, or `""` for null. */
  function GenderText(gender: Option<GenderOptions>): (s: string)
    ensures s == "" <==> gender.None?
  {
    match gender
    case None => ""
    case Some(Male) => "Male"
    case Some(Female) => "Female"
    case Some(Other) => "Other"
  }

  /** Reads a stored gender text back into the enumeration. */
  function ParseGender(s: string): Option<GenderOptions> {
    if s == "Male" then Some(Male)
    else if s == "Female" then Some(Female)
    else if s == "Other" then Some(Other)
    else None
  }

  /** Storing a gender as text loses nothing: the text reads back to the option it came from. */
  lemma GenderTextParsesBack(gender: Option<GenderOptions>)
    ensures ParseGender(GenderText(gender)) == gender
  {
  }
}
