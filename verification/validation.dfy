/**
 * The data-annotation checks that model validation runs over a request:
 * `[Required]` and `[EmailAddress]` as .NET defines them. A property whose
 * `[Required]` check fails reports only that failure; its other attributes
 * are not evaluated.
 */
module Validation {
  import opened Optional
  import Text

  /** One failed constraint, named after the property and attribute that reported it. */
  datatype Violation =
    | PersonNameRequired
    | EmailRequired
    | EmailInvalid
    | GenderRequired
    | CountryRequired

  /** `[Required]` on a string: null, empty and white-space-only values fail. */
  predicate RequiredText(s: Option<string>) {
    !Text.IsNullOrWhiteSpace(s)
  }

  /** `[Required]` on a nullable value type: only null fails. */
  predicate RequiredValue<T>(v: Option<T>) {
    v.Some?
  }

  /** Position of the first `'@'`, or `|s|` when there is none. */
  function IndexOfAt(s: string): (k: nat)
    ensures k <= |s|
    ensures k < |s| ==> s[k] == '@'
    ensures forall j :: 0 <= j < k ==> s[j] != '@'
  {
    if s == [] then 0
    else if s[0] == '@' then 0
    else 1 + IndexOfAt(s[1..])
  }

  /** Position of the last `'@'`, or `-1` when there is none. */
  function LastIndexOfAt(s: string): (k: int)
    ensures -1 <= k < |s|
    ensures k >= 0 ==> s[k] == '@'
    ensures forall j :: k < j < |s| ==> s[j] != '@'
  {
    if s == [] then -1
    else if s[|s| - 1] == '@' then |s| - 1
    else LastIndexOfAt(s[..|s| - 1])
  }

  /**
   * `EmailAddressAttribute.IsValid` on a non-null string: the first and the
   * last `'@'` coincide and sit neither at the start nor at the end.
   */
  predicate EmailShaped(s: string) {
    var first := IndexOfAt(s);
    0 < first && first != |s| - 1 && first == LastIndexOfAt(s)
  }

  /** The shape test means: exactly one `'@'`, with text on both sides of it. */
  lemma EmailShapedMeansOneInnerAt(s: string)
    ensures EmailShaped(s) <==>
      exists k :: 0 < k < |s| - 1 && s[k] == '@' && forall j :: 0 <= j < |s| && j != k ==> s[j] != '@'
  {
    var first := IndexOfAt(s);
    var last := LastIndexOfAt(s);
    if exists k :: 0 < k < |s| - 1 && s[k] == '@' && forall j :: 0 <= j < |s| && j != k ==> s[j] != '@' {
      var k :| 0 < k < |s| - 1 && s[k] == '@' && forall j :: 0 <= j < |s| && j != k ==> s[j] != '@';
      assert first == k;
      assert last == k;
    }
    if EmailShaped(s) {
      assert forall j :: 0 <= j < |s| && j != first ==> s[j] != '@';
    }
  }

  /** `[EmailAddress]`: null passes (it is `[Required]`'s business); a string must be email-shaped. */
  predicate EmailAddress(s: Option<string>) {
    s.None? || EmailShaped(s.value)
  }

  /** The failures reported for an `[Required, EmailAddress]` property. */
  function EmailViolations(email: Option<string>): (v: seq<Violation>)
    ensures v == [] <==> RequiredText(email) && EmailAddress(email)
    ensures EmailRequired in v <==> !RequiredText(email)
    ensures EmailInvalid in v <==> RequiredText(email) && !EmailAddress(email)
    ensures |v| <= 1
  {
    if !RequiredText(email) then [EmailRequired]
    else if !EmailAddress(email) then [EmailInvalid]
    else []
  }
}
