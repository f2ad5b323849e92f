/**
 * String helpers of the .NET base library that the services rely on:
 * `string.IsNullOrEmpty`, `string.IsNullOrWhiteSpace`, ordinal-ignore-case
 * `Contains` and `StringComparer.OrdinalIgnoreCase` ordering.
 * Case folding is modelled for ASCII letters only.
 */
module Text {
  import opened Optional

  predicate IsNullOrEmpty(s: Option<string>) {
    s.None? || s.value == ""
  }

  /** `char.IsWhiteSpace`: the separator categories Zs, Zl, Zp and the controls U+0009..U+000D, U+0085. */
  predicate IsWhiteSpace(c: char) {
    c == ' ' || ('\t' <= c <= '\r') || c == '\U{85}' || c == '\U{A0}' || c == '\U{1680}'
    || ('\U{2000}' <= c <= '\U{200A}') || c == '\U{2028}' || c == '\U{2029}'
    || c == '\U{202F}' || c == '\U{205F}' || c == '\U{3000}'
  }

  predicate IsNullOrWhiteSpace(s: Option<string>) {
    s.None? || forall i :: 0 <= i < |s.value| ==> IsWhiteSpace(s.value[i])
  }

  /** Upper-case folding used by the ordinal-ignore-case operations. */
  function UpperChar(c: char): (u: char)
    ensures 'a' <= c <= 'z' ==> u as int == c as int - 32
    ensures !('a' <= c <= 'z') ==> u == c
    ensures !('a' <= u <= 'z')
  {
    if 'a' <= c <= 'z' then (c as int - 32) as char else c
  }

  function Upper(s: string): (u: string)
    ensures |u| == |s|
    ensures forall i :: 0 <= i < |s| ==> u[i] == UpperChar(s[i])
  {
    if s == [] then [] else [UpperChar(s[0])] + Upper(s[1..])
  }

  lemma UpperIdempotent(s: string)
    ensures Upper(Upper(s)) == Upper(s)
  {
  }

  /** The two strings agree ignoring case at offset `i` of `text`. */
  predicate MatchesAt(text: string, value: string, i: int)
    requires 0 <= i <= |text| - |value|
  {
    Upper(text[i..i + |value|]) == Upper(value)
  }

  /**
   * `text.Contains(value, StringComparison.OrdinalIgnoreCase)`, scanning from
   * the left; its contract is the declarative meaning: some window of `text`
   * equals `value` up to case.
   */
  function ContainsIgnoreCase(text: string, value: string): (r: bool)
    ensures r <==> exists i :: 0 <= i <= |text| - |value| && MatchesAt(text, value, i)
    decreases |text|
  {
    if |value| > |text| then false
    else if MatchesAt(text, value, 0) then true
    else
      var rest := ContainsIgnoreCase(text[1..], value);
      WindowShift(text, value);
      rest
  }

  /** A window of `text[1..]` at `i` is the window of `text` at `i + 1`. */
  lemma WindowShift(text: string, value: string)
    requires 0 < |text| && |value| <= |text|
    ensures (exists i :: 0 <= i <= |text| - 1 - |value| && MatchesAt(text[1..], value, i))
        <==> (exists i :: 1 <= i <= |text| - |value| && MatchesAt(text, value, i))
  {
    forall i | 0 <= i <= |text| - 1 - |value|
      ensures MatchesAt(text[1..], value, i) <==> MatchesAt(text, value, i + 1)
    {
      assert text[1..][i..i + |value|] == text[i + 1..i + 1 + |value|];
    }
    if exists i :: 1 <= i <= |text| - |value| && MatchesAt(text, value, i) {
      var i :| 1 <= i <= |text| - |value| && MatchesAt(text, value, i);
      assert MatchesAt(text[1..], value, i - 1);
    }
  }

  /**
   * Containment ignoring case is blind to the case of either string:
   * upper-casing the text or the searched value changes nothing.
   */
  lemma ContainsIgnoreCaseFoldsCase(text: string, value: string)
    ensures ContainsIgnoreCase(text, Upper(value)) == ContainsIgnoreCase(text, value)
    ensures ContainsIgnoreCase(Upper(text), value) == ContainsIgnoreCase(text, value)
  {
    forall i | 0 <= i <= |text| - |value|
      ensures MatchesAt(text, Upper(value), i) == MatchesAt(text, value, i)
      ensures MatchesAt(Upper(text), value, i) == MatchesAt(text, value, i)
    {
      MatchesAtFoldsCase(text, value, i);
    }
  }

  lemma MatchesAtFoldsCase(text: string, value: string, i: int)
    requires 0 <= i <= |text| - |value|
    ensures MatchesAt(text, Upper(value), i) == MatchesAt(text, value, i)
    ensures MatchesAt(Upper(text), value, i) == MatchesAt(text, value, i)
  {
    MatchesAtUpperValue(text, value, i);
    MatchesAtUpperText(text, value, i);
  }

  lemma MatchesAtUpperValue(text: string, value: string, i: int)
    requires 0 <= i <= |text| - |value|
    ensures MatchesAt(text, Upper(value), i) == MatchesAt(text, value, i)
  {
    UpperIdempotent(value);
    MatchesAtSameFolding(text, Upper(value), value, i);
  }

  /** Two values of one length that upper-case alike match at the same offsets. */
  lemma MatchesAtSameFolding(text: string, v: string, v': string, i: int)
    requires |v| == |v'| && 0 <= i <= |text| - |v|
    requires Upper(v) == Upper(v')
    ensures MatchesAt(text, v, i) == MatchesAt(text, v', i)
  {
  }

  lemma MatchesAtUpperText(text: string, value: string, i: int)
    requires 0 <= i <= |text| - |value|
    ensures MatchesAt(Upper(text), value, i) == MatchesAt(text, value, i)
  {
    var w := text[i..i + |value|];
    UpperSlice(text, i, i + |value|);
    UpperIdempotent(w);
  }

  /** Upper-casing commutes with slicing. */
  lemma UpperSlice(s: string, i: int, j: int)
    requires 0 <= i <= j <= |s|
    ensures Upper(s)[i..j] == Upper(s[i..j])
  {
    assert forall k :: 0 <= k < j - i ==> Upper(s)[i..j][k] == Upper(s[i..j])[k];
  }

  /**
   * Ordinal lexicographic order on characters (Unicode scalar values); a
   * proper prefix comes first.
   */
  predicate LexLe(a: string, b: string)
    decreases |a|
  {
    a == [] || (b != [] && (a[0] < b[0] || (a[0] == b[0] && LexLe(a[1..], b[1..]))))
  }

  lemma {:induction false} LexLeReflexive(a: string)
    ensures LexLe(a, a)
    decreases |a|
  {
    if a != [] {
      LexLeReflexive(a[1..]);
    }
  }

  lemma {:induction false} LexLeTotal(a: string, b: string)
    ensures LexLe(a, b) || LexLe(b, a)
    decreases |a|
  {
    if a != [] && b != [] && a[0] == b[0] {
      LexLeTotal(a[1..], b[1..]);
    }
  }

  lemma {:induction false} LexLeTransitive(a: string, b: string, c: string)
    requires LexLe(a, b) && LexLe(b, c)
    ensures LexLe(a, c)
    decreases |a|
  {
    if a != [] && b != [] && c != [] && a[0] == b[0] && b[0] == c[0] {
      LexLeTransitive(a[1..], b[1..], c[1..]);
    }
  }
}
