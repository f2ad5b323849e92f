/**
 * The orderings `GetSortedPersons` applies (LINQ `OrderBy` /
 * `OrderByDescending`, both stable) and a stable insertion sort that
 * realises them. Null property values sort lowest under every comparer;
 * `StringComparer.OrdinalIgnoreCase` compares the upper-cased texts
 * ordinally.
 */
module Sorting {
  import opened Optional
  import opened Dates
  import Text
  import opened Seqs
  import opened PersonResponses

  /** A comparable key value; `NullKey` is a null property. */
  datatype Key = NullKey | BoolKey(b: bool) | IntKey(i: int) | DateKey(d: Date) | TextKey(t: string)

  function Rank(k: Key): nat {
    match k
    case NullKey => 0
    case BoolKey(_) => 1
    case IntKey(_) => 2
    case DateKey(_) => 3
    case TextKey(_) => 4
  }

  /** The comparers' order: null first, `false` before `true`, numbers and dates ascending, texts ordinally. */
  predicate KeyLe(a: Key, b: Key) {
    if Rank(a) != Rank(b) then Rank(a) < Rank(b)
    else match (a, b)
      case (BoolKey(x), BoolKey(y)) => !x || y
      case (IntKey(x), IntKey(y)) => x <= y
      case (DateKey(x), DateKey(y)) => OnOrBefore(x, y)
      case (TextKey(x), TextKey(y)) => Text.LexLe(x, y)
      case _ => true
  }

  lemma KeyLeReflexive(a: Key)
    ensures KeyLe(a, a)
  {
    if a.TextKey? {
      Text.LexLeReflexive(a.t);
    }
  }

  lemma KeyLeTotal(a: Key, b: Key)
    ensures KeyLe(a, b) || KeyLe(b, a)
  {
    if a.TextKey? && b.TextKey? {
      Text.LexLeTotal(a.t, b.t);
    }
  }

  lemma KeyLeTransitive(a: Key, b: Key, c: Key)
    requires KeyLe(a, b) && KeyLe(b, c)
    ensures KeyLe(a, c)
  {
    if a.TextKey? && b.TextKey? && c.TextKey? {
      Text.LexLeTransitive(a.t, b.t, c.t);
    }
  }

  /** The property a sort orders by, together with the comparer it is compared with. */
  datatype Selector =
    | PersonNameIgnoreCase
    | PersonNameDefault
    | EmailIgnoreCase
    | DateOfBirth
    | Age
    | GenderIgnoreCase
    | CountryIgnoreCase
    | AddressIgnoreCase
    | ReceiveNewsLetters

  /** Key of a text property; ignoring case, texts are compared upper-cased. */
  function TextKeyOf(s: Option<string>, ignoreCase: bool): (k: Key)
    ensures s.None? <==> k == NullKey
  {
    match s
    case None => NullKey
    case Some(t) => TextKey(if ignoreCase then Text.Upper(t) else t)
  }

  function KeyOf(sel: Selector, p: PersonResponse): Key {
    match sel
    case PersonNameIgnoreCase => TextKeyOf(p.personName, true)
    case PersonNameDefault => TextKeyOf(p.personName, false)
    case EmailIgnoreCase => TextKeyOf(p.email, true)
    case DateOfBirth => if p.dateOfBirth.Some? then DateKey(p.dateOfBirth.value) else NullKey
    case Age => if p.age.Some? then IntKey(p.age.value) else NullKey
    case GenderIgnoreCase => TextKeyOf(p.gender, true)
    case CountryIgnoreCase => TextKeyOf(p.country, true)
    case AddressIgnoreCase => TextKeyOf(p.address, true)
    case ReceiveNewsLetters => BoolKey(p.receiveNewsLetters)
  }

  /** `a` may come before `b`: keys non-decreasing, or non-increasing when `descending`. */
  predicate Precedes(sel: Selector, descending: bool, a: PersonResponse, b: PersonResponse) {
    if descending then KeyLe(KeyOf(sel, b), KeyOf(sel, a)) else KeyLe(KeyOf(sel, a), KeyOf(sel, b))
  }

  lemma PrecedesTotal(sel: Selector, descending: bool, a: PersonResponse, b: PersonResponse)
    ensures Precedes(sel, descending, a, b) || Precedes(sel, descending, b, a)
  {
    KeyLeTotal(KeyOf(sel, a), KeyOf(sel, b));
  }

  lemma SameKeyPrecedes(sel: Selector, descending: bool, a: PersonResponse, b: PersonResponse)
    requires KeyOf(sel, a) == KeyOf(sel, b)
    ensures Precedes(sel, descending, a, b)
  {
    KeyLeReflexive(KeyOf(sel, a));
  }

  predicate IsSortedBy(sel: Selector, descending: bool, s: seq<PersonResponse>) {
    forall i, j :: 0 <= i < j < |s| ==> Precedes(sel, descending, s[i], s[j])
  }

  /** Selects the persons whose key is `k`. */
  function HasKey(sel: Selector, k: Key): PersonResponse -> bool {
    q => KeyOf(sel, q) == k
  }

  /** The persons of `s` whose key is `k`, in their order in `s`. */
  function Ties(sel: Selector, s: seq<PersonResponse>, k: Key): seq<PersonResponse> {
    Filter(s, HasKey(sel, k))
  }

  /** Places `x` before the first element it may precede, so it stays ahead of equal keys. */
  function Insert(sel: Selector, descending: bool, x: PersonResponse, s: seq<PersonResponse>)
    : (r: seq<PersonResponse>)
    requires IsSortedBy(sel, descending, s)
    ensures multiset(r) == multiset(s) + multiset{x}
    ensures IsSortedBy(sel, descending, r)
  {
    if s == [] then [x]
    else if Precedes(sel, descending, x, s[0]) then
      assert forall j :: 0 < j < |s| ==> Precedes(sel, descending, s[0], s[j]);
      PrecedesTransitiveFrom(sel, descending, x, s);
      [x] + s
    else
      var rest := Insert(sel, descending, x, s[1..]);
      HeadBeforeInserted(sel, descending, x, s, rest);
      [s[0]] + rest
  }

  /** When `x` goes behind the head of `s`, the head still leads the sorted result. */
  lemma HeadBeforeInserted(sel: Selector, descending: bool, x: PersonResponse,
                           s: seq<PersonResponse>, rest: seq<PersonResponse>)
    requires s != [] && IsSortedBy(sel, descending, s) && !Precedes(sel, descending, x, s[0])
    requires multiset(rest) == multiset(s[1..]) + multiset{x} && IsSortedBy(sel, descending, rest)
    ensures multiset([s[0]] + rest) == multiset(s) + multiset{x}
    ensures IsSortedBy(sel, descending, [s[0]] + rest)
  {
    PrecedesTotal(sel, descending, x, s[0]);
    assert s == [s[0]] + s[1..];
    var r := [s[0]] + rest;
    forall i, j | 0 <= i < j < |r|
      ensures Precedes(sel, descending, r[i], r[j])
    {
      if i == 0 {
        assert r[j] in multiset(rest);
        if r[j] != x {
          assert r[j] in s[1..];
        }
      } else {
        assert r[i] == rest[i - 1] && r[j] == rest[j - 1];
      }
    }
  }

  /** If `x` may precede the head of a sorted `s`, it may precede all of `s`. */
  lemma PrecedesTransitiveFrom(sel: Selector, descending: bool, x: PersonResponse, s: seq<PersonResponse>)
    requires s != [] && IsSortedBy(sel, descending, s) && Precedes(sel, descending, x, s[0])
    ensures forall j :: 0 <= j < |s| ==> Precedes(sel, descending, x, s[j])
  {
    forall j | 0 <= j < |s|
      ensures Precedes(sel, descending, x, s[j])
    {
      if j > 0 {
        if descending {
          KeyLeTransitive(KeyOf(sel, s[j]), KeyOf(sel, s[0]), KeyOf(sel, x));
        } else {
          KeyLeTransitive(KeyOf(sel, x), KeyOf(sel, s[0]), KeyOf(sel, s[j]));
        }
      }
    }
  }

  /** Stable insertion sort: a sorted permutation of `s`. */
  function SortBy(sel: Selector, descending: bool, s: seq<PersonResponse>): (r: seq<PersonResponse>)
    ensures multiset(r) == multiset(s)
    ensures IsSortedBy(sel, descending, r)
  {
    if s == [] then []
    else
      assert s == [s[0]] + s[1..];
      Insert(sel, descending, s[0], SortBy(sel, descending, s[1..]))
  }

  /** Inserting keeps every group of equal keys in order, with `x` at the front of its group. */
  lemma {:induction false} InsertIsStable(sel: Selector, descending: bool, x: PersonResponse,
                                          s: seq<PersonResponse>, k: Key)
    requires IsSortedBy(sel, descending, s)
    ensures Ties(sel, Insert(sel, descending, x, s), k) == Ties(sel, [x] + s, k)
  {
    if s != [] && !Precedes(sel, descending, x, s[0]) {
      var rest := Insert(sel, descending, x, s[1..]);
      var keep := HasKey(sel, k);
      InsertIsStable(sel, descending, x, s[1..], k);
      FilterConsKeep(s[0], rest, keep);
      FilterConsKeep(x, s[1..], keep);
      FilterConsKeep(s[0], s[1..], keep);
      assert s == [s[0]] + s[1..];
      FilterConsKeep(x, s, keep);
      if KeyOf(sel, x) == KeyOf(sel, s[0]) {
        SameKeyPrecedes(sel, descending, x, s[0]);
      }
    }
  }

  /** The sort is stable: persons with equal keys keep their input order. */
  lemma {:induction false} SortByIsStable(sel: Selector, descending: bool, s: seq<PersonResponse>, k: Key)
    ensures Ties(sel, SortBy(sel, descending, s), k) == Ties(sel, s, k)
  {
    if s != [] {
      var sorted := SortBy(sel, descending, s[1..]);
      SortByIsStable(sel, descending, s[1..], k);
      InsertIsStable(sel, descending, s[0], sorted, k);
      FilterConsKeep(s[0], sorted, HasKey(sel, k));
      FilterConsKeep(s[0], s[1..], HasKey(sel, k));
      assert s == [s[0]] + s[1..];
    }
  }

  lemma SortByIsStableForAllKeys(sel: Selector, descending: bool, s: seq<PersonResponse>)
    ensures forall k :: Ties(sel, SortBy(sel, descending, s), k) == Ties(sel, s, k)
  {
    forall k {
      SortByIsStable(sel, descending, s, k);
    }
  }
}
