/** The lookup shared by the closed vocabularies: the first member, in
    declaration order, whose code or symbolic name equals the key ignoring
    case (`Arrays.stream(values()).filter(...).findFirst()`). */
module Vocabulary {
  import opened Wrappers
  import opened Chars

  /** The filter of the lookup: the key equals the member's code or its
      symbolic name, ignoring case. A `null` key matches nothing. */
  predicate KeyMatches<T>(code: T -> string, name: T -> string, m: T, key: NullableString) {
    EqualsIgnoreCase(code(m), key) || EqualsIgnoreCase(name(m), key)
  }

  /** Index of the first member the key matches. */
  function FirstMatch<T>(members: seq<T>, code: T -> string, name: T -> string, key: NullableString): (r: Option<nat>)
    ensures r.Some? ==> r.value < |members| && KeyMatches(code, name, members[r.value], key)
    ensures r.Some? ==> forall j :: 0 <= j < r.value ==> !KeyMatches(code, name, members[j], key)
    ensures r.None? ==> forall j :: 0 <= j < |members| ==> !KeyMatches(code, name, members[j], key)
  {
    if |members| == 0 then None
    else if KeyMatches(code, name, members[0], key) then Some(0)
    else match FirstMatch(members[1..], code, name, key)
      case None => None
      case Some(k) => Some(k + 1)
  }

  /** `findFirst` over the filtered stream of members. */
  function Lookup<T>(members: seq<T>, code: T -> string, name: T -> string, key: NullableString): (r: Option<T>)
    ensures r.Some? ==> r.value in members && KeyMatches(code, name, r.value, key)
    ensures r.Some? ==> exists k :: 0 <= k < |members| && members[k] == r.value
                                  && forall j :: 0 <= j < k ==> !KeyMatches(code, name, members[j], key)
    ensures r.None? <==> forall j :: 0 <= j < |members| ==> !KeyMatches(code, name, members[j], key)
  {
    match FirstMatch(members, code, name, key)
    case None => None
    case Some(k) => Some(members[k])
  }

  /** A member that the key matches, with no earlier member matching it, is
      what the lookup returns. */
  lemma LookupFinds<T>(members: seq<T>, code: T -> string, name: T -> string, key: NullableString, i: nat)
    requires i < |members| && KeyMatches(code, name, members[i], key)
    requires forall j :: 0 <= j < i ==> !KeyMatches(code, name, members[j], key)
    ensures Lookup(members, code, name, key) == Some(members[i])
  {
  }

  /** The codes of distinct members differ even ignoring case. */
  predicate CodesDistinct<T>(members: seq<T>, code: T -> string) {
    forall j, k :: 0 <= j < |members| && 0 <= k < |members| && j != k
      ==> !EqualsIgnoreCase(code(members[j]), Some(code(members[k])))
  }

  /** When each member's code is its symbolic name and codes differ ignoring
      case, the lookup returns a member exactly when the key is that member's
      code up to case. */
  lemma LookupByCode<T>(members: seq<T>, code: T -> string, name: T -> string, key: NullableString, i: nat)
    requires i < |members|
    requires forall j :: 0 <= j < |members| ==> code(members[j]) == name(members[j])
    requires CodesDistinct(members, code)
    ensures Lookup(members, code, name, key) == Some(members[i]) <==> EqualsIgnoreCase(code(members[i]), key)
  {
    if EqualsIgnoreCase(code(members[i]), key) {
      forall j | 0 <= j < i
        ensures !KeyMatches(code, name, members[j], key)
      {
        if KeyMatches(code, name, members[j], key) {
          EqualsIgnoreCaseTransitive(code(members[j]), code(members[i]), key);
        }
      }
      LookupFinds(members, code, name, key, i);
    }
  }
}
