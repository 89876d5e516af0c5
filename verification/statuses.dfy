/** The closed vocabulary of enrolment statuses: a code, the symbolic
    constant name and a display name per member. */
module Statuses {
  import opened Wrappers
  import opened Chars
  import Vocabulary

  /** The members, in declaration order. */
  datatype Status = ACTIVE | INACTIVE | GRADUATED | DROPPED

  /** `Status.values()`: every member, in declaration order. */
  const Values: seq<Status> := [ACTIVE, INACTIVE, GRADUATED, DROPPED]

  /** `name()`: the symbolic name of the constant. */
  function Name(s: Status): string {
    match s
    case ACTIVE => "ACTIVE"
    case INACTIVE => "INACTIVE"
    case GRADUATED => "GRADUATED"
    case DROPPED => "DROPPED"
  }

  /** `getCode()`: the machine-readable code. */
  function Code(s: Status): string {
    match s
    case ACTIVE => "ACTIVE"
    case INACTIVE => "INACTIVE"
    case GRADUATED => "GRADUATED"
    case DROPPED => "DROPPED"
  }

  /** `getDisplayName()`: the human-readable name. */
  function DisplayName(s: Status): string {
    match s
    case ACTIVE => "Active"
    case INACTIVE => "Inactive"
    case GRADUATED => "Graduated"
    case DROPPED => "Dropped"
  }

  /** `toString()` */
  function ToString(s: Status): string {
    DisplayName(s)
  }

  /** The position of a member in declaration order (`ordinal()`). */
  function Ordinal(s: Status): (i: nat)
    ensures i < |Values| && Values[i] == s
  {
    match s
    case ACTIVE => 0
    case INACTIVE => 1
    case GRADUATED => 2
    case DROPPED => 3
  }

  /** There are exactly four members, each listed once, each with a code
      that is its symbolic name, and no two codes equal even ignoring case. */
  lemma MembersAndCodes()
    ensures |Values| == 4
    ensures forall s :: s in Values
    ensures forall i, j :: 0 <= i < j < |Values| ==> Values[i] != Values[j]
    ensures forall s :: Code(s) == Name(s)
    ensures forall a, b :: a != b ==> !EqualsIgnoreCase(Code(a), Some(Code(b)))
  {
    forall s ensures s in Values {
      assert Values[Ordinal(s)] == s;
    }
  }

  lemma LookupCoversAllMembers(code: NullableString)
    ensures Vocabulary.Lookup(Values, Code, Name, code).None?
        <==> forall s :: !EqualsIgnoreCase(Code(s), code)
  {
    MembersAndCodes();
    if Vocabulary.Lookup(Values, Code, Name, code).None? {
      forall s ensures !EqualsIgnoreCase(Code(s), code) {
        assert !Vocabulary.KeyMatches(Code, Name, Values[Ordinal(s)], code);
      }
    }
  }

  /** `fromCode`: the first member whose code or name equals the key
      ignoring case; empty for `null` and for unknown keys. */
  function FromCode(code: NullableString): (r: Option<Status>)
    ensures r.Some? ==> EqualsIgnoreCase(Code(r.value), code)
    ensures r.None? <==> forall s :: !EqualsIgnoreCase(Code(s), code)
  {
    LookupCoversAllMembers(code);
    Vocabulary.Lookup(Values, Code, Name, code)
  }

  /** The lookup returns a member exactly when the key is that member's code
      in any mix of upper and lower case. */
  lemma FromCodeIff(s: Status, key: NullableString)
    ensures FromCode(key) == Some(s) <==> EqualsIgnoreCase(Code(s), key)
  {
    MembersAndCodes();
    assert Vocabulary.CodesDistinct(Values, Code);
    Vocabulary.LookupByCode(Values, Code, Name, key, Ordinal(s));
  }

  /** Every member is found again from its own code. */
  lemma FromCodeOfCode(s: Status)
    ensures FromCode(Some(Code(s))) == Some(s)
  {
    FromCodeIff(s, Some(Code(s)));
  }

  /** Lower case finds the member; `null` and the empty string find nothing. */
  lemma FromCodeExamples()
    ensures FromCode(Some("active")) == Some(ACTIVE)
    ensures FromCode(None) == None
    ensures FromCode(Some("")) == None
  {
    FromCodeIff(ACTIVE, Some("active"));
  }

  /** `toString` and `getDisplayName` show the display name. */
  lemma ToStringShowsDisplayName()
    ensures forall s :: ToString(s) == DisplayName(s)
    ensures ToString(GRADUATED) == "Graduated"
  {
  }
}
