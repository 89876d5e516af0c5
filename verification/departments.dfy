/** The closed vocabulary of academic departments: a short code, the
    symbolic constant name and a display name per member. */
module Departments {
  import opened Wrappers
  import opened Chars
  import Vocabulary

  /** The members, in declaration order. */
  datatype Department = CSE | AI | ML | ECE | EE | ME | CE | IT | CHE | BT | AE

  /** `Departments.values()`: every member, in declaration order. */
  const Values: seq<Department> := [CSE, AI, ML, ECE, EE, ME, CE, IT, CHE, BT, AE]

  /** `name()`: the symbolic name of the constant. */
  function Name(d: Department): string {
    match d
    case CSE => "CSE"
    case AI => "AI"
    case ML => "ML"
    case ECE => "ECE"
    case EE => "EE"
    case ME => "ME"
    case CE => "CE"
    case IT => "IT"
    case CHE => "CHE"
    case BT => "BT"
    case AE => "AE"
  }

  /** `getCode()`: the short machine-readable code. */
  function Code(d: Department): string {
    match d
    case CSE => "CSE"
    case AI => "AI"
    case ML => "ML"
    case ECE => "ECE"
    case EE => "EE"
    case ME => "ME"
    case CE => "CE"
    case IT => "IT"
    case CHE => "CHE"
    case BT => "BT"
    case AE => "AE"
  }

  /** `getDisplayName()`: the human-readable name. */
  function DisplayName(d: Department): string {
    match d
    case CSE => "Computer Science & Engineering"
    case AI => "Artificial Intelligence"
    case ML => "Machine Learning"
    case ECE => "Electronics & Communication"
    case EE => "Electrical Engineering"
    case ME => "Mechanical Engineering"
    case CE => "Civil Engineering"
    case IT => "Information Technology"
    case CHE => "Chemical Engineering"
    case BT => "Biotechnology"
    case AE => "Aerospace Engineering"
  }

  /** `toString()` */
  function ToString(d: Department): string {
    DisplayName(d)
  }

  /** The position of a member in declaration order (`ordinal()`). */
  function Ordinal(d: Department): (i: nat)
    ensures i < |Values| && Values[i] == d
  {
    match d
    case CSE => 0
    case AI => 1
    case ML => 2
    case ECE => 3
    case EE => 4
    case ME => 5
    case CE => 6
    case IT => 7
    case CHE => 8
    case BT => 9
    case AE => 10
  }

  /** There are exactly eleven members, each listed once, each with a code
      that is its symbolic name, and no two codes equal even ignoring case. */
  lemma MembersAndCodes()
    ensures |Values| == 11
    ensures forall d :: d in Values
    ensures forall i, j :: 0 <= i < j < |Values| ==> Values[i] != Values[j]
    ensures forall d :: Code(d) == Name(d)
    ensures forall a, b :: a != b ==> !EqualsIgnoreCase(Code(a), Some(Code(b)))
  {
    forall d ensures d in Values {
      assert Values[Ordinal(d)] == d;
    }
    forall a, b | a != b
      ensures !EqualsIgnoreCase(Code(a), Some(Code(b)))
    {
      CodesDiffer(a, b);
    }
  }

  lemma CodesDiffer(a: Department, b: Department)
    requires a != b
    ensures !EqualsIgnoreCase(Code(a), Some(Code(b)))
  {
    var x, y := Code(a), Code(b);
    if |x| == |y| && ToLower(x[0]) == ToLower(y[0]) {
      assert ToLower(x[1]) != ToLower(y[1]);
    }
  }

  /** `fromCodeOptional`: the first member whose code or name equals the key
      ignoring case; empty for `null` and for unknown keys. */
  function FromCodeOptional(code: NullableString): (r: Option<Department>)
    ensures r.Some? ==> EqualsIgnoreCase(Code(r.value), code)
    ensures r.None? <==> forall d :: !EqualsIgnoreCase(Code(d), code)
  {
    LookupCoversAllMembers(code);
    Vocabulary.Lookup(Values, Code, Name, code)
  }

  lemma LookupCoversAllMembers(code: NullableString)
    ensures Vocabulary.Lookup(Values, Code, Name, code).None?
        <==> forall d :: !EqualsIgnoreCase(Code(d), code)
  {
    MembersAndCodes();
    if Vocabulary.Lookup(Values, Code, Name, code).None? {
      forall d ensures !EqualsIgnoreCase(Code(d), code) {
        assert !Vocabulary.KeyMatches(Code, Name, Values[Ordinal(d)], code);
      }
    }
  }

  /** The lookup returns a member exactly when the key is that member's code
      in any mix of upper and lower case. */
  lemma FromCodeOptionalIff(d: Department, key: NullableString)
    ensures FromCodeOptional(key) == Some(d) <==> EqualsIgnoreCase(Code(d), key)
  {
    MembersAndCodes();
    assert Vocabulary.CodesDistinct(Values, Code);
    Vocabulary.LookupByCode(Values, Code, Name, key, Ordinal(d));
  }

  /** Every member is found again from its own code. */
  lemma FromCodeOptionalOfCode(d: Department)
    ensures FromCodeOptional(Some(Code(d))) == Some(d)
  {
    FromCodeOptionalIff(d, Some(Code(d)));
  }

  /** `null`, the empty string and codes of no member find nothing. */
  lemma FromCodeOptionalRejects()
    ensures FromCodeOptional(None) == None
    ensures FromCodeOptional(Some("")) == None
    ensures FromCodeOptional(Some("MECH")) == None
  {
    assert forall d :: 2 <= |Code(d)| <= 3;
  }

  /** `toString` shows the display name. */
  lemma ToStringShowsDisplayName()
    ensures forall d :: ToString(d) == DisplayName(d)
    ensures ToString(CSE) == "Computer Science & Engineering"
  {
  }
}
