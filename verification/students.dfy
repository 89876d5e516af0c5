/** The immutable student record. Its only constructor is a validating smart
    constructor; every `withX` derivation rebuilds through it. */
module Students {
  import opened Wrappers
  import opened Chars
  import opened JavaInt
  import opened ValidationUtils
  import opened Departments
  import opened Statuses

  /** The field whose check made the constructor throw `IllegalArgumentException`. */
  datatype Field = NameField | EmailField | PhoneField

  datatype Student = Student(
    id: int32,
    name: string,
    email: string,
    phone: string,
    dob: LocalDate,
    address: NullableString,
    department: Department,
    status: Status)

  /** The state every constructed student is in: a valid name, a valid
      e-mail already in normal form, a phone already in normal form. */
  predicate Valid(s: Student) {
    && IsValidName(Some(s.name))
    && IsValidEmail(Some(s.email))
    && NormalizeEmail(Some(s.email)) == Some(s.email)
    && MatchesPhone(s.phone)
  }

  /** The canonical constructor: checks the name, then the e-mail, then the
      phone, and stores the normalised e-mail and phone. The id, date of
      birth, address, department and status are stored as given. */
  function MkStudent(id: int32, name: NullableString, email: NullableString, phone: NullableString,
                     dob: LocalDate, address: NullableString, department: Department, status: Status)
    : (r: Result<Student, Field>)
    ensures r.Success? <==> IsValidName(name) && IsValidEmail(email) && IsValidPhone(phone)
    ensures r == Failure(NameField) <==> !IsValidName(name)
    ensures r == Failure(EmailField) <==> IsValidName(name) && !IsValidEmail(email)
    ensures r == Failure(PhoneField) <==> IsValidName(name) && IsValidEmail(email) && !IsValidPhone(phone)
    ensures r.Success? ==>
      && Valid(r.value)
      && r.value.id == id
      && Some(r.value.name) == name
      && Some(r.value.email) == NormalizeEmail(email)
      && Some(r.value.phone) == NormalizePhone(phone)
      && r.value.dob == dob && r.value.address == address
      && r.value.department == department && r.value.status == status
  {
    if !IsValidName(name) then Failure(NameField)
    else if !IsValidEmail(email) then Failure(EmailField)
    else if !IsValidPhone(phone) then Failure(PhoneField)
    else
      NormalisedContactIsValid(email, phone);
      Success(Student(id, name.value, NormalizeEmail(email).value, NormalizePhone(phone).value,
                      dob, address, department, status))
  }

  /** The normal forms of a valid e-mail and phone are valid and already normal. */
  lemma NormalisedContactIsValid(email: NullableString, phone: NullableString)
    requires IsValidEmail(email) && IsValidPhone(phone)
    ensures NormalizeEmail(email).Some? && NormalizePhone(phone).Some?
    ensures IsValidEmail(Some(NormalizeEmail(email).value))
    ensures NormalizeEmail(Some(NormalizeEmail(email).value)) == NormalizeEmail(email)
    ensures MatchesPhone(NormalizePhone(phone).value)
  {
    NormalizeValidEmail(email.value);
    NormalizeEmailIdempotent(email);
  }

  /** Normalisation is idempotent, so rebuilding a valid student from its own
      fields gives back the same student. */
  lemma RebuildIsIdentity(s: Student)
    requires Valid(s)
    ensures MkStudent(s.id, Some(s.name), Some(s.email), Some(s.phone),
                      s.dob, s.address, s.department, s.status) == Success(s)
  {
    MatchesPhoneIsNormal(s.phone);
  }

  /** `withName` */
  function WithName(s: Student, newName: NullableString): (r: Result<Student, Field>)
    ensures Valid(s) ==> (r.Success? <==> IsValidName(newName))
    ensures Valid(s) && !IsValidName(newName) ==> r == Failure(NameField)
    ensures Valid(s) && r.Success? ==> r.value == s.(name := newName.value) && SameEntity(r.value, s)
  {
    assert Valid(s) ==> IsValidPhone(Some(s.phone)) && NormalizePhone(Some(s.phone)) == Some(s.phone) by {
      if Valid(s) { MatchesPhoneIsNormal(s.phone); }
    }
    MkStudent(s.id, newName, Some(s.email), Some(s.phone), s.dob, s.address, s.department, s.status)
  }

  /** `withEmail` */
  function WithEmail(s: Student, newEmail: NullableString): (r: Result<Student, Field>)
    ensures Valid(s) ==> (r.Success? <==> IsValidEmail(newEmail))
    ensures Valid(s) && !IsValidEmail(newEmail) ==> r == Failure(EmailField)
    ensures Valid(s) && r.Success? ==>
      r.value == s.(email := NormalizeEmail(newEmail).value) && SameEntity(r.value, s)
  {
    assert Valid(s) ==> IsValidPhone(Some(s.phone)) && NormalizePhone(Some(s.phone)) == Some(s.phone) by {
      if Valid(s) { MatchesPhoneIsNormal(s.phone); }
    }
    MkStudent(s.id, Some(s.name), newEmail, Some(s.phone), s.dob, s.address, s.department, s.status)
  }

  /** `withPhone` */
  function WithPhone(s: Student, newPhone: NullableString): (r: Result<Student, Field>)
    ensures Valid(s) ==> (r.Success? <==> IsValidPhone(newPhone))
    ensures Valid(s) && !IsValidPhone(newPhone) ==> r == Failure(PhoneField)
    ensures Valid(s) && r.Success? ==>
      r.value == s.(phone := NormalizePhone(newPhone).value) && SameEntity(r.value, s)
  {
    MkStudent(s.id, Some(s.name), Some(s.email), newPhone, s.dob, s.address, s.department, s.status)
  }

  /** `withAddress`: never fails on a constructed student. */
  function WithAddress(s: Student, newAddress: NullableString): (r: Result<Student, Field>)
    ensures Valid(s) ==> r == Success(s.(address := newAddress))
  {
    assert Valid(s) ==> MkStudent(s.id, Some(s.name), Some(s.email), Some(s.phone),
                                  s.dob, s.address, s.department, s.status) == Success(s) by {
      if Valid(s) { RebuildIsIdentity(s); }
    }
    MkStudent(s.id, Some(s.name), Some(s.email), Some(s.phone), s.dob, newAddress, s.department, s.status)
  }

  /** `withDepartment`: never fails on a constructed student. */
  function WithDepartment(s: Student, newDepartment: Department): (r: Result<Student, Field>)
    ensures Valid(s) ==> r == Success(s.(department := newDepartment))
  {
    assert Valid(s) ==> MkStudent(s.id, Some(s.name), Some(s.email), Some(s.phone),
                                  s.dob, s.address, s.department, s.status) == Success(s) by {
      if Valid(s) { RebuildIsIdentity(s); }
    }
    MkStudent(s.id, Some(s.name), Some(s.email), Some(s.phone), s.dob, s.address, newDepartment, s.status)
  }

  /** `withStatus`: never fails on a constructed student. */
  function WithStatus(s: Student, newStatus: Status): (r: Result<Student, Field>)
    ensures Valid(s) ==> r == Success(s.(status := newStatus))
  {
    assert Valid(s) ==> MkStudent(s.id, Some(s.name), Some(s.email), Some(s.phone),
                                  s.dob, s.address, s.department, s.status) == Success(s) by {
      if Valid(s) { RebuildIsIdentity(s); }
    }
    MkStudent(s.id, Some(s.name), Some(s.email), Some(s.phone), s.dob, s.address, s.department, newStatus)
  }

  /** `equals`: the same entity exactly when the ids agree, whatever the
      other fields hold. */
  predicate SameEntity(a: Student, b: Student) {
    a.id == b.id
  }

  /** `hashCode`: `Integer.hashCode(id)`, which is the id itself. */
  function HashCode(s: Student): int32 {
    s.id
  }

  /** `equals` is an equivalence and `hashCode` agrees with it; records that
      differ in every other field are still equal when their ids agree. */
  lemma EqualsHashCodeContract(a: Student, b: Student, c: Student)
    ensures SameEntity(a, a)
    ensures SameEntity(a, b) ==> SameEntity(b, a)
    ensures SameEntity(a, b) && SameEntity(b, c) ==> SameEntity(a, c)
    ensures SameEntity(a, b) ==> HashCode(a) == HashCode(b)
    ensures SameEntity(a, a.(name := b.name, email := b.email, phone := b.phone, dob := b.dob,
                             address := b.address, department := b.department, status := b.status))
  {
  }
}
