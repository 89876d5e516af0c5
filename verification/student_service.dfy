/** The service layer: converts raw input into validated values and drives
    the repository. Each operation takes the repository state and returns
    the new state with the result; an `IllegalArgumentException` of the
    service or of the record's constructor becomes a `Failure`. */
module StudentService {
  import opened Wrappers
  import opened Chars
  import opened JavaInt
  import opened ValidationUtils
  import Departments
  import Statuses
  import opened Students
  import StudentRepo
  import opened StudentRepoInMemory

  /** Why `createStudent` threw, in the order it checks. */
  datatype CreateError =
    | InvalidDob
    | InvalidDepartment
    | InvalidStatus
    | SaveRejected(error: SaveError)

  /** The three conversions of `createStudent`, in its order: the date of
      birth, then the department code, then the status code. */
  function Convert(dobString: string, deptCode: NullableString, statusCode: NullableString)
    : (r: Result<(LocalDate, Departments.Department, Statuses.Status), CreateError>)
    ensures r == Failure(InvalidDob) <==> ParseDob(dobString).None?
    ensures r == Failure(InvalidDepartment) <==>
      ParseDob(dobString).Some? && Departments.FromCodeOptional(deptCode).None?
    ensures r == Failure(InvalidStatus) <==>
      ParseDob(dobString).Some? && Departments.FromCodeOptional(deptCode).Some? && Statuses.FromCode(statusCode).None?
    ensures r.Failure? ==> !r.error.SaveRejected?
    ensures r.Success? ==>
      && ParseDob(dobString) == Some(r.value.0)
      && Departments.FromCodeOptional(deptCode) == Some(r.value.1)
      && Statuses.FromCode(statusCode) == Some(r.value.2)
  {
    match ParseDob(dobString)
    case None => Failure(InvalidDob)
    case Some(dob) =>
      match Departments.FromCodeOptional(deptCode)
      case None => Failure(InvalidDepartment)
      case Some(department) =>
        match Statuses.FromCode(statusCode)
        case None => Failure(InvalidStatus)
        case Some(status) => Success((dob, department, status))
  }

  /** `createStudent`: convert the raw inputs, then save. A failing
      conversion stops before the repository is touched, with the error of
      the first conversion that failed; otherwise the result is that of
      `save`, its error wrapped. */
  function CreateStudent(r: Repo, name: NullableString, email: NullableString, phone: NullableString,
                         dobString: string, address: NullableString,
                         deptCode: NullableString, statusCode: NullableString)
    : (out: (Repo, Result<Student, CreateError>))
    ensures var c := Convert(dobString, deptCode, statusCode);
      c.Failure? ==> out == (r, Failure(c.error))
    ensures var c := Convert(dobString, deptCode, statusCode);
      c.Success? ==>
      var saved := Save(r, name, email, phone, c.value.0, address, c.value.1, c.value.2);
      && out.0 == saved.0
      && (saved.1.Success? <==> out.1.Success?)
      && (saved.1.Success? ==> out.1.value == saved.1.value)
      && (saved.1.Failure? ==> out.1.error == SaveRejected(saved.1.error))
    ensures out.1.Failure? ==> out.0.students == r.students
    ensures Inv(r) ==> Inv(out.0)
  {
    match Convert(dobString, deptCode, statusCode)
    case Failure(e) => (r, Failure(e))
    case Success((dob, department, status)) =>
      var saved := Save(r, name, email, phone, dob, address, department, status);
      if saved.1.Success? then (saved.0, Success(saved.1.value))
      else (saved.0, Failure(SaveRejected(saved.1.error)))
  }

  /** `.flatMap(studentRepo::update)` after a `with…` call: a rejected field
      leaves the state alone, a derived record replaces the stored one. */
  function Persist(r: Repo, derived: Result<Student, Field>): (out: (Repo, Result<Option<Student>, Field>))
    ensures derived.Failure? ==> out == (r, Failure(derived.error))
    ensures derived.Success? && derived.value.id in r.students ==>
      out == (r.(students := r.students[derived.value.id := derived.value]), Success(Some(derived.value)))
    ensures derived.Success? && Inv(r) && Valid(derived.value) ==> Inv(out.0)
  {
    match derived
    case Failure(f) => (r, Failure(f))
    case Success(s) =>
      var (r', updated) := Update(r, s);
      (r', Success(updated))
  }

  /** `updateStudentName`: find, rebuild with the new name, store. */
  function UpdateStudentName(r: Repo, id: int32, newName: NullableString)
    : (out: (Repo, Result<Option<Student>, Field>))
    ensures id !in r.students ==> out == (r, Success(None))
    ensures Inv(r) && id in r.students && !IsValidName(newName) ==> out == (r, Failure(NameField))
    ensures Inv(r) && id in r.students && IsValidName(newName) ==>
      var s := r.students[id].(name := newName.value);
      out == (r.(students := r.students[id := s]), Success(Some(s)))
    ensures Inv(r) ==> Inv(out.0)
  {
    match FindById(r, id)
    case None => (r, Success(None))
    case Some(s) => Persist(r, WithName(s, newName))
  }

  /** `updateStudentEmail`: the stored e-mail is the normalised one. */
  function UpdateStudentEmail(r: Repo, id: int32, newEmail: NullableString)
    : (out: (Repo, Result<Option<Student>, Field>))
    ensures id !in r.students ==> out == (r, Success(None))
    ensures Inv(r) && id in r.students && !IsValidEmail(newEmail) ==> out == (r, Failure(EmailField))
    ensures Inv(r) && id in r.students && IsValidEmail(newEmail) ==>
      var s := r.students[id].(email := NormalizeEmail(newEmail).value);
      out == (r.(students := r.students[id := s]), Success(Some(s)))
    ensures Inv(r) ==> Inv(out.0)
  {
    match FindById(r, id)
    case None => (r, Success(None))
    case Some(s) => Persist(r, WithEmail(s, newEmail))
  }

  /** `updateStudentPhone`: the stored phone is the normalised one. */
  function UpdateStudentPhone(r: Repo, id: int32, newPhone: NullableString)
    : (out: (Repo, Result<Option<Student>, Field>))
    ensures id !in r.students ==> out == (r, Success(None))
    ensures Inv(r) && id in r.students && !IsValidPhone(newPhone) ==> out == (r, Failure(PhoneField))
    ensures Inv(r) && id in r.students && IsValidPhone(newPhone) ==>
      var s := r.students[id].(phone := NormalizePhone(newPhone).value);
      out == (r.(students := r.students[id := s]), Success(Some(s)))
    ensures Inv(r) ==> Inv(out.0)
  {
    match FindById(r, id)
    case None => (r, Success(None))
    case Some(s) => Persist(r, WithPhone(s, newPhone))
  }

  /** `updateStudentAddress`: any address, null included, is accepted. */
  function UpdateStudentAddress(r: Repo, id: int32, newAddress: NullableString)
    : (out: (Repo, Result<Option<Student>, Field>))
    ensures id !in r.students ==> out == (r, Success(None))
    ensures Inv(r) && id in r.students ==>
      var s := r.students[id].(address := newAddress);
      out == (r.(students := r.students[id := s]), Success(Some(s)))
    ensures Inv(r) ==> Inv(out.0)
  {
    match FindById(r, id)
    case None => (r, Success(None))
    case Some(s) => Persist(r, WithAddress(s, newAddress))
  }

  /** `updateStudentDepartment`: an unknown code gives an empty result before
      the repository is consulted. */
  function UpdateStudentDepartment(r: Repo, id: int32, departmentCode: NullableString)
    : (out: (Repo, Result<Option<Student>, Field>))
    ensures Departments.FromCodeOptional(departmentCode).None? || id !in r.students ==> out == (r, Success(None))
    ensures Inv(r) && id in r.students && Departments.FromCodeOptional(departmentCode).Some? ==>
      var s := r.students[id].(department := Departments.FromCodeOptional(departmentCode).value);
      && out == (r.(students := r.students[id := s]), Success(Some(s)))
      && EqualsIgnoreCase(Departments.Code(s.department), departmentCode)
    ensures Inv(r) ==> Inv(out.0)
  {
    match Departments.FromCodeOptional(departmentCode)
    case None => (r, Success(None))
    case Some(department) =>
      match FindById(r, id)
      case None => (r, Success(None))
      case Some(s) => Persist(r, WithDepartment(s, department))
  }

  /** `updateStudentStatus`: an unknown code gives an empty result before the
      repository is consulted. */
  function UpdateStudentStatus(r: Repo, id: int32, statusCode: NullableString)
    : (out: (Repo, Result<Option<Student>, Field>))
    ensures Statuses.FromCode(statusCode).None? || id !in r.students ==> out == (r, Success(None))
    ensures Inv(r) && id in r.students && Statuses.FromCode(statusCode).Some? ==>
      var s := r.students[id].(status := Statuses.FromCode(statusCode).value);
      && out == (r.(students := r.students[id := s]), Success(Some(s)))
      && EqualsIgnoreCase(Statuses.Code(s.status), statusCode)
    ensures Inv(r) ==> Inv(out.0)
  {
    match Statuses.FromCode(statusCode)
    case None => (r, Success(None))
    case Some(status) =>
      match FindById(r, id)
      case None => (r, Success(None))
      case Some(s) => Persist(r, WithStatus(s, status))
  }

  /** `deleteStudentById`: delegates to the repository. */
  function DeleteStudentById(r: Repo, id: int32): (out: (Repo, bool))
    ensures out.1 <==> id in r.students
    ensures out.0.students == r.students - {id} && out.0.idCounter == r.idCounter
    ensures Inv(r) ==> Inv(out.0)
  {
    DeleteById(r, id)
  }

  /** `findStudentById`: delegates to the repository. */
  function FindStudentById(r: Repo, id: int32): (found: Option<Student>)
    ensures found.Some? <==> id in r.students
    ensures found.Some? ==> found.value == r.students[id]
  {
    FindById(r, id)
  }

  /** `findAllStudents`: delegates to the repository. */
  method FindAllStudents(r: Repo) returns (all: seq<Student>)
    ensures |all| == |r.students|
    ensures forall s :: s in all <==> s in r.students.Values
    ensures exists keys :: StudentRepo.EnumeratesValues(r.students, all, keys)
  {
    all := FindAll(r);
  }

  // -------------------------------------------------------------------
  // Properties across operations
  // -------------------------------------------------------------------

  /** `createStudent` succeeds exactly when every conversion succeeds, the
      id space is not used up and the record's constructor accepts the
      fields. */
  lemma CreateStudentSucceedsIff(r: Repo, name: NullableString, email: NullableString, phone: NullableString,
                                 dobString: string, address: NullableString,
                                 deptCode: NullableString, statusCode: NullableString)
    ensures CreateStudent(r, name, email, phone, dobString, address, deptCode, statusCode).1.Success? <==>
      && ParseDob(dobString).Some? && Departments.FromCodeOptional(deptCode).Some?
      && Statuses.FromCode(statusCode).Some? && r.idCounter < MAX_INT
      && IsValidName(name) && IsValidEmail(email) && IsValidPhone(phone)
  {
    var c := Convert(dobString, deptCode, statusCode);
    if c.Success? {
      var saved := Save(r, name, email, phone, c.value.0, address, c.value.1, c.value.2);
      assert saved.1.Success? <==> r.idCounter < MAX_INT && IsValidName(name) && IsValidEmail(email) && IsValidPhone(phone);
    }
  }

  /** A created student is stored under its id and carries the converted
      values: a date that spells back to the input, a department and status
      whose codes match the inputs ignoring case, and the normalised
      contact fields. */
  lemma CreateStudentStores(r: Repo, name: NullableString, email: NullableString, phone: NullableString,
                            dobString: string, address: NullableString,
                            deptCode: NullableString, statusCode: NullableString)
    ensures var out := CreateStudent(r, name, email, phone, dobString, address, deptCode, statusCode);
      out.1.Success? ==>
        var s := out.1.value;
        && FindStudentById(out.0, s.id) == Some(s)
        && ParseDob(dobString) == Some(s.dob)
        && EqualsIgnoreCase(Departments.Code(s.department), deptCode)
        && EqualsIgnoreCase(Statuses.Code(s.status), statusCode)
        && Some(s.name) == name && Some(s.email) == NormalizeEmail(email)
        && Some(s.phone) == NormalizePhone(phone) && s.address == address
  {
    var out := CreateStudent(r, name, email, phone, dobString, address, deptCode, statusCode);
    if out.1.Success? {
      var s := out.1.value;
      var c := Convert(dobString, deptCode, statusCode);
      var saved := Save(r, name, email, phone, c.value.0, address, c.value.1, c.value.2);
      assert saved.1.Success? && saved.1.value == s;
      assert s.dob == c.value.0 && s.department == c.value.1 && s.status == c.value.2;
    }
  }

  /** The stored date of birth is the one the input spells: formatting it
      back gives the input string. */
  lemma CreatedDobSpellsInput(r: Repo, name: NullableString, email: NullableString, phone: NullableString,
                              dobString: string, address: NullableString,
                              deptCode: NullableString, statusCode: NullableString)
    ensures var out := CreateStudent(r, name, email, phone, dobString, address, deptCode, statusCode);
      out.1.Success? ==> IsFourDigitDate(out.1.value.dob) && FormatIsoDate(out.1.value.dob) == dobString
  {
    CreateStudentStores(r, name, email, phone, dobString, address, deptCode, statusCode);
  }

  /** An unknown department code means the repository is never asked to save,
      whatever the other inputs: the state is returned unchanged, with the
      date error if the date is also bad. */
  lemma UnknownDepartmentNeverSaves(r: Repo, name: NullableString, email: NullableString,
                                    phone: NullableString, dobString: string,
                                    address: NullableString, statusCode: NullableString)
    ensures var out := CreateStudent(r, name, email, phone, dobString, address, Some("MECH"), statusCode);
      out.0 == r && (out.1 == Failure(InvalidDob) || out.1 == Failure(InvalidDepartment))
  {
    Departments.FromCodeOptionalRejects();
  }

  /** After a successful name update the record is found under the same id
      with the new name and every other field as before. */
  lemma UpdateNameThenFind(r: Repo, id: int32, newName: NullableString)
    requires Inv(r) && id in r.students && IsValidName(newName)
    ensures var out := UpdateStudentName(r, id, newName);
      && out.1.Success? && out.1.value.Some?
      && FindStudentById(out.0, id) == out.1.value
      && out.1.value.value == r.students[id].(name := newName.value)
      && Inv(out.0)
  {
    var s := r.students[id].(name := newName.value);
    assert UpdateStudentName(r, id, newName) == (r.(students := r.students[id := s]), Success(Some(s)));
  }

  /** A name with `@` is rejected by the record's constructor, so the update
      fails and nothing is stored. */
  lemma UpdateNameRejectsAt(r: Repo, id: int32)
    requires Inv(r) && id in r.students
    ensures UpdateStudentName(r, id, Some("Invalid@Name")) == (r, Failure(NameField))
  {
    NameRejections();
  }
}
