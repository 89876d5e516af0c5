/** The in-memory backend: the stored records keyed by id plus the id
    counter. Every operation is a transition of that state; the write-through
    to the snapshot file is I/O and is not part of the state. */
module StudentRepoInMemory {
  import opened Wrappers
  import opened Chars
  import opened JavaInt
  import opened ValidationUtils
  import opened Departments
  import opened Statuses
  import opened Students
  import StudentRepo

  datatype Repo = Repo(students: map<int32, Student>, idCounter: int32)

  /** The counter value of an empty store: the first generated id is 101. */
  const INITIAL_COUNTER: int32 := 100

  /** Every record is stored under its own id. */
  predicate KeysAreIds(r: Repo) {
    forall k :: k in r.students ==> r.students[k].id == k
  }

  /** No stored id is above the counter, so the next id is fresh. */
  predicate KeysBelowCounter(r: Repo) {
    forall k :: k in r.students ==> k <= r.idCounter
  }

  /** Every stored record went through the validating constructor. */
  predicate AllValid(r: Repo) {
    forall k :: k in r.students ==> Valid(r.students[k])
  }

  predicate Inv(r: Repo) {
    KeysAreIds(r) && KeysBelowCounter(r) && AllValid(r)
  }

  // -------------------------------------------------------------------
  // Construction: load the snapshot, key it by id, start the counter
  // -------------------------------------------------------------------

  /** `Collectors.toMap` throws on a repeated key. */
  datatype LoadError = DuplicateKey

  predicate DistinctIds(ss: seq<Student>) {
    forall i, j :: 0 <= i < j < |ss| ==> ss[i].id != ss[j].id
  }

  /** `mapToInt(Student::id).max()` of a non-empty list. */
  function MaxId(ss: seq<Student>): (m: int32)
    requires |ss| > 0
    ensures forall i :: 0 <= i < |ss| ==> ss[i].id <= m
    ensures exists i :: 0 <= i < |ss| && ss[i].id == m
  {
    if |ss| == 1 then ss[0].id
    else
      var rest := MaxId(ss[1..]);
      assert forall i :: 1 <= i < |ss| ==> ss[i] == ss[1..][i - 1];
      if ss[0].id > rest then ss[0].id else rest
  }

  lemma SameIdSameStudent(ss: seq<Student>, a: Student, b: Student)
    requires DistinctIds(ss) && a in ss && b in ss && a.id == b.id
    ensures a == b
  {
    var i :| 0 <= i < |ss| && ss[i] == a;
    var j :| 0 <= j < |ss| && ss[j] == b;
  }

  /** The constructor: the loaded students keyed by id, and the counter at the
      largest loaded id, or at 100 when nothing was loaded. */
  function Load(initial: seq<Student>): (r: Result<Repo, LoadError>)
    ensures r.Failure? <==> !DistinctIds(initial)
    ensures r.Success? ==> forall s :: s in initial ==> s.id in r.value.students && r.value.students[s.id] == s
    ensures r.Success? ==> forall k :: k in r.value.students ==> r.value.students[k] in initial
    ensures r.Success? && |initial| == 0 ==> r.value.idCounter == INITIAL_COUNTER
    ensures r.Success? && |initial| > 0 ==>
      (exists s :: s in initial && s.id == r.value.idCounter)
      && forall s :: s in initial ==> s.id <= r.value.idCounter
    ensures r.Success? ==> KeysAreIds(r.value) && KeysBelowCounter(r.value)
  {
    if !DistinctIds(initial) then Failure(DuplicateKey)
    else
      var counter := if |initial| == 0 then INITIAL_COUNTER else MaxId(initial);
      Success(Repo(IndexById(initial), counter))
  }

  /** `Collectors.toMap(Student::id, Function.identity())` on distinct ids:
      each student keyed by its own id, and nothing else. */
  function IndexById(ss: seq<Student>): (m: map<int32, Student>)
    requires DistinctIds(ss)
    ensures forall s :: s in ss ==> s.id in m && m[s.id] == s
    ensures forall k :: k in m ==> m[k] in ss && m[k].id == k
  {
    assert forall a, b :: a in ss && b in ss && a.id == b.id ==> a == b by {
      forall a, b | a in ss && b in ss && a.id == b.id
        ensures a == b
      {
        SameIdSameStudent(ss, a, b);
      }
    }
    map s | s in ss :: s.id := s
  }

  /** Loading students that all went through the validating constructor
      gives a state satisfying the invariant. */
  lemma LoadKeepsInv(initial: seq<Student>)
    requires forall s :: s in initial ==> Valid(s)
    ensures Load(initial).Success? ==> Inv(Load(initial).value)
  {
  }

  // -------------------------------------------------------------------
  // save
  // -------------------------------------------------------------------

  /** Why `save` produced no student: the constructor rejected a field, or the
      id space is used up. */
  datatype SaveError = Invalid(field: Field) | IdsExhausted

  /** `save`, with the id counter checked before it is advanced: the counter
      moves to the next id, the constructor validates the fields, and a
      constructed student is stored under the new id. A rejected field still
      consumes the id. A counter already at `Integer.MAX_VALUE` gives no
      student and leaves the state as it was. */
  function Save(r: Repo, name: NullableString, email: NullableString, phone: NullableString,
                dob: LocalDate, address: NullableString, department: Department, status: Status)
    : (out: (Repo, Result<Student, SaveError>))
    ensures r.idCounter == MAX_INT ==> out == (r, Failure(IdsExhausted))
    ensures r.idCounter < MAX_INT ==> out.0.idCounter == r.idCounter + 1
    ensures out.1.Success? <==> r.idCounter < MAX_INT && IsValidName(name) && IsValidEmail(email) && IsValidPhone(phone)
    ensures out.1 == Failure(Invalid(NameField)) <==> r.idCounter < MAX_INT && !IsValidName(name)
    ensures out.1 == Failure(Invalid(EmailField)) <==>
      r.idCounter < MAX_INT && IsValidName(name) && !IsValidEmail(email)
    ensures out.1 == Failure(Invalid(PhoneField)) <==>
      r.idCounter < MAX_INT && IsValidName(name) && IsValidEmail(email) && !IsValidPhone(phone)
    ensures out.1.Failure? ==> out.0.students == r.students
    ensures out.1.Success? ==>
      var s := out.1.value;
      && s.id == out.0.idCounter
      && out.0.students == r.students[s.id := s]
      && Valid(s)
      && Some(s.name) == name && Some(s.email) == NormalizeEmail(email) && Some(s.phone) == NormalizePhone(phone)
      && s.dob == dob && s.address == address && s.department == department && s.status == status
    ensures Inv(r) ==> Inv(out.0)
  {
    if r.idCounter == MAX_INT then (r, Failure(IdsExhausted))
    else
      var newId: int32 := r.idCounter + 1;
      var bumped := r.(idCounter := newId);
      assert Inv(r) ==> Inv(bumped);
      match MkStudent(newId, name, email, phone, dob, address, department, status)
      case Failure(f) => (bumped, Failure(Invalid(f)))
      case Success(s) =>
        assert Inv(r) ==> Inv(Repo(r.students[newId := s], newId)) by {
          if Inv(r) {
            StoreValidPreserved(bumped, s);
          }
        }
        (Repo(r.students[newId := s], newId), Success(s))
  }

  /** A field rejected by the constructor, as a `save` error. */
  function AsSaveResult(made: Result<Student, Field>): (r: Result<Student, SaveError>)
    ensures made.Success? <==> r.Success?
    ensures made.Success? ==> r.value == made.value
    ensures made.Failure? ==> r.error == Invalid(made.error)
  {
    match made
    case Success(s) => Success(s)
    case Failure(f) => Failure(Invalid(f))
  }

  /** The shared tail of both saves: the counter moves to `newId`, and what
      the constructor built is stored under it; a rejected field stores
      nothing. */
  function Commit(r: Repo, newId: int32, made: Result<Student, Field>): (out: (Repo, Result<Student, Field>))
    ensures out.0.idCounter == newId && out.1 == made
    ensures made.Failure? ==> out.0.students == r.students
    ensures made.Success? ==> out.0.students == r.students[newId := made.value]
  {
    match made
    case Failure(_) => (r.(idCounter := newId), made)
    case Success(s) => (Repo(r.students[newId := s], newId), made)
  }

  /** On a state satisfying the invariant, `Save` meets the repository's
      `save` contract, and the new id is above every stored id. */
  lemma SaveMeetsContract(r: Repo, name: NullableString, email: NullableString, phone: NullableString,
                          dob: LocalDate, address: NullableString, department: Department, status: Status)
    requires Inv(r)
    ensures var out := Save(r, name, email, phone, dob, address, department, status);
      out.1.Success? ==>
        && StudentRepo.SaveContract(r.students, out.0.students, out.1.value)
        && forall k :: k in r.students ==> k < out.1.value.id
  {
  }

  /** `save` exactly as written: `incrementAndGet` wraps from
      `Integer.MAX_VALUE` to `Integer.MIN_VALUE`, and `put` replaces whatever
      is stored under the wrapped id. Below the wrap it is `Save`. */
  function SaveAsWritten(r: Repo, name: NullableString, email: NullableString, phone: NullableString,
                         dob: LocalDate, address: NullableString, department: Department, status: Status)
    : (out: (Repo, Result<Student, Field>))
    ensures out.0.idCounter == Increment(r.idCounter)
    ensures out.1 == MkStudent(Increment(r.idCounter), name, email, phone, dob, address, department, status)
    ensures out.1.Success? <==> IsValidName(name) && IsValidEmail(email) && IsValidPhone(phone)
    ensures out.1.Success? ==> Some(out.1.value.name) == name
    ensures out.1.Failure? ==> out.0.students == r.students
    ensures out.1.Success? ==>
      out.1.value.id == out.0.idCounter && out.0.students == r.students[out.1.value.id := out.1.value]
  {
    SaveUnder(r, Increment(r.idCounter), name, email, phone, dob, address, department, status)
  }

  /** Build the record under the given id and commit it: the step `save`
      takes once it has its id. */
  function SaveUnder(r: Repo, newId: int32, name: NullableString, email: NullableString, phone: NullableString,
                     dob: LocalDate, address: NullableString, department: Department, status: Status)
    : (out: (Repo, Result<Student, Field>))
    ensures out.0.idCounter == newId
    ensures out.1 == MkStudent(newId, name, email, phone, dob, address, department, status)
    ensures out.1.Failure? ==> out.0.students == r.students
    ensures out.1.Success? ==> out.0.students == r.students[newId := out.1.value]
  {
    Commit(r, newId, MkStudent(newId, name, email, phone, dob, address, department, status))
  }

  /** Below the wrap the code as written and `Save` agree: the same new
      state, the same student, the same rejected field. */
  lemma SaveAgreesBelowWrap(r: Repo, name: NullableString, email: NullableString, phone: NullableString,
                            dob: LocalDate, address: NullableString, department: Department, status: Status)
    requires r.idCounter < MAX_INT
    ensures var written := SaveAsWritten(r, name, email, phone, dob, address, department, status);
      Save(r, name, email, phone, dob, address, department, status) == (written.0, AsSaveResult(written.1))
  {
    SaveAsWrittenBelowWrap(r, name, email, phone, dob, address, department, status);
    SaveIsCommit(r, name, email, phone, dob, address, department, status);
  }

  /** Below the wrap the code as written commits under the next id. */
  lemma SaveAsWrittenBelowWrap(r: Repo, name: NullableString, email: NullableString, phone: NullableString,
                               dob: LocalDate, address: NullableString, department: Department, status: Status)
    requires r.idCounter < MAX_INT
    ensures SaveAsWritten(r, name, email, phone, dob, address, department, status)
      == SaveUnder(r, r.idCounter + 1, name, email, phone, dob, address, department, status)
  {
    var next := Increment(r.idCounter);
    assert next == r.idCounter + 1;
    assert SaveAsWritten(r, name, email, phone, dob, address, department, status)
        == SaveUnder(r, next, name, email, phone, dob, address, department, status);
  }

  /** Below the wrap `Save` commits under the next id, its error wrapped. */
  lemma SaveIsCommit(r: Repo, name: NullableString, email: NullableString, phone: NullableString,
                     dob: LocalDate, address: NullableString, department: Department, status: Status)
    requires r.idCounter < MAX_INT
    ensures var c := SaveUnder(r, r.idCounter + 1, name, email, phone, dob, address, department, status);
      Save(r, name, email, phone, dob, address, department, status) == (c.0, AsSaveResult(c.1))
  {
  }

  /** Loading students with ids `Integer.MAX_VALUE` and `Integer.MIN_VALUE`
      puts the counter at `Integer.MAX_VALUE` with a record stored under
      `Integer.MIN_VALUE`: the state of the counterexample below. */
  lemma LoadAtBothEnds(a: Student, b: Student)
    requires a.id == MAX_INT && b.id == MIN_INT
    ensures Load([a, b]).Success?
    ensures var r := Load([a, b]).value;
      && r.idCounter == MAX_INT
      && r.students.Keys == {MAX_INT, MIN_INT}
      && r.students[MIN_INT] == b
  {
    assert DistinctIds([a, b]);
    var r := Load([a, b]).value;
    assert MaxId([a, b]) == MAX_INT;
    forall k | k in r.students ensures k == MAX_INT || k == MIN_INT {
      assert r.students[k] in [a, b];
    }
  }

  /** The as-written save at the wrap: with the counter at
      `Integer.MAX_VALUE` and a record stored under `Integer.MIN_VALUE`, the
      next save is given `Integer.MIN_VALUE` and replaces that record, so
      the store does not grow. `LoadAtBothEnds` shows the state is reached by
      loading two students. */
  lemma SaveAsWrittenOverwrites(r: Repo, name: NullableString, email: NullableString,
                                phone: NullableString, dob: LocalDate, address: NullableString,
                                department: Department, status: Status)
    requires r.idCounter == MAX_INT && MIN_INT in r.students
    requires IsValidName(name) && IsValidEmail(email) && IsValidPhone(phone)
    requires name != Some(r.students[MIN_INT].name)
    ensures var out := SaveAsWritten(r, name, email, phone, dob, address, department, status);
      && out.1.Success? && out.1.value.id == MIN_INT
      && out.0.students[MIN_INT] == out.1.value != r.students[MIN_INT]
      && out.0.students.Keys == r.students.Keys && |out.0.students| == |r.students|
  {
    SaveAsWrittenAtWrap(r, name, email, phone, dob, address, department, status);
    var out := SaveAsWritten(r, name, email, phone, dob, address, department, status);
    OverwriteKeepsKeys(r.students, MIN_INT, out.1.value);
  }

  /** At the wrap, a save the constructor accepts is given `Integer.MIN_VALUE`. */
  lemma SaveAsWrittenAtWrap(r: Repo, name: NullableString, email: NullableString,
                            phone: NullableString, dob: LocalDate, address: NullableString,
                            department: Department, status: Status)
    requires r.idCounter == MAX_INT
    requires IsValidName(name) && IsValidEmail(email) && IsValidPhone(phone)
    ensures var out := SaveAsWritten(r, name, email, phone, dob, address, department, status);
      && out.1.Success? && out.1.value.id == MIN_INT && Some(out.1.value.name) == name
      && out.0.students == r.students[MIN_INT := out.1.value]
  {
    calc {
      SaveAsWritten(r, name, email, phone, dob, address, department, status);
      SaveUnder(r, Increment(r.idCounter), name, email, phone, dob, address, department, status);
      { assert Increment(r.idCounter) == MIN_INT; }
      SaveUnder(r, MIN_INT, name, email, phone, dob, address, department, status);
    }
  }

  lemma OverwriteKeepsKeys(m: map<int32, Student>, k: int32, v: Student)
    requires k in m
    ensures m[k := v].Keys == m.Keys && |m[k := v]| == |m|
  {
    assert m[k := v].Keys == m.Keys;
  }

  // -------------------------------------------------------------------
  // findById, update, deleteById, findAll
  // -------------------------------------------------------------------

  /** Storing a valid student under its own id, at or below the counter,
      keeps the invariant. */
  lemma StoreValidPreserved(r: Repo, s: Student)
    requires Inv(r) && Valid(s) && s.id <= r.idCounter
    ensures Inv(r.(students := r.students[s.id := s]))
  {
    StoreKeepsKeys(r, s);
    StoreKeepsAllValid(r, s);
  }

  /** Storing a record under its own id, at or below the counter, keeps
      the keys equal to the ids and below the counter. */
  lemma StoreKeepsKeys(r: Repo, s: Student)
    requires KeysAreIds(r) && KeysBelowCounter(r) && s.id <= r.idCounter
    ensures var r' := r.(students := r.students[s.id := s]);
      KeysAreIds(r') && KeysBelowCounter(r')
  {
  }

  /** Replacing a stored record by a valid one keeps the invariant. */
  lemma ReplaceKeepsInv(r: Repo, s: Student)
    requires s.id in r.students
    ensures Inv(r) && Valid(s) ==> Inv(r.(students := r.students[s.id := s]))
  {
    if Inv(r) && Valid(s) {
      StoreValidPreserved(r, s);
    }
  }

  /** Storing a valid record keeps every stored record valid. */
  lemma StoreKeepsAllValid(r: Repo, s: Student)
    requires AllValid(r) && Valid(s)
    ensures AllValid(r.(students := r.students[s.id := s]))
  {
    UpdateKeepsAll(r.students, r.students[s.id := s], s.id, s, Valid);
  }

  /** Putting a value that satisfies `P` into a map whose values all satisfy
      `P` keeps every value satisfying `P`. */
  lemma UpdateKeepsAll<K, V>(m: map<K, V>, n: map<K, V>, key: K, v: V, P: V -> bool)
    requires forall k :: k in m ==> P(m[k])
    requires P(v) && n == m[key := v]
    ensures forall k :: k in n ==> P(n[k])
  {
  }

  /** `findById`: a map lookup; the state does not change. */
  function FindById(r: Repo, id: int32): (found: Option<Student>)
    ensures StudentRepo.FindByIdContract(r.students, id, found)
    ensures Inv(r) && found.Some? ==> found.value.id == id && Valid(found.value)
  {
    if id in r.students then Some(r.students[id]) else None
  }

  /** `update`: replaces the record stored under the student's id. */
  function Update(r: Repo, student: Student): (out: (Repo, Option<Student>))
    ensures StudentRepo.UpdateContract(r.students, out.0.students, student, out.1)
    ensures out.0.idCounter == r.idCounter
    ensures Inv(r) && Valid(student) ==> Inv(out.0)
  {
    if student.id in r.students then
      ReplaceKeepsInv(r, student);
      (r.(students := r.students[student.id := student]), Some(student))
    else (r, None)
  }

  /** `deleteById`: removes the record stored under the id, if any. */
  function DeleteById(r: Repo, id: int32): (out: (Repo, bool))
    ensures StudentRepo.DeleteByIdContract(r.students, out.0.students, id, out.1)
    ensures out.0.idCounter == r.idCounter
    ensures Inv(r) ==> Inv(out.0)
  {
    if id in r.students then (r.(students := r.students - {id}), true)
    else (r, false)
  }

  /** `findAll`: the stored records, in the map's iteration order (which the
      model leaves open), each exactly once. The first three clauses spell
      out `StudentRepo.FindAllContract`. */
  method FindAll(r: Repo) returns (all: seq<Student>)
    ensures |all| == |r.students|
    ensures forall s :: s in all <==> s in r.students.Values
    ensures exists keys :: StudentRepo.EnumeratesValues(r.students, all, keys)
    ensures KeysAreIds(r) ==> forall i, j :: 0 <= i < j < |all| ==> all[i].id != all[j].id
  {
    ghost var taken;
    all, taken := ListValues(r.students);
    ListedAll(r, all, taken);
  }

  /** Walks the keys of `m` in an unspecified order, listing the record
      under each. */
  method ListValues(m: map<int32, Student>) returns (all: seq<Student>, ghost taken: seq<int32>)
    ensures Listed(m, all, taken, m.Keys)
  {
    all := [];
    taken := [];
    var remaining := m.Keys;
    while remaining != {}
      invariant remaining <= m.Keys
      invariant Listed(m, all, taken, m.Keys - remaining)
      decreases remaining
    {
      var k :| k in remaining;
      ListedNext(m, all, taken, remaining, k);
      all := all + [m[k]];
      taken := taken + [k];
      remaining := remaining - {k};
    }
    assert m.Keys - remaining == m.Keys;
  }

  /** `all` lists the records stored under the distinct keys `taken`, which
      are exactly the keys in `done`. */
  ghost predicate Listed(m: map<int32, Student>, all: seq<Student>, taken: seq<int32>, done: set<int32>) {
    && |all| == |taken| == |done|
    && (forall i :: 0 <= i < |taken| ==> taken[i] in done && taken[i] in m && all[i] == m[taken[i]])
    && (forall i, j :: 0 <= i < j < |taken| ==> taken[i] != taken[j])
    && (forall k :: k in done ==> k in m && k in taken)
  }

  /** Listing one more key keeps `Listed`. */
  lemma ListedAdd(m: map<int32, Student>, all: seq<Student>, taken: seq<int32>, done: set<int32>, k: int32)
    requires Listed(m, all, taken, done) && k in m && k !in done
    ensures Listed(m, all + [m[k]], taken + [k], done + {k})
  {
    var all', taken' := all + [m[k]], taken + [k];
    forall i | 0 <= i < |taken'|
      ensures taken'[i] in done + {k} && taken'[i] in m && all'[i] == m[taken'[i]]
    {
      if i < |taken| {
        assert taken'[i] == taken[i] && all'[i] == all[i];
      }
    }
    forall k' | k' in done + {k}
      ensures k' in m && k' in taken'
    {
      if k' == k {
        assert taken'[|taken|] == k;
      }
    }
  }

  /** `ListedAdd` in the shape of the walk's invariant: the next key is
      taken out of the keys still remaining. */
  lemma ListedNext(m: map<int32, Student>, all: seq<Student>, taken: seq<int32>, remaining: set<int32>, k: int32)
    requires remaining <= m.Keys && k in remaining
    requires Listed(m, all, taken, m.Keys - remaining)
    ensures Listed(m, all + [m[k]], taken + [k], m.Keys - (remaining - {k}))
  {
    ListedAdd(m, all, taken, m.Keys - remaining, k);
    assert m.Keys - (remaining - {k}) == (m.Keys - remaining) + {k};
  }

  /** Once every key is listed, the list meets `findAll`'s contract. */
  lemma ListedAll(r: Repo, all: seq<Student>, taken: seq<int32>)
    requires Listed(r.students, all, taken, r.students.Keys)
    ensures |all| == |r.students|
    ensures forall s :: s in all <==> s in r.students.Values
    ensures exists keys :: StudentRepo.EnumeratesValues(r.students, all, keys)
    ensures StudentRepo.FindAllContract(r.students, all)
    ensures KeysAreIds(r) ==> forall i, j :: 0 <= i < j < |all| ==> all[i].id != all[j].id
  {
    forall s | s in r.students.Values
      ensures s in all
    {
      var k :| k in r.students && r.students[k] == s;
      var i :| 0 <= i < |taken| && taken[i] == k;
      assert all[i] == s;
    }
    assert StudentRepo.EnumeratesValues(r.students, all, taken);
    if KeysAreIds(r) {
      forall i, j | 0 <= i < j < |all|
        ensures all[i].id != all[j].id
      {
        assert all[i].id == taken[i] && all[j].id == taken[j];
      }
    }
  }

  // -------------------------------------------------------------------
  // Properties across operations
  // -------------------------------------------------------------------

  /** A saved student is found again under its id, unchanged. */
  lemma SaveThenFind(r: Repo, name: NullableString, email: NullableString, phone: NullableString,
                     dob: LocalDate, address: NullableString, department: Department, status: Status)
    ensures var out := Save(r, name, email, phone, dob, address, department, status);
      out.1.Success? ==> FindById(out.0, out.1.value.id) == Some(out.1.value)
  {
  }

  /** Successive successful saves hand out strictly increasing ids. */
  lemma SaveIdsIncrease(r: Repo, a: (NullableString, NullableString, NullableString),
                        b: (NullableString, NullableString, NullableString),
                        dob: LocalDate, address: NullableString, department: Department, status: Status)
    requires Inv(r)
    ensures var first := Save(r, a.0, a.1, a.2, dob, address, department, status);
      var second := Save(first.0, b.0, b.1, b.2, dob, address, department, status);
      first.1.Success? && second.1.Success? ==>
        first.1.value.id < second.1.value.id && second.1.value.id !in first.0.students
  {
  }

  /** On an empty store the first generated id is 101. */
  lemma FirstIdOnEmptyStore(name: NullableString, email: NullableString, phone: NullableString,
                            dob: LocalDate, address: NullableString, department: Department, status: Status)
    requires IsValidName(name) && IsValidEmail(email) && IsValidPhone(phone)
    ensures Load([]).Success?
    ensures Save(Load([]).value, name, email, phone, dob, address, department, status).1.value.id == 101
  {
  }

  /** A deleted record is gone; deleting again reports false. */
  lemma DeleteThenFind(r: Repo, id: int32)
    ensures var out := DeleteById(r, id);
      FindById(out.0, id) == None && DeleteById(out.0, id) == (out.0, false)
  {
  }

  /** After an update, the record is found with the new contents. */
  lemma UpdateThenFind(r: Repo, student: Student)
    ensures var out := Update(r, student);
      out.1.Some? ==> FindById(out.0, student.id) == Some(student)
  {
  }
}
