/** The repository contract every backend promises, stated over the
    abstract view of a store: the stored records keyed by id. */
module StudentRepo {
  import opened Wrappers
  import opened JavaInt
  import opened Students

  type Store = map<int32, Student>

  /** `save`: the returned student carries an id the repository generated,
      not used by any stored record, and is now stored under that id;
      nothing else changes. */
  ghost predicate SaveContract(before: Store, after: Store, saved: Student) {
    saved.id !in before && after == before[saved.id := saved]
  }

  /** `findById`: the record stored under the id, or empty when there is none. */
  ghost predicate FindByIdContract(store: Store, id: int32, found: Option<Student>) {
    if id in store then found == Some(store[id]) else found == None
  }

  /** `update`: the record with the student's id is replaced and the student
      returned; with no such record nothing is created and the result is empty. */
  ghost predicate UpdateContract(before: Store, after: Store, student: Student, result: Option<Student>) {
    if student.id in before then result == Some(student) && after == before[student.id := student]
    else result == None && after == before
  }

  /** `deleteById`: true exactly when a record was found, and it is removed. */
  ghost predicate DeleteByIdContract(before: Store, after: Store, id: int32, deleted: bool) {
    deleted == (id in before) && after == before - {id}
  }

  /** `findAll`: every stored record, once each; an empty list for an empty
      store. The list is the record under each key, the keys taken in some
      order, which `values()` of the backing map leaves open. */
  ghost predicate FindAllContract(store: Store, all: seq<Student>) {
    && |all| == |store|
    && (forall s :: s in all <==> s in store.Values)
    && exists keys :: EnumeratesValues(store, all, keys)
  }

  /** `keys` lists every key of `store` exactly once, and `all` lists the
      record stored under each of them, in the same order. */
  ghost predicate EnumeratesValues(store: Store, all: seq<Student>, keys: seq<int32>) {
    && |keys| == |all|
    && (forall i :: 0 <= i < |keys| ==> keys[i] in store && all[i] == store[keys[i]])
    && (forall i, j :: 0 <= i < j < |keys| ==> keys[i] != keys[j])
    && (forall k :: k in store ==> k in keys)
  }
}
