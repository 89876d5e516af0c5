# Student records: validation and persistence core

A Dafny model of the validation-and-persistence core of a small Java
student-management system. The model covers five parts:

- **Field rules** (`ValidationUtils`):
  - the e-mail, name and phone recognisers;
  - the phone and e-mail normalisers;
  - the ISO 8601 `YYYY-MM-DD` date-of-birth parser.

  The e-mail and name patterns are written as hand-made scans over `seq<char>`, and a lemma or contract links each scan to a declarative grammar. The phone pattern `^\+?[0-9]{7,15}$` is stated directly as the predicate `MatchesPhone`.
- **The student record** (`Students`): an immutable datatype.
  - Its only constructor, `MkStudent`, validates the name, then the e-mail, then the phone. It stores the normalised e-mail and phone.
  - Six `with…` derivations rebuild through that constructor.
  - `equals`/`hashCode` look at the id only.
- **The closed vocabularies** (`Departments`, `Statuses`, sharing `Vocabulary`): a code, a symbolic name and a display name per member. Lookup is case-insensitive and returns the first match.
- **The repository** (`StudentRepo`, `StudentRepoInMemory`):
  - `StudentRepo` states the five-operation contract as predicates over a store, a map from id to record.
  - `StudentRepoInMemory` models the in-memory backend as a state `Repo(students, idCounter)`. It provides:
    - the loading constructor;
    - `save`, `findById`, `update`, `deleteById` and `findAll`;
    - the invariant `Inv`: keys are ids, no key is above the counter, and every record is valid.
- **The service** (`StudentService`):
  - parsing and lookup before any repository call;
  - the find → derive → update chains.

  Each operation takes the repository state and returns the new state with its result.

Modelling conventions:

- A Java `null` string is `None` of `Chars.NullableString`.
- A Java `int` is `JavaInt.int32`.
- An `IllegalArgumentException` thrown by the constructor or the service becomes a `Failure` carrying the reason. `Students.Field` names the rejected field. `SaveError` adds the exhausted id space. `CreateError` adds the three conversion failures.
- `persistData` writes to a file. It has no effect on the state, so the model leaves it out.
- The one id space is modelled as Java `int` arithmetic, wrap-around included. `save` as written can overwrite a stored record at the wrap (see Findings). `StudentRepoInMemory.Save` is the corrected version, and the rest of the model uses it.

A test scenario that the model explains: `StudentServiceTest.testCreateStudent_InvalidEmail_ThrowsException` passes the unknown department code `"MECH"`, so the call fails on the department before the e-mail is ever examined. `StudentService.UnknownDepartmentNeverSaves` states that any call with that code leaves the repository untouched, whatever the e-mail is.

## Model

| member | source | states |
|---|---|---|
| `ValidationUtils.IsValidEmail` | src/main/java/utility/ValidationUtils.java:44-46 | false for `null`; otherwise true exactly when the string is local part, `@`, domain, `.` and a 2–6 letter top-level domain (the grammar `EmailGrammar`) |
| `ValidationUtils.MatchesEmailIff` | src/main/java/utility/ValidationUtils.java:22-23 | the scan that splits at the first `@` and the last `.` accepts exactly the strings of the pattern's grammar, in both directions |
| `ValidationUtils.ValidEmailHasOneAt` | src/main/java/utility/ValidationUtils.java:22-23 | an accepted address has exactly one `@`, with a non-empty part before it |
| `ValidationUtils.IsValidName` | src/main/java/utility/ValidationUtils.java:70-72 | true exactly when the name is non-null, 2 to 50 characters long, and every character is a letter, space, `.`, `'` or `-` |
| `ValidationUtils.NameRejections` | src/main/java/utility/ValidationUtils.java:27-28 | `null`, a one-letter name and `"Invalid@Name"` are rejected |
| `ValidationUtils.NormalizePhone` | src/main/java/utility/ValidationUtils.java:95-98 | `null` maps to `null`; otherwise the result holds no whitespace, `-`, `(` or `)` and is no longer than the input |
| `ValidationUtils.StripKeepsOthers` | src/main/java/utility/ValidationUtils.java:97 | every character outside the separator class occurs in the stripped phone exactly as often as in the input |
| `ValidationUtils.StripConcat` | src/main/java/utility/ValidationUtils.java:97 | stripping distributes over concatenation, so the kept characters stay in their original order |
| `ValidationUtils.NormalizePhoneIdempotent` | src/main/java/utility/ValidationUtils.java:95-98 | normalising a phone twice gives the same result as normalising it once |
| `ValidationUtils.IsValidPhone` | src/main/java/utility/ValidationUtils.java:56-60 | true exactly when the phone is non-null and its normalisation is an optional `+` and 7 to 15 digits; a valid normalised phone is 7 to 16 characters long |
| `ValidationUtils.MatchesPhoneIsNormal` | src/main/java/utility/ValidationUtils.java:56-60 | a phone already in canonical form is valid and is its own normalisation |
| `ValidationUtils.NormalizeEmail` | src/main/java/utility/ValidationUtils.java:105-108 | `null` maps to `null`; otherwise the result is the lower-casing of an infix of the input from which only characters at or below U+0020 were dropped at either end; it has no upper-case ASCII letter and neither starts nor ends with a character at or below U+0020 |
| `ValidationUtils.NormalizeEmailIdempotent` | src/main/java/utility/ValidationUtils.java:105-108 | normalising an e-mail twice gives the same result as normalising it once |
| `ValidationUtils.NormalizeValidEmail` | src/main/java/utility/ValidationUtils.java:105-108 | for a valid address the trim removes nothing, normalising is lower-casing, and the normalised address is still valid |
| `ValidationUtils.ParseDob` | src/main/java/utility/ValidationUtils.java:82-88 | a parsed date exists in the proleptic Gregorian calendar and its `YYYY-MM-DD` spelling is the input; any other input gives an empty result, not an exception |
| `ValidationUtils.ParseFormatRoundTrip` | src/main/java/utility/ValidationUtils.java:82-88 | every calendar date with a year of 0 to 9999 parses back from its `YYYY-MM-DD` spelling |
| `ValidationUtils.IsoDigitGroups` | src/main/java/utility/ValidationUtils.java:84 | the three digit groups of a `YYYY-MM-DD` string, read as numbers and printed back, rebuild the string |
| `Chars.Trim` | src/main/java/utility/ValidationUtils.java:107 | `trim` keeps the infix `s[i..j]` that starts after the leading characters at or below U+0020, such that every dropped character, before `i` or from `j` on, is at or below U+0020, and the infix neither starts nor ends with such a character; an empty result means every character was at or below U+0020 |
| `Chars.ToLowerStringProperties` | src/main/java/utility/ValidationUtils.java:107 | lower-casing leaves no upper-case letter, and lower-casing twice gives the same result as lower-casing once |
| `Chars.EqualsIgnoreCaseIff` | src/constants/Departments.java:78 | `equalsIgnoreCase` holds exactly when the two lower-cased strings are equal |
| `Vocabulary.FirstMatch` | src/constants/Departments.java:77-79 | the index found is of a member the key matches, and no earlier member matches; empty means no member matches |
| `Vocabulary.Lookup` | src/constants/Departments.java:76-80 | `filter(...).findFirst()` returns a member the key matches at a position before which no member matches, and is empty exactly when no member matches |
| `Vocabulary.LookupByCode` | src/constants/Status.java:65-69 | when codes are the symbolic names and differ ignoring case, the lookup returns a member exactly when the key is that member's code up to case |
| `Departments.MembersAndCodes` | src/constants/Departments.java:14-35 | eleven members, each listed once; each code is the symbolic name; no two codes are equal even ignoring case |
| `Departments.FromCodeOptional` | src/constants/Departments.java:76-80 | a found department's code equals the key ignoring case; the result is empty exactly when no department's code does |
| `Departments.FromCodeOptionalIff` | src/constants/Departments.java:67-79 | the lookup returns department `d` exactly when the key is `d`'s code in any mix of upper and lower case |
| `Departments.FromCodeOptionalOfCode` | src/constants/Departments.java:76-80 | every department is found again from its own code |
| `Departments.FromCodeOptionalRejects` | src/constants/Departments.java:76-80 | `null`, `""` and `"MECH"` find nothing |
| `Departments.ToStringShowsDisplayName` | src/constants/Departments.java:87-90 | `toString` is the display name; `CSE` shows "Computer Science & Engineering" |
| `Statuses.MembersAndCodes` | src/constants/Status.java:14-24 | four members, each listed once; each code is the symbolic name; no two codes are equal even ignoring case |
| `Statuses.FromCode` | src/constants/Status.java:65-69 | a found status's code equals the key ignoring case; the result is empty exactly when no status's code does |
| `Statuses.FromCodeIff` | src/constants/Status.java:55-69 | the lookup returns status `s` exactly when the key is `s`'s code in any mix of upper and lower case |
| `Statuses.FromCodeOfCode` | src/constants/Status.java:65-69 | every status is found again from its own code |
| `Statuses.FromCodeExamples` | src/constants/Status.java:65-69 | `"active"` finds `ACTIVE`; `null` and `""` find nothing |
| `Statuses.ToStringShowsDisplayName` | src/constants/Status.java:75-78 | `toString` is the display name; `GRADUATED` shows "Graduated" |
| `Students.MkStudent` | src/model/Student.java:40-63 | construction succeeds exactly when name, e-mail and phone are valid; the first invalid field, in that order, is the failure; a built record is `Valid`, holds the normalised e-mail and phone, and holds every other argument unchanged |
| `Students.NormalisedContactIsValid` | src/model/Student.java:47-56 | the stored e-mail and phone of a constructed record are valid and already in normal form |
| `Students.RebuildIsIdentity` | src/model/Student.java:16-17 | rebuilding a valid record from its own fields gives back the same record |
| `Students.WithName` | src/model/Student.java:72-83 | on a valid record: succeeds exactly when the new name is valid, fails with the name error otherwise, and on success changes the name only |
| `Students.WithEmail` | src/model/Student.java:91-102 | on a valid record: succeeds exactly when the new e-mail is valid, fails with the e-mail error otherwise, and on success changes the e-mail only, to its normal form |
| `Students.WithPhone` | src/model/Student.java:110-121 | on a valid record: succeeds exactly when the new phone is valid, fails with the phone error otherwise, and on success changes the phone only, to its normal form |
| `Students.WithAddress` | src/model/Student.java:129-140 | on a valid record never fails, and changes the address only |
| `Students.WithDepartment` | src/model/Student.java:148-159 | on a valid record never fails, and changes the department only |
| `Students.WithStatus` | src/model/Student.java:167-178 | on a valid record never fails, and changes the status only |
| `Students.EqualsHashCodeContract` | src/model/Student.java:180-200 | id equality is an equivalence that ignores every other field, and equal records have equal hash codes |
| `JavaInt.Increment` | src/repository/StudentRepoInMemory.java:88 | `incrementAndGet` adds one below `Integer.MAX_VALUE` and gives `Integer.MIN_VALUE` at it |
| `JavaInt.IncrementIsModular` | src/repository/StudentRepoInMemory.java:88 | the incremented value is the only Java `int` that differs from the exact sum by a multiple of 2^32 |
| `StudentRepoInMemory.MaxId` | src/repository/StudentRepoInMemory.java:55-58 | the result bounds every loaded id and is one of them |
| `StudentRepoInMemory.Load` | src/repository/StudentRepoInMemory.java:40-63 | fails exactly on a repeated id; otherwise the map holds exactly the loaded students, each under its own id, and the counter is the largest id, or 100 for an empty list |
| `StudentRepoInMemory.IndexById` | src/repository/StudentRepoInMemory.java:50-51 | with distinct ids, every student is keyed by its id and every entry is a loaded student under its own id |
| `StudentRepoInMemory.LoadKeepsInv` | src/repository/StudentRepoInMemory.java:50-62 | loading constructed students gives a state satisfying `Inv` |
| `StudentRepoInMemory.Save` | src/repository/StudentRepoInMemory.java:85-95 | below the top of the id space: the counter advances by one whatever happens; success exactly when the three fields are valid; the first invalid field is the error and leaves the map unchanged; on success the student carries the new id and the given values and is the only new entry; `Inv` is preserved |
| `StudentRepoInMemory.SaveMeetsContract` | src/main/java/repository/StudentRepo.java:19-32 | under `Inv` a saved student has a generated id no stored record uses, above every stored id, and is stored under it with nothing else changed |
| `StudentRepoInMemory.SaveAsWritten` | src/repository/StudentRepoInMemory.java:85-95 | the save as written: the counter becomes its wrapped increment, the result is exactly what the constructor gives for the new id and the given fields, and on success that record is put under the new id, whatever that id held |
| `StudentRepoInMemory.SaveAgreesBelowWrap` | src/repository/StudentRepoInMemory.java:88-92 | below `Integer.MAX_VALUE` the save as written and the corrected save give the same state and result |
| `StudentRepoInMemory.LoadAtBothEnds` | src/repository/StudentRepoInMemory.java:46-62 | loading records with ids `Integer.MAX_VALUE` and `Integer.MIN_VALUE` puts the counter at `Integer.MAX_VALUE` with a record under `Integer.MIN_VALUE` |
| `StudentRepoInMemory.SaveAsWrittenOverwrites` | src/repository/StudentRepoInMemory.java:88-92 | from that state a valid save as written gets id `Integer.MIN_VALUE` and replaces the stored record, so the store does not grow |
| `StudentRepoInMemory.SaveAsWrittenAtWrap` | src/repository/StudentRepoInMemory.java:88-92 | at `Integer.MAX_VALUE` a valid save as written returns a student with id `Integer.MIN_VALUE` and puts it under that key |
| `StudentRepoInMemory.StoreValidPreserved` | src/repository/StudentRepoInMemory.java:92 | putting a valid student under its own id, at or below the counter, preserves `Inv` |
| `StudentRepoInMemory.ReplaceKeepsInv` | src/repository/StudentRepoInMemory.java:114-116 | replacing a stored record with a valid one preserves `Inv` |
| `StudentRepoInMemory.FindById` | src/repository/StudentRepoInMemory.java:101-104 | the `findById` contract: the record under the id, or empty when there is none; under `Inv` a found record has that id and is valid |
| `StudentRepoInMemory.Update` | src/repository/StudentRepoInMemory.java:111-124 | the `update` contract: replaces the entry and returns the student exactly when the id is stored, otherwise returns empty and changes nothing; the counter is untouched; `Inv` is preserved for a valid student |
| `StudentRepoInMemory.DeleteById` | src/repository/StudentRepoInMemory.java:131-139 | the `deleteById` contract: true exactly when the id was stored, and afterwards the id is gone with nothing else changed |
| `StudentRepoInMemory.FindAll` | src/repository/StudentRepoInMemory.java:146-152 | the `findAll` contract: the list is the record under each key, for some ordering of the keys that lists each key once, so it has as many records as the map holds and every stored record appears; under `Inv` no id is listed twice |
| `StudentRepoInMemory.ListedAll` | src/main/java/repository/StudentRepo.java:57-63 | a list of the records under every key, once each, meets the `findAll` contract |
| `StudentRepoInMemory.SaveThenFind` | src/repository/StudentRepoInMemory.java:92-94 | a saved student is found again under its id |
| `StudentRepoInMemory.SaveIdsIncrease` | src/repository/StudentRepoInMemory.java:88 | of two successive successful saves, the second id is larger and was not a key after the first save |
| `StudentRepoInMemory.FirstIdOnEmptyStore` | src/repository/StudentRepoInMemory.java:55-62 | on an empty load the first generated id is 101 |
| `StudentRepoInMemory.DeleteThenFind` | src/repository/StudentRepoInMemory.java:131-139 | after a delete the id is not found, and deleting it again returns false and changes nothing |
| `StudentRepoInMemory.UpdateThenFind` | src/repository/StudentRepoInMemory.java:111-124 | after a successful update the new record is found under its id |
| `StudentService.Convert` | src/main/java/service/StudentService.java:55-71 | the date, then the department code, then the status code: the first that fails decides the error; on success the three values are what the parsers returned |
| `StudentService.CreateStudent` | src/main/java/service/StudentService.java:53-74 | a failed conversion returns its error and leaves the state unchanged; otherwise the state and the student or error are those of `save`; a failure never changes the map; `Inv` is preserved |
| `StudentService.CreateStudentSucceedsIff` | src/main/java/service/StudentService.java:53-74 | creation succeeds exactly when the date parses, both codes are known, the id space is not exhausted and name, e-mail and phone are valid |
| `StudentService.CreateStudentStores` | src/main/java/service/StudentService.java:72-73 | a created student is found under its id with the parsed date, a department and status whose codes match the inputs ignoring case, the given name and address, and the normalised e-mail and phone |
| `StudentService.CreatedDobSpellsInput` | src/main/java/service/StudentService.java:55-59 | the stored date of birth, printed as `YYYY-MM-DD`, is the input string |
| `StudentService.UnknownDepartmentNeverSaves` | src/main/java/service/StudentService.java:61-64 | with the code `"MECH"` the state is returned unchanged and the error is the date or the department, whatever the other inputs |
| `StudentService.Persist` | src/main/java/service/StudentService.java:83-85 | a rejected derivation is returned with the state unchanged; a derived record of a stored id replaces the stored one |
| `StudentService.UpdateStudentName` | src/main/java/service/StudentService.java:99-103 | a missing id gives an empty result and no change; on a stored id an invalid name fails with nothing stored; a valid name replaces that field only; `Inv` is preserved |
| `StudentService.UpdateNameRejectsAt` | src/main/java/service/StudentService.java:99-103 | updating a stored student's name to `"Invalid@Name"` fails on the name and stores nothing |
| `StudentService.UpdateNameThenFind` | src/main/java/service/StudentService.java:99-103 | after a valid name update the student is found under the same id with the new name and every other field unchanged |
| `StudentService.UpdateStudentEmail` | src/main/java/service/StudentService.java:111-115 | a missing id gives an empty result and no change; an invalid e-mail fails with nothing stored; a valid one replaces the e-mail only, normalised; `Inv` is preserved |
| `StudentService.UpdateStudentPhone` | src/main/java/service/StudentService.java:82-86 | a missing id gives an empty result and no change; an invalid phone fails with nothing stored; a valid one replaces the phone only, normalised; `Inv` is preserved |
| `StudentService.UpdateStudentAddress` | src/main/java/service/StudentService.java:123-127 | a missing id gives an empty result and no change; otherwise the address alone is replaced, `null` included; `Inv` is preserved |
| `StudentService.UpdateStudentDepartment` | src/main/java/service/StudentService.java:136-149 | an unknown code or a missing id gives an empty result and no change; otherwise only the department is replaced, and its code matches the input ignoring case; `Inv` is preserved |
| `StudentService.UpdateStudentStatus` | src/main/java/service/StudentService.java:158-165 | an unknown code or a missing id gives an empty result and no change; otherwise only the status is replaced, and its code matches the input ignoring case; `Inv` is preserved |
| `StudentService.DeleteStudentById` | src/main/java/service/StudentService.java:174-176 | true exactly when the id was stored; afterwards it is gone, with the counter unchanged and `Inv` preserved |
| `StudentService.FindStudentById` | src/main/java/service/StudentService.java:185-187 | the stored record under the id, present exactly when the id is stored |
| `StudentService.FindAllStudents` | src/main/java/service/StudentService.java:194-197 | the list is the record under each key, for some ordering of the keys that lists each key once: every stored record and nothing else, as many as the map holds |

## Left out

- `persistData` and `JSONStorage`: they are file I/O. `persistData` does not change the in-memory state, so every operation is modelled without it.
- The JDBC repository, the database connector and their integration test: `StudentRepoJdbc` is not part of this model, and its unique-e-mail rule lives in the database.
- `MainMenu`, both `StudentManagementMain` files and the Gson adapters: console I/O, wiring and a serialisation library.
- `Student.toString`: formatting for display only.
- `AtomicInteger` thread safety: every operation is modelled as one sequential step.
- `Chars.IsLetter`: `\p{L}` is approximated by the ASCII, Latin-1 and Latin Extended-A/B letters. The full Unicode letter table is not modelled.
- `Chars.ToLowerString`: `toLowerCase` and `equalsIgnoreCase` fold ASCII letters only. Locale rules and non-ASCII folding are not modelled.
- Strings are sequences of `char` with no UTF-16 surrogate handling.
- `ValidationUtils.ParseDob`: accepts only an unsigned four-digit year. Java's `ISO_LOCAL_DATE` accepts two more forms that the model rejects: a negative year other than zero, such as `-0001-01-01`, and `+` followed by a year of 5 to 10 digits, such as `+10000-01-01`. Like Java, the model rejects `+2020-01-01`, `10000-01-01` and `-0000-01-01`.
- `ValidationUtils.ParseDob`: takes a non-null string. The `NullPointerException` that `parseDob(null)` throws is not modelled.
- `StudentService.CreateStudent`: the date, department and status passed to `save` are the parsed values, never `null`.
- `Students.MkStudent`: the date of birth, department and status of a record are never `null`. The Java constructor stores `null` for them unchecked, and a record passed straight to `save` or loaded from a list could carry one; the model's record types have no `null` for these three fields.
- `StudentRepoInMemory.FindAll`: the list order follows `HashMap` iteration and is left unspecified. The contract fixes the list up to the order of the keys.
- `StudentRepoInMemory.Save`: the corrected save. At `Integer.MAX_VALUE` it refuses, where the code as written wraps (see Findings).

## Findings

| source | as written | input that shows it | evidently intended | confidence | as-written member | corrected member |
|---|---|---|---|---|---|---|
| src/repository/StudentRepoInMemory.java:88-92 | `incrementAndGet` wraps from `Integer.MAX_VALUE` to `Integer.MIN_VALUE`, and `put` then replaces whatever record is stored under the wrapped id | load students with ids 2147483647 and -2147483648, then save a valid student with a different name: it gets id -2147483648 and replaces the loaded record | every generated id is fresh, so a save never replaces a stored record; when no fresh id is left, save refuses | not executed | `StudentRepoInMemory.SaveAsWrittenOverwrites` | `StudentRepoInMemory.Save` |
