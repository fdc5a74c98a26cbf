# Student record store — Dafny model

This project models the in-memory student store of `students.cpp`. A `Student` is a
plain value `{id, name, age}`. Ids need not be unique. A `StudentsDB` handle holds a
shared pointer to one `std::vector<Student>`. Through it, callers can append a record
(`push_back`, `emplace_back`), scan for the first record with a given id (`findById`),
erase that record (`remove`), look it up with a silent default on a miss (`find`) and
iterate in stored order (`begin`/`end`). The model also covers the sequential effect
of the two demonstration operations: `addStudents` appends 100 synthetic records and
`readStudents` walks the store. It covers the demonstration program in `main` as well.

The model has two modules:

- `StudentRecords` (`records.dfy`) is the pure part. It holds the `Student` datatype
  and the value `Student()` yields. It also holds the specification functions over a
  sequence of records:
  - `FindIndex`: where `find_if` stops.
  - `FindOr`: what `find` returns.
  - `RemoveFirst`: what `erase` at that position leaves.
  - `Block`: the records `addStudents` appends.
  - `DropFirst` and `CountId`: independent reference definitions.

  The lemmas relating these functions live in the same module.
- `StudentsStore` (`store.dfy`) is the imperative part.
  - `StudentVector` is the heap-allocated vector, with a `seq<Student>` field that
    its methods reassign.
  - `StudentsDB` is the handle. It holds a reference to a `StudentVector`. Its
    mutating methods `modifies` only that shared vector, and the handle itself never
    changes.
  - Two handles built from the same vector see each other's updates.
  - `findById` is a `while` loop, like `find_if`. Its iterator result is an index, and
    the end iterator is the length of the contents.
  - `addStudents` is the counting loop of 100 `emplace_back` calls.

Both worker threads take the same lock for their whole run. So `main`'s two threads
run one after the other, in an order the program leaves open. `Demonstration` takes
that order as a parameter. Given that serialisation, it proves that `readStudents`
sees the whole store either before or after the bulk append, never a state in between.

On a miss `find` returns `{0, "", 0}`, which callers cannot tell apart from a stored
record with those values (see `FindOr`).

## Model

| member | source | states |
|---|---|---|
| StudentRecords.FindIndex | students.cpp:42-46 | the scan result is the first position whose record has the id; every earlier record has a different id; it is the end position (the length) exactly when no record has the id |
| StudentRecords.FindOr | students.cpp:58-64 | on a hit the result has the id and is the record at the first matching position; on a miss it is the value-initialised record: id 0, empty name, age 0 |
| StudentRecords.RemoveFirst | students.cpp:48-56 | an absent id leaves the sequence exactly as it was; a present id shortens it by exactly one |
| StudentRecords.Block | students.cpp:76-81 | the bulk-insert block has exactly n records and record k is {id k, empty name, age k} |
| StudentRecords.FindIndexConcat | students.cpp:42-46 | scanning a concatenation finds a match in the prefix if there is one, otherwise the match in the suffix shifted by the prefix length |
| StudentRecords.PushBackFound | students.cpp:33-46 | after an append, findById on the appended record's id succeeds: at the earlier first match if the id was already present, otherwise at the new last position, where find returns exactly the appended record |
| StudentRecords.RemoveFirstIsDropFirst | students.cpp:48-56 | erasing at the findById position equals the structural "drop the first record with this id" |
| StudentRecords.RemovePresent | students.cpp:48-56 | for a present id exactly the first match is erased: the new contents are the records before it followed by the records after it, in their old order, and later records with the same id remain |
| StudentRecords.RemoveFirstAt | students.cpp:48-56 | for a present id, every record before the first match keeps its position and every record after it moves down by exactly one |
| StudentRecords.RemoveFirstMultiset | students.cpp:48-56 | for a present id the multiset of records loses exactly the first matching record and nothing else |
| StudentRecords.DropFirstCount | students.cpp:48-56 | removal lowers the number of records carrying the id by exactly one, or leaves it at zero |
| StudentRecords.CountPositive | students.cpp:42-46 | an id occurs at least once exactly when some record carries it, so the scan finds it |
| StudentRecords.RemoveUniqueThenMissing | students.cpp:42-56 | removing an id present exactly once makes a following findById return the end position, and the length drops by one |
| StudentRecords.RemoveAfterPushBack | students.cpp:33-56 | appending a record whose id is new and then removing that id gives back the original contents |
| StudentRecords.RemoveKeepsOtherLookups | students.cpp:48-64 | removing one id never changes what find returns for any other id |
| StudentsStore.StudentVector.constructor | students.cpp:99 | a newly made vector holds exactly the given records |
| StudentsStore.StudentVector.PushBack | students.cpp:34 | the vector's new contents are its old contents followed by the record |
| StudentsStore.StudentVector.Erase | students.cpp:54 | erasing a valid position removes that record and shifts the later ones down, keeping their order |
| StudentsStore.StudentsDB.constructor | students.cpp:27-29 | the default handle owns a newly allocated, empty vector |
| StudentsStore.StudentsDB.FromShared | students.cpp:31 | the pointer constructor adopts the given vector itself, not a copy, so its contents are that vector's |
| StudentsStore.StudentsDB.PushBack | students.cpp:33-35 | new contents are the old contents followed by the record; the length grows by one; find on the record's id then returns a record with that id |
| StudentsStore.StudentsDB.EmplaceBack | students.cpp:37-40 | new contents are the old contents followed by the record built from the arguments |
| StudentsStore.StudentsDB.FindById | students.cpp:42-46 | the loop returns the first position whose record has the id, with no match before it, or the end position; this agrees with FindIndex |
| StudentsStore.StudentsDB.Remove | students.cpp:48-56 | returns true exactly when the id was present; the new contents are those with the first match erased; on false the contents are unchanged |
| StudentsStore.StudentsDB.Find | students.cpp:58-64 | returns FindOr of the contents: the first record with the id when there is one, otherwise the record {0, "", 0}; it has no modifies clause, so it never changes the store |
| StudentsStore.AddStudents | students.cpp:76-81 | the contents become the old contents followed by exactly 100 records, and record k of that block is {k, "", k} |
| StudentsStore.StudentsDB.Begin | students.cpp:66-68 | the begin iterator is the first stored position; it equals the end iterator exactly when the store is empty |
| StudentsStore.StudentsDB.End | students.cpp:70-72 | the end iterator is the position just past the last stored record, the one findById reports for an absent id |
| StudentsStore.ReadStudents | students.cpp:83-88 | the range-for from begin() to end() visits exactly the stored records (Contents), in stored order |
| StudentsStore.SharedHandles | students.cpp:22-35 | two handles built from one vector share it: after a push through one, both report the old records followed by the new one |
| StudentsStore.Demonstration | students.cpp:92-121 | from [{1,anton,19},{2,vasya,31},{3,maria,20}], remove(2) succeeds and leaves [{1,anton,19},{3,maria,20}]; find(3) is {3,maria,20}; the final store is those two records followed by the 100-record block (102 records); readStudents sees either the two-record or the final store, depending on which thread runs first |

## Left out

- The global mutex, the lock guards and the two threads with their joins. They serve
  only mutual exclusion. The model keeps the sequential effect of each locked
  operation, and the thread order becomes the `addFirst` parameter of `Demonstration`.
- All printing to standard output, in `readStudents` and `main`. `ReadStudents`
  returns the records it would print, one per line.
- Reference counting of the shared pointer. Shared ownership is a plain heap reference
  to a `StudentVector`.
- The variadic, perfect-forwarding template of `emplace_back`. `EmplaceBack` takes the
  three constructor arguments that every call in the program passes.
- The conversion of the `size_t` loop counter to `int` in `addStudents`. It is exact
  for 0..99, so ids and ages are unbounded integers here.
- Iterator invalidation by `erase` or by reallocation. Iterators are modelled as
  indices that are used immediately.
- `Student s;` (default-initialisation, which leaves `id` and `age` indeterminate)
  never occurs in the program. Only the value-initialised `Student()` that `find`
  returns is modelled.
