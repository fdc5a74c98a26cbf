/** The StudentsDB handle of students.cpp over a shared, heap-allocated vector of
    records, and the sequential effect of the two demonstration operations and of
    the demonstration program that drives them. */
module StudentsStore {
  import opened StudentRecords

  /** The std::vector<Student> behind the shared pointer: one heap object that
      every handle built from the same pointer refers to. */
  class StudentVector {
    var elems: seq<Student>

    /** make_shared<vector<Student>>(init): a new vector holding a copy of `init`. */
    constructor (init: seq<Student>)
      ensures elems == init
    {
      elems := init;
    }

    /** vector::push_back / emplace_back: the record goes after all others. */
    method PushBack(s: Student)
      modifies this
      ensures elems == old(elems) + [s]
    {
      elems := elems + [s];
    }

    /** vector::erase at a dereferenceable position: the later records shift down by one. */
    method Erase(pos: nat)
      requires pos < |elems|
      modifies this
      ensures elems == old(elems)[..pos] + old(elems)[pos + 1..]
    {
      elems := elems[..pos] + elems[pos + 1..];
    }
  }

  /** A store handle: it owns no records itself, only a reference to the shared vector. */
  class StudentsDB {
    var students: StudentVector

    /** The records from begin() to end(), in stored order. */
    function Contents(): seq<Student>
      reads this, students
    {
      students.elems
    }

    /** begin(): the iterator at the first stored position. */
    method Begin() returns (it: nat)
      ensures it <= |Contents()|
      ensures it == 0
      ensures it == |Contents()| <==> Contents() == []
    {
      it := 0;
    }

    /** end(): the iterator just past the last stored record, which is also where
        findById stops for an id no record carries. */
    method End() returns (it: nat)
      ensures it == |Contents()|
      ensures forall id :: !HasId(Contents(), id) ==> it == FindIndex(Contents(), id)
    {
      it := |students.elems|;
    }

    /** The default constructor allocates a fresh, empty vector. */
    constructor ()
      ensures fresh(students)
      ensures Contents() == []
    {
      students := new StudentVector([]);
    }

    /** The pointer constructor adopts the given vector, so this handle and every
        other holder of `shared` see the same records. */
    constructor FromShared(shared: StudentVector)
      ensures students == shared
      ensures Contents() == shared.elems
    {
      students := shared;
    }

    /** push_back: the record goes after all stored records, where find reaches it. */
    method PushBack(student: Student)
      modifies students
      ensures Contents() == old(Contents()) + [student]
      ensures |Contents()| == |old(Contents())| + 1
      ensures FindOr(Contents(), student.id).id == student.id
    {
      students.PushBack(student);
      PushBackFound(old(Contents()), student);
    }

    /** emplace_back(id, name, age): constructs the record in place at the end. */
    method EmplaceBack(id: int, name: string, age: int)
      modifies students
      ensures Contents() == old(Contents()) + [Student(id, name, age)]
    {
      students.PushBack(Student(id, name, age));
    }

    /** find_if over [begin, end): the first position whose record has the id,
        or |Contents()| (the end iterator) when none has. */
    method FindById(studentId: int) returns (it: nat)
      ensures it <= |Contents()|
      ensures it < |Contents()| ==> Contents()[it].id == studentId
      ensures forall j :: 0 <= j < it ==> Contents()[j].id != studentId
      ensures it == FindIndex(Contents(), studentId)
    {
      it := 0;
      while it < |students.elems| && students.elems[it].id != studentId
        invariant it <= |students.elems|
        invariant forall j :: 0 <= j < it ==> students.elems[j].id != studentId
      {
        it := it + 1;
      }
      FirstMatchIsFindIndex(Contents(), studentId, it);
    }

    /** Erases the first record with the id and reports whether there was one. */
    method Remove(studentId: int) returns (removed: bool)
      modifies students
      ensures removed <==> HasId(old(Contents()), studentId)
      ensures Contents() == RemoveFirst(old(Contents()), studentId)
      ensures !removed ==> Contents() == old(Contents())
    {
      var it := FindById(studentId);
      if it == |students.elems| {
        return false;
      }
      students.Erase(it);
      return true;
    }

    /** The first record with the id, or the value-initialised record on a miss. */
    method Find(studentId: int) returns (student: Student)
      ensures student == FindOr(Contents(), studentId)
    {
      var it := FindById(studentId);
      if it == |students.elems| {
        return DefaultStudent;
      }
      return students.elems[it];
    }
  }

  /** The loop of addStudents: 100 emplace_back calls with id and age equal to the
      counter and an empty name. */
  method AddStudents(db: StudentsDB)
    modifies db.students
    ensures db.Contents() == old(db.Contents()) + Block(100)
    ensures |db.Contents()| == |old(db.Contents())| + 100
    ensures forall k :: 0 <= k < 100 ==> db.Contents()[|old(db.Contents())| + k] == Student(k, "", k)
  {
    var i := 0;
    while i < 100
      invariant 0 <= i <= 100
      invariant db.Contents() == old(db.Contents()) + Block(i)
    {
      db.EmplaceBack(i, "", i);
      i := i + 1;
    }
  }

  /** The range-for of readStudents without the printing: the records it visits,
      one per output line, in stored order. */
  method ReadStudents(db: StudentsDB) returns (visited: seq<Student>)
    ensures visited == db.Contents()
  {
    visited := [];
    var i := 0;
    while i < |db.students.elems|
      invariant i <= |db.students.elems|
      invariant visited == db.students.elems[..i]
    {
      visited := visited + [db.students.elems[i]];
      i := i + 1;
    }
  }

  /** Two handles over one vector: a push through the first is seen through the second. */
  method SharedHandles(init: seq<Student>, student: Student) returns (first: StudentsDB, second: StudentsDB)
    ensures first.students == second.students
    ensures first.Contents() == init + [student]
    ensures second.Contents() == init + [student]
  {
    var shared := new StudentVector(init);
    first := new StudentsDB.FromShared(shared);
    second := new StudentsDB.FromShared(shared);
    first.PushBack(student);
  }

  /** The demonstration program run sequentially. The two worker threads hold the same
      lock for their whole run, so they execute one after the other in an order the
      program leaves open: `addFirst` picks it. */
  method Demonstration(addFirst: bool)
    returns (initial: seq<Student>, removed: bool, afterRemove: seq<Student>,
             found: Student, read: seq<Student>, final: seq<Student>)
    ensures initial == [Student(1, "anton", 19), Student(2, "vasya", 31), Student(3, "maria", 20)]
    ensures removed
    ensures afterRemove == [Student(1, "anton", 19), Student(3, "maria", 20)]
    ensures found == Student(3, "maria", 20)
    ensures final == afterRemove + Block(100)
    ensures |final| == 102
    ensures read == if addFirst then final else afterRemove
  {
    var vec := new StudentVector([Student(1, "anton", 19), Student(2, "vasya", 31), Student(3, "maria", 20)]);
    var db := new StudentsDB.FromShared(vec);
    initial := ReadStudents(db);
    FirstMatchIsFindIndex(initial, 2, 1);
    assert initial[..1] + initial[2..] == [Student(1, "anton", 19), Student(3, "maria", 20)];
    removed := db.Remove(2);
    afterRemove := ReadStudents(db);
    FirstMatchIsFindIndex(afterRemove, 3, 1);
    found := db.Find(3);
    if addFirst {
      AddStudents(db);
      read := ReadStudents(db);
    } else {
      read := ReadStudents(db);
      AddStudents(db);
    }
    final := db.Contents();
  }
}
