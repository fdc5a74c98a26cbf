/** The student record and the pure queries over an ordered sequence of records
    that the store in students.cpp performs: the first-match scan of findById,
    the defaulting lookup of find, the sequence left by erasing the first match,
    and the block of records the bulk insert appends. */
module StudentRecords {

  /** A plain value record; ids need not be unique. */
  datatype Student = Student(id: int, name: string, age: int)

  /** What `Student()` yields: the defaulted constructor value-initialises,
      so both integers are zero and the name is empty. */
  const DefaultStudent: Student := Student(0, "", 0)

  /** Some record of `s` carries `id`. */
  predicate HasId(s: seq<Student>, id: int)
  {
    exists i :: 0 <= i < |s| && s[i].id == id
  }

  /** The position find_if stops at: the first record whose id is `id`,
      or |s| (the end position) when there is none. */
  function FindIndex(s: seq<Student>, id: int): (r: nat)
    ensures r <= |s|
    ensures r < |s| ==> s[r].id == id
    ensures forall j :: 0 <= j < r ==> s[j].id != id
    ensures r == |s| <==> !HasId(s, id)
  {
    if s == [] then 0
    else if s[0].id == id then 0
    else 1 + FindIndex(s[1..], id)
  }

  /** The record find returns: the first match, or the default record on a miss. */
  function FindOr(s: seq<Student>, id: int): (r: Student)
    ensures HasId(s, id) ==>
      r.id == id && exists i :: 0 <= i < |s| && s[i] == r && forall j :: 0 <= j < i ==> s[j].id != id
    ensures !HasId(s, id) ==> r.id == 0 && r.name == "" && r.age == 0
  {
    var i := FindIndex(s, id);
    if i == |s| then DefaultStudent else s[i]
  }

  /** The contents after erasing the record at the findById position, if any. */
  function RemoveFirst(s: seq<Student>, id: int): (r: seq<Student>)
    ensures !HasId(s, id) ==> r == s
    ensures HasId(s, id) ==> |r| == |s| - 1
  {
    var i := FindIndex(s, id);
    if i == |s| then s else s[..i] + s[i + 1..]
  }

  /** An independent, structural definition of "drop the first record with this id". */
  function DropFirst(s: seq<Student>, id: int): seq<Student>
  {
    if s == [] then []
    else if s[0].id == id then s[1..]
    else [s[0]] + DropFirst(s[1..], id)
  }

  /** How many records of `s` carry `id`. */
  function CountId(s: seq<Student>, id: int): nat
  {
    if s == [] then 0
    else (if s[0].id == id then 1 else 0) + CountId(s[1..], id)
  }

  /** The `n` records the bulk insert appends, in loop order: record k is {k, "", k}. */
  function Block(n: nat): (r: seq<Student>)
    ensures |r| == n
    ensures forall k :: 0 <= k < n ==> r[k] == Student(k, "", k)
  {
    if n == 0 then [] else Block(n - 1) + [Student(n - 1, "", n - 1)]
  }

  /** Every position that is a match with no match before it is where the scan stops. */
  lemma FirstMatchIsFindIndex(s: seq<Student>, id: int, k: nat)
    requires k <= |s|
    requires k < |s| ==> s[k].id == id
    requires forall j :: 0 <= j < k ==> s[j].id != id
    ensures FindIndex(s, id) == k
  {
  }

  /** The scan over a concatenation looks in the prefix first. */
  lemma FindIndexConcat(s: seq<Student>, t: seq<Student>, id: int)
    ensures FindIndex(s + t, id) == if HasId(s, id) then FindIndex(s, id) else |s| + FindIndex(t, id)
  {
    if HasId(s, id) {
      FirstMatchIsFindIndex(s + t, id, FindIndex(s, id));
    } else {
      var k := FindIndex(t, id);
      forall j | 0 <= j < |s| + k ensures (s + t)[j].id != id {
        if j >= |s| { assert (s + t)[j] == t[j - |s|]; }
      }
      FirstMatchIsFindIndex(s + t, id, |s| + k);
    }
  }

  /** A record just appended is found by its id: at the end when the id was new,
      otherwise at the earlier first match. */
  lemma PushBackFound(s: seq<Student>, r: Student)
    ensures FindIndex(s + [r], r.id) == if HasId(s, r.id) then FindIndex(s, r.id) else |s|
    ensures FindOr(s + [r], r.id).id == r.id
    ensures !HasId(s, r.id) ==> FindOr(s + [r], r.id) == r
  {
    FindIndexConcat(s, [r], r.id);
  }

  /** Erasing at the findById position agrees with the structural definition. */
  lemma {:induction false} RemoveFirstIsDropFirst(s: seq<Student>, id: int)
    ensures RemoveFirst(s, id) == DropFirst(s, id)
  {
    if s != [] && s[0].id != id {
      var t := s[1..];
      RemoveFirstIsDropFirst(t, id);
      var k := FindIndex(t, id);
      assert FindIndex(s, id) == 1 + k;
      if k < |t| {
        RemoveFirstStep(s, k);
      } else {
        assert !HasId(s, id);
      }
    }
  }

  /** Erasing position k + 1 of s is keeping s[0] and erasing position k of the rest. */
  lemma RemoveFirstStep(s: seq<Student>, k: nat)
    requires k + 1 < |s|
    ensures s[..k + 1] + s[k + 2..] == [s[0]] + (s[1..][..k] + s[1..][k + 1..])
  {
    assert s[..k + 1] == [s[0]] + s[1..][..k];
    assert s[k + 2..] == s[1..][k + 1..];
  }

  /** A present id: exactly the first match goes; the records before it and after it
      keep their relative order and later records with the same id stay. */
  lemma RemovePresent(s: seq<Student>, id: int)
    requires HasId(s, id)
    ensures FindIndex(s, id) < |s| && s[FindIndex(s, id)].id == id
    ensures RemoveFirst(s, id) == s[..FindIndex(s, id)] + s[FindIndex(s, id) + 1..]
    ensures forall j :: FindIndex(s, id) < j < |s| && s[j].id == id ==> RemoveFirst(s, id)[j - 1] == s[j]
  {
    RemoveFirstAt(s, id);
  }

  /** Taking one record out of a sequence takes exactly that record out of its multiset. */
  lemma MultisetSplice(s: seq<Student>, i: nat)
    requires i < |s|
    ensures multiset(s[..i] + s[i + 1..]) + multiset{s[i]} == multiset(s)
  {
    assert s == s[..i] + [s[i]] + s[i + 1..];
  }

  /** A present id: the multiset of records loses exactly the first matching record. */
  lemma RemoveFirstMultiset(s: seq<Student>, id: int)
    requires HasId(s, id)
    ensures FindIndex(s, id) < |s|
    ensures multiset(RemoveFirst(s, id)) + multiset{s[FindIndex(s, id)]} == multiset(s)
  {
    var i := FindIndex(s, id);
    assert RemoveFirst(s, id) == s[..i] + s[i + 1..];
    MultisetSplice(s, i);
  }

  /** Removal takes exactly one occurrence of the id away. */
  lemma {:induction false} DropFirstCount(s: seq<Student>, id: int)
    ensures CountId(DropFirst(s, id), id) == if CountId(s, id) == 0 then 0 else CountId(s, id) - 1
  {
    if s != [] && s[0].id != id {
      DropFirstCount(s[1..], id);
      assert ([s[0]] + DropFirst(s[1..], id))[1..] == DropFirst(s[1..], id);
    }
  }

  /** An id occurs at least once exactly when some record carries it. */
  lemma {:induction false} CountPositive(s: seq<Student>, id: int)
    ensures CountId(s, id) > 0 <==> HasId(s, id)
  {
    if s != [] {
      CountPositive(s[1..], id);
      if HasId(s, id) && s[0].id != id {
        var i :| 0 <= i < |s| && s[i].id == id;
        assert s[1..][i - 1].id == id;
      }
      if HasId(s[1..], id) {
        var i :| 0 <= i < |s[1..]| && s[1..][i].id == id;
        assert s[i + 1].id == id;
      }
    }
  }

  /** Removing an id present exactly once makes a later findById report the end
      position, and the count drops by one. */
  lemma RemoveUniqueThenMissing(s: seq<Student>, id: int)
    requires CountId(s, id) == 1
    ensures |RemoveFirst(s, id)| == |s| - 1
    ensures !HasId(RemoveFirst(s, id), id)
    ensures FindIndex(RemoveFirst(s, id), id) == |RemoveFirst(s, id)|
  {
    CountPositive(s, id);
    RemoveFirstIsDropFirst(s, id);
    DropFirstCount(s, id);
    CountPositive(RemoveFirst(s, id), id);
  }

  /** Appending a record with a fresh id and then removing that id restores the contents. */
  lemma RemoveAfterPushBack(s: seq<Student>, r: Student)
    requires !HasId(s, r.id)
    ensures RemoveFirst(s + [r], r.id) == s
  {
    PushBackFound(s, r);
    assert (s + [r])[..|s|] == s;
  }

  /** Position by position, the records left after erasing the first match. */
  lemma RemoveFirstAt(s: seq<Student>, id: int)
    requires HasId(s, id)
    ensures |RemoveFirst(s, id)| == |s| - 1
    ensures forall j :: 0 <= j < FindIndex(s, id) ==> RemoveFirst(s, id)[j] == s[j]
    ensures forall j :: FindIndex(s, id) <= j < |s| - 1 ==> RemoveFirst(s, id)[j] == s[j + 1]
  {
    var i := FindIndex(s, id);
    var r := s[..i] + s[i + 1..];
    assert RemoveFirst(s, id) == r;
    forall j | i <= j < |s| - 1 ensures r[j] == s[j + 1] {
      assert r[j] == s[i + 1..][j - i];
    }
  }

  /** Removing one id does not change what find returns for any other id. */
  lemma RemoveKeepsOtherLookups(s: seq<Student>, id: int, other: int)
    requires other != id
    ensures FindOr(RemoveFirst(s, id), other) == FindOr(s, other)
  {
    var i, r := FindIndex(s, id), RemoveFirst(s, id);
    if i < |s| {
      RemoveFirstAt(s, id);
      var m := FindIndex(s, other);
      if m < i {
        FirstMatchIsFindIndex(r, other, m);
      } else if m == |s| {
        FirstMatchIsFindIndex(r, other, |r|);
      } else {
        assert r[m - 1] == s[m];
        FirstMatchIsFindIndex(r, other, m - 1);
      }
    }
  }
}
