/** The in-memory enrollment table behind the enrollment router: student records
    with an optional denormalized course list, the list of (studentId, courseId)
    enrollment records, the array lookups the handlers use on them, and the
    consistency invariant that ties the course lists to the enrollment records. */
module EnrollmentData {

  type StudentId = string
  type CourseId = string

  datatype Option<T> = None | Some(value: T)

  /** A student record. `courses` is None while the record has no course list
      (the handlers then leave it alone) and otherwise holds the course ids the
      synchronisation step last wrote into it. */
  datatype Student = Student(studentId: StudentId, courses: Option<seq<CourseId>>)

  /** One enrollment record; the request body of POST and DELETE has this shape. */
  datatype Enrollment = Enrollment(studentId: StudentId, courseId: CourseId)

  /** Array.prototype.findIndex: the first index whose element satisfies `p`,
      or -1 when there is none. */
  function FindIndex<T>(s: seq<T>, p: T -> bool): (r: int)
    ensures -1 <= r < |s|
    ensures r == -1 <==> forall i :: 0 <= i < |s| ==> !p(s[i])
    ensures r >= 0 ==> p(s[r]) && forall i :: 0 <= i < r ==> !p(s[i])
  {
    if s == [] then -1
    else if p(s[0]) then 0
    else
      var k := FindIndex(s[1..], p);
      if k == -1 then -1 else k + 1
  }

  /** `students.findIndex(student => student.studentId === id)` */
  function FindStudent(students: seq<Student>, id: StudentId): (r: int)
    ensures -1 <= r < |students|
    ensures r == -1 <==> forall i :: 0 <= i < |students| ==> students[i].studentId != id
    ensures r >= 0 ==> students[r].studentId == id
    ensures r >= 0 ==> forall i :: 0 <= i < r ==> students[i].studentId != id
  {
    FindIndex(students, (s: Student) => s.studentId == id)
  }

  /** `enrollments.findIndex(en => en.studentId === sid && en.courseId === cid)` */
  function FindEnrollment(enrollments: seq<Enrollment>, sid: StudentId, cid: CourseId): (r: int)
    ensures -1 <= r < |enrollments|
    ensures r == -1 <==> Enrollment(sid, cid) !in enrollments
    ensures r >= 0 ==> enrollments[r] == Enrollment(sid, cid)
    ensures r >= 0 ==> forall i :: 0 <= i < r ==> enrollments[i] != Enrollment(sid, cid)
  {
    FindIndex(enrollments, (en: Enrollment) => en.studentId == sid && en.courseId == cid)
  }

  /** The course ids of the records that belong to `id`, in record order:
      `enrollments.filter(en => en.studentId === id).map(en => en.courseId)`. */
  function CoursesOf(enrollments: seq<Enrollment>, id: StudentId): (r: seq<CourseId>)
    ensures |r| <= |enrollments|
    ensures forall c :: c in r <==> Enrollment(id, c) in enrollments
  {
    if enrollments == [] then []
    else if enrollments[0].studentId == id then [enrollments[0].courseId] + CoursesOf(enrollments[1..], id)
    else CoursesOf(enrollments[1..], id)
  }

  /** `enrollments.splice(i, 1)`: the record at `i` is dropped and the others
      close up in their original order. */
  function RemoveAt(enrollments: seq<Enrollment>, i: nat): (r: seq<Enrollment>)
    requires i < |enrollments|
    ensures |r| == |enrollments| - 1
    ensures forall k :: 0 <= k < i ==> r[k] == enrollments[k]
    ensures forall k :: i <= k < |r| ==> r[k] == enrollments[k + 1]
    ensures multiset(r) + multiset{enrollments[i]} == multiset(enrollments)
  {
    assert enrollments == enrollments[..i] + [enrollments[i]] + enrollments[i + 1..];
    enrollments[..i] + enrollments[i + 1..]
  }

  /** The synchronisation step: when student `k` has a course list, it is
      overwritten with that student's projection of `enrollments`; a student
      without a course list, and every other student, is left as it was. */
  function Resync(students: seq<Student>, k: nat, enrollments: seq<Enrollment>): (r: seq<Student>)
    requires k < |students|
    ensures |r| == |students|
    ensures forall i :: 0 <= i < |r| ==> r[i].studentId == students[i].studentId
    ensures forall i :: 0 <= i < |r| && i != k ==> r[i] == students[i]
    ensures r[k].courses.Some? <==> students[k].courses.Some?
    ensures r[k].courses.Some? ==> forall c :: c in r[k].courses.value <==> Enrollment(students[k].studentId, c) in enrollments
    ensures r[k].courses.Some? ==> r[k].courses.value == CoursesOf(enrollments, students[k].studentId)
  {
    if students[k].courses.Some? then
      students[k := students[k].(courses := Some(CoursesOf(enrollments, students[k].studentId)))]
    else
      students
  }

  /** No two enrollment records carry the same (studentId, courseId) pair. */
  ghost predicate UniquePairs(enrollments: seq<Enrollment>)
  {
    forall i, j :: 0 <= i < j < |enrollments| ==> enrollments[i] != enrollments[j]
  }

  /** No two student records carry the same id. */
  ghost predicate UniqueIds(students: seq<Student>)
  {
    forall i, j :: 0 <= i < j < |students| ==> students[i].studentId != students[j].studentId
  }

  /** Every course list that is present equals its student's projection of the
      enrollment records. */
  ghost predicate Synced(students: seq<Student>, enrollments: seq<Enrollment>)
  {
    forall i :: 0 <= i < |students| && students[i].courses.Some? ==>
      students[i].courses.value == CoursesOf(enrollments, students[i].studentId)
  }

  /** The projection distributes over concatenation of record lists. */
  lemma {:induction false} CoursesOfConcat(a: seq<Enrollment>, b: seq<Enrollment>, id: StudentId)
    ensures CoursesOf(a + b, id) == CoursesOf(a, id) + CoursesOf(b, id)
  {
    if a == [] {
      assert a + b == b;
    } else {
      assert (a + b)[1..] == a[1..] + b;
      CoursesOfConcat(a[1..], b, id);
    }
  }

  /** Appending a record appends its course id to its own student's projection,
      at the end, and leaves every other student's projection alone. */
  lemma CoursesOfAppend(enrollments: seq<Enrollment>, x: Enrollment, id: StudentId)
    ensures x.studentId == id ==> CoursesOf(enrollments + [x], id) == CoursesOf(enrollments, id) + [x.courseId]
    ensures x.studentId != id ==> CoursesOf(enrollments + [x], id) == CoursesOf(enrollments, id)
  {
    CoursesOfConcat(enrollments, [x], id);
  }

  /** Removing the record at `i` removes exactly its course id, at its place,
      from its own student's projection, and leaves every other student's
      projection alone. */
  lemma CoursesOfRemoveAt(enrollments: seq<Enrollment>, i: nat, id: StudentId)
    requires i < |enrollments|
    ensures enrollments[i].studentId == id ==>
      CoursesOf(enrollments, id) == CoursesOf(enrollments[..i], id) + [enrollments[i].courseId] + CoursesOf(enrollments[i + 1..], id) &&
      CoursesOf(RemoveAt(enrollments, i), id) == CoursesOf(enrollments[..i], id) + CoursesOf(enrollments[i + 1..], id)
    ensures enrollments[i].studentId != id ==> CoursesOf(RemoveAt(enrollments, i), id) == CoursesOf(enrollments, id)
  {
    var pre, post := enrollments[..i], enrollments[i + 1..];
    assert enrollments == pre + ([enrollments[i]] + post);
    CoursesOfConcat(pre, [enrollments[i]] + post, id);
    CoursesOfConcat([enrollments[i]], post, id);
    CoursesOfConcat(pre, post, id);
  }

  /** Appending a pair that is not present keeps the pairs unique. */
  lemma AppendKeepsUnique(enrollments: seq<Enrollment>, x: Enrollment)
    requires UniquePairs(enrollments)
    requires x !in enrollments
    ensures UniquePairs(enrollments + [x])
  {
    var e := enrollments + [x];
    forall i, j | 0 <= i < j < |e| ensures e[i] != e[j] {
      if j == |enrollments| {
        assert e[i] == enrollments[i];
      }
    }
  }

  /** Removing one record keeps the pairs unique, and under uniqueness the
      removed pair is gone afterwards. */
  lemma RemoveAtKeepsUnique(enrollments: seq<Enrollment>, i: nat)
    requires UniquePairs(enrollments)
    requires i < |enrollments|
    ensures UniquePairs(RemoveAt(enrollments, i))
    ensures enrollments[i] !in RemoveAt(enrollments, i)
  {
    var r := RemoveAt(enrollments, i);
    forall a, b | 0 <= a < b < |r| ensures r[a] != r[b] {
      var a', b' := if a < i then a else a + 1, if b < i then b else b + 1;
      assert r[a] == enrollments[a'] && r[b] == enrollments[b'];
    }
    forall k | 0 <= k < |r| ensures r[k] != enrollments[i] {
      var k' := if k < i then k else k + 1;
      assert r[k] == enrollments[k'];
    }
  }

  /** Appending a record of student `k` and resynchronising student `k` keeps
      every course list equal to its projection. */
  lemma SyncedAfterAppend(students: seq<Student>, enrollments: seq<Enrollment>, x: Enrollment, k: nat)
    requires UniqueIds(students)
    requires Synced(students, enrollments)
    requires k < |students| && students[k].studentId == x.studentId
    ensures Synced(Resync(students, k, enrollments + [x]), enrollments + [x])
  {
    var e := enrollments + [x];
    var r := Resync(students, k, e);
    forall i | 0 <= i < |r| && r[i].courses.Some?
      ensures r[i].courses.value == CoursesOf(e, r[i].studentId)
    {
      if i != k {
        assert students[i].studentId != x.studentId;
        CoursesOfAppend(enrollments, x, students[i].studentId);
      }
    }
  }

  /** Removing a record of student `k` and resynchronising student `k` keeps
      every course list equal to its projection. */
  lemma SyncedAfterRemove(students: seq<Student>, enrollments: seq<Enrollment>, j: nat, k: nat)
    requires UniqueIds(students)
    requires Synced(students, enrollments)
    requires j < |enrollments|
    requires k < |students| && students[k].studentId == enrollments[j].studentId
    ensures Synced(Resync(students, k, RemoveAt(enrollments, j)), RemoveAt(enrollments, j))
  {
    var e := RemoveAt(enrollments, j);
    var r := Resync(students, k, e);
    forall i | 0 <= i < |r| && r[i].courses.Some?
      ensures r[i].courses.value == CoursesOf(e, r[i].studentId)
    {
      if i != k {
        assert students[i].studentId != enrollments[j].studentId;
        CoursesOfRemoveAt(enrollments, j, students[i].studentId);
      }
    }
  }
}
