/** The four handlers of the enrollment router: listing every student with the
    courses they are enrolled in, fetching one student, enrolling a student in a
    course and removing an enrollment. The two schema validators are passed in
    as predicates; each handler's HTTP reply is reduced to its outcome. */
module EnrollmentRoutes {
  import opened EnrollmentData

  /** How a handler ends; `Code` gives the HTTP status it answers with. */
  datatype Outcome =
    | Success             // 200
    | InvalidStudentId    // 400, the path id fails its schema
    | InvalidBody         // 400, the request body fails its schema
    | ForbiddenAccess     // 403, the body names another student
    | StudentNotFound     // 404 "StudentId does not exists"
    | EnrollmentExists    // 409 "Enrollment is already exists"
    | EnrollmentNotFound  // 404 "Enrollment does not exists"

  function Code(o: Outcome): (status: nat)
    ensures o == Success <==> status == 200
    ensures status in {200, 400, 403, 404, 409}
  {
    match o
    case Success => 200
    case InvalidStudentId => 400
    case InvalidBody => 400
    case ForbiddenAccess => 403
    case StudentNotFound => 404
    case EnrollmentExists => 409
    case EnrollmentNotFound => 404
  }

  /** One entry of the listing: a student's id with the course ids it is enrolled in. */
  datatype Listing = Listing(studentId: StudentId, courses: seq<CourseId>)

  /** GET /: every student, in order, paired with the course ids of their
      enrollment records, in record order. Where a student's own course list
      is in sync, the listing agrees with it. */
  function ListAll(students: seq<Student>, enrollments: seq<Enrollment>): (r: seq<Listing>)
    ensures |r| == |students|
    ensures forall i :: 0 <= i < |r| ==> r[i].studentId == students[i].studentId
    ensures forall i, c :: 0 <= i < |r| ==>
      (c in r[i].courses <==> Enrollment(students[i].studentId, c) in enrollments)
    ensures forall i :: 0 <= i < |r| ==> r[i].courses == CoursesOf(enrollments, students[i].studentId)
    ensures Synced(students, enrollments) ==>
      forall i :: 0 <= i < |r| && students[i].courses.Some? ==> r[i].courses == students[i].courses.value
  {
    if students == [] then []
    else [Listing(students[0].studentId, CoursesOf(enrollments, students[0].studentId))]
         + ListAll(students[1..], enrollments)
  }

  /** The reply of GET /:studentId: its outcome and, on success, the record. */
  datatype Reply = Reply(outcome: Outcome, student: Option<Student>)

  /** GET /:studentId: 400 when the id fails validation, 404 when no student has
      it, otherwise the first student with that id. */
  function GetStudent(validId: StudentId -> bool, students: seq<Student>, id: StudentId): (r: Reply)
    ensures r.outcome == InvalidStudentId <==> !validId(id)
    ensures r.outcome == StudentNotFound <==>
      validId(id) && forall i :: 0 <= i < |students| ==> students[i].studentId != id
    ensures r.outcome in {Success, InvalidStudentId, StudentNotFound}
    ensures r.student.Some? <==> r.outcome == Success
    ensures r.outcome == Success ==>
      exists k :: 0 <= k < |students| && students[k] == r.student.value &&
        students[k].studentId == id && forall i :: 0 <= i < k ==> students[i].studentId != id
  {
    if !validId(id) then Reply(InvalidStudentId, None)
    else
      var k := FindStudent(students, id);
      if k == -1 then Reply(StudentNotFound, None) else Reply(Success, Some(students[k]))
  }

  /** The checks POST and DELETE share, in their order: path id, body, that the
      body names the caller's own id, that the student exists. `Success` means
      all four pass. */
  function Admit(validId: StudentId -> bool, validBody: Enrollment -> bool,
                 students: seq<Student>, pathId: StudentId, body: Enrollment): (r: Outcome)
    ensures r in {Success, InvalidStudentId, InvalidBody, ForbiddenAccess, StudentNotFound}
    ensures r == InvalidStudentId <==> !validId(pathId)
    ensures r == InvalidBody <==> validId(pathId) && !validBody(body)
    ensures r == ForbiddenAccess <==> validId(pathId) && validBody(body) && body.studentId != pathId
    ensures r == Success <==>
      validId(pathId) && validBody(body) && body.studentId == pathId &&
      exists i :: 0 <= i < |students| && students[i].studentId == pathId
    ensures r == Success ==> body == Enrollment(pathId, body.courseId) && FindStudent(students, pathId) >= 0
  {
    if !validId(pathId) then InvalidStudentId
    else if !validBody(body) then InvalidBody
    else if body.studentId != pathId then ForbiddenAccess
    else if FindStudent(students, pathId) == -1 then StudentNotFound
    else Success
  }

  /** The module-level `students` and `enrollments` arrays the handlers share. */
  class Store {
    var students: seq<Student>
    var enrollments: seq<Enrollment>

    /** Student ids and enrollment pairs are unique, and every course list
        that is present matches the enrollment records. */
    ghost predicate Valid()
      reads this
    {
      UniqueIds(students) && UniquePairs(enrollments) && Synced(students, enrollments)
    }

    /** The seed data the process starts from. */
    constructor (students: seq<Student>, enrollments: seq<Enrollment>)
      ensures this.students == students && this.enrollments == enrollments
    {
      this.students := students;
      this.enrollments := enrollments;
    }

    /** POST /:studentId: the shared checks, then 409 for a pair already
        present; otherwise the body is appended and the student's course list,
        if it has one, is recomputed. Every failure leaves the store as it was. */
    method Enroll(validId: StudentId -> bool, validBody: Enrollment -> bool,
                  pathId: StudentId, body: Enrollment) returns (outcome: Outcome)
      modifies this
      ensures Admit(validId, validBody, old(students), pathId, body) != Success ==>
        outcome == Admit(validId, validBody, old(students), pathId, body)
      ensures Admit(validId, validBody, old(students), pathId, body) == Success ==>
        outcome == (if body in old(enrollments) then EnrollmentExists else Success)
      ensures outcome != Success ==> students == old(students) && enrollments == old(enrollments)
      ensures outcome == Success ==> enrollments == old(enrollments) + [body]
      ensures outcome == Success ==>
        students == Resync(old(students), FindStudent(old(students), pathId), enrollments)
      ensures old(UniquePairs(enrollments)) ==> UniquePairs(enrollments)
      ensures old(Valid()) ==> Valid()
    {
      outcome := Admit(validId, validBody, students, pathId, body);
      if outcome != Success {
        return;
      }
      var studentIndex := FindStudent(students, pathId);
      if body in enrollments {
        outcome := EnrollmentExists;
        return;
      }
      if UniquePairs(enrollments) {
        AppendKeepsUnique(enrollments, body);
      }
      if Valid() {
        SyncedAfterAppend(students, enrollments, body, studentIndex);
      }
      enrollments := enrollments + [body];
      students := Resync(students, studentIndex, enrollments);
    }

    /** DELETE /:studentId: the shared checks, then 404 when no record holds
        the pair; otherwise the first such record is spliced out and the
        student's course list, if it has one, is recomputed. Every failure
        leaves the store as it was. */
    method Unenroll(validId: StudentId -> bool, validBody: Enrollment -> bool,
                    pathId: StudentId, body: Enrollment) returns (outcome: Outcome)
      modifies this
      ensures Admit(validId, validBody, old(students), pathId, body) != Success ==>
        outcome == Admit(validId, validBody, old(students), pathId, body)
      ensures Admit(validId, validBody, old(students), pathId, body) == Success ==>
        outcome == (if body in old(enrollments) then Success else EnrollmentNotFound)
      ensures outcome != Success ==> students == old(students) && enrollments == old(enrollments)
      ensures outcome == Success ==>
        enrollments == RemoveAt(old(enrollments), FindEnrollment(old(enrollments), pathId, body.courseId))
      ensures outcome == Success ==> |enrollments| == |old(enrollments)| - 1
      ensures outcome == Success ==>
        students == Resync(old(students), FindStudent(old(students), pathId), enrollments)
      ensures old(UniquePairs(enrollments)) ==> UniquePairs(enrollments)
      ensures old(UniquePairs(enrollments)) && outcome == Success ==> body !in enrollments
      ensures old(Valid()) ==> Valid()
    {
      outcome := Admit(validId, validBody, students, pathId, body);
      if outcome != Success {
        return;
      }
      var studentIndex := FindStudent(students, pathId);
      var enrollIndex := FindEnrollment(enrollments, pathId, body.courseId);
      if enrollIndex == -1 {
        outcome := EnrollmentNotFound;
        return;
      }
      if UniquePairs(enrollments) {
        RemoveAtKeepsUnique(enrollments, enrollIndex);
      }
      if Valid() {
        SyncedAfterRemove(students, enrollments, enrollIndex, studentIndex);
      }
      enrollments := RemoveAt(enrollments, enrollIndex);
      students := Resync(students, studentIndex, enrollments);
    }
  }

  /** Posting the same enrollment twice in a row: when the first request
      succeeds, the second answers 409 and the table has grown by exactly one
      record. */
  method EnrollTwice(store: Store, validId: StudentId -> bool, validBody: Enrollment -> bool,
                     pathId: StudentId, body: Enrollment) returns (first: Outcome, second: Outcome)
    modifies store
    ensures first == Success ==> second == EnrollmentExists
    ensures first == Success ==> store.enrollments == old(store.enrollments) + [body]
    ensures first != Success ==>
      second == first && store.students == old(store.students) && store.enrollments == old(store.enrollments)
  {
    first := store.Enroll(validId, validBody, pathId, body);
    second := store.Enroll(validId, validBody, pathId, body);
  }
}
