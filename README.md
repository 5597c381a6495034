# Enrollment router model

A Dafny model of the enrollment router of a small HTTP API
(`src/routes/EnrollMentRoutes_v2.ts`). The router keeps two module-level
arrays: `students`, each with a `studentId` and an optional `courses` record
whose `courses` key holds a list of course ids,
and `enrollments`, a list of `{studentId, courseId}` records. Four handlers
read and update them in place:

- `GET /` lists every student with the course ids of their enrollment records.
- `GET /:studentId` fetches one student: 400, 404 or 200.
- `POST /:studentId` enrolls a student in a course. It runs a fixed chain of
  checks (400, 400, 403, 404, 409), then appends the record and recomputes the
  student's course list.
- `DELETE /:studentId` runs the same first four checks and then answers 404
  when no record matches. Otherwise it splices out the first matching record
  and recomputes the student's course list.

Layout:

- `enrollment_data.dfy`, module `EnrollmentData`: the records, the array
  lookups (`findIndex`, filter/map projection, `splice`), the resynchronisation
  of a student's course list, the invariants (`UniquePairs`, `UniqueIds`,
  `Synced`), and the lemmas that the mutations preserve them.
- `enrollment_routes.dfy`, module `EnrollmentRoutes`: the handler outcomes and
  their status codes. The two read-only handlers are functions (`ListAll`,
  `GetStudent`). `Admit` is the check chain that POST and DELETE share. The
  class `Store` holds the two arrays as `seq` fields. Its methods `Enroll` and
  `Unenroll` mutate them and state the whole new state. They also state that
  `Store.Valid()` is preserved: ids and pairs are unique, and every course list
  that is present equals its student's projection of `enrollments`.

The schema validators `zStudentId` and `zEnrollmentBody` live in a file that is
not part of this model. They appear as the function parameters `validId` and
`validBody`, and every contract holds for any choice of them.

Two facts about the code shape the invariant:

- After a rewrite, a student's `courses` value holds an ordered list of course
  ids, in record order, one per matching record, under its `courses` key. It is rewritten
  only for a student whose `courses` is defined (lines 167-172 and 245-250).
  `Synced` states exactly that.
- The rewrite touches only the first student with the id, as `findIndex`
  does, so the lists stay in sync only when student ids are unique.
  `Store.Valid()` therefore includes `UniqueIds`.

## Model

| member | source | states |
|---|---|---|
| EnrollmentData.FindIndex | src/routes/EnrollMentRoutes_v2.ts:81-83 | `findIndex`: -1 exactly when no element satisfies the predicate; otherwise an index whose element satisfies it, with no earlier element satisfying it |
| EnrollmentData.FindStudent | src/routes/EnrollMentRoutes_v2.ts:134-136 | -1 exactly when no student has the id; otherwise the first student with that id |
| EnrollmentData.FindEnrollment | src/routes/EnrollMentRoutes_v2.ts:228-231 | -1 exactly when the (studentId, courseId) pair is absent; otherwise the index of its first occurrence |
| EnrollmentData.CoursesOf | src/routes/EnrollMentRoutes_v2.ts:163-165 | a course id is in the projection exactly when a record pairs the student with that course; the projection is no longer than the record list |
| EnrollmentData.RemoveAt | src/routes/EnrollMentRoutes_v2.ts:239 | `splice(i, 1)`: length drops by one, records before `i` stay in place, records after it shift down by one, and the multiset loses exactly the removed record |
| EnrollmentData.Resync | src/routes/EnrollMentRoutes_v2.ts:163-172 | ids and all other students are unchanged; the target's course list stays absent if it was absent, and otherwise is exactly that student's projection `newcourse`, so it holds exactly the course ids enrolled for that student |
| EnrollmentData.CoursesOfConcat | src/routes/EnrollMentRoutes_v2.ts:241-243 | the filter/map projection distributes over concatenation of record lists |
| EnrollmentData.CoursesOfAppend | src/routes/EnrollMentRoutes_v2.ts:162-165 | after a push, the pushed record's student gains its course id at the end of the projection, and every other student's projection is unchanged |
| EnrollmentData.CoursesOfRemoveAt | src/routes/EnrollMentRoutes_v2.ts:239-243 | after a splice, the removed record's student loses exactly that course id at its position, and every other student's projection is unchanged |
| EnrollmentData.AppendKeepsUnique | src/routes/EnrollMentRoutes_v2.ts:143-162 | pushing a pair that the 409 check found absent keeps all pairs unique |
| EnrollmentData.RemoveAtKeepsUnique | src/routes/EnrollMentRoutes_v2.ts:228-239 | splicing one record keeps pairs unique, and under uniqueness the removed pair is absent afterwards |
| EnrollmentData.SyncedAfterAppend | src/routes/EnrollMentRoutes_v2.ts:162-172 | with unique ids, pushing a record of the target student and resynchronising it keeps every present course list equal to its projection |
| EnrollmentData.SyncedAfterRemove | src/routes/EnrollMentRoutes_v2.ts:239-250 | with unique ids, splicing a record of the target student and resynchronising it keeps every present course list equal to its projection |
| EnrollmentRoutes.Code | src/routes/EnrollMentRoutes_v2.ts:116-237 | only success answers 200; every outcome answers one of 200, 400, 403, 404, 409 |
| EnrollmentRoutes.ListAll | src/routes/EnrollMentRoutes_v2.ts:24-29 | one entry per student, in order, with the student's id; each entry's list is that student's filter/map projection, in record order with one id per record, so a course id is listed exactly when a record pairs the student with it; for a synced store, each entry equals the student's own course list |
| EnrollmentRoutes.GetStudent | src/routes/EnrollMentRoutes_v2.ts:73-94 | 400 exactly when the id fails validation; 404 exactly when it is valid and no student has it; otherwise 200 with the first student whose id matches |
| EnrollmentRoutes.Admit | src/routes/EnrollMentRoutes_v2.ts:113-142 | the first failing check decides the outcome (invalid path id 400, invalid body 400, other student's id 403, unknown student 404); success exactly when all pass, and then the body names the path id |
| EnrollmentRoutes.Store.constructor | src/routes/EnrollMentRoutes_v2.ts:6 | the store starts from the given seed arrays |
| EnrollmentRoutes.Store.Enroll | src/routes/EnrollMentRoutes_v2.ts:110-178 | check order 400/400/403/404/409; every failure leaves both arrays unchanged; on success the body is appended and the target student is resynchronised; pair uniqueness and `Valid()` are preserved |
| EnrollmentRoutes.Store.Unenroll | src/routes/EnrollMentRoutes_v2.ts:194-255 | check order 400/400/403/404, then 404 for an absent pair; every failure leaves both arrays unchanged; on success the first matching record is spliced out, the length drops by one, and the target is resynchronised; uniqueness and `Valid()` are preserved, and under uniqueness the pair is absent afterwards |
| EnrollmentRoutes.EnrollTwice | src/routes/EnrollMentRoutes_v2.ts:143-162 | posting the same body twice: if the first answers 200, the second answers 409 and `enrollments` has grown by exactly that one record; if the first fails, the second fails the same way and neither `students` nor `enrollments` changes |

## Left out

- `POST /reset`: it calls `reset_enrollments` from `../db/db.js`, which is not part of this model, so its effect cannot be stated.
- Authentication and the four role middlewares (`authenticateToken`, `checkRoleAdmin`, `checkRoleAdminOrOwnId`, `checkRoleStudent`, `checkRoleStudentDeleted`). They live in files that are not part of this model, so each handler is modelled as already allowed to run.
- The zod schemas' internals: the validators are parameters of the handlers.
- `dotenv` configuration loading, Express routing, `req`/`res`, the JSON envelopes and message strings. `Enroll` and `Unenroll` return an `Outcome` (with `Code` giving the status). `GetStudent` returns a `Reply` (an outcome plus the student). `ListAll` returns the listing itself, because `GET /` always answers 200 in the modelled logic. The success data of POST (the body) and DELETE (the whole remaining `enrollments`) is the post-state of the `Store`.
- The `try/catch` fallbacks answering 500, or 200 for `GET /`. Nothing in the modelled logic throws.
- The second `studentIndex === -1` check in POST (lines 156-161). It cannot fire, because the same condition already returned at lines 137-142.
- Extra fields of the request body beyond `studentId` and `courseId`. Without them, "a record with the same studentId and courseId" is the same as "the body is in `enrollments`".
- The spread `{...courses, courses: newcourse}` keeps any other keys of the old `courses` value. The model keeps only the list written under the `courses` key; a `courses` value of `null` is not represented.
- EnrollmentRoutes.ListAll: each listed course is the bare course id, not the `{courseId}` object of the JSON reply.
