# Assignmate submission lifecycle, in Dafny

This project models the core of Assignmate, an assignment-management web
application. Teachers create assignments, optionally with a question file.
Students submit an answer (text, a file, or both) once per assignment.
Teachers grade submissions.

The model covers:

- the two stored record shapes, `Assignment` and `Submission`, with the status
  enum (`submitted`, `graded`, `late`), its default, and the optional file
  and grade sub-records (`assignment_model.dfy`, `submission_model.dfy`);
- an in-memory store holding both collections and an id allocator, as a class
  `Database.Store`, with the invariant `Database.Consistent` that every handler
  keeps (`database.dfy`);
- the assignment handlers: create with an optional file descriptor, list
  newest first, fetch by id with not-found, and unconditional delete
  (`assignment_controller.dfy`);
- the submission handlers: submit, with its ordered chain of guards and the
  late/submitted status decision; grade, which overwrites the grade and forces
  the status to graded; and the two newest-first listings
  (`submission_controller.dfy`);
- the student's "My Submissions" page: the two lookups it uses to decide
  whether an assignment is already submitted, and what each table row and the
  submit dialog show (`my_submissions.dfy`);
- shared pieces: Option/Result (`wrappers.dfy`); ids and file descriptors
  (`documents.dfy`); and first-match, filter and descending-sort queries over
  sequences (`query.dfy`).

`scenario.dfy` is a client of the handlers' contracts. It creates an
assignment due at time 100 and submits once on time and once late. It then
shows that a resubmission is refused, that a missing assignment or an empty
answer is refused, and that grading marks a submission graded.

Conventions:

- The wall clock is an integer parameter `now`.
- Document ids are natural numbers handed out by the store.
- An id that arrives in a request is `ObjectId(id)` or `Malformed`. `Malformed`
  stands for text that Mongoose cannot cast, which the handlers report as a
  400 error.
- The user collection is consulted only to check that a student exists, so it
  is a parameter `users: set<Id>`.
- Each error is a constructor of an `Error` datatype. `HttpStatus` maps it to
  the status code the handler sends.

What the code does, as modelled:

- A missing `studentId` and an unknown student are two different 400 errors.
- An id that cannot be cast is a 400, even where a missing record would be a
  404.
- `maxPoints` is not checked to be positive.
- Grading does not bound `points` by `maxPoints`.
- The controller sets `late` only when `now > dueDate`; otherwise the schema
  default supplies `submitted` (`SubmissionController.StatusAt`,
  `SubmissionModel.New`). Grading then overwrites the status. In the model,
  which reads the clock once per request, this gives a rule that is part of
  `Database.Consistent`: a submission is graded exactly when it has a grade,
  and an ungraded one is late exactly when its `submittedAt` is after its
  assignment's due date.

## Model

| member | source | states |
|---|---|---|
| `Query.FirstIndex` | frontend/src/pages/MySubmissions.js:117 | The first position whose element matches, with no earlier match; none exactly when nothing matches |
| `Query.Filter` | backend/controllers/submissionController.js:20 | A query keeps exactly the matching records, each as often as it occurs in the collection |
| `Query.SortDesc` | backend/controllers/submissionController.js:10 | A `-1` sort returns a permutation of its input, ordered by the key from largest to smallest |
| `AssignmentModel.Save` | backend/models/Assignment.js:4-34 | Saving succeeds exactly when title and description are non-empty and dueDate, maxPoints and teacher are present; instructions and questionFile are stored as given, and createdAt is the save time |
| `AssignmentModel.FindById` | backend/controllers/assignmentController.js:44-47 | The record with that id when one exists, none exactly when no record has it |
| `SubmissionModel.ParseStatus` | backend/models/Submission.js:33-37 | A stored status is accepted exactly when it is one of `submitted`, `graded`, `late` |
| `SubmissionModel.StatusRoundTrip` | backend/models/Submission.js:33-37 | Every status value is stored under a name the enum accepts and reads back as itself |
| `SubmissionModel.New` | backend/models/Submission.js:4-37 | A new record carries its required assignment and student references and the given text and file; status defaults to `submitted`; `submittedAt` is the creation time; there is no grade |
| `SubmissionModel.FindById` | backend/controllers/submissionController.js:99-104 | The position of the submission with that id, none exactly when no submission has it |
| `AssignmentController.HttpStatus` | backend/controllers/assignmentController.js:47-54 | Not-found is reported as 404 and every other failure as 400 |
| `AssignmentController.Build` | backend/controllers/assignmentController.js:5-28 | Create succeeds exactly when the required fields are present (else a 400 validation error); `teacher` comes from `teacherId`; `questionFile` is present exactly when a file was uploaded and copies its five fields |
| `AssignmentController.GetAssignments` | backend/controllers/assignmentController.js:33-35 | All assignments, as a permutation of the collection ordered by `createdAt`, newest first |
| `AssignmentController.GetAssignment` | backend/controllers/assignmentController.js:42-54 | The record with that id, 404 exactly when none exists, 400 for an id that cannot be cast |
| `AssignmentController.Remove` | backend/controllers/assignmentController.js:59 | After deletion no record has that id and every record with another id remains, as often as before |
| `AssignmentController.GetAfterCreate` | backend/controllers/assignmentController.js:20-21 | A created assignment is found again by its id |
| `AssignmentController.GetAfterDelete` | backend/controllers/assignmentController.js:57-63 | After deleting an id, fetching it is 404 while every other assignment is still found |
| `AssignmentController.CreatePreservesConsistency` | backend/controllers/assignmentController.js:20-21 | Inserting a validated assignment under the next id keeps the store invariant |
| `AssignmentController.DeletePreservesConsistency` | backend/controllers/assignmentController.js:59 | Deleting an assignment keeps the store invariant; submissions that referenced it remain |
| `AssignmentController.CreateAssignment` | backend/controllers/assignmentController.js:3-28 | On success the new record is appended and the id allocator advances; on failure nothing changes; submissions are untouched |
| `AssignmentController.DeleteAssignment` | backend/controllers/assignmentController.js:57-63 | Reports success whether or not the id existed and removes only that record; submissions are untouched; an id that cannot be cast is a 400 |
| `SubmissionController.HttpStatus` | backend/controllers/submissionController.js:33-103 | The two not-found errors are 404 and every other failure is 400 |
| `SubmissionController.StatusAt` | backend/controllers/submissionController.js:78-80 | The status is set explicitly, to `late`, exactly when `now > dueDate` |
| `SubmissionController.SubmitOutcome` | backend/controllers/submissionController.js:29-83 | The guards fire in order: cast, assignment missing (404), no student id, unknown student, already submitted, neither text nor file. On success the record has the given assignment, student and text (empty when absent) and the file descriptor when uploaded; it has no grade and is submitted at `now`; its status is `late` exactly when `now` is past the assignment's due date, else `submitted` |
| `SubmissionController.WithGrade` | backend/controllers/submissionController.js:106-111 | Grading sets grade = (points, feedback, now) and status `graded` whatever it was; every other field is kept |
| `SubmissionController.RegradeOverwrites` | backend/controllers/submissionController.js:106-111 | Grading twice is the same as grading once with the second values |
| `SubmissionController.GetSubmissions` | backend/controllers/submissionController.js:7-10 | All submissions, as a permutation of the collection ordered by `submittedAt`, newest first |
| `SubmissionController.GetMySubmissions` | backend/controllers/submissionController.js:17-27 | Exactly the given student's submissions, ordered by `submittedAt`, newest first; a student id that cannot be cast is a 400 |
| `SubmissionController.SubmitPreservesConsistency` | backend/controllers/submissionController.js:49-83 | An accepted submission keeps the store invariant, including at most one submission per (assignment, student) |
| `SubmissionController.SecondSubmitRejected` | backend/controllers/submissionController.js:49-56 | Once a submission is accepted, a second one by the same student for the same assignment fails with "Assignment already submitted", whatever it carries |
| `SubmissionController.GradePreservesConsistency` | backend/controllers/submissionController.js:106-113 | Grading a submission keeps the store invariant |
| `SubmissionController.SubmitAssignment` | backend/controllers/submissionController.js:29-93 | Returns the submit outcome; on success appends exactly that record, and on any failure leaves the store unchanged; assignments are untouched |
| `SubmissionController.GradeSubmission` | backend/controllers/submissionController.js:95-118 | Fails with not-found (404) exactly when no submission has that id, changing nothing; otherwise replaces only that record by its graded form and returns it |
| `MySubmissions.Populate` | backend/controllers/submissionController.js:20-22 | The page's copy of a submission has its assignment populated when that assignment exists, and null when it has been deleted |
| `MySubmissions.Fetched` | frontend/src/pages/MySubmissions.js:29-36 | The page's list is the fetched list, element by element, populated |
| `MySubmissions.IsAssignmentSubmitted` | frontend/src/pages/MySubmissions.js:112-114 | True exactly when some submission has a non-null assignment with that id |
| `MySubmissions.SubmissionForAssignment` | frontend/src/pages/MySubmissions.js:116-118 | The first such submission in list order, undefined exactly when `isAssignmentSubmitted` is false |
| `MySubmissions.RowFor` | frontend/src/pages/MySubmissions.js:161-229 | "Past Due" badge exactly when past due and not submitted; the status badge shows the matched submission's status; the grade cell is `points/maxPoints` when graded, `Pending` when submitted and ungraded, `-` when not submitted; the submit button appears exactly when not submitted and is disabled exactly when past due |
| `MySubmissions.BadgeFor` | frontend/src/pages/MySubmissions.js:94-106 | `submitted` shows an `info` badge captioned "Submitted", `graded` a `success` badge "Graded", `late` a `danger` badge "Late" |
| `MySubmissions.BadgesDistinguishStatus` | frontend/src/pages/MySubmissions.js:94-106 | Different statuses show different badges |
| `MySubmissions.HistoryRowFor` | frontend/src/pages/MySubmissions.js:259-289 | A history row shows the status badge; `points/maxPoints` exactly when graded, with the populated assignment's `maxPoints` as the maximum and no maximum when the assignment is gone; the feedback text when it is non-empty, and "No feedback yet" when there is no grade or the feedback is missing or empty; and whether an answer file exists |
| `MySubmissions.ModalSubmitDisabled` | frontend/src/pages/MySubmissions.js:376 | The dialog's submit button is enabled exactly when not loading and there is text or a file |
| `MySubmissions.ModalAgreesWithServer` | frontend/src/pages/MySubmissions.js:376 | What the enabled button sends is never refused for lacking content, and what a disabled button would send could never be accepted |
| `MySubmissions.SubmitOfferedIffNotSubmitted` | frontend/src/pages/MySubmissions.js:214-227 | Given the server's own list for the student, the page offers "Submit Answer" for an existing assignment exactly when the store has no submission for that pair |
| `MySubmissions.ShownIffStored` | frontend/src/pages/MySubmissions.js:112-114 | For an existing assignment, the page finds a submission exactly when the fetched list holds one for it |

## Left out

- HTTP plumbing is not modelled: Express request/response objects, the route tables (`backend/routes/*.js`) and server start-up (`backend/server.js`). Results are `Result` values with an `HttpStatus` mapping instead.
- Populating the teacher, student and assignment summary fields into responses is not modelled. They are joins for display. The one populate the page's decisions depend on, the assignment reference on the student's own list, is `MySubmissions.Populate`.
- The race between the duplicate check and the insert in `submitAssignment` is not modelled. Handlers run one at a time, so "at most one submission per pair" holds only for sequential calls.
- The upload middleware and file storage are not modelled. An upload is an opaque record whose five descriptor fields are copied.
- The wall clock is the parameter `now`. Date formatting and locale display are not modelled.
- Mongoose's casting of form text to dates and numbers is abstracted. A field that is missing or cannot be cast is `None`, which fails validation; the exact error message is not modelled.
- A grading request whose `points` cannot be cast to a number is not modelled. It would fail on save with a 400. Here `points` is an optional integer.
- Failures of the database itself (the generic 400 from each `catch`) are not modelled. The in-memory store never fails.
- The automatic `createdAt`/`updatedAt` timestamps on submissions and `updatedAt` on assignments are not modelled. Nothing in the core reads them.
- Query.SortDesc: records with equal sort keys come back in no promised order, since the database promises none either.
- The page's React state, effects and fetch/submit handlers are UI and network code. They are left out; `Fetched` stands for the result of a fetch.
- `frontend/src/pages/Assignments.js` is not part of this model. It repeats the past-due test and the dialog's text-or-file rule.
- `frontend/src/pages/Submissions.js`, the teacher's grading page, is not part of this model.
- AssignmentController.Build: models a create request as the six form fields plus the upload. The handler spreads the whole request body into the record, so a JSON body or a bracketed form field can also set `questionFile` without an upload, or set `_id` and `createdAt`. For such requests "`questionFile` present exactly when a file was uploaded", "`id` is the next id" and "`createdAt` is the save time" do not hold, and the model does not cover them.
- SubmissionController.SubmitOutcome: reads the clock once. The handler reads it twice: once for the late test (`new Date()` at `backend/controllers/submissionController.js:78`) and once for the `submittedAt` default when the record is built at line 82 (`backend/models/Submission.js:24-27`). If the due date falls between the two readings, the stored record is `submitted` with a `submittedAt` after the due date. `Database.Consistent`'s late rule is therefore a property of the model's single reading, not a guarantee of the handler.
- `points` and `maxPoints` are integers here. The schema's `Number` type also keeps fractions, and the grading form sends whatever the number input holds. Nothing in the model depends on integrality.
