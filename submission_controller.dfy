/**
 * The submission lifecycle: a student submits once per assignment, the
 * status records whether that was after the due date, and grading attaches
 * a grade and marks the submission graded.
 */
module SubmissionController {
  import opened Wrappers
  import opened Documents
  import opened SubmissionModel
  import opened Database
  import AssignmentModel
  import Query

  /** Why a handler failed; every failure leaves the store as it was. */
  datatype Error =
    | AssignmentNotFound   // "Assignment not found"
    | StudentIdRequired    // "Student ID is required"
    | StudentNotFound      // "Student not found"
    | AlreadySubmitted     // "Assignment already submitted"
    | ContentRequired      // "Either submission text or file is required"
    | SubmissionNotFound   // "Submission not found"
    | CastFailed           // an id in the request was not an ObjectId

  /** The response code each failure is reported with. */
  function HttpStatus(e: Error): (code: int)
    ensures code == 404 <==> e == AssignmentNotFound || e == SubmissionNotFound
    ensures code == 400 <==> !(e == AssignmentNotFound || e == SubmissionNotFound)
  {
    match e
    case AssignmentNotFound => 404
    case SubmissionNotFound => 404
    case _ => 400
  }

  /**
   * The body fields of a submit request: `studentId` is None when absent or
   * empty, `submissionText` is None when absent.
   */
  datatype SubmitRequest = SubmitRequest(studentId: Option<IdParam>, submissionText: Option<string>)

  /** The status the controller sets explicitly: `late` after the due date, otherwise none (the default applies). */
  function StatusAt(now: int, dueDate: int): (r: Option<Status>)
    ensures r.Some? <==> now > dueDate
    ensures r.Some? ==> r.value == Late
  {
    if now > dueDate then Some(Late) else None
  }

  /** Whether an answer was given: non-empty text or an uploaded file. */
  predicate HasContent(text: string, file: Option<FileInfo>) {
    text != "" || file.Some?
  }

  /**
   * The outcome of `submitAssignment` against the collections as they are:
   * the first guard that fails, or the record to insert with id `newId`.
   * `users` is the set of ids the identity store knows.
   */
  function SubmitOutcome(assignments: seq<AssignmentModel.Assignment>, submissions: seq<Submission>,
                         users: set<Id>, assignmentId: IdParam, req: SubmitRequest,
                         file: Option<Upload>, now: int, newId: Id): (r: Result<Submission, Error>)
    // 1. the assignment must exist (an id that is not an ObjectId fails the cast first)
    ensures r == Err(CastFailed) <==>
      assignmentId.Malformed?
      || ((exists a :: a in assignments && a.id == assignmentId.id) && req.studentId == Some(Malformed))
    ensures assignmentId.ObjectId? ==>
      ((forall a :: a in assignments ==> a.id != assignmentId.id) <==> r == Err(AssignmentNotFound))
    // 2. then a student id must be given
    ensures r == Err(StudentIdRequired) <==>
      assignmentId.ObjectId? && (exists a :: a in assignments && a.id == assignmentId.id)
      && req.studentId.None?
    // 3. then the student must exist
    ensures r == Err(StudentNotFound) <==>
      assignmentId.ObjectId? && (exists a :: a in assignments && a.id == assignmentId.id)
      && req.studentId.Some? && req.studentId.value.ObjectId? && req.studentId.value.id !in users
    // 4. then the pair must not have been submitted already
    ensures r == Err(AlreadySubmitted) <==>
      assignmentId.ObjectId? && (exists a :: a in assignments && a.id == assignmentId.id)
      && req.studentId.Some? && req.studentId.value.ObjectId? && req.studentId.value.id in users
      && Exists(submissions, assignmentId.id, req.studentId.value.id)
    // 5. then there must be text or a file
    ensures r == Err(ContentRequired) <==>
      assignmentId.ObjectId? && (exists a :: a in assignments && a.id == assignmentId.id)
      && req.studentId.Some? && req.studentId.value.ObjectId? && req.studentId.value.id in users
      && !Exists(submissions, assignmentId.id, req.studentId.value.id)
      && req.submissionText.GetOr("") == "" && file.None?
    ensures r.Ok? ==>
      var s := r.value;
      && assignmentId.ObjectId? && req.studentId.Some? && req.studentId.value.ObjectId?
      && s.id == newId && s.assignment == assignmentId.id && s.student == req.studentId.value.id
      && s.submissionText == Some(req.submissionText.GetOr(""))
      && s.submissionFile == (if file.Some? then Some(Describe(file.value)) else None)
      && s.submittedAt == now && s.grade.None?
      && !Exists(submissions, s.assignment, s.student)
      && HasAnswer(s)
      && exists a :: a in assignments && a.id == s.assignment && (s.status == Late <==> now > a.dueDate)
    ensures r.Ok? ==> r.value.status == Late || r.value.status == Submitted
    ensures r != Err(SubmissionNotFound)
  {
    match assignmentId
    case Malformed => Err(CastFailed)
    case ObjectId(aid) =>
      match AssignmentModel.FindById(assignments, aid)
      case None => Err(AssignmentNotFound)
      case Some(assignment) =>
        var text := req.submissionText.GetOr("");
        match req.studentId
        case None => Err(StudentIdRequired)
        case Some(Malformed) => Err(CastFailed)
        case Some(ObjectId(sid)) =>
          if sid !in users then Err(StudentNotFound)
          else if Exists(submissions, aid, sid) then Err(AlreadySubmitted)
          else
            var descriptor := if file.Some? then Some(Describe(file.value)) else None;
            if !HasContent(text, descriptor) then Err(ContentRequired)
            else Ok(New(newId, aid, sid, Some(text), descriptor, StatusAt(now, assignment.dueDate), now))
  }

  /** The record after grading: grade overwritten, status graded, every other field kept. */
  function WithGrade(s: Submission, points: Option<int>, feedback: Option<string>, now: int): (r: Submission)
    ensures r.status == Graded && r.grade == Some(Grade(points, feedback, now))
    ensures r.(grade := s.grade, status := s.status) == s
  {
    s.(grade := Some(Grade(points, feedback, now)), status := Graded)
  }

  /** Grading again replaces the earlier grade entirely. */
  lemma RegradeOverwrites(s: Submission, p1: Option<int>, f1: Option<string>, t1: int,
                          p2: Option<int>, f2: Option<string>, t2: int)
    ensures WithGrade(WithGrade(s, p1, f1, t1), p2, f2, t2) == WithGrade(s, p2, f2, t2)
  {
  }

  function SubmittedAt(s: Submission): int { s.submittedAt }

  /** `getSubmissions`: every submission, most recent first. */
  function GetSubmissions(submissions: seq<Submission>): (r: seq<Submission>)
    ensures multiset(r) == multiset(submissions)
    ensures Query.SortedDesc(r, SubmittedAt)
  {
    Query.SortDesc(submissions, SubmittedAt)
  }

  /** `getMySubmissions`: exactly the given student's submissions, most recent first. */
  function GetMySubmissions(submissions: seq<Submission>, student: IdParam): (r: Result<seq<Submission>, Error>)
    ensures student.Malformed? ==> r == Err(CastFailed)
    ensures student.ObjectId? ==> r.Ok?
    ensures r.Ok? ==> forall s :: s in r.value <==> s in submissions && s.student == student.id
    ensures r.Ok? ==> forall s :: multiset(r.value)[s] == if s.student == student.id then multiset(submissions)[s] else 0
    ensures r.Ok? ==> Query.SortedDesc(r.value, SubmittedAt)
  {
    match student
    case Malformed => Err(CastFailed)
    case ObjectId(sid) => Ok(Query.SortDesc(Query.Filter(submissions, (s: Submission) => s.student == sid), SubmittedAt))
  }

  /** A successful submission keeps the store consistent, with the new id handed out. */
  lemma {:induction false} SubmitPreservesConsistency(
    assignments: seq<AssignmentModel.Assignment>, submissions: seq<Submission>, nextId: Id,
    users: set<Id>, assignmentId: IdParam, req: SubmitRequest, file: Option<Upload>, now: int)
    requires Consistent(assignments, submissions, nextId)
    requires SubmitOutcome(assignments, submissions, users, assignmentId, req, file, now, nextId).Ok?
    ensures Consistent(assignments,
                       submissions + [SubmitOutcome(assignments, submissions, users, assignmentId, req, file, now, nextId).value],
                       nextId + 1)
  {
    var s := SubmitOutcome(assignments, submissions, users, assignmentId, req, file, now, nextId).value;
    var table := submissions + [s];
    forall i, j | 0 <= i < j < |table|
      ensures table[i].id != table[j].id
      ensures table[i].assignment != table[j].assignment || table[i].student != table[j].student
    {
      if j == |submissions| {
        assert table[i] in submissions;
      }
    }
    forall t, a | t in table && a in assignments && a.id == t.assignment && t.grade.None?
      ensures t.status == Late <==> t.submittedAt > a.dueDate
    {
      if t == s {
        var b :| b in assignments && b.id == s.assignment && (s.status == Late <==> now > b.dueDate);
        var i :| 0 <= i < |assignments| && assignments[i] == a;
        var j :| 0 <= j < |assignments| && assignments[j] == b;
        assert i == j;
      }
    }
  }

  /** A second submission for the same assignment and student is refused, whatever it carries. */
  lemma {:induction false} SecondSubmitRejected(
    assignments: seq<AssignmentModel.Assignment>, submissions: seq<Submission>, users: set<Id>,
    assignmentId: IdParam, first: SubmitRequest, second: SubmitRequest,
    file1: Option<Upload>, file2: Option<Upload>, now1: int, now2: int, id1: Id, id2: Id)
    requires SubmitOutcome(assignments, submissions, users, assignmentId, first, file1, now1, id1).Ok?
    requires second.studentId == first.studentId
    ensures SubmitOutcome(assignments,
                          submissions + [SubmitOutcome(assignments, submissions, users, assignmentId, first, file1, now1, id1).value],
                          users, assignmentId, second, file2, now2, id2)
            == Err(AlreadySubmitted)
  {
    var s := SubmitOutcome(assignments, submissions, users, assignmentId, first, file1, now1, id1).value;
    assert s in submissions + [s];
  }

  /** Grading a submission keeps the store consistent. */
  lemma {:induction false} GradePreservesConsistency(
    assignments: seq<AssignmentModel.Assignment>, submissions: seq<Submission>, nextId: Id,
    i: nat, points: Option<int>, feedback: Option<string>, now: int)
    requires Consistent(assignments, submissions, nextId)
    requires i < |submissions|
    ensures Consistent(assignments, submissions[i := WithGrade(submissions[i], points, feedback, now)], nextId)
  {
    var table := submissions[i := WithGrade(submissions[i], points, feedback, now)];
    forall t | t in table
      ensures t.id < nextId && t.assignment < nextId && HasAnswer(t)
      ensures t.status == Graded <==> t.grade.Some?
    {
      var k :| 0 <= k < |table| && table[k] == t;
      assert submissions[k] in submissions;
    }
    forall t, a | t in table && a in assignments && a.id == t.assignment && t.grade.None?
      ensures t.status == Late <==> t.submittedAt > a.dueDate
    {
      var k :| 0 <= k < |table| && table[k] == t;
      assert submissions[k] in submissions;
    }
  }

  /**
   * `submitAssignment`: on success the new record is appended and returned;
   * on any failure the store is unchanged.
   */
  method SubmitAssignment(db: Store, users: set<Id>, assignmentId: IdParam, req: SubmitRequest,
                          file: Option<Upload>, now: int) returns (r: Result<Submission, Error>)
    requires db.Valid()
    modifies db
    ensures db.Valid()
    ensures r == SubmitOutcome(old(db.assignments), old(db.submissions), users, assignmentId, req, file, now, old(db.nextId))
    ensures r.Ok? ==> db.submissions == old(db.submissions) + [r.value] && db.nextId == old(db.nextId) + 1
    ensures r.Err? ==> db.submissions == old(db.submissions) && db.nextId == old(db.nextId)
    ensures db.assignments == old(db.assignments)
  {
    r := SubmitOutcome(db.assignments, db.submissions, users, assignmentId, req, file, now, db.nextId);
    if r.Ok? {
      SubmitPreservesConsistency(db.assignments, db.submissions, db.nextId, users, assignmentId, req, file, now);
      db.submissions := db.submissions + [r.value];
      db.nextId := db.nextId + 1;
    }
  }

  /**
   * `gradeSubmission`: the submission with that id gets the grade and the
   * status graded; no other record changes. A missing id changes nothing.
   */
  method GradeSubmission(db: Store, id: IdParam, points: Option<int>, feedback: Option<string>, now: int)
    returns (r: Result<Submission, Error>)
    requires db.Valid()
    modifies db
    ensures db.Valid()
    ensures id.Malformed? ==> r == Err(CastFailed)
    ensures id.ObjectId? ==> (r.Err? <==> forall s :: s in old(db.submissions) ==> s.id != id.id)
    ensures id.ObjectId? && r.Err? ==> r.error == SubmissionNotFound
    ensures r.Err? ==> db.submissions == old(db.submissions)
    ensures r.Ok? ==>
      exists i :: 0 <= i < |old(db.submissions)| && old(db.submissions)[i].id == id.id
        && r.value == WithGrade(old(db.submissions)[i], points, feedback, now)
        && db.submissions == old(db.submissions)[i := r.value]
    ensures db.assignments == old(db.assignments) && db.nextId == old(db.nextId)
  {
    match id
    case Malformed =>
      r := Err(CastFailed);
    case ObjectId(k) =>
      match SubmissionModel.FindById(db.submissions, k)
      case None =>
        r := Err(SubmissionNotFound);
      case Some(i) =>
        var graded := WithGrade(db.submissions[i], points, feedback, now);
        GradePreservesConsistency(db.assignments, db.submissions, db.nextId, i, points, feedback, now);
        db.submissions := db.submissions[i := graded];
        r := Ok(graded);
  }
}
