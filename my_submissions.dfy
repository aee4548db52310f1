/**
 * The student's "My Submissions" page: which assignments it shows as already
 * submitted, and what each row of the two tables and the submit dialog display.
 */
module MySubmissions {
  import opened Wrappers
  import opened Documents
  import opened SubmissionModel
  import AssignmentModel
  import SubmissionController
  import Query

  /**
   * A submission as the page receives it from `getMySubmissions`: the
   * assignment reference is populated with the assignment record, or null
   * when that assignment has been deleted.
   */
  datatype ClientSubmission = ClientSubmission(
    assignment: Option<AssignmentModel.Assignment>,
    status: Status,
    grade: Option<Grade>,
    submissionFile: Option<FileInfo>)

  /** `.populate('assignment')`: the stored reference resolved against the assignment collection. */
  function Populate(s: Submission, assignments: seq<AssignmentModel.Assignment>): (c: ClientSubmission)
    ensures c.assignment.Some? ==> c.assignment.value in assignments && c.assignment.value.id == s.assignment
    ensures c.assignment.None? <==> forall a :: a in assignments ==> a.id != s.assignment
    ensures c.status == s.status && c.grade == s.grade && c.submissionFile == s.submissionFile
  {
    ClientSubmission(AssignmentModel.FindById(assignments, s.assignment), s.status, s.grade, s.submissionFile)
  }

  /** The list the page holds after fetching: every submission populated, in the order received. */
  function Fetched(submissions: seq<Submission>, assignments: seq<AssignmentModel.Assignment>): (r: seq<ClientSubmission>)
    ensures |r| == |submissions|
    ensures forall i :: 0 <= i < |r| ==> r[i] == Populate(submissions[i], assignments)
  {
    seq(|submissions|, i requires 0 <= i < |submissions| => Populate(submissions[i], assignments))
  }

  /** The test both helpers apply: the submission has a populated assignment with that id. */
  predicate Matches(c: ClientSubmission, assignmentId: Id) {
    c.assignment.Some? && c.assignment.value.id == assignmentId
  }

  /** `isAssignmentSubmitted`: whether some submission in the list is for that assignment. */
  function IsAssignmentSubmitted(subs: seq<ClientSubmission>, assignmentId: Id): (r: bool)
    ensures r <==> exists i :: 0 <= i < |subs| && Matches(subs[i], assignmentId)
  {
    Query.FirstIndex(subs, (c: ClientSubmission) => Matches(c, assignmentId)).Some?
  }

  /** `getSubmissionForAssignment`: the first submission in the list for that assignment, if any. */
  function SubmissionForAssignment(subs: seq<ClientSubmission>, assignmentId: Id): (r: Option<ClientSubmission>)
    ensures r.None? <==> !IsAssignmentSubmitted(subs, assignmentId)
    ensures r.Some? ==> exists i :: 0 <= i < |subs| && subs[i] == r.value && Matches(subs[i], assignmentId)
                                    && forall j :: 0 <= j < i ==> !Matches(subs[j], assignmentId)
  {
    match Query.FirstIndex(subs, (c: ClientSubmission) => Matches(c, assignmentId))
    case Some(k) => Some(subs[k])
    case None => None
  }

  /** The status column of the assignments table. */
  datatype StatusCell = StatusBadge(status: Status) | NotSubmittedBadge

  /** The grade column of the assignments table. */
  datatype GradeCell = Score(points: Option<int>, maxPoints: int) | Pending | Dash

  /** The action column of the assignments table. */
  datatype Action = SubmitButton(disabled: bool, caption: string) | SubmittedButton

  /** One row of the "Available Assignments" table, reduced to the decisions it shows. */
  datatype Row = Row(pastDueBadge: bool, statusCell: StatusCell, gradeCell: GradeCell, action: Action)

  /** The row shown for assignment `a` at time `now`, given the student's submissions. */
  function RowFor(a: AssignmentModel.Assignment, subs: seq<ClientSubmission>, now: int): (r: Row)
    ensures r.pastDueBadge <==> a.dueDate < now && !IsAssignmentSubmitted(subs, a.id)
    ensures r.statusCell.StatusBadge? <==> IsAssignmentSubmitted(subs, a.id)
    ensures r.statusCell.StatusBadge? ==> r.statusCell.status == SubmissionForAssignment(subs, a.id).value.status
    ensures r.gradeCell == Dash <==> !IsAssignmentSubmitted(subs, a.id)
    ensures r.gradeCell == Pending <==>
      IsAssignmentSubmitted(subs, a.id) && SubmissionForAssignment(subs, a.id).value.grade.None?
    ensures r.gradeCell.Score? ==>
      var g := SubmissionForAssignment(subs, a.id).value.grade;
      g.Some? && r.gradeCell == Score(g.value.points, a.maxPoints)
    ensures r.action.SubmitButton? <==> !IsAssignmentSubmitted(subs, a.id)
    ensures r.action.SubmitButton? ==> (r.action.disabled <==> a.dueDate < now)
    ensures r.action.SubmitButton? ==> r.action.caption == if a.dueDate < now then "Past Due" else "Submit Answer"
  {
    var submission := SubmissionForAssignment(subs, a.id);
    var isSubmitted := IsAssignmentSubmitted(subs, a.id);
    var isPastDue := a.dueDate < now;
    Row(
      isPastDue && !isSubmitted,
      if isSubmitted then StatusBadge(submission.value.status) else NotSubmittedBadge,
      if submission.Some? && submission.value.grade.Some? then Score(submission.value.grade.value.points, a.maxPoints)
      else if isSubmitted then Pending
      else Dash,
      if !isSubmitted then SubmitButton(isPastDue, if isPastDue then "Past Due" else "Submit Answer")
      else SubmittedButton)
  }

  /** A coloured badge with a label. */
  datatype Badge = Badge(colour: string, caption: string)

  /** `charAt(0).toUpperCase()` on the lower-case letters the status names use. */
  function UpperAscii(c: char): char {
    if 'a' <= c <= 'z' then (c as int - 32) as char else c
  }

  /** `getStatusBadge`: the colour for the status and its name with the first letter capitalised. */
  function BadgeFor(s: Status): (b: Badge)
    ensures s == Submitted ==> b == Badge("info", "Submitted")
    ensures s == Graded ==> b == Badge("success", "Graded")
    ensures s == Late ==> b == Badge("danger", "Late")
  {
    var name := StatusName(s);
    Badge(match s
          case Submitted => "info"
          case Graded => "success"
          case Late => "danger",
          [UpperAscii(name[0])] + name[1..])
  }

  /** Distinct statuses show distinct badges. */
  lemma BadgesDistinguishStatus(s1: Status, s2: Status)
    requires s1 != s2
    ensures BadgeFor(s1) != BadgeFor(s2)
  {
  }

  /** The grade column of the submission history table. */
  datatype HistoryGrade = Scored(points: Option<int>, maxPoints: Option<int>) | NotGraded

  /** One row of the "Submission History" table, reduced to the decisions it shows. */
  datatype HistoryRow = HistoryRow(badge: Badge, grade: HistoryGrade, feedback: string, hasAnswerFile: bool)

  /** The history row for one submission. */
  function HistoryRowFor(c: ClientSubmission): (r: HistoryRow)
    ensures r.badge == BadgeFor(c.status)
    ensures r.grade.Scored? <==> c.grade.Some?
    ensures r.grade.Scored? ==> r.grade.points == c.grade.value.points
    ensures r.grade.Scored? ==> (r.grade.maxPoints.Some? <==> c.assignment.Some?)
    ensures r.grade.Scored? && c.assignment.Some? ==> r.grade.maxPoints == Some(c.assignment.value.maxPoints)
    ensures r.feedback == "No feedback yet" || (c.grade.Some? && c.grade.value.feedback == Some(r.feedback))
    ensures (c.grade.None? || c.grade.value.feedback.GetOr("") == "") ==> r.feedback == "No feedback yet"
    ensures c.grade.Some? && c.grade.value.feedback.Some? && c.grade.value.feedback.value != "" ==>
      r.feedback == c.grade.value.feedback.value
    ensures r.hasAnswerFile <==> c.submissionFile.Some?
  {
    var maxPoints := if c.assignment.Some? then Some(c.assignment.value.maxPoints) else None;
    var feedback := if c.grade.Some? then c.grade.value.feedback.GetOr("") else "";
    HistoryRow(
      BadgeFor(c.status),
      if c.grade.Some? then Scored(c.grade.value.points, maxPoints) else NotGraded,
      if feedback != "" then feedback else "No feedback yet",
      c.submissionFile.Some?)
  }

  /** The submit dialog's button is disabled while a request is in flight or when there is neither text nor file. */
  function ModalSubmitDisabled(loading: bool, text: string, hasFile: bool): (r: bool)
    ensures !r <==> !loading && (text != "" || hasFile)
  {
    loading || (text == "" && !hasFile)
  }

  /**
   * The dialog's rule is the server's content rule: what the enabled button
   * sends is never refused for lacking content, and what the disabled button
   * would have sent could never be accepted.
   */
  lemma {:induction false} ModalAgreesWithServer(
    assignments: seq<AssignmentModel.Assignment>, submissions: seq<Submission>, users: set<Id>,
    assignmentId: IdParam, student: Id, text: string, file: Option<Upload>, now: int, newId: Id)
    ensures var r := SubmissionController.SubmitOutcome(assignments, submissions, users, assignmentId,
                       SubmissionController.SubmitRequest(Some(ObjectId(student)), Some(text)), file, now, newId);
            (!ModalSubmitDisabled(false, text, file.Some?) ==> r != Err(SubmissionController.ContentRequired))
            && (ModalSubmitDisabled(false, text, file.Some?) ==> r.Err?)
  {
  }

  /**
   * Against the server's own list for a student, the page offers "Submit
   * Answer" for an existing assignment exactly when the store has no
   * submission for that pair, which is exactly when the server would not
   * refuse it as already submitted.
   */
  lemma {:induction false} SubmitOfferedIffNotSubmitted(
    assignments: seq<AssignmentModel.Assignment>, submissions: seq<Submission>, student: Id,
    a: AssignmentModel.Assignment, now: int)
    requires a in assignments
    ensures var mine := SubmissionController.GetMySubmissions(submissions, ObjectId(student)).value;
            RowFor(a, Fetched(mine, assignments), now).action.SubmitButton?
            <==> !Exists(submissions, a.id, student)
  {
    var mine := SubmissionController.GetMySubmissions(submissions, ObjectId(student)).value;
    ShownIffStored(mine, assignments, a);
    if Exists(submissions, a.id, student) {
      var s :| s in submissions && s.assignment == a.id && s.student == student;
      assert s in mine;
    }
  }

  /** For an assignment that still exists, the page finds a submission for it exactly when the fetched list holds one. */
  lemma {:induction false} ShownIffStored(mine: seq<Submission>, assignments: seq<AssignmentModel.Assignment>,
                                          a: AssignmentModel.Assignment)
    requires a in assignments
    ensures IsAssignmentSubmitted(Fetched(mine, assignments), a.id)
            <==> exists s :: s in mine && s.assignment == a.id
  {
    var page := Fetched(mine, assignments);
    if IsAssignmentSubmitted(page, a.id) {
      var i :| 0 <= i < |page| && Matches(page[i], a.id);
      assert mine[i] in mine && mine[i].assignment == a.id;
    }
    if exists s :: s in mine && s.assignment == a.id {
      var s :| s in mine && s.assignment == a.id;
      var i :| 0 <= i < |mine| && mine[i] == s;
      assert Matches(page[i], a.id);
    }
  }
}
