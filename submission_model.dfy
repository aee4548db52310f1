/** The Submission record: references, optional content, timestamps, grade and the status enum. */
module SubmissionModel {
  import opened Wrappers
  import opened Documents
  import Query

  /** The three values the `status` enum admits. */
  datatype Status = Submitted | Graded | Late

  /** The grade sub-record; `points` and `feedback` are whatever the grading request carried. */
  datatype Grade = Grade(points: Option<int>, feedback: Option<string>, gradedAt: int)

  /**
   * A stored submission. `assignment` and `student` are required references;
   * `submissionText`, `submissionFile` and `grade` are optional.
   */
  datatype Submission = Submission(
    id: Id,
    assignment: Id,
    student: Id,
    submissionText: Option<string>,
    submissionFile: Option<FileInfo>,
    submittedAt: int,
    grade: Option<Grade>,
    status: Status)

  /** The string stored for each status. */
  function StatusName(s: Status): string {
    match s
    case Submitted => "submitted"
    case Graded => "graded"
    case Late => "late"
  }

  /** Enum validation: the status a stored string denotes, or None when the schema rejects it. */
  function ParseStatus(name: string): (r: Option<Status>)
    ensures r.Some? <==> name == "submitted" || name == "graded" || name == "late"
    ensures r.Some? ==> StatusName(r.value) == name
  {
    if name == "submitted" then Some(Submitted)
    else if name == "graded" then Some(Graded)
    else if name == "late" then Some(Late)
    else None
  }

  /** Every status survives storing and reading back, and no two share a stored name. */
  lemma StatusRoundTrip(s: Status)
    ensures ParseStatus(StatusName(s)) == Some(s)
  {
    match s
    case Submitted =>
    case Graded =>
    case Late =>
  }

  /**
   * `new Submission(data)`: builds a record from the controller's data and
   * applies the schema defaults, `status` = submitted when none is given and
   * `submittedAt` = the time of creation; a new record has no grade.
   */
  function New(id: Id, assignment: Id, student: Id, text: Option<string>, file: Option<FileInfo>,
               status: Option<Status>, now: int): (r: Submission)
    ensures r.id == id && r.assignment == assignment && r.student == student
    ensures r.submissionText == text && r.submissionFile == file
    ensures status.None? ==> r.status == Submitted
    ensures status.Some? ==> r.status == status.value
    ensures r.submittedAt == now && r.grade.None?
  {
    Submission(id, assignment, student, text, file, now, None, status.GetOr(Submitted))
  }

  /** `Submission.findById`: the position of the record with that id, if any. */
  function FindById(table: seq<Submission>, id: Id): (r: Option<nat>)
    ensures r.Some? ==> r.value < |table| && table[r.value].id == id
    ensures r.None? <==> forall s :: s in table ==> s.id != id
  {
    Query.FirstIndex(table, (s: Submission) => s.id == id)
  }

  /** `Submission.findOne({ assignment, student })`: whether that pair already has a record. */
  predicate Exists(table: seq<Submission>, assignment: Id, student: Id)
  {
    exists s :: s in table && s.assignment == assignment && s.student == student
  }
}
