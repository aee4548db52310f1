/**
 * The two collections the controllers read and write, held in memory, and the
 * invariant that the controllers' operations keep between them.
 */
module Database {
  import opened Documents
  import opened AssignmentModel
  import opened SubmissionModel
  import Query

  function AssignmentId(a: Assignment): int { a.id }

  /** No two records of the collection share an id. */
  ghost predicate DistinctAssignmentIds(table: seq<Assignment>) {
    Query.KeysDistinct(table, AssignmentId)
  }

  ghost predicate DistinctSubmissionIds(table: seq<Submission>) {
    forall i, j :: 0 <= i < j < |table| ==> table[i].id != table[j].id
  }

  /** At most one submission for each (assignment, student) pair. */
  ghost predicate OnePerPair(table: seq<Submission>) {
    forall i, j :: 0 <= i < j < |table| ==>
      table[i].assignment != table[j].assignment || table[i].student != table[j].student
  }

  /** Every submission carries an answer: non-empty text or a file. */
  ghost predicate HasAnswer(s: Submission) {
    (s.submissionText.Some? && s.submissionText.value != "") || s.submissionFile.Some?
  }

  /**
   * The state the controllers maintain:
   *  - ids are unique in each collection and below the next id to hand out;
   *  - every assignment passed validation;
   *  - at most one submission per (assignment, student);
   *  - every submission has an answer and references an id already handed out;
   *  - a submission is graded exactly when it carries a grade;
   *  - an ungraded submission whose assignment still exists is late exactly
   *    when its `submittedAt` is after that assignment's due date (in the model
   *    both come from one clock reading `now`).
   */
  ghost predicate Consistent(assignments: seq<Assignment>, submissions: seq<Submission>, nextId: Id) {
    && DistinctAssignmentIds(assignments)
    && DistinctSubmissionIds(submissions)
    && OnePerPair(submissions)
    && (forall a :: a in assignments ==> a.id < nextId && AssignmentModel.Valid(a))
    && (forall s :: s in submissions ==> s.id < nextId && s.assignment < nextId && HasAnswer(s))
    && (forall s :: s in submissions ==> (s.status == Graded <==> s.grade.Some?))
    && (forall s, a :: s in submissions && a in assignments && a.id == s.assignment && s.grade.None? ==>
          (s.status == Late <==> s.submittedAt > a.dueDate))
  }

  /** The store: the assignment and submission collections and the id allocator. */
  class Store {
    var assignments: seq<Assignment>
    var submissions: seq<Submission>
    var nextId: Id

    ghost predicate Valid()
      reads this
    {
      Consistent(assignments, submissions, nextId)
    }

    constructor ()
      ensures Valid()
      ensures assignments == [] && submissions == []
    {
      assignments := [];
      submissions := [];
      nextId := 0;
    }
  }
}
