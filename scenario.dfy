/**
 * A client of the handlers' contracts: an assignment due at time 100,
 * answers on time and late, a refused resubmission, a missing assignment,
 * and grading.
 */
module Scenario {
  import opened Wrappers
  import opened Documents
  import opened SubmissionModel
  import opened Database
  import AssignmentModel
  import AssignmentController
  import SubmissionController

  const Students: set<Id> := {8, 9}

  function Answer(student: Id, text: string): SubmissionController.SubmitRequest {
    SubmissionController.SubmitRequest(Some(ObjectId(student)), Some(text))
  }

  /** A fresh store holding one assignment, due at time 100. */
  method NewCourse() returns (db: Store, a: AssignmentModel.Assignment)
    ensures fresh(db) && db.Valid()
    ensures db.assignments == [a] && db.submissions == [] && a.dueDate == 100
  {
    db := new Store();
    var form := AssignmentController.AssignmentForm(
      Some("Essay"), Some("Write one page"), Some(100), Some(10), None, Some(ObjectId(7)));
    var created := AssignmentController.CreateAssignment(db, form, None, 0);
    a := created.value;
  }

  method OnTimeAndLate() {
    var db, a := NewCourse();
    assert a in db.assignments;
    var onTime := SubmissionController.SubmitAssignment(db, Students, ObjectId(a.id), Answer(8, "answer"), None, 99);
    assert onTime.Ok? && onTime.value.status == Submitted;
    assert a in db.assignments && db.submissions == [onTime.value];
    var late := SubmissionController.SubmitAssignment(db, Students, ObjectId(a.id), Answer(9, "answer"), None, 101);
    assert late.Ok? && late.value.status == Late;
  }

  method ResubmitRefusedThenGraded() {
    var db, a := NewCourse();
    assert a in db.assignments;
    var first := SubmissionController.SubmitAssignment(db, Students, ObjectId(a.id), Answer(8, "answer"), None, 101);
    assert first.Ok? && first.value.status == Late;
    assert first.value in db.submissions;
    var again := SubmissionController.SubmitAssignment(db, Students, ObjectId(a.id), Answer(8, "second try"), None, 102);
    assert again == Err(SubmissionController.AlreadySubmitted);
    assert first.value in db.submissions;
    var graded := SubmissionController.GradeSubmission(db, ObjectId(first.value.id), Some(8), Some("good"), 200);
    assert graded.Ok? && graded.value.status == Graded;
    assert graded.value.grade == Some(Grade(Some(8), Some("good"), 200));
  }

  method MissingAssignmentOrContent() {
    var db, a := NewCourse();
    var missing := SubmissionController.SubmitAssignment(db, Students, ObjectId(a.id + 1), Answer(8, "answer"), None, 50);
    assert missing == Err(SubmissionController.AssignmentNotFound) && db.submissions == [];
    assert a in db.assignments;
    var blank := SubmissionController.SubmitAssignment(db, Students, ObjectId(a.id), Answer(8, ""), None, 50);
    assert blank == Err(SubmissionController.ContentRequired) && db.submissions == [];
  }
}
