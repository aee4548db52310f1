/**
 * The assignment handlers: create (with an optional question file), list
 * newest first, fetch one, and delete.
 */
module AssignmentController {
  import opened Wrappers
  import opened Documents
  import opened AssignmentModel
  import opened Database
  import SubmissionModel
  import Query

  /** Why a handler failed; every failure leaves the store as it was. */
  datatype Error =
    | ValidationFailed   // a required field was missing or could not be cast
    | CastFailed         // the id in the route was not an ObjectId
    | NotFound           // "Assignment not found"

  /** The response code each failure is reported with. */
  function HttpStatus(e: Error): (code: int)
    ensures code == 404 <==> e == NotFound
    ensures code == 400 <==> e != NotFound
  {
    if e == NotFound then 404 else 400
  }

  /**
   * The body fields of a create request. A field that is absent, or whose
   * text Mongoose cannot cast to the schema type, is None; strings keep
   * whatever text was sent, the empty one included.
   */
  datatype AssignmentForm = AssignmentForm(
    title: Option<string>,
    description: Option<string>,
    dueDate: Option<int>,
    maxPoints: Option<int>,
    instructions: Option<string>,
    teacherId: Option<IdParam>)

  /** Whether every field the schema requires is present (a required string must be non-empty). */
  predicate RequiredPresent(form: AssignmentForm) {
    && form.title.Some? && form.title.value != ""
    && form.description.Some? && form.description.value != ""
    && form.dueDate.Some?
    && form.maxPoints.Some?
    && form.teacherId.Some? && form.teacherId.value.ObjectId?
  }

  /**
   * The record `createAssignment` saves, or the validation failure: the body
   * fields, `teacher` taken from `teacherId`, and the question file's
   * descriptor when a file was uploaded.
   */
  function Build(form: AssignmentForm, file: Option<Upload>, id: Id, now: int): (r: Result<Assignment, Error>)
    ensures r.Ok? <==> RequiredPresent(form)
    ensures r.Err? ==> r.error == ValidationFailed
    ensures r.Ok? ==> AssignmentModel.Valid(r.value) && r.value.id == id && r.value.createdAt == now
    ensures r.Ok? ==> r.value.teacher == form.teacherId.value.id
    ensures r.Ok? ==> r.value.title == form.title.value && r.value.description == form.description.value
    ensures r.Ok? ==> r.value.dueDate == form.dueDate.value && r.value.maxPoints == form.maxPoints.value
    ensures r.Ok? ==> r.value.instructions == form.instructions
    ensures r.Ok? ==> (r.value.questionFile.Some? <==> file.Some?)
    ensures r.Ok? && file.Some? ==>
      var f, u := r.value.questionFile.value, file.value;
      f.filename == u.filename && f.originalName == u.originalname && f.path == u.path
      && f.size == u.size && f.mimetype == u.mimetype
  {
    var teacher := if form.teacherId.Some? && form.teacherId.value.ObjectId? then Some(form.teacherId.value.id) else None;
    var questionFile := if file.Some? then Some(Describe(file.value)) else None;
    var draft := Draft(form.title, form.description, form.dueDate, form.maxPoints, teacher,
                       form.instructions, questionFile);
    match Save(draft, id, now)
    case None => Err(ValidationFailed)
    case Some(a) => Ok(a)
  }

  function CreatedAt(a: Assignment): int { a.createdAt }

  /** `getAssignments`: every assignment, most recently created first. */
  function GetAssignments(table: seq<Assignment>): (r: seq<Assignment>)
    ensures multiset(r) == multiset(table)
    ensures Query.SortedDesc(r, CreatedAt)
  {
    Query.SortDesc(table, CreatedAt)
  }

  /** `getAssignment`: the record with the id in the route, or why there is none. */
  function GetAssignment(table: seq<Assignment>, id: IdParam): (r: Result<Assignment, Error>)
    ensures id.Malformed? ==> r == Err(CastFailed)
    ensures id.ObjectId? ==> (r.Ok? <==> exists a :: a in table && a.id == id.id)
    ensures id.ObjectId? && r.Err? ==> r.error == NotFound
    ensures r.Ok? ==> r.value in table && r.value.id == id.id
  {
    match id
    case Malformed => Err(CastFailed)
    case ObjectId(k) =>
      match AssignmentModel.FindById(table, k)
      case Some(a) => Ok(a)
      case None => Err(NotFound)
  }

  /** The collection after `findByIdAndDelete`: the record with that id is gone and every other stays. */
  function Remove(table: seq<Assignment>, id: Id): (r: seq<Assignment>)
    ensures forall a :: a in r <==> a in table && a.id != id
    ensures forall a: Assignment :: a.id != id ==> multiset(r)[a] == multiset(table)[a]
  {
    Query.Filter(table, (a: Assignment) => a.id != id)
  }

  /** A created assignment can be fetched back by its id. */
  lemma {:induction false} GetAfterCreate(assignments: seq<Assignment>, submissions: seq<SubmissionModel.Submission>, nextId: Id,
                                          form: AssignmentForm, file: Option<Upload>, now: int)
    requires Consistent(assignments, submissions, nextId)
    requires Build(form, file, nextId, now).Ok?
    ensures GetAssignment(assignments + [Build(form, file, nextId, now).value], ObjectId(nextId))
            == Build(form, file, nextId, now)
  {
  }

  /** After deleting an id, fetching it reports not-found and every other assignment is still found. */
  lemma {:induction false} GetAfterDelete(assignments: seq<Assignment>, id: Id, other: Assignment)
    requires DistinctAssignmentIds(assignments)
    requires other in assignments && other.id != id
    ensures GetAssignment(Remove(assignments, id), ObjectId(id)) == Err(NotFound)
    ensures GetAssignment(Remove(assignments, id), ObjectId(other.id)) == Ok(other)
  {
    var rest := Remove(assignments, id);
    var r := GetAssignment(rest, ObjectId(other.id));
    assert other in rest;
    assert r.Ok?;
    assert r.value in assignments;
    var i :| 0 <= i < |assignments| && assignments[i] == r.value;
    var j :| 0 <= j < |assignments| && assignments[j] == other;
    assert i == j;
  }

  /** Creating a valid assignment with the next id keeps the store consistent. */
  lemma {:induction false} CreatePreservesConsistency(assignments: seq<Assignment>, submissions: seq<SubmissionModel.Submission>,
                                                      nextId: Id, a: Assignment)
    requires Consistent(assignments, submissions, nextId)
    requires a.id == nextId && AssignmentModel.Valid(a)
    ensures Consistent(assignments + [a], submissions, nextId + 1)
  {
    var table := assignments + [a];
    forall i, j | 0 <= i < j < |table| ensures table[i].id != table[j].id {
      if j == |assignments| {
        assert table[i] in assignments;
      }
    }
  }

  /** Deleting an assignment keeps the store consistent; its submissions stay, referring to a missing id. */
  lemma {:induction false} DeletePreservesConsistency(assignments: seq<Assignment>, submissions: seq<SubmissionModel.Submission>,
                                                      nextId: Id, id: Id)
    requires Consistent(assignments, submissions, nextId)
    ensures Consistent(Remove(assignments, id), submissions, nextId)
  {
    Query.FilterKeepsKeysDistinct(assignments, (a: Assignment) => a.id != id, AssignmentId);
  }

  /** `createAssignment`: on success the new record is appended; on failure nothing changes. */
  method CreateAssignment(db: Store, form: AssignmentForm, file: Option<Upload>, now: int)
    returns (r: Result<Assignment, Error>)
    requires db.Valid()
    modifies db
    ensures db.Valid()
    ensures r == Build(form, file, old(db.nextId), now)
    ensures r.Ok? ==> db.assignments == old(db.assignments) + [r.value] && db.nextId == old(db.nextId) + 1
    ensures r.Err? ==> db.assignments == old(db.assignments) && db.nextId == old(db.nextId)
    ensures db.submissions == old(db.submissions)
  {
    r := Build(form, file, db.nextId, now);
    if r.Ok? {
      CreatePreservesConsistency(db.assignments, db.submissions, db.nextId, r.value);
      db.assignments := db.assignments + [r.value];
      db.nextId := db.nextId + 1;
    }
  }

  /** `deleteAssignment`: removes the record if there is one and reports success either way. */
  method DeleteAssignment(db: Store, id: IdParam) returns (r: Result<(), Error>)
    requires db.Valid()
    modifies db
    ensures db.Valid()
    ensures id.Malformed? ==> r == Err(CastFailed) && db.assignments == old(db.assignments)
    ensures id.ObjectId? ==> r == Ok(()) && db.assignments == Remove(old(db.assignments), id.id)
    ensures db.submissions == old(db.submissions) && db.nextId == old(db.nextId)
  {
    match id
    case Malformed =>
      r := Err(CastFailed);
    case ObjectId(k) =>
      DeletePreservesConsistency(db.assignments, db.submissions, db.nextId, k);
      db.assignments := Remove(db.assignments, k);
      r := Ok(());
  }
}
