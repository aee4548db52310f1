/** The Assignment record: the fields its schema declares, required and optional. */
module AssignmentModel {
  import opened Wrappers
  import opened Documents
  import Query

  /**
   * A stored assignment. `title`, `description`, `dueDate`, `maxPoints` and
   * `teacher` are required by the schema; `instructions` and `questionFile`
   * are optional; `createdAt` is the bookkeeping timestamp set on insert.
   * Dates are instants on an integer clock.
   */
  datatype Assignment = Assignment(
    id: Id,
    title: string,
    description: string,
    dueDate: int,
    maxPoints: int,
    teacher: Id,
    instructions: Option<string>,
    questionFile: Option<FileInfo>,
    createdAt: int)

  /**
   * What a record must satisfy to pass schema validation beyond its types:
   * a required string is missing when it is empty.
   */
  predicate Valid(a: Assignment) {
    a.title != "" && a.description != ""
  }

  /**
   * A document as the controller builds it, before validation: every field
   * may be missing (`teacher` is also missing when its text is not an id).
   */
  datatype Draft = Draft(
    title: Option<string>,
    description: Option<string>,
    dueDate: Option<int>,
    maxPoints: Option<int>,
    teacher: Option<Id>,
    instructions: Option<string>,
    questionFile: Option<FileInfo>)

  /**
   * Validation on save: the record stored with id `id` at time `now`, or None
   * when a required field is missing. The optional fields are kept as given.
   */
  function Save(d: Draft, id: Id, now: int): (r: Option<Assignment>)
    ensures r.Some? <==>
      && d.title.Some? && d.title.value != ""
      && d.description.Some? && d.description.value != ""
      && d.dueDate.Some? && d.maxPoints.Some? && d.teacher.Some?
    ensures r.Some? ==> Valid(r.value) && r.value.id == id && r.value.createdAt == now
    ensures r.Some? ==>
      && Some(r.value.title) == d.title && Some(r.value.description) == d.description
      && Some(r.value.dueDate) == d.dueDate && Some(r.value.maxPoints) == d.maxPoints
      && Some(r.value.teacher) == d.teacher
      && r.value.instructions == d.instructions && r.value.questionFile == d.questionFile
  {
    if d.title.None? || d.title.value == "" || d.description.None? || d.description.value == ""
       || d.dueDate.None? || d.maxPoints.None? || d.teacher.None?
    then None
    else Some(Assignment(id, d.title.value, d.description.value, d.dueDate.value, d.maxPoints.value,
                         d.teacher.value, d.instructions, d.questionFile, now))
  }

  /** `Assignment.findById`: the record with that id, if any. */
  function FindById(table: seq<Assignment>, id: Id): (r: Option<Assignment>)
    ensures r.Some? ==> r.value in table && r.value.id == id
    ensures r.None? <==> forall a :: a in table ==> a.id != id
  {
    match Query.FirstIndex(table, (a: Assignment) => a.id == id)
    case Some(k) => Some(table[k])
    case None => None
  }
}
