/** The task endpoints of an authenticated user: create, list, update and delete, each
    run for the user id carried by the token, never for an owner named in the body.
    `up` is false when the database reports an error for the statement; `today` is
    the day number of the server's local date. */
module TaskController {
  import opened Wire
  import opened Text
  import opened Calendar
  import opened Http
  import opened TaskStore

  /** The body of POST /tasks. */
  datatype NewTask = NewTask(title: Option<string>, description: Option<string>, dueDate: Option<string>)

  /** The body of PUT /tasks/:id. `completed` is whatever JSON value arrived. */
  datatype TaskEdit = TaskEdit(title: Option<string>, description: Option<string>, completed: Value, dueDate: Option<string>)

  /** A handler's response together with the table after it ran. */
  datatype Handled<T> = Handled(response: Response<T>, tasks: TaskTable)

  const TitleRequired := "Title is required"
  const TitleEmpty := "Title cannot be empty"
  const BadDateFormat := "due_date must be YYYY-MM-DD"
  const BadDate := "Invalid due_date"
  const PastDate := "due_date cannot be in the past"
  const NotFoundOrForbidden := "Tarea no encontrada o no tienes permiso"

  /** `!title || title.trim().length === 0` */
  predicate MissingTitle(title: Option<string>)
  {
    !Present(title) || IsBlank(title.value)
  }

  /** Checks a present due date: the `YYYY-MM-DD` pattern, then calendar validity, then
      (when `notPast`) that it is not before today. None when it passes. */
  function DueDateError(due: string, today: int, notPast: bool): (e: Option<string>)
    ensures e.None? <==> IsIsoDate(due) && (notPast ==> IsoDateDay(due) >= today)
    ensures !IsIsoShape(due) ==> e == Some(BadDateFormat)
    ensures IsIsoShape(due) && IsoDay(due).None? ==> e == Some(BadDate)
    ensures IsIsoDate(due) && notPast && IsoDateDay(due) < today ==> e == Some(PastDate)
  {
    if !IsIsoShape(due) then Some(BadDateFormat)
    else match IsoDay(due)
      case None => Some(BadDate)
      case Some(d) => if notPast && d < today then Some(PastDate) else None
  }

  // ---------------------------------------------------------------------------
  // POST /tasks
  // ---------------------------------------------------------------------------

  /** Validation of a new task, in the order the handler applies it. */
  function CreateError(req: NewTask, today: int): (e: Option<string>)
    ensures MissingTitle(req.title) ==> e == Some(TitleRequired)
    ensures !MissingTitle(req.title) && Present(req.dueDate) ==> e == DueDateError(req.dueDate.value, today, true)
    ensures e.None? <==> !MissingTitle(req.title) && (Present(req.dueDate) ==> IsIsoDate(req.dueDate.value) && IsoDateDay(req.dueDate.value) >= today)
  {
    if MissingTitle(req.title) then Some(TitleRequired)
    else if Present(req.dueDate) then DueDateError(req.dueDate.value, today, true)
    else None
  }

  /** POST /tasks: 400 on a missing title or a bad or past due date, before the table is
      touched; otherwise the row is inserted for `userId` with the trimmed title and
      201 carries its id; 500 when the insert fails. */
  function CreateTask(t: TaskTable, up: bool, today: int, userId: nat, req: NewTask): (r: Handled<nat>)
    ensures CreateError(req, today).Some? ==> r == Handled(BadRequest(CreateError(req, today).value), t)
    ensures CreateError(req, today).None? && !up ==> r == Handled(ServerError("Error al crear tarea"), t)
    ensures r.response.Created? <==> CreateError(req, today).None? && up
    ensures r.response.Created? ==>
      && |r.tasks.rows| == |t.rows| + 1 && r.tasks.rows[..|t.rows|] == t.rows
      && var row := r.tasks.rows[|t.rows|];
         row.id == r.response.body && row.userId == userId
         && row.title == Some(Trim(req.title.value)) && row.completed == 0
         && row.dueDate == OrNull(req.dueDate)
         && row.description == OrNull(req.description)
    ensures Valid(t) ==> Valid(r.tasks)
  {
    match CreateError(req, today)
    case Some(msg) => Handled(BadRequest(msg), t)
    case None =>
      if !up then Handled(ServerError("Error al crear tarea"), t)
      else
        var due := if Present(req.dueDate) then req.dueDate else None;
        var (t', id) := Insert(t, userId, Some(Trim(req.title.value)), OrNull(req.description), due);
        Handled(Created(id), t')
  }

  /** A due date of today is accepted and one of yesterday is rejected. */
  lemma TodayAcceptedYesterdayRejected(t: TaskTable, today: int, userId: nat, title: string, due: string)
    requires !IsBlank(title) && IsIsoDate(due)
    ensures IsoDateDay(due) == today ==> CreateTask(t, true, today, userId, NewTask(Some(title), None, Some(due))).response.Created?
    ensures IsoDateDay(due) == today + 1 ==>
      CreateTask(t, true, today + 1, userId, NewTask(Some(title), None, Some(due))).response.Created?
      && CreateTask(t, true, today + 2, userId, NewTask(Some(title), None, Some(due))).response == BadRequest(PastDate)
  {
  }

  /** What the user creates is what the user then lists: the new row is in their
      listing with the trimmed title, and no other user's listing changes. */
  lemma CreateThenList(t: TaskTable, today: int, userId: nat, req: NewTask, other: nat)
    requires CreateTask(t, true, today, userId, req).response.Created?
    requires other != userId
    ensures var r := CreateTask(t, true, today, userId, req);
      && (exists i :: 0 <= i < |ByUser(r.tasks, userId)| && ByUser(r.tasks, userId)[i].id == r.response.body
            && ByUser(r.tasks, userId)[i].title == Some(Trim(req.title.value)))
      && ByUser(r.tasks, other) == ByUser(t, other)
  {
    var r := CreateTask(t, true, today, userId, req);
    var due := if Present(req.dueDate) then req.dueDate else None;
    ByUserAfterInsert(t, userId, Some(Trim(req.title.value)), OrNull(req.description), due, userId);
    ByUserAfterInsert(t, userId, Some(Trim(req.title.value)), OrNull(req.description), due, other);
    var mine := ByUser(r.tasks, userId);
    assert mine[|mine| - 1] == r.tasks.rows[|t.rows|];
  }

  // ---------------------------------------------------------------------------
  // GET /tasks
  // ---------------------------------------------------------------------------

  /** GET /tasks: exactly the caller's rows, or 500. */
  function GetTasks(t: TaskTable, up: bool, userId: nat): (r: Response<seq<TaskRow>>)
    ensures r.Ok? <==> up
    ensures !up ==> r == ServerError("Error al obtener tareas")
    ensures r.Ok? ==> forall i :: 0 <= i < |r.body| ==> r.body[i].userId == userId && r.body[i] in t.rows
    ensures r.Ok? ==> forall i :: 0 <= i < |t.rows| && t.rows[i].userId == userId ==> t.rows[i] in r.body
    ensures r.Ok? ==> r.body == ByUser(t, userId)
  {
    if !up then ServerError("Error al obtener tareas") else Ok(ByUser(t, userId))
  }

  // ---------------------------------------------------------------------------
  // PUT /tasks/:id
  // ---------------------------------------------------------------------------

  /** The wire `completed` means done exactly for `true`, `1`, `"1"` and `"true"`;
      every other value, including a missing one, means not done. */
  function CompletedFlag(v: Value): (b: bool)
    ensures b <==> v == Bool(true) || v == Number(1) || v == Str("1") || v == Str("true")
  {
    match v
    case Bool(x) => x
    case Number(n) => n == 1
    case Str(s) => s == "1" || s == "true"
    case _ => false
  }

  /** The flag is stricter than truthiness: every value it accepts is truthy, and some
      truthy values (`2`, `"yes"`, `"false"`) count as not done. */
  lemma CompletedFlagStricterThanTruthy(v: Value)
    ensures CompletedFlag(v) ==> Truthy(v)
    ensures !CompletedFlag(Number(2)) && Truthy(Number(2))
    ensures !CompletedFlag(Str("false")) && Truthy(Str("false"))
    ensures !CompletedFlag(Absent)
  {
  }

  /** Validation of an edit: a present but blank title, then the due date's format and
      calendar validity. Past dates are not checked here. */
  function UpdateError(req: TaskEdit): (e: Option<string>)
    ensures Present(req.title) && IsBlank(req.title.value) ==> e == Some(TitleEmpty)
    ensures e.None? <==> !(Present(req.title) && IsBlank(req.title.value)) && (Present(req.dueDate) ==> IsIsoDate(req.dueDate.value))
  {
    if Present(req.title) && IsBlank(req.title.value) then Some(TitleEmpty)
    else if Present(req.dueDate) then DueDateError(req.dueDate.value, 0, false)
    else None
  }

  /** The four values the UPDATE writes: a missing or empty title becomes NULL, a present
      one is trimmed; the description is passed on as sent; a missing due date becomes
      NULL; `completed` is the flag. */
  function EditChanges(req: TaskEdit): (ch: TaskChanges)
    ensures ch.title.Some? <==> Present(req.title)
    ensures ch.title.Some? ==> ch.title.value == Trim(req.title.value)
    ensures ch.description == req.description
    ensures ch.dueDate.Some? <==> Present(req.dueDate)
    ensures ch.dueDate.Some? ==> ch.dueDate == req.dueDate
    ensures ch.completed == CompletedFlag(req.completed)
  {
    TaskChanges(
      if Present(req.title) then Some(Trim(req.title.value)) else None,
      req.description,
      if Present(req.dueDate) then req.dueDate else None,
      CompletedFlag(req.completed))
  }

  /** PUT /tasks/:id: 400 on a blank title or a malformed or impossible due date; 500 when
      the statement fails; 404 when no row has this id and belongs to the caller; 200
      otherwise. */
  function UpdateTask(t: TaskTable, up: bool, userId: nat, id: nat, req: TaskEdit): (r: Handled<string>)
    ensures UpdateError(req).Some? ==> r == Handled(BadRequest(UpdateError(req).value), t)
    ensures UpdateError(req).None? && !up ==> r == Handled(ServerError("Error al actualizar tarea"), t)
    ensures UpdateError(req).None? && up ==> r.tasks == Update(t, id, userId, EditChanges(req)).0
    ensures UpdateError(req).None? && up ==> (r.response.Ok? <==> !r.response.NotFound?)
    ensures UpdateError(req).None? && up ==>
      (r.response.Ok? <==> exists i :: 0 <= i < |t.rows| && t.rows[i].id == id && t.rows[i].userId == userId)
    ensures r.response.NotFound? ==> r.response.message == NotFoundOrForbidden && r.tasks == t
    ensures r.response.Ok? ==> r.response.body == "Tarea actualizada correctamente"
  {
    NoMatchIffZero(t.rows, id, userId);
    match UpdateError(req)
    case Some(msg) => Handled(BadRequest(msg), t)
    case None =>
      if !up then Handled(ServerError("Error al actualizar tarea"), t)
      else
        var (t', n) := Update(t, id, userId, EditChanges(req));
        if n == 0 then
          UpdateWithoutMatchIsIdentity(t, id, userId, EditChanges(req));
          Handled(NotFound(NotFoundOrForbidden), t')
        else Handled(Ok("Tarea actualizada correctamente"), t')
  }

  lemma UpdateWithoutMatchIsIdentity(t: TaskTable, id: nat, userId: nat, ch: TaskChanges)
    requires Update(t, id, userId, ch).1 == 0
    ensures Update(t, id, userId, ch).0 == t
  {
    NoMatchIffZero(t.rows, id, userId);
    UpdateWithoutMatch(t, id, userId, ch);
  }

  /** A valid edit gets 404 exactly when no row has this id and belongs to the caller:
      a missing task and another user's task are answered alike. */
  lemma UpdateNotFoundIffNotOwned(t: TaskTable, userId: nat, id: nat, req: TaskEdit)
    requires UpdateError(req).None?
    ensures UpdateTask(t, true, userId, id, req).response.NotFound?
        <==> forall i :: 0 <= i < |t.rows| ==> !(t.rows[i].id == id && t.rows[i].userId == userId)
  {
    NoMatchIffZero(t.rows, id, userId);
  }

  /** An edit overwrites every column rather than patching: after a successful update
      the owned row carries NULL for a missing title, description or due date and 0
      for a missing `completed`, whatever it held before. */
  lemma UpdateOverwrites(t: TaskTable, userId: nat, id: nat, i: nat)
    requires i < |t.rows| && t.rows[i].id == id && t.rows[i].userId == userId
    ensures var r := UpdateTask(t, true, userId, id, TaskEdit(None, None, Absent, None));
      && r.response.Ok?
      && r.tasks.rows[i] == t.rows[i].(title := None, description := None, dueDate := None, completed := 0)
  {
    NoMatchIffZero(t.rows, id, userId);
  }

  /** An edit writes what was sent: after a 200 the caller's row holds the trimmed title
      (NULL for a falsy one), the description and due date as sent (NULL when falsy)
      and the 0/1 flag, keeping only its id and owner. */
  lemma UpdateWritesEdit(t: TaskTable, userId: nat, id: nat, req: TaskEdit, i: nat)
    requires UpdateError(req).None?
    requires i < |t.rows| && t.rows[i].id == id && t.rows[i].userId == userId
    ensures var r := UpdateTask(t, true, userId, id, req);
      && r.response.Ok?
      && r.tasks.rows[i] == TaskRow(id, userId,
           if Present(req.title) then Some(Trim(req.title.value)) else None,
           OrNull(req.description), OrNull(req.dueDate),
           if CompletedFlag(req.completed) then 1 else 0)
  {
  }

  /** Past dates pass on update: only the format and the calendar are checked. */
  lemma PastDatePassesOnUpdate(title: Option<string>, description: Option<string>, completed: Value, due: string)
    requires IsIsoDate(due) && !(Present(title) && IsBlank(title.value))
    ensures UpdateError(TaskEdit(title, description, completed, Some(due))).None?
  {
  }

  // ---------------------------------------------------------------------------
  // DELETE /tasks/:id
  // ---------------------------------------------------------------------------

  /** DELETE /tasks/:id: 500 when the statement fails, 404 when no row has this id and
      belongs to the caller, 200 otherwise. */
  function DeleteTask(t: TaskTable, up: bool, userId: nat, id: nat): (r: Handled<string>)
    ensures !up ==> r == Handled(ServerError("Error al eliminar tarea"), t)
    ensures up ==> r.tasks == Delete(t, id, userId).0
    ensures up ==> (r.response.NotFound? <==> forall i :: 0 <= i < |t.rows| ==> !(t.rows[i].id == id && t.rows[i].userId == userId))
    ensures up ==> (r.response.Ok? <==> !r.response.NotFound?)
    ensures r.response.NotFound? ==> r.response.message == NotFoundOrForbidden && r.tasks == t
    ensures r.response.Ok? ==> r.response.body == "Tarea eliminada correctamente"
  {
    if !up then Handled(ServerError("Error al eliminar tarea"), t)
    else
      var (t', n) := Delete(t, id, userId);
      NoMatchIffZero(t.rows, id, userId);
      if n == 0 then
        DeleteWithoutMatch(t, id, userId);
        Handled(NotFound(NotFoundOrForbidden), t')
      else Handled(Ok("Tarea eliminada correctamente"), t')
  }

  /** After a successful delete the caller's listing no longer holds the task. */
  lemma DeletedTaskIsGone(t: TaskTable, userId: nat, id: nat)
    requires DeleteTask(t, true, userId, id).response.Ok?
    ensures forall i :: 0 <= i < |ByUser(DeleteTask(t, true, userId, id).tasks, userId)| ==>
      ByUser(DeleteTask(t, true, userId, id).tasks, userId)[i].id != id
  {
  }
}
