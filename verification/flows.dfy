/** The pages and the endpoints together: what a request built by a page makes the
    server store, and what a session obtained through the endpoints lets the router
    show. The browser's day and the server's day are taken to be the same `today`. */
module Flows {
  import opened Wire
  import opened Text
  import opened Calendar
  import T = TaskStore
  import TC = TaskController
  import C = ClientTask
  import F = TaskForm
  import L = TaskList
  import A = AuthController
  import R = RegisterPage
  import G = LoginPage
  import P = ProtectedRoute
  import UserStore

  // ---------------------------------------------------------------------------
  // The task form against POST /tasks and PUT /tasks/:id
  // ---------------------------------------------------------------------------

  /** The JSON body of `api.post("/tasks", payload)`. */
  function CreateRequest(p: F.Payload): TC.NewTask
  {
    TC.NewTask(Some(p.title), Some(p.description), p.dueDate)
  }

  /** The JSON body of `api.put("/tasks/" + id, payload)` from the edit form: the
      payload has no `completed` member. */
  function EditRequest(p: F.Payload): TC.TaskEdit
  {
    TC.TaskEdit(Some(p.title), Some(p.description), Absent, p.dueDate)
  }

  /** A title the form accepts is one the server accepts. */
  lemma FormTitleAccepted(title: string)
    requires F.TitleError(title).None?
    ensures !TC.MissingTitle(Some(title))
  {
  }

  /** A form that passes its own checks with no date is created by the server, under the
      caller's id, with the trimmed title and without a due date. */
  lemma UndatedFormIsCreated(t: T.TaskTable, today: int, userId: nat, f: F.Form)
    requires F.Validate(f, today) == map[] && f.dueDateDisplay == ""
    ensures var r := TC.CreateTask(t, true, today, userId, CreateRequest(F.PayloadOf(f)));
      && r.response.Created?
      && var row := r.tasks.rows[|t.rows|];
         row.userId == userId && row.title == Some(Trim(f.title)) && row.dueDate.None? && row.completed == 0
  {
    FormTitleAccepted(f.title);
  }

  /** A date typed as the form displays a stored date (a four-digit year from 1000 on)
      travels to the server unchanged, and a form that passes its own checks with such
      a date is created with exactly that due date. */
  lemma DatedFormIsCreated(t: T.TaskTable, today: int, userId: nat, f: F.Form, s: string)
    requires IsIsoDate(s) && s[0] != '0'
    requires f.dueDateDisplay == F.EditDisplay(Some(s))
    requires F.Validate(f, today) == map[]
    ensures F.PayloadOf(f).dueDate == Some(s)
    ensures var r := TC.CreateTask(t, true, today, userId, CreateRequest(F.PayloadOf(f)));
      && r.response.Created?
      && r.tasks.rows[|t.rows|].dueDate == Some(s)
  {
    F.DateRoundTrip(s);
    LeadingDigitBound(s[..4]);
    F.EditedDateRule(s, today);
    FormTitleAccepted(f.title);
  }

  /** Four digits that do not start with `0` are worth at least 1000. */
  lemma LeadingDigitBound(s: string)
    requires |s| == 4 && AllDigits(s) && s[0] != '0'
    ensures DigitsValue(s) >= 1000
  {
    assert s[..1][..0] == [];
    assert DigitsValue(s[..1]) >= 1;
    assert s[..2][..1] == s[..1];
    assert DigitsValue(s[..2]) >= 10;
    assert s[..3][..2] == s[..2];
    assert DigitsValue(s[..3]) >= 100;
    assert s[..3] == s[..|s| - 1];
  }

  /** As written, saving the edit form stores the task as not done: the body has no
      `completed`, the server reads the missing flag as false, and the UPDATE writes
      all four columns. A completed task that is merely renamed comes back pending. */
  lemma EditingUncompletesTask(t: T.TaskTable, userId: nat, i: nat, f: F.Form)
    requires i < |t.rows| && t.rows[i].userId == userId
    requires TC.UpdateError(EditRequest(F.PayloadOf(f))).None?
    ensures var r := TC.UpdateTask(t, true, userId, t.rows[i].id, EditRequest(F.PayloadOf(f)));
      r.tasks.rows[i].completed == 0
  {
    var req := EditRequest(F.PayloadOf(f));
    assert T.Matching(t.rows[i].id, userId)(t.rows[i]);
    assert TC.EditChanges(req).completed == false;
  }

  /** The edit body as evidently intended: it carries the task's current status, as the
      toggle does. */
  function EditRequestKeepingStatus(p: F.Payload, task: C.Task): (req: TC.TaskEdit)
    ensures TC.CompletedFlag(req.completed) <==> C.Done(task)
    ensures TC.UpdateError(req) == TC.UpdateError(EditRequest(p))
  {
    TC.TaskEdit(Some(p.title), Some(p.description), Number(if C.Done(task) then 1 else 0), p.dueDate)
  }

  /** With the intended body an edit keeps the stored status of the task being edited. */
  lemma EditingKeepsStatus(t: T.TaskTable, userId: nat, i: nat, f: F.Form, task: C.Task)
    requires i < |t.rows| && t.rows[i].userId == userId
    requires task.id == t.rows[i].id && task.completed == t.rows[i].completed
    requires t.rows[i].completed == 0 || t.rows[i].completed == 1
    requires TC.UpdateError(EditRequest(F.PayloadOf(f))).None?
    ensures var r := TC.UpdateTask(t, true, userId, task.id, EditRequestKeepingStatus(F.PayloadOf(f), task));
      r.tasks.rows[i].completed == t.rows[i].completed
  {
    var req := EditRequestKeepingStatus(F.PayloadOf(f), task);
    assert T.Matching(task.id, userId)(t.rows[i]);
    assert TC.EditChanges(req).completed == C.Done(task);
  }

  // ---------------------------------------------------------------------------
  // The checkbox against PUT /tasks/:id
  // ---------------------------------------------------------------------------

  /** The body of the toggle: the task as listed with `completed` flipped to 0 or 1. */
  function ToggleRequest(task: C.Task): TC.TaskEdit
  {
    TC.TaskEdit(Some(task.title), task.description, Number(if C.Done(task) then 0 else 1), task.dueDate)
  }

  /** The optimistic update and the server agree: the flag the list shows after the
      toggle is the flag the server stores for that row. */
  lemma ToggleAgreesWithServer(t: T.TaskTable, userId: nat, i: nat, tasks: seq<C.Task>, j: nat)
    requires i < |t.rows| && t.rows[i].userId == userId
    requires j < |tasks| && tasks[j].id == t.rows[i].id
    requires TC.UpdateError(ToggleRequest(tasks[j])).None?
    ensures var r := TC.UpdateTask(t, true, userId, tasks[j].id, ToggleRequest(tasks[j]));
      r.tasks.rows[i].completed == L.Toggled(tasks, tasks[j].id)[j].completed
  {
    var req := ToggleRequest(tasks[j]);
    assert T.Matching(tasks[j].id, userId)(t.rows[i]);
    assert TC.EditChanges(req).completed == !C.Done(tasks[j]);
  }

  // ---------------------------------------------------------------------------
  // Sign-up, sign-in and the route guard
  // ---------------------------------------------------------------------------

  /** What the browser keeps of a login reply, as the guard reads it. */
  function Session(u: A.SessionUser): P.SessionUser
  {
    P.SessionUser(Some(u.role))
  }

  /** An account created through the sign-up page is a plain user: the page sends no
      role, so signing in with the stored email opens the ordinary pages and not the
      administrator's. */
  lemma SignUpPageCreatesUsers(t: UserStore.UserTable, c: A.Crypto, f: R.Form, g: G.Form)
    requires UserStore.Valid(t)
    requires forall p :: c.hash(Some(p)).Some? ==> c.matches(Some(p), c.hash(Some(p)).value)
    requires A.Register(t, true, c, R.Payload(f)).0.Created?
    requires g.email == Trim(f.email) && g.password == f.password
    ensures var t' := A.Register(t, true, c, R.Payload(f)).1;
      var r := A.Login(t', true, c, G.Payload(g));
      && r.Ok? && r.body.user.role == "user"
      && P.Guard(Some(Session(r.body.user)), false) == P.RenderChildren
      && P.Guard(Some(Session(r.body.user)), true) == P.ToHome
  {
    A.RegisterThenLogin(t, c, Some(Trim(f.name)), Trim(f.email), f.password, None);
  }

  /** As written, a client that posts `role: "admin"` to the registration endpoint
      itself is let through the administrator's routes after signing in. */
  lemma ClientChosenAdminPassesGuard(t: UserStore.UserTable, c: A.Crypto, name: Option<string>, email: string, password: string)
    requires UserStore.Valid(t)
    requires forall p :: c.hash(Some(p)).Some? ==> c.matches(Some(p), c.hash(Some(p)).value)
    requires A.Register(t, true, c, A.Credentials(name, Some(email), Some(password), Some("admin"))).0.Created?
    ensures var t' := A.Register(t, true, c, A.Credentials(name, Some(email), Some(password), Some("admin"))).1;
      var r := A.Login(t', true, c, A.Credentials(None, Some(email), Some(password), None));
      P.Guard(Some(Session(r.body.user)), true) == P.RenderChildren
  {
    A.RegisterThenLogin(t, c, name, email, password, Some("admin"));
  }

  /** Under the intended registration the same request leads to the home page instead. */
  lemma RegisterAsUserKeepsAdminRoutesClosed(t: UserStore.UserTable, c: A.Crypto, name: Option<string>, email: string, password: string, role: Option<string>)
    requires UserStore.Valid(t)
    requires forall p :: c.hash(Some(p)).Some? ==> c.matches(Some(p), c.hash(Some(p)).value)
    requires A.RegisterAsUser(t, true, c, A.Credentials(name, Some(email), Some(password), role)).0.Created?
    ensures var t' := A.RegisterAsUser(t, true, c, A.Credentials(name, Some(email), Some(password), role)).1;
      var r := A.Login(t', true, c, A.Credentials(None, Some(email), Some(password), None));
      P.Guard(Some(Session(r.body.user)), true) == P.ToHome
  {
    A.RegisterThenLogin(t, c, name, email, password, None);
  }
}
