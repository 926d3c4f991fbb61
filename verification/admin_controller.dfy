/** The administrator's endpoints: user listing, creation, update and deletion, and a
    user's tasks. The token and role checks that guard these routes run before the
    handlers and are not part of this model. */
module AdminController {
  import opened Wire
  import opened Text
  import opened Http
  import opened Seqs
  import opened Sorting
  import opened Calendar
  import U = UserStore
  import T = TaskStore
  import Auth = AuthController
  import TC = TaskController

  // ---------------------------------------------------------------------------
  // GET /admin/users
  // ---------------------------------------------------------------------------

  /** GET /admin/users: every user as {id, name, email, role}, here in table order (the
      query has no ORDER BY); the hash never leaves the table. */
  function ListUsers(t: U.UserTable, up: bool): (r: Response<seq<Auth.PublicUser>>)
    ensures !up ==> r == ServerError("Error al listar usuarios")
    ensures up ==> r.Ok? && |r.body| == |t.rows|
    ensures r.Ok? ==> forall i :: 0 <= i < |t.rows| ==>
      r.body[i].id == t.rows[i].id && r.body[i].name == t.rows[i].name
      && r.body[i].email == t.rows[i].email && r.body[i].role == t.rows[i].role
  {
    if !up then ServerError("Error al listar usuarios")
    else Ok(seq(|t.rows|, i requires 0 <= i < |t.rows| => Auth.Public(t.rows[i])))
  }

  // ---------------------------------------------------------------------------
  // POST /admin/users
  // ---------------------------------------------------------------------------

  /** POST /admin/users: 400 unless name, email and password are all truthy; 500 when
      hashing or the insert fails (a taken email still uses up an id); otherwise 201
      echoing {id, name, email, role} with the role defaulting to "user". */
  function CreateUser(t: U.UserTable, up: bool, c: Auth.Crypto, req: Auth.Credentials)
    : (r: (Response<Auth.PublicUser>, U.UserTable))
    ensures !Present(req.name) || !Present(req.email) || !Present(req.password)
      ==> r == (BadRequest("Faltan campos requeridos"), t)
    ensures !r.0.Created? ==> r.1.rows == t.rows
    ensures !r.0.Created? && !U.EmailTaken(t.rows, req.email) ==> r.1 == t
    ensures (Present(req.name) && Present(req.email) && Present(req.password) && c.hash(req.password).Some? && up
      && U.EmailTaken(t.rows, req.email)) ==> r.1.nextId > t.nextId
    ensures r.0.Created? <==> (Present(req.name) && Present(req.email) && Present(req.password)
      && c.hash(req.password).Some? && up && !U.EmailTaken(t.rows, req.email))
    ensures r.0.Created? ==> (
      && r.0.body == Auth.PublicUser(t.nextId, req.name, req.email, OrElse(req.role, "user"))
      && |r.1.rows| == |t.rows| + 1 && r.1.rows[..|t.rows|] == t.rows
      && r.1.rows[|t.rows|] == U.UserRow(t.nextId, req.name, req.email, c.hash(req.password).value, OrElse(req.role, "user")))
    ensures U.Valid(t) ==> U.Valid(r.1)
  {
    if !Present(req.name) || !Present(req.email) || !Present(req.password) then
      (BadRequest("Faltan campos requeridos"), t)
    else match c.hash(req.password)
      case None => (ServerError("Error al encriptar contraseña"), t)
      case Some(h) =>
        var role := OrElse(req.role, "user");
        if !up then (ServerError("Error al crear usuario"), t)
        else
          var (t', id) := U.Insert(t, req.name, req.email, h, role);
          if id.None? then (ServerError("Error al crear usuario"), t')
          else (Created(Auth.PublicUser(id.value, req.name, req.email, role)), t')
  }

  /** A refused duplicate leaves a gap in the ids: the id it took is never echoed by a
      later creation. */
  lemma RefusedDuplicateSkipsAnId(t: U.UserTable, c: Auth.Crypto, req: Auth.Credentials, next: Auth.Credentials)
    requires Present(req.name) && Present(req.email) && Present(req.password) && c.hash(req.password).Some?
    requires U.EmailTaken(t.rows, req.email)
    requires CreateUser(CreateUser(t, true, c, req).1, true, c, next).0.Created?
    ensures CreateUser(t, true, c, req).0 == ServerError("Error al crear usuario")
    ensures CreateUser(CreateUser(t, true, c, req).1, true, c, next).0.body.id > t.nextId
  {
  }

  // ---------------------------------------------------------------------------
  // PUT /admin/users/:id — the dynamic SET list
  // ---------------------------------------------------------------------------

  /** The body of PUT /admin/users/:id; every field is optional. */
  datatype UserPatch = UserPatch(name: Option<string>, email: Option<string>, role: Option<string>, password: Option<string>)

  /** A bound parameter: a string value, or the id from the path. */
  datatype Param = Text(s: string) | Id(n: nat)

  /** Position of a column in the handler's fixed order. */
  function ColumnOrder(c: U.Column): nat
  {
    match c
    case Name => 0
    case Email => 1
    case Role => 2
    case Password => 3
  }

  /** Each column appears at most once, in the fixed order. */
  predicate Ascending(a: seq<U.Assignment>)
  {
    forall i, j :: 0 <= i < j < |a| ==> ColumnOrder(a[i].column) < ColumnOrder(a[j].column)
  }

  /** The value a SET list assigns to column `c` (its first assignment), None when the
      column is not in the list. */
  function ValueOf(a: seq<U.Assignment>, c: U.Column): Option<string>
  {
    if |a| == 0 then None
    else if a[0].column == c then Some(a[0].value)
    else ValueOf(a[1..], c)
  }

  /** A column with the value to bind, None when the handler skips it. */
  type Candidate = (U.Column, Option<string>)

  /** `if (x) { updates.push('col = ?'); params.push(x); }` for each candidate in turn. */
  function Collect(cs: seq<Candidate>): seq<U.Assignment>
  {
    if |cs| == 0 then []
    else (if cs[0].1.Some? then [U.Assignment(cs[0].0, cs[0].1.value)] else []) + Collect(cs[1..])
  }

  lemma {:induction false} CollectBound(cs: seq<Candidate>, lo: nat)
    requires forall k :: 0 <= k < |cs| ==> lo <= ColumnOrder(cs[k].0)
    ensures forall i :: 0 <= i < |Collect(cs)| ==> lo <= ColumnOrder(Collect(cs)[i].column)
  {
    if |cs| > 0 {
      CollectBound(cs[1..], lo);
    }
  }

  lemma {:induction false} CollectAscending(cs: seq<Candidate>)
    requires forall k, l :: 0 <= k < l < |cs| ==> ColumnOrder(cs[k].0) < ColumnOrder(cs[l].0)
    ensures Ascending(Collect(cs))
  {
    if |cs| > 0 {
      CollectAscending(cs[1..]);
      CollectBound(cs[1..], ColumnOrder(cs[0].0) + 1);
    }
  }

  lemma {:induction false} ValueOfAbsent(a: seq<U.Assignment>, c: U.Column)
    requires forall i :: 0 <= i < |a| ==> a[i].column != c
    ensures ValueOf(a, c).None?
  {
    if |a| > 0 {
      ValueOfAbsent(a[1..], c);
    }
  }

  lemma {:induction false} CollectValue(cs: seq<Candidate>, k: nat)
    requires forall k, l :: 0 <= k < l < |cs| ==> ColumnOrder(cs[k].0) < ColumnOrder(cs[l].0)
    requires k < |cs|
    ensures ValueOf(Collect(cs), cs[k].0) == cs[k].1
  {
    var c := cs[k].0;
    if k == 0 {
      if cs[0].1.None? {
        CollectBound(cs[1..], ColumnOrder(c) + 1);
        assert Collect(cs) == [] + Collect(cs[1..]) == Collect(cs[1..]);
        forall i | 0 <= i < |Collect(cs[1..])| ensures Collect(cs[1..])[i].column != c {
        }
        ValueOfAbsent(Collect(cs[1..]), c);
      }
    } else {
      assert cs[1..][k - 1] == cs[k];
      assert ColumnOrder(cs[0].0) < ColumnOrder(c);
      CollectValue(cs[1..], k - 1);
      var head := if cs[0].1.Some? then [U.Assignment(cs[0].0, cs[0].1.value)] else [];
      assert Collect(cs) == head + Collect(cs[1..]);
      if cs[0].1.Some? {
        assert Collect(cs)[0].column != c;
        assert Collect(cs)[1..] == Collect(cs[1..]);
      } else {
        assert Collect(cs) == Collect(cs[1..]);
      }
    }
  }

  /** The handler's candidates: name, email and role when truthy, then the password's
      hash when a password was given. */
  function Candidates(p: UserPatch, hashed: Option<string>): seq<Candidate>
  {
    [(U.Name, OrNull(p.name)), (U.Email, OrNull(p.email)), (U.Role, OrNull(p.role)), (U.Password, hashed)]
  }

  /** The SET list: a column is set exactly when its field is truthy, to that field's
      value, except the password, which is set to its hash; columns come in the order
      name, email, role, password. */
  function SetList(p: UserPatch, hashed: Option<string>): (a: seq<U.Assignment>)
    ensures Ascending(a)
    ensures ValueOf(a, U.Name) == OrNull(p.name)
    ensures ValueOf(a, U.Email) == OrNull(p.email)
    ensures ValueOf(a, U.Role) == OrNull(p.role)
    ensures ValueOf(a, U.Password) == hashed
  {
    var cs := Candidates(p, hashed);
    CollectAscending(cs);
    CollectValue(cs, 0);
    CollectValue(cs, 1);
    CollectValue(cs, 2);
    CollectValue(cs, 3);
    Collect(cs)
  }

  /** Applying a SET list whose columns are distinct sets each listed column to its
      value and leaves the others alone. */
  lemma {:induction false} AssignAllSets(u: U.UserRow, a: seq<U.Assignment>)
    requires Ascending(a)
    ensures U.AssignAll(u, a).name == (if ValueOf(a, U.Name).Some? then ValueOf(a, U.Name) else u.name)
    ensures U.AssignAll(u, a).email == (if ValueOf(a, U.Email).Some? then ValueOf(a, U.Email) else u.email)
    ensures U.AssignAll(u, a).role == (if ValueOf(a, U.Role).Some? then ValueOf(a, U.Role).value else u.role)
    ensures U.AssignAll(u, a).password == (if ValueOf(a, U.Password).Some? then ValueOf(a, U.Password).value else u.password)
    decreases |a|
  {
    if |a| > 0 {
      assert Ascending(a[1..]) by {
        forall i, j | 0 <= i < j < |a[1..]| ensures ColumnOrder(a[1..][i].column) < ColumnOrder(a[1..][j].column) {
          assert a[1..][i] == a[i + 1] && a[1..][j] == a[j + 1];
        }
      }
      AssignAllSets(U.Assign(u, a[0]), a[1..]);
      forall i | 0 <= i < |a[1..]| ensures a[1..][i].column != a[0].column {
        assert a[1..][i] == a[i + 1];
      }
      ValueOfAbsent(a[1..], a[0].column);
    }
  }

  /** `column = ?` */
  function Fragment(a: U.Assignment): (f: string)
    ensures Occurrences(f, '?') == 1
  {
    var f := a.column.Sql() + " = ?";
    OccurrencesNone(a.column.Sql(), '?');
    OccurrencesAppend(a.column.Sql(), " = ", '?');
    OccurrencesAppend(a.column.Sql() + " = ", "?", '?');
    OccurrencesNone(" = ", '?');
    assert f == a.column.Sql() + " = " + "?";
    f
  }

  function Fragments(a: seq<U.Assignment>): (fs: seq<string>)
    ensures |fs| == |a|
    ensures forall i :: 0 <= i < |a| ==> fs[i] == Fragment(a[i])
  {
    seq(|a|, i requires 0 <= i < |a| => Fragment(a[i]))
  }

  const SetPrefix := "UPDATE users SET "
  const WhereId := " WHERE id = ?"
  const Comma := ", "

  /** `UPDATE users SET ${updates.join(', ')} WHERE id = ?` */
  function UpdateSql(a: seq<U.Assignment>): string
  {
    SetPrefix + Join(Fragments(a), Comma) + WhereId
  }

  lemma PrefixHasNoPlaceholder()
    ensures Occurrences(SetPrefix, '?') == 0
  {
    var s := SetPrefix;
    assert '?' !in s;
    OccurrencesNone(s, '?');
  }

  lemma CommaHasNoPlaceholder()
    ensures Occurrences(Comma, '?') == 0
  {
    var s := Comma;
    assert '?' !in s;
    OccurrencesNone(s, '?');
  }

  lemma WhereHasOnePlaceholder()
    ensures Occurrences(WhereId, '?') == 1
  {
    var w := WhereId;
    var s := w[..|w| - 1];
    assert forall i | 0 <= i < |s| :: s[i] != '?';
    OccurrencesNone(s, '?');
    assert w == s + [w[|w| - 1]];
    OccurrencesAppend(s, [w[|w| - 1]], '?');
  }

  /** `[...params, id]` */
  function UpdateParams(a: seq<U.Assignment>, id: nat): (ps: seq<Param>)
    ensures |ps| == |a| + 1
    ensures ps[|a|] == Id(id)
    ensures forall i :: 0 <= i < |a| ==> ps[i] == Text(a[i].value)
  {
    seq(|a|, i requires 0 <= i < |a| => Text(a[i].value)) + [Id(id)]
  }

  /** Joining n strings that each hold one `?`, with a separator that holds none, gives
      n placeholders. */
  lemma {:induction false} JoinPlaceholders(fs: seq<string>, sep: string)
    requires forall i :: 0 <= i < |fs| ==> Occurrences(fs[i], '?') == 1
    requires Occurrences(sep, '?') == 0
    ensures Occurrences(Join(fs, sep), '?') == |fs|
  {
    if |fs| > 1 {
      JoinPlaceholders(fs[1..], sep);
      OccurrencesAppend(fs[0], sep, '?');
      OccurrencesAppend(fs[0] + sep, Join(fs[1..], sep), '?');
    }
  }

  lemma {:induction false} OccurrencesNone(s: string, c: char)
    requires c !in s
    ensures Occurrences(s, c) == 0
  {
    if |s| > 0 {
      assert s[0] != c;
      assert c !in s[1..];
      OccurrencesNone(s[1..], c);
    }
  }

  /** The statement has exactly one placeholder per bound parameter, and the last
      placeholder, the one in `WHERE id = ?`, receives the id. */
  lemma PlaceholdersMatchParams(a: seq<U.Assignment>, id: nat)
    ensures Occurrences(UpdateSql(a), '?') == |UpdateParams(a, id)|
    ensures UpdateParams(a, id)[|UpdateParams(a, id)| - 1] == Id(id)
  {
    var body := Join(Fragments(a), Comma);
    PrefixHasNoPlaceholder();
    CommaHasNoPlaceholder();
    WhereHasOnePlaceholder();
    JoinPlaceholders(Fragments(a), Comma);
    OccurrencesAppend(SetPrefix, body, '?');
    OccurrencesAppend(SetPrefix + body, WhereId, '?');
  }

  /** The statement text depends only on which columns are set, never on the values:
      every value travels as a bound parameter. */
  lemma {:induction false} SqlIndependentOfValues(a: seq<U.Assignment>, b: seq<U.Assignment>)
    requires |a| == |b| && forall i :: 0 <= i < |a| ==> a[i].column == b[i].column
    ensures UpdateSql(a) == UpdateSql(b)
  {
    assert Fragments(a) == Fragments(b);
  }

  /** Some field of the patch is truthy. */
  predicate HasFields(p: UserPatch)
  {
    Present(p.name) || Present(p.email) || Present(p.role) || Present(p.password)
  }

  /** The value bound for the password column: the hash of a truthy password. */
  function Hashed(c: Auth.Crypto, p: UserPatch): Option<string>
  {
    if Present(p.password) then c.hash(p.password) else None
  }

  /** The patch reaches the statement: a given password was hashed and some field is
      to be set. */
  predicate ReachesStatement(c: Auth.Crypto, p: UserPatch)
  {
    (Present(p.password) ==> c.hash(p.password).Some?) && HasFields(p)
  }

  /** PUT /admin/users/:id: hash a truthy password first (500 when that fails); 400 when
      nothing is to be set; 500 when the statement fails (a taken email included);
      otherwise 200, also when no user has this id. */
  function UpdateUser(t: U.UserTable, up: bool, c: Auth.Crypto, id: nat, p: UserPatch)
    : (r: (Response<string>, U.UserTable))
    ensures Present(p.password) && c.hash(p.password).None? ==> r == (ServerError("Error al encriptar contraseña"), t)
    ensures !HasFields(p) ==> r == (BadRequest("No hay campos para actualizar"), t)
    ensures ReachesStatement(c, p) && (!up || U.EmailClash(t.rows, id, SetList(p, Hashed(c, p))))
      ==> r == (ServerError("Error al actualizar usuario"), t)
    ensures r.0.Ok? <==> ReachesStatement(c, p) && up && !U.EmailClash(t.rows, id, SetList(p, Hashed(c, p)))
    ensures !r.0.Ok? ==> r.1 == t
    ensures r.0.Ok? ==> (r.0.body == "Usuario actualizado correctamente"
      && U.UpdateById(t, id, SetList(p, Hashed(c, p))) == Some((r.1, CountWhere(t.rows, U.WithId(id)))))
  {
    var hashed := Hashed(c, p);
    if Present(p.password) && hashed.None? then (ServerError("Error al encriptar contraseña"), t)
    else
      var a := SetList(p, hashed);
      if |a| == 0 && !Present(p.password) then (BadRequest("No hay campos para actualizar"), t)
      else if !up then (ServerError("Error al actualizar usuario"), t)
      else match U.UpdateById(t, id, a)
        case None => (ServerError("Error al actualizar usuario"), t)
        case Some((t', _)) => (Ok("Usuario actualizado correctamente"), t')
  }

  /** PUT on an existing user is a patch: each truthy field replaces its column, the
      password column receives the hash of a given password, and every other column
      keeps its value. */
  lemma UpdateUserPatches(t: U.UserTable, c: Auth.Crypto, id: nat, p: UserPatch, i: nat)
    requires i < |t.rows| && t.rows[i].id == id
    requires UpdateUser(t, true, c, id, p).0.Ok?
    ensures var u, u' := t.rows[i], UpdateUser(t, true, c, id, p).1.rows[i];
      && u'.id == u.id
      && u'.name == (if Present(p.name) then p.name else u.name)
      && u'.email == (if Present(p.email) then p.email else u.email)
      && u'.role == (if Present(p.role) then p.role.value else u.role)
      && u'.password == (if Present(p.password) then c.hash(p.password).value else u.password)
  {
    AssignAllSets(t.rows[i], SetList(p, Hashed(c, p)));
  }

  /** Updating an id no user has still answers 200 and changes nothing. */
  lemma UpdateOfMissingUserSucceeds(t: U.UserTable, c: Auth.Crypto, id: nat, p: UserPatch)
    requires forall i :: 0 <= i < |t.rows| ==> t.rows[i].id != id
    requires Present(p.name) && (Present(p.password) ==> c.hash(p.password).Some?)
    ensures UpdateUser(t, true, c, id, p).0 == Ok("Usuario actualizado correctamente")
    ensures UpdateUser(t, true, c, id, p).1.rows == t.rows
  {
    var a := SetList(p, Hashed(c, p));
    assert !U.EmailClash(t.rows, id, a);
    var rows' := U.UpdateById(t, id, a).value.0.rows;
    assert forall i :: 0 <= i < |t.rows| ==> rows'[i] == t.rows[i];
  }

  // ---------------------------------------------------------------------------
  // DELETE /admin/users/:id
  // ---------------------------------------------------------------------------

  /** DELETE /admin/users/:id: 500 when the statement fails, 404 when no user has this
      id, 200 otherwise. */
  function DeleteUser(t: U.UserTable, up: bool, id: nat): (r: (Response<string>, U.UserTable))
    ensures !up ==> r == (ServerError("Error al eliminar usuario"), t)
    ensures up ==> r.1 == U.DeleteById(t, id).0
    ensures up ==> (r.0 == NotFound("Usuario no encontrado") <==> forall i :: 0 <= i < |t.rows| ==> t.rows[i].id != id)
    ensures up ==> (r.0.Ok? <==> !r.0.NotFound?)
    ensures r.0.Ok? ==> r.0.body == "Usuario eliminado correctamente" && U.FindById(r.1, id).None?
  {
    if !up then (ServerError("Error al eliminar usuario"), t)
    else
      var (t', n) := U.DeleteById(t, id);
      if n == 0 then (NotFound("Usuario no encontrado"), t')
      else (Ok("Usuario eliminado correctamente"), t')
  }

  // ---------------------------------------------------------------------------
  // GET /admin/users/:id/tasks
  // ---------------------------------------------------------------------------

  /** `SELECT t.id, t.title, t.description, due_date, t.completed`: no owner column. */
  datatype TaskSummary = TaskSummary(id: nat, title: Option<string>, description: Option<string>, dueDate: Option<string>, completed: int)

  function Summary(row: T.TaskRow): TaskSummary
  {
    TaskSummary(row.id, row.title, row.description, row.dueDate, row.completed)
  }

  /** `ORDER BY t.due_date IS NULL, t.due_date ASC`: dated rows first by date, then the
      undated ones. A stored due date is always a calendar date; the fallback value 0
      is never used for a valid table. */
  function DueOrder(row: T.TaskRow): Rank
  {
    match row.dueDate
    case None => Rank(1, 0)
    case Some(d) => Rank(0, if IsIsoDate(d) then IsoDateDay(d) else 0)
  }

  /** The user's rows in the order the query returns them. */
  function OrderedTasks(t: T.TaskTable, userId: nat): (rows: seq<T.TaskRow>)
    ensures multiset(rows) == multiset(T.ByUser(t, userId))
    ensures forall i :: 0 <= i < |rows| ==> rows[i] in t.rows && rows[i].userId == userId
    ensures SortedBy(rows, DueOrder)
  {
    var mine := T.ByUser(t, userId);
    var sorted := SortByKey(mine, DueOrder);
    forall i | 0 <= i < |sorted| ensures sorted[i] in t.rows && sorted[i].userId == userId {
      assert sorted[i] in multiset(mine);
    }
    sorted
  }

  /** GET /admin/users/:id/tasks: that user's tasks, projected without the owner
      column, in query order; 500 when the query fails. */
  function ListUserTasks(t: T.TaskTable, up: bool, userId: nat): (r: Response<seq<TaskSummary>>)
    ensures !up ==> r == ServerError("Error al obtener tareas del usuario")
    ensures up ==> r.Ok? && |r.body| == |OrderedTasks(t, userId)|
    ensures r.Ok? ==> forall i :: 0 <= i < |r.body| ==> r.body[i] == Summary(OrderedTasks(t, userId)[i])
  {
    if !up then ServerError("Error al obtener tareas del usuario")
    else
      var rows := OrderedTasks(t, userId);
      Ok(seq(|rows|, i requires 0 <= i < |rows| => Summary(rows[i])))
  }

  /** The listing holds exactly the user's tasks: a task of that user appears, and
      every listed task is theirs. */
  lemma ListUserTasksExactlyTheirs(t: T.TaskTable, userId: nat)
    ensures forall i :: 0 <= i < |t.rows| && t.rows[i].userId == userId ==> t.rows[i] in OrderedTasks(t, userId)
    ensures forall i :: 0 <= i < |OrderedTasks(t, userId)| ==> OrderedTasks(t, userId)[i].userId == userId
  {
    var rows := OrderedTasks(t, userId);
    forall i | 0 <= i < |t.rows| && t.rows[i].userId == userId ensures t.rows[i] in rows {
      assert t.rows[i] in multiset(T.ByUser(t, userId));
    }
  }

  /** Undated tasks come last, and dated tasks come by ascending date. */
  lemma ListUserTasksOrder(t: T.TaskTable, userId: nat)
    requires T.Valid(t)
    ensures var rows := OrderedTasks(t, userId);
      && (forall i, j :: 0 <= i < j < |rows| && rows[i].dueDate.None? ==> rows[j].dueDate.None?)
      && (forall i :: 0 <= i < |rows| && rows[i].dueDate.Some? ==> IsIsoDate(rows[i].dueDate.value))
      && (forall i, j :: 0 <= i < j < |rows| && rows[j].dueDate.Some? ==>
            rows[i].dueDate.Some? && IsoDateDay(rows[i].dueDate.value) <= IsoDateDay(rows[j].dueDate.value))
  {
    var rows := OrderedTasks(t, userId);
    ValidDatesStored(t, rows);
    forall i, j | 0 <= i < j < |rows| && rows[j].dueDate.Some?
      ensures rows[i].dueDate.Some? && IsoDateDay(rows[i].dueDate.value) <= IsoDateDay(rows[j].dueDate.value)
    {
      assert Le(DueOrder(rows[i]), DueOrder(rows[j]));
    }
  }

  lemma ValidDatesStored(t: T.TaskTable, rows: seq<T.TaskRow>)
    requires T.Valid(t)
    requires forall i :: 0 <= i < |rows| ==> rows[i] in t.rows
    ensures forall i :: 0 <= i < |rows| && rows[i].dueDate.Some? ==> IsIsoDate(rows[i].dueDate.value)
  {
    forall i | 0 <= i < |rows| && rows[i].dueDate.Some? ensures IsIsoDate(rows[i].dueDate.value) {
      var k :| 0 <= k < |t.rows| && t.rows[k] == rows[i];
      assert T.DueDateStored(t.rows[k].dueDate);
    }
  }

  // ---------------------------------------------------------------------------
  // POST /admin/users/:id/tasks
  // ---------------------------------------------------------------------------

  /** POST /admin/users/:id/tasks: only a falsy title is refused. The title is stored
      untrimmed and the due date is neither pattern-checked nor compared with today;
      the DATE column still refuses a string that is not a date, which fails the insert
      with 500. */
  function CreateUserTask(t: T.TaskTable, up: bool, userId: nat, req: TC.NewTask): (r: TC.Handled<nat>)
    ensures !Present(req.title) ==> r == TC.Handled(BadRequest("Title is required"), t)
    ensures r.response.Created? <==> Present(req.title) && up && T.Accepts(req.dueDate)
    ensures !r.response.Created? ==> r.tasks == t
    ensures r.response.Created? ==> (
      && |r.tasks.rows| == |t.rows| + 1 && r.tasks.rows[..|t.rows|] == t.rows
      && r.tasks.rows[|t.rows|] == T.TaskRow(r.response.body, userId, req.title, OrNull(req.description), OrNull(req.dueDate), 0))
    ensures T.Valid(t) ==> T.Valid(r.tasks)
  {
    if !Present(req.title) then TC.Handled(BadRequest("Title is required"), t)
    else if !up || !T.Accepts(req.dueDate) then TC.Handled(ServerError("Error al crear tarea"), t)
    else
      var (t', id) := T.Insert(t, userId, req.title, OrNull(req.description), req.dueDate);
      TC.Handled(Created(id), t')
  }

  /** The administrator's path is weaker than the owner's: a blank title and a past
      date, both refused by POST /tasks, are accepted here. */
  lemma AdminPathAcceptsWhatUserPathRefuses(t: T.TaskTable, today: int, userId: nat, due: string)
    requires IsIsoDate(due) && IsoDateDay(due) < today
    ensures TC.CreateTask(t, true, today, userId, TC.NewTask(Some(" "), None, None)).response.BadRequest?
    ensures CreateUserTask(t, true, userId, TC.NewTask(Some(" "), None, None)).response.Created?
    ensures TC.CreateTask(t, true, today, userId, TC.NewTask(Some("x"), None, Some(due))).response.BadRequest?
    ensures CreateUserTask(t, true, userId, TC.NewTask(Some("x"), None, Some(due))).response.Created?
  {
    assert IsBlank(" ");
    assert "x"[0] == 'x';
  }
}
