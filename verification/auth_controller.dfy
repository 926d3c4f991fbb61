/** Registration, login and the current-user lookup. Password hashing and token
    signing are libraries outside the model: they enter as the function values of a
    `Crypto` record, so every statement here holds for any hash, comparison and
    signer. */
module AuthController {
  import opened Wire
  import opened Http
  import opened UserStore
  import Seqs

  /** What a signed token carries. */
  datatype Claims = Claims(id: nat, role: string)

  /** The hashing and signing primitives. `hash` fails (None) on input it cannot hash,
      such as a missing password; `matches` compares a candidate password with a stored
      hash; `sign` issues a token for claims and a lifetime in seconds. */
  datatype Crypto = Crypto(
    hash: Option<string> -> Option<string>,
    matches: (Option<string>, string) -> bool,
    sign: (Claims, nat) -> string)

  /** `expiresIn: "1h"` */
  const TokenLifetime: nat := 3600

  /** The body of POST /auth/register and of POST /auth/login. */
  datatype Credentials = Credentials(name: Option<string>, email: Option<string>, password: Option<string>, role: Option<string>)

  /** The user object a login returns: no email, no hash. */
  datatype SessionUser = SessionUser(id: nat, name: Option<string>, role: string)

  datatype LoginReply = LoginReply(token: string, user: SessionUser)

  /** `SELECT id, name, email, role`: a user without the hash. */
  datatype PublicUser = PublicUser(id: nat, name: Option<string>, email: Option<string>, role: string)

  function Public(u: UserRow): (p: PublicUser)
    ensures p.id == u.id && p.name == u.name && p.email == u.email && p.role == u.role
  {
    PublicUser(u.id, u.name, u.email, u.role)
  }

  /** The role a registration stores: the one sent in the body when truthy, else "user". */
  function RegisteredRole(req: Credentials): (role: string)
    ensures Present(req.role) ==> role == req.role.value
    ensures !Present(req.role) ==> role == "user"
  {
    OrElse(req.role, "user")
  }

  /** POST /auth/register: hash the password (500 when that fails), insert the user with
      the role above (500 when the insert fails, a taken email included, which still
      uses up an id), 201 with a message and no token. */
  function Register(t: UserTable, up: bool, c: Crypto, req: Credentials): (r: (Response<string>, UserTable))
    ensures c.hash(req.password).None? ==> r == (ServerError("Error al encriptar la contraseña"), t)
    ensures r.0.Created? <==> c.hash(req.password).Some? && up && !EmailTaken(t.rows, req.email)
    ensures r.0.Created? ==> r.0.body == "Usuario registrado con éxito"
    ensures !r.0.Created? ==> r.1.rows == t.rows
    ensures !r.0.Created? && !(c.hash(req.password).Some? && up) ==> r.1 == t
    ensures c.hash(req.password).Some? && up && EmailTaken(t.rows, req.email) ==> r.1.nextId > t.nextId
    ensures c.hash(req.password).Some? && !r.0.Created? ==> r.0 == ServerError("Error al registrar usuario")
    ensures r.0.Created? ==> (|r.1.rows| == |t.rows| + 1 && r.1.rows[..|t.rows|] == t.rows
      && r.1.rows[|t.rows|] == UserRow(t.nextId, req.name, req.email, c.hash(req.password).value, RegisteredRole(req))
      && r.1.nextId > t.nextId)
    ensures Valid(t) ==> Valid(r.1)
  {
    match c.hash(req.password)
    case None => (ServerError("Error al encriptar la contraseña"), t)
    case Some(h) =>
      if !up then (ServerError("Error al registrar usuario"), t)
      else
        var (t', id) := Insert(t, req.name, req.email, h, RegisteredRole(req));
        if id.None? then (ServerError("Error al registrar usuario"), t')
        else (Created("Usuario registrado con éxito"), t')
  }

  /** POST /auth/login: 404 when the lookup fails or finds no user with this email, 401
      when the password does not match the first row's hash, otherwise a token for
      exactly {id, role} valid for an hour and the user's {id, name, role}. */
  function Login(t: UserTable, up: bool, c: Crypto, req: Credentials): (r: Response<LoginReply>)
    ensures !up || FindByEmail(t, req.email) == [] ==> r == NotFound("Usuario no encontrado")
    ensures r.Unauthorized? <==> (up && FindByEmail(t, req.email) != []
      && !c.matches(req.password, FindByEmail(t, req.email)[0].password))
    ensures r.Unauthorized? ==> r.message == "Contraseña incorrecta"
    ensures r.Ok? <==> up && FindByEmail(t, req.email) != [] && c.matches(req.password, FindByEmail(t, req.email)[0].password)
    ensures r.Ok? ==> var u := FindByEmail(t, req.email)[0];
      && u in t.rows && u.email == req.email
      && r.body == LoginReply(c.sign(Claims(u.id, u.role), TokenLifetime), SessionUser(u.id, u.name, u.role))
    ensures r.Ok? || r.NotFound? || r.Unauthorized?
  {
    if !up then NotFound("Usuario no encontrado")
    else
      var found := FindByEmail(t, req.email);
      if found == [] then NotFound("Usuario no encontrado")
      else
        var u := found[0];
        if !c.matches(req.password, u.password) then Unauthorized("Contraseña incorrecta")
        else Ok(LoginReply(c.sign(Claims(u.id, u.role), TokenLifetime), SessionUser(u.id, u.name, u.role)))
  }

  /** GET /auth/me for the token's user id: 500 when the query fails, 404 when no row has
      that id, otherwise the user's {id, name, email, role}. */
  function Me(t: UserTable, up: bool, userId: nat): (r: Response<PublicUser>)
    ensures !up ==> r == ServerError("Error al obtener usuario")
    ensures up ==> (r.NotFound? <==> forall i :: 0 <= i < |t.rows| ==> t.rows[i].id != userId)
    ensures r.NotFound? ==> r.message == "Usuario no encontrado"
    ensures up && FindById(t, userId).Some? ==> r == Ok(Public(FindById(t, userId).value))
    ensures r.Ok? ==> r.body.id == userId && exists u :: u in t.rows && r.body == Public(u)
  {
    if !up then ServerError("Error al obtener usuario")
    else match FindById(t, userId)
      case None => NotFound("Usuario no encontrado")
      case Some(u) => Ok(Public(u))
  }

  /** The session a login opens belongs to the user GET /auth/me then returns: same id,
      name and role, and the e-mail the login was made with. */
  lemma LoginThenMe(t: UserTable, c: Crypto, req: Credentials)
    requires Valid(t)
    requires Login(t, true, c, req).Ok?
    ensures var s := Login(t, true, c, req).body.user;
      Me(t, true, s.id) == Ok(PublicUser(s.id, s.name, req.email, s.role))
  {
    var u := FindByEmail(t, req.email)[0];
    OneRowPerId(t.rows, u, FindById(t, u.id).value);
  }

  /** With distinct ids, two rows of the table with the same id are the same row. */
  lemma OneRowPerId(rows: seq<UserRow>, a: UserRow, b: UserRow)
    requires Seqs.Distinct(rows, UserId)
    requires a in rows && b in rows && a.id == b.id
    ensures a == b
  {
    var i :| 0 <= i < |rows| && rows[i] == a;
    var j :| 0 <= j < |rows| && rows[j] == b;
    assert UserId(rows[i]) == UserId(rows[j]);
  }

  /** With a hash the comparison accepts, a fresh registration can log in: the token
      names the new user's id and stored role. */
  lemma RegisterThenLogin(t: UserTable, c: Crypto, name: Option<string>, email: string, password: string, role: Option<string>)
    requires Valid(t)
    requires forall p :: c.hash(Some(p)).Some? ==> c.matches(Some(p), c.hash(Some(p)).value)
    requires Register(t, true, c, Credentials(name, Some(email), Some(password), role)).0.Created?
    ensures var t' := Register(t, true, c, Credentials(name, Some(email), Some(password), role)).1;
      var r := Login(t', true, c, Credentials(None, Some(email), Some(password), None));
      && r.Ok?
      && r.body.user == SessionUser(t.nextId, name, OrElse(role, "user"))
      && r.body.token == c.sign(Claims(t.nextId, OrElse(role, "user")), TokenLifetime)
  {
    var req := Credentials(name, Some(email), Some(password), role);
    var h := c.hash(Some(password)).value;
    assert Insert(t, name, Some(email), h, RegisteredRole(req)).1.Some?;
    FindAfterInsert(t, name, email, h, RegisteredRole(req));
  }

  /** The registering client chooses its own role: a body with `role: "admin"` stores an
      administrator, and the token issued at login says so. */
  lemma RegisterHonoursClientRole(t: UserTable, c: Crypto, name: Option<string>, email: string, password: string)
    requires Valid(t)
    requires forall p :: c.hash(Some(p)).Some? ==> c.matches(Some(p), c.hash(Some(p)).value)
    requires Register(t, true, c, Credentials(name, Some(email), Some(password), Some("admin"))).0.Created?
    ensures var t' := Register(t, true, c, Credentials(name, Some(email), Some(password), Some("admin"))).1;
      Login(t', true, c, Credentials(None, Some(email), Some(password), None)).body.user.role == "admin"
  {
    RegisterThenLogin(t, c, name, email, password, Some("admin"));
  }

  /** Registration as evidently intended: the role is always "user", whatever the body
      says. */
  function RegisterAsUser(t: UserTable, up: bool, c: Crypto, req: Credentials): (r: (Response<string>, UserTable))
    ensures r.0.Created? <==> Register(t, up, c, req).0.Created?
    ensures r.0.Created? ==> |r.1.rows| == |t.rows| + 1 && r.1.rows[|t.rows|].role == "user"
  {
    Register(t, up, c, req.(role := None))
  }

  /** Under the intended registration no client obtains a role other than "user", so a
      fresh account always logs in as "user". */
  lemma RegisterAsUserNeverEscalates(t: UserTable, c: Crypto, name: Option<string>, email: string, password: string, role: Option<string>)
    requires Valid(t)
    requires forall p :: c.hash(Some(p)).Some? ==> c.matches(Some(p), c.hash(Some(p)).value)
    requires RegisterAsUser(t, true, c, Credentials(name, Some(email), Some(password), role)).0.Created?
    ensures var t' := RegisterAsUser(t, true, c, Credentials(name, Some(email), Some(password), role)).1;
      Login(t', true, c, Credentials(None, Some(email), Some(password), None)).body.user.role == "user"
  {
    RegisterThenLogin(t, c, name, email, password, None);
  }

  /** A second registration with the same email fails with the generic 500, not a
      dedicated conflict answer, and stores nothing, although the id it took is gone. */
  lemma DuplicateRegistrationIsServerError(t: UserTable, c: Crypto, req: Credentials)
    requires c.hash(req.password).Some? && EmailTaken(t.rows, req.email)
    ensures Register(t, true, c, req).0 == ServerError("Error al registrar usuario")
    ensures Register(t, true, c, req).1.rows == t.rows
    ensures Register(t, true, c, req).1.nextId > t.nextId
  {
  }
}
