/** The sign-in page: its two fields, their validation, typing into a field, and the
    body it posts to /auth/login. */
module LoginPage {
  import opened Wire
  import opened Text
  import opened Forms
  import Auth = AuthController
  import RegisterPage

  datatype Form = Form(email: string, password: string)

  datatype Field = Email | Password

  function FieldName(f: Field): string
  {
    match f
    case Email => "email"
    case Password => "password"
  }

  /** `validateForm`: the e-mail and password rules of the sign-up page; the form is
      valid iff neither fails. */
  function Validate(f: Form): (e: Errors)
    ensures e.Keys <= {"email", "password"}
    ensures e == map[] <==> EmailError(f.email).None? && PasswordError(f.password).None?
    ensures ("email" in e <==> EmailError(f.email).Some?) && ("email" in e ==> e["email"] == EmailError(f.email).value)
    ensures ("password" in e <==> PasswordError(f.password).Some?) && ("password" in e ==> e["password"] == PasswordError(f.password).value)
  {
    var a, b := EmailError(f.email), PasswordError(f.password);
    var e := Put(Put(map[], "email", a), "password", b);
    assert a.Some? ==> "email" in e;
    assert b.Some? ==> "password" in e;
    e
  }

  /** Both pages judge an e-mail and a password alike. */
  lemma SameRulesAsSignUp(f: Form, g: RegisterPage.Form)
    requires g.email == f.email && g.password == f.password
    ensures var e, e' := Validate(f), RegisterPage.Validate(g);
      && ("email" in e <==> "email" in e') && ("email" in e ==> e["email"] == e'["email"])
      && ("password" in e <==> "password" in e') && ("password" in e ==> e["password"] == e'["password"])
  {
  }

  function Get(f: Form, field: Field): string
  {
    match field
    case Email => f.email
    case Password => f.password
  }

  /** `handleInputChange`: the field takes the value, its shown error is blanked, and
      the other field and every other error stay. */
  function EditField(f: Form, e: Errors, field: Field, value: string): (r: (Form, Errors))
    ensures Get(r.0, field) == value
    ensures forall other: Field :: other != field ==> Get(r.0, other) == Get(f, other)
    ensures !Shows(r.1, FieldName(field))
    ensures r.1.Keys == e.Keys && forall k :: k in e && k != FieldName(field) ==> r.1[k] == e[k]
  {
    (match field case Email => f.(email := value) case Password => f.(password := value), ClearError(e, FieldName(field)))
  }

  /** The body posted to /auth/login: the form exactly as typed, untrimmed. */
  function Payload(f: Form): (c: Auth.Credentials)
    ensures c.email == Some(f.email) && c.password == Some(f.password)
    ensures c.name == None && c.role == None
  {
    Auth.Credentials(None, Some(f.email), Some(f.password), None)
  }
}
