/** The sign-up page: its four fields, their validation, typing into a field, and the
    body it posts to /auth/register. */
module RegisterPage {
  import opened Wire
  import opened Text
  import opened Forms
  import Auth = AuthController

  datatype Form = Form(name: string, email: string, password: string, confirmPassword: string)

  datatype Field = Name | Email | Password | ConfirmPassword

  function FieldName(f: Field): string
  {
    match f
    case Name => "name"
    case Email => "email"
    case Password => "password"
    case ConfirmPassword => "confirmPassword"
  }

  const NameRequired := "El nombre es obligatorio"
  const NameShort := "El nombre debe tener al menos 2 caracteres"
  const ConfirmRequired := "Confirma tu contraseña"
  const ConfirmMismatch := "Las contraseñas no coinciden"

  /** Required, then at least 2 code units once trimmed. */
  function NameError(name: string): (r: Option<string>)
    ensures r == None <==> JsLength(Trim(name)) >= 2
    ensures IsBlank(name) ==> r == Some(NameRequired)
    ensures !IsBlank(name) && JsLength(Trim(name)) < 2 ==> r == Some(NameShort)
  {
    if Trim(name) == "" then Some(NameRequired)
    else if JsLength(Trim(name)) < 2 then Some(NameShort)
    else None
  }

  /** Required, then equal to the password character for character. */
  function ConfirmError(password: string, confirm: string): (r: Option<string>)
    ensures r == None <==> !IsBlank(confirm) && confirm == password
    ensures IsBlank(confirm) ==> r == Some(ConfirmRequired)
    ensures !IsBlank(confirm) && confirm != password ==> r == Some(ConfirmMismatch)
  {
    if Trim(confirm) == "" then Some(ConfirmRequired)
    else if password != confirm then Some(ConfirmMismatch)
    else None
  }

  /** `validateForm`: at most one message per field, keyed by the field's name; the form
      is valid iff there is none. */
  function Validate(f: Form): (e: Errors)
    ensures e == Gathered(NameError(f.name), EmailError(f.email), PasswordError(f.password), ConfirmError(f.password, f.confirmPassword))
    ensures e == map[] <==> (NameError(f.name).None? && EmailError(f.email).None?
      && PasswordError(f.password).None? && ConfirmError(f.password, f.confirmPassword).None?)
  {
    var a, b, c, d := NameError(f.name), EmailError(f.email), PasswordError(f.password), ConfirmError(f.password, f.confirmPassword);
    Gathered(a, b, c, d)
  }

  /** The error object built from the four fields' outcomes: a key per message. */
  function Gathered(name: Option<string>, email: Option<string>, password: Option<string>, confirm: Option<string>): (e: Errors)
    ensures e.Keys <= {"name", "email", "password", "confirmPassword"}
    ensures e == map[] <==> name.None? && email.None? && password.None? && confirm.None?
    ensures ("name" in e <==> name.Some?) && ("name" in e ==> e["name"] == name.value)
    ensures ("email" in e <==> email.Some?) && ("email" in e ==> e["email"] == email.value)
    ensures ("password" in e <==> password.Some?) && ("password" in e ==> e["password"] == password.value)
    ensures ("confirmPassword" in e <==> confirm.Some?) && ("confirmPassword" in e ==> e["confirmPassword"] == confirm.value)
  {
    var e := Put(Put(Put(Put(map[], "name", name), "email", email), "password", password), "confirmPassword", confirm);
    assert name.Some? ==> "name" in e;
    assert email.Some? ==> "email" in e;
    assert password.Some? ==> "password" in e;
    assert confirm.Some? ==> "confirmPassword" in e;
    e
  }

  function With(f: Form, field: Field, value: string): Form
  {
    match field
    case Name => f.(name := value)
    case Email => f.(email := value)
    case Password => f.(password := value)
    case ConfirmPassword => f.(confirmPassword := value)
  }

  /** The value of one field. */
  function Get(f: Form, field: Field): string
  {
    match field
    case Name => f.name
    case Email => f.email
    case Password => f.password
    case ConfirmPassword => f.confirmPassword
  }

  /** `handleInputChange`: the field takes the value, its shown error is blanked, and
      every other field and error stays. */
  function EditField(f: Form, e: Errors, field: Field, value: string): (r: (Form, Errors))
    ensures Get(r.0, field) == value
    ensures forall other: Field :: other != field ==> Get(r.0, other) == Get(f, other)
    ensures !Shows(r.1, FieldName(field))
    ensures r.1.Keys == e.Keys && forall k :: k in e && k != FieldName(field) ==> r.1[k] == e[k]
  {
    (With(f, field, value), ClearError(e, FieldName(field)))
  }

  /** The body posted to /auth/register: trimmed name and e-mail, the password as typed,
      and no role. */
  function Payload(f: Form): (c: Auth.Credentials)
    ensures c.name == Some(Trim(f.name)) && c.email == Some(Trim(f.email))
    ensures c.password == Some(f.password) && c.role == None
  {
    Auth.Credentials(Some(Trim(f.name)), Some(Trim(f.email)), Some(f.password), None)
  }

  /** A form that passes validation posts a name of at least 2 code units without
      surrounding blanks, an e-mail that still matches the pattern after trimming, and a
      password of at least 6 code units. */
  lemma ValidFormPayload(f: Form)
    requires Validate(f) == map[]
    ensures var c := Payload(f);
      && JsLength(c.name.value) >= 2 && Trim(c.name.value) == c.name.value
      && EmailLike(c.email.value)
      && JsLength(c.password.value) >= 6
  {
    TrimIdempotent(f.name);
    EmailLikeTrimmed(f.email);
  }
}
