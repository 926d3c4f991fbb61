/** The task form: opening it on a task, validating the fields, converting the
    `dd/mm/yyyy` date the user types to the `YYYY-MM-DD` the server expects, building the
    request payload, and clearing a field's error as the user types. "Today" is the day
    of local midnight, a parameter. */
module TaskForm {
  import opened Wire
  import opened Text
  import opened Calendar
  import opened ClientTask
  import opened Forms

  datatype Form = Form(title: string, description: string, dueDateDisplay: string)

  datatype Field = Title | Description | DueDateDisplay

  /** The state key each input writes to. */
  function FieldName(f: Field): string
  {
    match f
    case Title => "title"
    case Description => "description"
    case DueDateDisplay => "due_date_display"
  }

  const TitleRequired := "El título es obligatorio"
  const TitleShort := "El título debe tener al menos 3 caracteres"
  const DescriptionLong := "La descripción no puede exceder 500 caracteres"
  const DateFormat := "La fecha debe tener formato dd/mm/aaaa"
  const DateInvalid := "Fecha inválida"
  const DatePast := "La fecha límite no puede ser anterior a hoy"

  // ---------------------------------------------------------------------------
  // Opening the form
  // ---------------------------------------------------------------------------

  /** The date field shown when editing: the stored date as `dd/mm/yyyy`, or empty when
      there is none or it does not split into three parts. */
  function EditDisplay(due: Option<string>): (r: string)
    ensures !Present(due) ==> r == ""
    ensures Present(due) && DisplayDate(due.value).Some? ==> r == DisplayDate(due.value).value
    ensures Present(due) && DisplayDate(due.value).None? ==> r == ""
  {
    if Present(due) then
      match DisplayDate(due.value)
      case Some(d) => d
      case None => ""
    else ""
  }

  /** The fields when the form opens on a task being edited, or on nothing. */
  function Opened(editing: Option<Task>): (f: Form)
    ensures editing.None? ==> f == Form("", "", "")
    ensures editing.Some? ==> f.title == editing.value.title
    ensures editing.Some? ==> f.description == OrElse(editing.value.description, "")
    ensures editing.Some? ==> f.dueDateDisplay == EditDisplay(editing.value.dueDate)
  {
    match editing
    case None => Form("", "", "")
    case Some(t) => Form(t.title, OrElse(t.description, ""), EditDisplay(t.dueDate))
  }

  // ---------------------------------------------------------------------------
  // Validation
  // ---------------------------------------------------------------------------

  /** Required, then at least 3 code units once trimmed. */
  function TitleError(title: string): (r: Option<string>)
    ensures r == None <==> JsLength(Trim(title)) >= 3
    ensures IsBlank(title) ==> r == Some(TitleRequired)
    ensures !IsBlank(title) && JsLength(Trim(title)) < 3 ==> r == Some(TitleShort)
  {
    if Trim(title) == "" then Some(TitleRequired)
    else if JsLength(Trim(title)) < 3 then Some(TitleShort)
    else None
  }

  /** At most 500 code units. */
  function DescriptionError(description: string): (r: Option<string>)
    ensures r == None <==> JsLength(description) <= 500
    ensures r != None ==> r == Some(DescriptionLong)
  {
    if description != "" && JsLength(description) > 500 then Some(DescriptionLong) else None
  }

  /** An empty date is fine. Otherwise it must split on `/` into three parts
      `[d, m, y]`, `new Date(y, m - 1, d)` must be a valid date, and that day must not be
      before today. */
  function DueDateError(display: string, today: int): (r: Option<string>)
    ensures display == "" ==> r.None?
    ensures display != "" && |Split(display, '/')| != 3 ==> r == Some(DateFormat)
    ensures display != "" && |Split(display, '/')| == 3 ==>
      && (r.None? <==> DisplayedDay(display).Some? && DisplayedDay(display).value >= today)
      && (DisplayedDay(display).None? ==> r == Some(DateInvalid))
      && (DisplayedDay(display).Some? && DisplayedDay(display).value < today ==> r == Some(DatePast))
  {
    if display == "" then None
    else if |Split(display, '/')| != 3 then Some(DateFormat)
    else match DisplayedDay(display)
      case None => Some(DateInvalid)
      case Some(day) => if day < today then Some(DatePast) else None
  }

  /** The day of `new Date(y, m - 1, d)` for `[d, m, y] = display.split('/').map(Number)`. */
  function DisplayedDay(display: string): (r: Option<int>)
    requires |Split(display, '/')| == 3
  {
    var ns := Numbers(display, '/');
    LocalDay(ns[2], ns[1].Minus(1), ns[0])
  }

  /** `validateForm`: one message per failing field, under "title", "description" and
      "due_date"; the form is valid iff the object is empty. */
  function Validate(f: Form, today: int): (e: Errors)
    ensures e == Gathered(TitleError(f.title), DescriptionError(f.description), DueDateError(f.dueDateDisplay, today))
    ensures e == map[] <==> TitleError(f.title).None? && DescriptionError(f.description).None? && DueDateError(f.dueDateDisplay, today).None?
  {
    var t, d, dd := TitleError(f.title), DescriptionError(f.description), DueDateError(f.dueDateDisplay, today);
    Gathered(t, d, dd)
  }

  /** The error object built from the three fields' outcomes: a key per message. */
  function Gathered(title: Option<string>, description: Option<string>, dueDate: Option<string>): (e: Errors)
    ensures e.Keys <= {"title", "description", "due_date"}
    ensures e == map[] <==> title.None? && description.None? && dueDate.None?
    ensures ("title" in e <==> title.Some?) && ("title" in e ==> e["title"] == title.value)
    ensures ("description" in e <==> description.Some?) && ("description" in e ==> e["description"] == description.value)
    ensures ("due_date" in e <==> dueDate.Some?) && ("due_date" in e ==> e["due_date"] == dueDate.value)
  {
    var e := Put(Put(Put(map[], "title", title), "description", description), "due_date", dueDate);
    assert title.Some? ==> "title" in e;
    assert description.Some? ==> "description" in e;
    assert dueDate.Some? ==> "due_date" in e;
    e
  }

  // ---------------------------------------------------------------------------
  // Conversion and payload
  // ---------------------------------------------------------------------------

  /** `${y}-${mm}-${dd}` for `[d, m, y] = display.split('/').map(Number)`, month and day
      padded to two characters and the year as `String(y)`; null when the field is
      empty or does not split into three parts. */
  function Normalised(display: string): (r: Option<string>)
    ensures r.Some? <==> display != "" && |Split(display, '/')| == 3
  {
    if display == "" then None
    else
      var ns := Numbers(display, '/');
      if |ns| == 3 then Some(NumToString(ns[2]) + "-" + PadStart2(NumToString(ns[1])) + "-" + PadStart2(NumToString(ns[0])))
      else None
  }

  /** The body of POST /tasks and PUT /tasks/:id: title and description as typed, and the
      converted date. There is no `completed` field. */
  datatype Payload = Payload(title: string, description: string, dueDate: Option<string>)

  function PayloadOf(f: Form): (p: Payload)
    ensures p.title == f.title && p.description == f.description
    ensures p.dueDate == Normalised(f.dueDateDisplay)
  {
    Payload(f.title, f.description, Normalised(f.dueDateDisplay))
  }

  /** Editing a stored date and saving it unchanged sends the same date back, for any
      `YYYY-MM-DD` whose year does not start with 0. */
  lemma DateRoundTrip(s: string)
    requires IsIsoShape(s) && s[0] != '0'
    ensures Normalised(EditDisplay(Some(s))) == Some(s)
  {
    var display := EditDisplay(Some(s));
    DisplayNumbers(s);
    NormalisedOfNumbers(display, DigitsValue(s[8..]), DigitsValue(s[5..7]), DigitsValue(s[..4]));
    IsoPieces(s);
    IsoRejoin(s);
  }

  lemma IsoRejoin(s: string)
    requires IsIsoShape(s)
    ensures s == s[..4] + "-" + s[5..7] + "-" + s[8..]
  {
  }

  /** Each digit group of a canonical `YYYY-MM-DD` is what `String` and `padStart`
      rebuild from its value. */
  lemma IsoPieces(s: string)
    requires IsIsoShape(s) && s[0] != '0'
    ensures NatToString(DigitsValue(s[..4])) == s[..4]
    ensures PadStart2(NumToString(Int(DigitsValue(s[5..7])))) == s[5..7]
    ensures PadStart2(NumToString(Int(DigitsValue(s[8..])))) == s[8..]
  {
    ValueNatToString(s[..4]);
    TwoDigitsRoundTrip(s[5..7]);
    TwoDigitsRoundTrip(s[8..]);
    DigitsToNumber(s[5..7]);
    DigitsToNumber(s[8..]);
  }

  lemma NormalisedOfNumbers(display: string, d: nat, m: nat, y: nat)
    requires display != ""
    requires |Split(display, '/')| == 3 && Numbers(display, '/') == [Int(d), Int(m), Int(y)]
    ensures Normalised(display) == Some(NatToString(y) + "-" + PadStart2(NumToString(Int(m))) + "-" + PadStart2(NumToString(Int(d))))
  {
  }

  /** The edit form reads its own rendering of a stored date as `[DD, MM, YYYY]`. */
  lemma DisplayNumbers(s: string)
    requires IsIsoShape(s)
    ensures var display := EditDisplay(Some(s));
      && display != "" && |Split(display, '/')| == 3
      && Numbers(display, '/') == [Int(DigitsValue(s[8..])), Int(DigitsValue(s[5..7])), Int(DigitsValue(s[..4]))]
  {
    var ys := NatToString(DigitsValue(s[..4]));
    DisplayOfIso(s);
    assert EditDisplay(Some(s)) == s[8..] + ['/'] + s[5..7] + ['/'] + ys;
    NumbersOfThree(s[8..], s[5..7], ys);
    NatToStringValue(DigitsValue(s[..4]));
  }

  /** Three digit runs joined by `/` read as their three values. */
  lemma NumbersOfThree(a: string, b: string, c: string)
    requires |a| > 0 && AllDigits(a) && |b| > 0 && AllDigits(b) && |c| > 0 && AllDigits(c)
    ensures Numbers(a + ['/'] + b + ['/'] + c, '/') == [Int(DigitsValue(a)), Int(DigitsValue(b)), Int(DigitsValue(c))]
  {
    DigitsHaveNo(a, '/');
    DigitsHaveNo(b, '/');
    DigitsHaveNo(c, '/');
    SplitThree(a, b, c, '/');
    NumbersOfSplit(a + ['/'] + b + ['/'] + c, '/', a, b, c);
    DigitsToNumber(a);
    DigitsToNumber(b);
    DigitsToNumber(c);
  }

  /** On a stored date (year 100 or later) the form's date rule is the server's create
      rule: the date passes iff it is today or later. */
  lemma EditedDateRule(s: string, today: int)
    requires IsIsoDate(s) && DigitsValue(s[..4]) >= 100
    ensures DueDateError(EditDisplay(Some(s)), today).None? <==> IsoDateDay(s) >= today
  {
    var y, m, d := DigitsValue(s[..4]), DigitsValue(s[5..7]), DigitsValue(s[8..]);
    var display := EditDisplay(Some(s));
    DisplayNumbers(s);
    DigitsBound(s[..4]);
    FourDigitYearsInRange(y, m, d);
    LocalDayOfCalendarDate(y, m, d);
    DisplayedDayOfNumbers(display, d, m, y);
  }

  lemma DisplayedDayOfNumbers(display: string, d: int, m: int, y: int)
    requires |Split(display, '/')| == 3
    requires Numbers(display, '/') == [Int(d), Int(m), Int(y)]
    ensures DisplayedDay(display) == LocalDay(Int(y), Int(m - 1), Int(d))
  {
    assert Int(m).Minus(1) == Int(m - 1);
  }

  // ---------------------------------------------------------------------------
  // Typing into a field
  // ---------------------------------------------------------------------------

  function With(f: Form, field: Field, value: string): (r: Form)
  {
    match field
    case Title => f.(title := value)
    case Description => f.(description := value)
    case DueDateDisplay => f.(dueDateDisplay := value)
  }

  /** The value of one field. */
  function Get(f: Form, field: Field): string
  {
    match field
    case Title => f.title
    case Description => f.description
    case DueDateDisplay => f.dueDateDisplay
  }

  /** `handleInputChange(field, value)` as written: it stores the value and clears the
      error under the field's own state key, the shape every page's `EditField` shares
      (see `Forms.ClearError`). */
  function EditField(f: Form, e: Errors, field: Field, value: string): (r: (Form, Errors))
    ensures Get(r.0, field) == value
    ensures forall other: Field :: other != field ==> Get(r.0, other) == Get(f, other)
    ensures !Shows(r.1, FieldName(field))
    ensures r.1.Keys == e.Keys && forall k :: k in e && k != FieldName(field) ==> r.1[k] == e[k]
  {
    (With(f, field, value), ClearError(e, FieldName(field)))
  }

  /** The date input's key is "due_date_display" but validation files its message under
      "due_date", so typing a new date leaves the old date message on screen. */
  lemma DateErrorSurvivesTyping(f: Form, value: string)
    ensures var e := map["due_date" := DatePast];
      EditField(f, e, DueDateDisplay, value).1 == e && Shows(e, "due_date")
  {
  }

  /** The key under which validation files each field's message. */
  function ErrorKey(field: Field): string
  {
    match field
    case Title => "title"
    case Description => "description"
    case DueDateDisplay => "due_date"
  }

  /** `handleInputChange` as evidently intended: the error cleared is the one validation
      filed for this field. */
  function EditFieldClearingOwnError(f: Form, e: Errors, field: Field, value: string): (r: (Form, Errors))
    ensures Get(r.0, field) == value
    ensures forall other: Field :: other != field ==> Get(r.0, other) == Get(f, other)
    ensures !Shows(r.1, ErrorKey(field))
    ensures r.1.Keys == e.Keys && forall k :: k in e && k != ErrorKey(field) ==> r.1[k] == e[k]
  {
    (With(f, field, value), ClearError(e, ErrorKey(field)))
  }

  /** With the correction, typing into any field removes every message validation showed
      for that field and no other. */
  lemma TypingClearsValidationMessage(f: Form, today: int, field: Field, value: string)
    ensures var e := Validate(f, today);
      var r := EditFieldClearingOwnError(f, e, field, value).1;
      && !Shows(r, ErrorKey(field))
      && forall k :: k in e && k != ErrorKey(field) ==> Shows(r, k) == Shows(e, k)
  {
  }
}
