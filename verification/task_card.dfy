/** One task as a card: the status badge, the checkbox, the date line and the overdue
    badge. "Today" is the day of local midnight, a parameter. */
module TaskCard {
  import opened Wire
  import opened Text
  import opened Calendar
  import opened ClientTask
  import TaskForm

  /** The date line: plain text, or a timestamp rendered by `toLocaleDateString` with
      the 'es-ES' locale, whose output is left to the browser. */
  datatype DateText = Plain(text: string) | LocaleDate(source: string)

  /** A due date that splits into three parts is shown as `dd/mm/yyyy`; any other due
      date goes to the locale rendering. Without a due date the card falls back to
      `createdAt`, then `updatedAt`, and shows nothing when neither is set. */
  function DateLabel(t: Task): (r: DateText)
    ensures Present(t.dueDate) && |Split(t.dueDate.value, '-')| == 3 ==> r.Plain? && r.text != ""
    ensures Present(t.dueDate) && |Split(t.dueDate.value, '-')| != 3 ==> r == LocaleDate(t.dueDate.value)
    ensures !Present(t.dueDate) && !Present(t.createdAt) && !Present(t.updatedAt) ==> r == Plain("")
    ensures !Present(t.dueDate) && Present(t.createdAt) ==> r == LocaleDate(t.createdAt.value)
    ensures !Present(t.dueDate) && !Present(t.createdAt) && Present(t.updatedAt) ==> r == LocaleDate(t.updatedAt.value)
  {
    if Present(t.dueDate) then
      match DisplayDate(t.dueDate.value)
      case Some(text) => Plain(text)
      case None => LocaleDate(t.dueDate.value)
    else if Present(t.createdAt) then LocaleDate(t.createdAt.value)
    else if Present(t.updatedAt) then LocaleDate(t.updatedAt.value)
    else Plain("")
  }

  /** The card shows a due date exactly as the edit form pre-fills it. */
  lemma CardDateIsFormDate(t: Task)
    requires Present(t.dueDate) && |Split(t.dueDate.value, '-')| == 3
    ensures DateLabel(t) == Plain(TaskForm.EditDisplay(t.dueDate))
  {
  }

  /** A stored `YYYY-MM-DD` date shows as `DD/MM/` and the year. */
  lemma CardShowsStoredDate(t: Task)
    requires Present(t.dueDate) && IsIsoShape(t.dueDate.value)
    ensures var s := t.dueDate.value;
      DateLabel(t) == Plain(s[8..] + "/" + s[5..7] + "/" + NatToString(DigitsValue(s[..4])))
  {
    DisplayOfIso(t.dueDate.value);
  }

  /** The "Vencida" badge: a due date whose day is before today, on a task not completed.
      A date that reads as an Invalid Date is never before anything. */
  predicate Overdue(t: Task, today: int)
  {
    Present(t.dueDate) && DueDay(t.dueDate.value).Some? && DueDay(t.dueDate.value).value < today && !Done(t)
  }

  /** On a stored date (year 100 or later) the badge shows iff the server's day is before
      today and the task is open. */
  lemma OverdueOfStoredDate(t: Task, today: int)
    requires Present(t.dueDate) && IsIsoDate(t.dueDate.value) && DigitsValue(t.dueDate.value[..4]) >= 100
    ensures Overdue(t, today) <==> IsoDateDay(t.dueDate.value) < today && !Done(t)
  {
    DueDayOfIsoDate(t.dueDate.value);
  }

  /** A task whose date the server accepted at creation ("not before today") is not
      overdue on that day, and a completed task never is. */
  lemma NotOverdueWhenAcceptedOrDone(t: Task, today: int)
    requires Present(t.dueDate) && IsIsoDate(t.dueDate.value) && DigitsValue(t.dueDate.value[..4]) >= 100
    requires IsoDateDay(t.dueDate.value) >= today || Done(t)
    ensures !Overdue(t, today)
  {
    OverdueOfStoredDate(t, today);
  }

  /** The status badge: "Completada" for a truthy flag, "Pendiente" otherwise. */
  function StatusLabel(t: Task): (r: string)
    ensures r == "Completada" || r == "Pendiente"
    ensures r == "Completada" <==> Checked(t)
  {
    if Done(t) then "Completada" else "Pendiente"
  }

  /** The checkbox: `!!task.completed`. */
  predicate Checked(t: Task)
  {
    Done(t)
  }
}
