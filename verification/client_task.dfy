/** Tasks as the browser holds them. GET /tasks returns the owner's rows with
    `due_date` already rendered as `YYYY-MM-DD` by the query, and the pages read such a
    date back into a day with `new Date(y, m - 1, d)` after splitting it on `-`. */
module ClientTask {
  import opened Wire
  import opened Text
  import opened Calendar

  /** One task object of the list; `completed` is the stored 0/1 flag or whatever a
      page put there, and `createdAt`/`updatedAt` are the fields the card reads. */
  datatype Task = Task(
    id: nat,
    title: string,
    description: Option<string>,
    dueDate: Option<string>,
    completed: int,
    createdAt: Option<string>,
    updatedAt: Option<string>)

  /** `task.completed` is truthy. */
  predicate Done(t: Task)
  {
    t.completed != 0
  }

  /** `s.split(sep).map(Number)` */
  function Numbers(s: string, sep: char): (ns: seq<Num>)
    ensures |ns| == |Split(s, sep)| && |ns| > 0
    ensures forall i :: 0 <= i < |ns| ==> ns[i] == ToNumber(Split(s, sep)[i])
  {
    var parts := Split(s, sep);
    seq(|parts|, i requires 0 <= i < |parts| => ToNumber(parts[i]))
  }

  /** The day of `new Date(y, m - 1, d)` for `[y, m, d] = s.split('-').map(Number)`;
      a missing part is `undefined`, which makes the date invalid (None). */
  function DueDay(s: string): (r: Option<int>)
    ensures |Split(s, '-')| < 3 ==> r.None?
  {
    var ns := Numbers(s, '-');
    LocalDay(ns[0], if |ns| > 1 then ns[1].Minus(1) else NaN, if |ns| > 2 then ns[2] else NaN)
  }

  /** `${dd}/${mm}/${y}` for `[y, m, d] = s.split('-').map(Number)`, day and month padded
      to two characters; None when the split does not give exactly three parts. The
      card and the edit form both render a stored date this way. */
  function DisplayDate(s: string): (r: Option<string>)
    ensures r.Some? <==> |Split(s, '-')| == 3
  {
    var ns := Numbers(s, '-');
    if |ns| == 3 then Some(PadStart2(NumToString(ns[2])) + "/" + PadStart2(NumToString(ns[1])) + "/" + NumToString(ns[0]))
    else None
  }

  /** A `YYYY-MM-DD` string renders as `DD/MM/` followed by the year without leading
      zeros. */
  lemma DisplayOfIso(s: string)
    requires IsIsoShape(s)
    ensures DisplayDate(s) == Some(s[8..] + "/" + s[5..7] + "/" + NatToString(DigitsValue(s[..4])))
  {
    IsoNumbers(s);
    TwoDigitsRoundTrip(s[8..]);
    TwoDigitsRoundTrip(s[5..7]);
    DigitsToNumber(s[8..]);
    DigitsToNumber(s[5..7]);
  }

  /** The day a task is due, None when it has no due date (an empty one included) or
      the date does not parse. */
  function Due(t: Task): (r: Option<int>)
    ensures !Present(t.dueDate) ==> r.None?
    ensures Present(t.dueDate) ==> r == DueDay(t.dueDate.value)
  {
    if Present(t.dueDate) then DueDay(t.dueDate.value) else None
  }

  /** A stored date read in the browser names the day the server stored, for every year
      from 100 on (the constructor maps years 0..99 into the 1900s). */
  lemma DueDayOfIsoDate(s: string)
    requires IsIsoDate(s) && DigitsValue(s[..4]) >= 100
    ensures DueDay(s) == Some(IsoDateDay(s))
  {
    var y, m, d := DigitsValue(s[..4]), DigitsValue(s[5..7]), DigitsValue(s[8..]);
    IsoNumbers(s);
    DueDayOfThreeNumbers(s, y, m, d);
    DigitsBound(s[..4]);
    FourDigitYearsInRange(y, m, d);
    LocalDayOfCalendarDate(y, m, d);
  }

  /** Reading `[y, m, d]` gives `new Date(y, m - 1, d)`. */
  lemma DueDayOfThreeNumbers(s: string, y: int, m: int, d: int)
    requires Numbers(s, '-') == [Int(y), Int(m), Int(d)]
    ensures DueDay(s) == LocalDay(Int(y), Int(m - 1), Int(d))
  {
    assert Int(m).Minus(1) == Int(m - 1);
  }

  /** The three digit groups of a `YYYY-MM-DD` string read as their values. */
  lemma IsoNumbers(s: string)
    requires IsIsoShape(s)
    ensures Numbers(s, '-') == [Int(DigitsValue(s[..4])), Int(DigitsValue(s[5..7])), Int(DigitsValue(s[8..]))]
  {
    IsoShapeSplit(s);
    NumbersOfSplit(s, '-', s[..4], s[5..7], s[8..]);
    DigitsToNumber(s[..4]);
    DigitsToNumber(s[5..7]);
    DigitsToNumber(s[8..]);
  }

  /** Three parts read as three numbers. */
  lemma NumbersOfSplit(s: string, sep: char, a: string, b: string, c: string)
    requires Split(s, sep) == [a, b, c]
    ensures Numbers(s, sep) == [ToNumber(a), ToNumber(b), ToNumber(c)]
  {
    var ns := Numbers(s, sep);
    assert |ns| == 3 && ns[0] == ToNumber(a) && ns[1] == ToNumber(b) && ns[2] == ToNumber(c);
  }

  /** Four digits are worth at most 9999. */
  lemma DigitsBound(s: string)
    requires |s| == 4 && AllDigits(s)
    ensures DigitsValue(s) <= 9999
  {
    assert s[..1][..0] == [];
    assert DigitsValue(s[..1]) <= 9;
    assert s[..2][..1] == s[..1];
    assert DigitsValue(s[..2]) <= 99;
    assert s[..3][..2] == s[..2];
    assert DigitsValue(s[..3]) <= 999;
    assert s[..3] == s[..|s| - 1];
  }
}
