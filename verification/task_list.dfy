/** The task list page: the status filter and text search, the three orderings, the
    statistics, and the optimistic toggle and removal applied to the list before the
    server answers. "Today" is the day of local midnight, a parameter. */
module TaskList {
  import opened Wire
  import opened Text
  import opened Seqs
  import opened Sorting
  import opened ClientTask

  // ---------------------------------------------------------------------------
  // Filter and search
  // ---------------------------------------------------------------------------

  /** The filter buttons: 'all', 'completed', 'pending'. */
  datatype StatusFilter = All | CompletedOnly | PendingOnly

  predicate MatchesFilter(f: StatusFilter, t: Task)
  {
    match f
    case All => true
    case CompletedOnly => Done(t)
    case PendingOnly => !Done(t)
  }

  /** An empty term matches every task; otherwise the lower-cased term must occur in the
      lower-cased title or in a non-empty description. */
  predicate MatchesSearch(term: string, t: Task)
  {
    || term == ""
    || Includes(ToLower(t.title), ToLower(term))
    || (Present(t.description) && Includes(ToLower(t.description.value), ToLower(term)))
  }

  function Shown(f: StatusFilter, term: string): Task -> bool
  {
    (t: Task) => MatchesFilter(f, t) && MatchesSearch(term, t)
  }

  /** The tasks on screen: those passing both the filter and the search, in list order. */
  function FilteredTasks(tasks: seq<Task>, f: StatusFilter, term: string): (r: seq<Task>)
    ensures IsSubsequence(r, tasks)
    ensures forall i :: 0 <= i < |r| ==> MatchesFilter(f, r[i]) && MatchesSearch(term, r[i])
    ensures forall i :: 0 <= i < |tasks| ==> (tasks[i] in r <==> MatchesFilter(f, tasks[i]) && MatchesSearch(term, tasks[i]))
  {
    Filter(tasks, Shown(f, term))
  }

  /** With the 'all' filter and no search term the whole list is shown. */
  lemma ShowAllByDefault(tasks: seq<Task>)
    ensures FilteredTasks(tasks, All, "") == tasks
  {
    FilterAllOrNothing(tasks, Shown(All, ""));
  }

  /** Every task shown under 'all' is shown under exactly one of 'completed' and
      'pending'. */
  lemma {:induction false} FiltersPartition(tasks: seq<Task>, term: string)
    ensures |FilteredTasks(tasks, CompletedOnly, term)| + |FilteredTasks(tasks, PendingOnly, term)|
         == |FilteredTasks(tasks, All, term)|
  {
    if |tasks| > 0 {
      FiltersPartition(tasks[1..], term);
    }
  }

  /** The search ignores letter case: a term and its lower-case form match the same
      tasks. */
  lemma SearchIgnoresCase(term: string, t: Task)
    ensures MatchesSearch(term, t) <==> MatchesSearch(ToLower(term), t)
  {
    assert ToLower(ToLower(term)) == ToLower(term);
    assert ToLower(term) == "" <==> term == "";
  }

  /** A term occurring verbatim in the title always finds the task. */
  lemma TitleContainingTermMatches(term: string, t: Task)
    requires Includes(t.title, term)
    ensures MatchesSearch(term, t)
  {
    var i :| OccursAt(t.title, term, i);
    assert OccursAt(ToLower(t.title), ToLower(term), i) by {
      assert ToLower(t.title)[i..i + |term|] == ToLower(t.title[i..i + |term|]);
    }
  }

  // ---------------------------------------------------------------------------
  // Ordering
  // ---------------------------------------------------------------------------

  /** The sort selector: 'default', 'due_nearest', 'due_farthest'. */
  datatype SortMode = ByStatus | DueNearest | DueFarthest

  function Abs(x: int): int
  {
    if x < 0 then -x else x
  }

  /** Pending (0) before completed (1). */
  function StatusKey(): Task -> Rank
  {
    (t: Task) => Rank(if Done(t) then 1 else 0, 0)
  }

  /** Ascending distance from today; undated tasks count as infinitely far. */
  function NearestKey(today: int): Task -> Rank
  {
    (t: Task) => match Due(t) case Some(d) => Rank(0, Abs(d - today)) case None => Rank(1, 0)
  }

  /** Descending distance from today; undated tasks count as minus infinity, so last. */
  function FarthestKey(today: int): Task -> Rank
  {
    (t: Task) => match Due(t) case Some(d) => Rank(0, 0 - Abs(d - today)) case None => Rank(1, 0)
  }

  function KeyOf(mode: SortMode, today: int): Task -> Rank
  {
    match mode
    case ByStatus => StatusKey()
    case DueNearest => NearestKey(today)
    case DueFarthest => FarthestKey(today)
  }

  /** Every present due date reads as a real day. A date that reads as an Invalid Date
      makes the comparator answer NaN, which is inconsistent, and the order the engine
      then produces is not specified. */
  predicate DatesReadable(tasks: seq<Task>)
  {
    forall i :: 0 <= i < |tasks| && Present(tasks[i].dueDate) ==> Due(tasks[i]).Some?
  }

  /** The list as displayed: a stable sort of the shown tasks by the selected key. */
  function SortedTasks(tasks: seq<Task>, mode: SortMode, today: int): (r: seq<Task>)
    requires mode != ByStatus ==> DatesReadable(tasks)
    ensures multiset(r) == multiset(tasks)
    ensures SortedBy(r, KeyOf(mode, today))
  {
    SortByKey(tasks, KeyOf(mode, today))
  }

  /** The default order puts every pending task before every completed one. */
  lemma StatusOrder(tasks: seq<Task>, today: int)
    ensures var r := SortedTasks(tasks, ByStatus, today);
      forall i, j :: 0 <= i < j < |r| && Done(r[i]) ==> Done(r[j])
  {
    var r := SortedTasks(tasks, ByStatus, today);
    forall i, j | 0 <= i < j < |r| && Done(r[i]) ensures Done(r[j]) {
      assert Le(StatusKey()(r[i]), StatusKey()(r[j]));
    }
  }

  /** 'due_nearest' lists dated tasks by ascending distance from today, then the
      undated ones. */
  lemma NearestOrder(tasks: seq<Task>, today: int)
    requires DatesReadable(tasks)
    ensures var r := SortedTasks(tasks, DueNearest, today);
      forall i, j :: 0 <= i < j < |r| && Due(r[j]).Some? ==>
        Due(r[i]).Some? && Abs(Due(r[i]).value - today) <= Abs(Due(r[j]).value - today)
  {
    var r := SortedTasks(tasks, DueNearest, today);
    forall i, j | 0 <= i < j < |r| && Due(r[j]).Some?
      ensures Due(r[i]).Some? && Abs(Due(r[i]).value - today) <= Abs(Due(r[j]).value - today)
    {
      assert Le(NearestKey(today)(r[i]), NearestKey(today)(r[j]));
    }
  }

  /** 'due_farthest' lists dated tasks by descending distance from today, then the
      undated ones. */
  lemma FarthestOrder(tasks: seq<Task>, today: int)
    requires DatesReadable(tasks)
    ensures var r := SortedTasks(tasks, DueFarthest, today);
      forall i, j :: 0 <= i < j < |r| && Due(r[j]).Some? ==>
        Due(r[i]).Some? && Abs(Due(r[i]).value - today) >= Abs(Due(r[j]).value - today)
  {
    var r := SortedTasks(tasks, DueFarthest, today);
    forall i, j | 0 <= i < j < |r| && Due(r[j]).Some?
      ensures Due(r[i]).Some? && Abs(Due(r[i]).value - today) >= Abs(Due(r[j]).value - today)
    {
      assert Le(FarthestKey(today)(r[i]), FarthestKey(today)(r[j]));
    }
  }

  predicate IsPending(t: Task)
  {
    !Done(t)
  }

  /** The default order is stable: pending tasks keep their relative order, and so do
      completed ones. */
  lemma StatusSortStable(tasks: seq<Task>, today: int)
    ensures Filter(SortedTasks(tasks, ByStatus, today), (t: Task) => IsPending(t)) == Filter(tasks, (t: Task) => IsPending(t))
    ensures Filter(SortedTasks(tasks, ByStatus, today), (t: Task) => Done(t)) == Filter(tasks, (t: Task) => Done(t))
  {
    var r := SortedTasks(tasks, ByStatus, today);
    SortStable(tasks, StatusKey(), Rank(0, 0));
    SortStable(tasks, StatusKey(), Rank(1, 0));
    FilterSamePredicate(r, HasKey(StatusKey(), Rank(0, 0)), (t: Task) => IsPending(t));
    FilterSamePredicate(tasks, HasKey(StatusKey(), Rank(0, 0)), (t: Task) => IsPending(t));
    FilterSamePredicate(r, HasKey(StatusKey(), Rank(1, 0)), (t: Task) => Done(t));
    FilterSamePredicate(tasks, HasKey(StatusKey(), Rank(1, 0)), (t: Task) => Done(t));
  }

  /** A list already in the selected order is displayed unchanged. */
  lemma SortedListUnchanged(tasks: seq<Task>, mode: SortMode, today: int)
    requires mode != ByStatus ==> DatesReadable(tasks)
    requires SortedBy(tasks, KeyOf(mode, today))
    ensures SortedTasks(tasks, mode, today) == tasks
  {
    SortSorted(tasks, KeyOf(mode, today));
  }

  // ---------------------------------------------------------------------------
  // Statistics
  // ---------------------------------------------------------------------------

  datatype Stats = Stats(total: nat, completed: nat, pending: nat, completionRate: nat)

  /** `Math.round(c / t * 100)`, in exact arithmetic: the nearest whole percentage,
      halves rounded up. */
  function RoundPercent(c: nat, t: nat): (r: nat)
    requires 0 < t && c <= t
    ensures r <= 100
    ensures 2 * t * r <= 200 * c + t < 2 * t * (r + 1)
  {
    var n, d := 200 * c + t, 2 * t;
    var q := n / d;
    assert d * q <= n < d * q + d;
    assert q <= 100 by {
      if q > 100 {
        MulMonotone(d, 101, q);
      }
    }
    q
  }

  lemma MulMonotone(d: nat, a: int, b: int)
    requires a <= b
    ensures d * a <= d * b
  {
  }

  /** The counters shown above the list (and reported to the dashboard after a load). */
  function StatsOf(tasks: seq<Task>): (s: Stats)
    ensures s.total == |tasks| && s.completed + s.pending == s.total
    ensures s.total == 0 ==> s.completionRate == 0
    ensures s.total > 0 ==> 2 * s.total * s.completionRate <= 200 * s.completed + s.total < 2 * s.total * (s.completionRate + 1)
    ensures s.completionRate <= 100
  {
    var c := CountWhere(tasks, (t: Task) => Done(t));
    var p := CountWhere(tasks, (t: Task) => !Done(t));
    CountComplement(tasks, (t: Task) => Done(t), (t: Task) => !Done(t));
    Stats(|tasks|, c, p, if |tasks| > 0 then RoundPercent(c, |tasks|) else 0)
  }

  /** The counters agree with the filters: 'completed' shows as many tasks as the
      completed counter says, and 'pending' as many as the pending one. */
  lemma StatsMatchFilters(tasks: seq<Task>)
    ensures StatsOf(tasks).completed == |FilteredTasks(tasks, CompletedOnly, "")|
    ensures StatsOf(tasks).pending == |FilteredTasks(tasks, PendingOnly, "")|
  {
    FilterSamePredicate(tasks, Shown(CompletedOnly, ""), (t: Task) => Done(t));
    FilterSamePredicate(tasks, Shown(PendingOnly, ""), (t: Task) => !Done(t));
  }

  /** A list with every task completed, and one with none completed 0%. */
  lemma RateExtremes(tasks: seq<Task>)
    ensures StatsOf(tasks).completed == |tasks| ==> StatsOf(tasks).completionRate == (if |tasks| > 0 then 100 else 0)
    ensures StatsOf(tasks).completed == 0 ==> StatsOf(tasks).completionRate == 0
  {
    var s := StatsOf(tasks);
    var t, r := s.total, s.completionRate;
    if t > 0 && s.completed == t && r < 100 {
      MulMonotone(2 * t, r + 1, 100);
      assert false;
    }
    if t > 0 && s.completed == 0 && r > 0 {
      MulMonotone(2 * t, 1, r);
      assert false;
    }
  }

  // ---------------------------------------------------------------------------
  // Optimistic updates
  // ---------------------------------------------------------------------------

  /** The list after checking or unchecking task `id`: that task's flag becomes 0 when it
      was truthy and 1 otherwise; every other task is untouched. */
  function Toggled(tasks: seq<Task>, id: nat): (r: seq<Task>)
    ensures |r| == |tasks|
    ensures forall i :: 0 <= i < |tasks| && tasks[i].id != id ==> r[i] == tasks[i]
    ensures forall i :: 0 <= i < |tasks| && tasks[i].id == id ==>
      && (Done(r[i]) <==> !Done(tasks[i]))
      && (r[i].completed == 0 || r[i].completed == 1)
      && r[i] == tasks[i].(completed := r[i].completed)
  {
    seq(|tasks|, i requires 0 <= i < |tasks| =>
      if tasks[i].id == id then tasks[i].(completed := if Done(tasks[i]) then 0 else 1) else tasks[i])
  }

  /** Toggling twice restores a list whose flags are 0 or 1. */
  lemma ToggleTwice(tasks: seq<Task>, id: nat)
    requires forall i :: 0 <= i < |tasks| ==> tasks[i].completed == 0 || tasks[i].completed == 1
    ensures Toggled(Toggled(tasks, id), id) == tasks
  {
  }

  function Without(id: nat): Task -> bool
  {
    (t: Task) => t.id != id
  }

  /** The list after deleting task `id`: every task with that id is gone, every other
      task stays, in order. */
  function Removed(tasks: seq<Task>, id: nat): (r: seq<Task>)
    ensures IsSubsequence(r, tasks)
    ensures forall i :: 0 <= i < |r| ==> r[i].id != id
    ensures forall i :: 0 <= i < |tasks| && tasks[i].id != id ==> tasks[i] in r
  {
    Filter(tasks, Without(id))
  }

  /** Deleting the same id again changes nothing. */
  lemma RemoveTwice(tasks: seq<Task>, id: nat)
    ensures Removed(Removed(tasks, id), id) == Removed(tasks, id)
  {
    FilterTwice(tasks, Without(id));
  }

  /** Toggling a task leaves the totals alone and moves one task between the counters. */
  lemma ToggleMovesOneTask(tasks: seq<Task>, k: nat)
    requires k < |tasks|
    requires forall i :: 0 <= i < |tasks| && i != k ==> tasks[i].id != tasks[k].id
    ensures StatsOf(Toggled(tasks, tasks[k].id)).total == StatsOf(tasks).total
    ensures Done(tasks[k]) ==> StatsOf(Toggled(tasks, tasks[k].id)).completed + 1 == StatsOf(tasks).completed
    ensures !Done(tasks[k]) ==> StatsOf(Toggled(tasks, tasks[k].id)).completed == StatsOf(tasks).completed + 1
  {
    var r := Toggled(tasks, tasks[k].id);
    assert tasks == tasks[..k] + [tasks[k]] + tasks[k + 1..];
    assert r == r[..k] + [r[k]] + r[k + 1..];
    assert r[..k] == tasks[..k];
    assert r[k + 1..] == tasks[k + 1..];
    CountAppend(tasks[..k] + [tasks[k]], tasks[k + 1..], (t: Task) => Done(t));
    CountAppend(tasks[..k], [tasks[k]], (t: Task) => Done(t));
    CountAppend(r[..k] + [r[k]], r[k + 1..], (t: Task) => Done(t));
    CountAppend(r[..k], [r[k]], (t: Task) => Done(t));
  }
}
