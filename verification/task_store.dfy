/** The `tasks` table and the four statements the task model issues against it. Each
    statement is one atomic step on the table. Rows are kept in insertion order, and a
    scan without ORDER BY returns them in that order: the database leaves that order
    undefined, so this is one admissible choice, not a promise of the program. */
module TaskStore {
  import opened Wire
  import opened Seqs
  import opened Calendar

  /** One row of `tasks`. `completed` is the TINYINT column, 0 or 1. Timestamps are
      maintained by the database and are not modelled. */
  datatype TaskRow = TaskRow(
    id: nat,
    userId: nat,
    title: Option<string>,
    description: Option<string>,
    dueDate: Option<string>,
    completed: int)

  /** The table and its auto-increment counter. */
  datatype TaskTable = TaskTable(rows: seq<TaskRow>, nextId: nat)

  /** The values an UPDATE writes: every column of the SET list, not a patch. */
  datatype TaskChanges = TaskChanges(
    title: Option<string>,
    description: Option<string>,
    dueDate: Option<string>,
    completed: bool)

  function RowId(row: TaskRow): int { row.id }

  /** Ids are distinct and below the auto-increment counter, `completed` is 0 or 1 and
      every due date is a calendar date. */
  predicate Valid(t: TaskTable)
  {
    && Distinct(t.rows, RowId)
    && (forall i :: 0 <= i < |t.rows| ==> t.rows[i].id < t.nextId)
    && (forall i :: 0 <= i < |t.rows| ==> t.rows[i].completed in {0, 1})
    && (forall i :: 0 <= i < |t.rows| ==> DueDateStored(t.rows[i].dueDate))
  }

  predicate DueDateStored(d: Option<string>)
  {
    d.Some? ==> IsIsoDate(d.value)
  }

  /** The dates this model lets the DATE column store: NULL, a falsy value (stored as
      NULL) and a `YYYY-MM-DD` calendar date. Any other string makes the statement fail
      here, although the database also takes other date literals (such as `2030-1-5`
      or `20300105`), which are not modelled. */
  predicate Accepts(dueDate: Option<string>)
  {
    Present(dueDate) ==> IsIsoDate(dueDate.value)
  }

  /** `WHERE id = ? AND user_id = ?` */
  function Matching(id: nat, userId: nat): TaskRow -> bool
  {
    (row: TaskRow) => row.id == id && row.userId == userId
  }

  /** The complement of `Matching`: the rows a conditional DELETE keeps. */
  function NotMatching(id: nat, userId: nat): TaskRow -> bool
  {
    (row: TaskRow) => !(row.id == id && row.userId == userId)
  }

  /** `WHERE user_id = ?` */
  function OwnedBy(userId: nat): TaskRow -> bool
  {
    (row: TaskRow) => row.userId == userId
  }

  /** The empty table. */
  const Empty: TaskTable := TaskTable([], 1)

  lemma EmptyValid()
    ensures Valid(Empty)
  {
  }

  /** INSERT: one new row at the end with the next id; a falsy description or due date
      is stored as NULL and `completed` takes the column default 0. Returns the table
      and the new id. */
  function Insert(t: TaskTable, userId: nat, title: Option<string>, description: Option<string>,
                  dueDate: Option<string>): (r: (TaskTable, nat))
    ensures r.1 == t.nextId && r.0.nextId > r.1
    ensures |r.0.rows| == |t.rows| + 1 && r.0.rows[..|t.rows|] == t.rows
    ensures var row := r.0.rows[|t.rows|];
      && row.id == r.1 && row.userId == userId && row.title == title && row.completed == 0
      && (row.description.Some? <==> Present(description))
      && (row.dueDate.Some? <==> Present(dueDate))
      && (row.description.Some? ==> row.description == description)
      && (row.dueDate.Some? ==> row.dueDate == dueDate)
    ensures Valid(t) && Accepts(dueDate) ==> Valid(r.0)
  {
    var row := TaskRow(t.nextId, userId, title, OrNull(description), OrNull(dueDate), 0);
    (TaskTable(t.rows + [row], t.nextId + 1), t.nextId)
  }

  /** SELECT ... WHERE user_id = ?: exactly the rows of that user, here in table order. */
  function ByUser(t: TaskTable, userId: nat): (r: seq<TaskRow>)
    ensures forall i :: 0 <= i < |r| ==> r[i].userId == userId && r[i] in t.rows
    ensures forall i :: 0 <= i < |t.rows| && t.rows[i].userId == userId ==> t.rows[i] in r
    ensures IsSubsequence(r, t.rows)
  {
    Filter(t.rows, OwnedBy(userId))
  }

  /** The SET list applied to one row: id and user_id are not in it. */
  function Apply(row: TaskRow, ch: TaskChanges): (r: TaskRow)
    ensures r.id == row.id && r.userId == row.userId
    ensures r.title == ch.title && r.completed == (if ch.completed then 1 else 0)
    ensures r.description.Some? <==> Present(ch.description)
    ensures r.dueDate.Some? <==> Present(ch.dueDate)
    ensures r.description.Some? ==> r.description == ch.description
    ensures r.dueDate.Some? ==> r.dueDate == ch.dueDate
  {
    row.(title := ch.title, description := OrNull(ch.description), dueDate := OrNull(ch.dueDate),
         completed := if ch.completed then 1 else 0)
  }

  /** UPDATE ... WHERE id = ? AND user_id = ?, row by row. */
  function UpdateRows(rows: seq<TaskRow>, id: nat, userId: nat, ch: TaskChanges): (r: seq<TaskRow>)
    ensures |r| == |rows|
    ensures forall i :: 0 <= i < |rows| ==> r[i] == (if Matching(id, userId)(rows[i]) then Apply(rows[i], ch) else rows[i])
  {
    if |rows| == 0 then []
    else [if Matching(id, userId)(rows[0]) then Apply(rows[0], ch) else rows[0]] + UpdateRows(rows[1..], id, userId, ch)
  }

  /** UPDATE tasks SET title, description, due_date, completed WHERE id = ? AND
      user_id = ?. Returns the table and the number of affected rows. */
  function Update(t: TaskTable, id: nat, userId: nat, ch: TaskChanges): (r: (TaskTable, nat))
    ensures |r.0.rows| == |t.rows| && r.0.nextId == t.nextId
    ensures forall i :: 0 <= i < |t.rows| && !Matching(id, userId)(t.rows[i]) ==> r.0.rows[i] == t.rows[i]
    ensures forall i :: 0 <= i < |t.rows| && Matching(id, userId)(t.rows[i]) ==> r.0.rows[i] == Apply(t.rows[i], ch)
    ensures r.1 == CountWhere(t.rows, Matching(id, userId))
  {
    (TaskTable(UpdateRows(t.rows, id, userId, ch), t.nextId), CountWhere(t.rows, Matching(id, userId)))
  }

  /** DELETE FROM tasks WHERE id = ? AND user_id = ?. Returns the table and the number
      of affected rows. */
  function Delete(t: TaskTable, id: nat, userId: nat): (r: (TaskTable, nat))
    ensures r.0.nextId == t.nextId
    ensures forall i :: 0 <= i < |r.0.rows| ==> !Matching(id, userId)(r.0.rows[i]) && r.0.rows[i] in t.rows
    ensures forall i :: 0 <= i < |t.rows| && !Matching(id, userId)(t.rows[i]) ==> t.rows[i] in r.0.rows
    ensures IsSubsequence(r.0.rows, t.rows)
    ensures r.1 + |r.0.rows| == |t.rows|
  {
    CountComplement(t.rows, Matching(id, userId), NotMatching(id, userId));
    (TaskTable(Filter(t.rows, NotMatching(id, userId)), t.nextId), CountWhere(t.rows, Matching(id, userId)))
  }

  // ---------------------------------------------------------------------------
  // Ownership and integrity
  // ---------------------------------------------------------------------------

  /** With distinct ids, a conditional statement on (id, user_id) touches at most one row. */
  lemma AtMostOneMatch(t: TaskTable, id: nat, userId: nat)
    requires Valid(t)
    ensures CountWhere(t.rows, Matching(id, userId)) <= 1
  {
    AtMostOneWithKey(t.rows, Matching(id, userId), RowId, id);
  }

  /** No row matches (id, user_id) exactly when the count is zero: "absent" and
      "owned by someone else" are the same outcome. */
  lemma NoMatchIffZero(rows: seq<TaskRow>, id: nat, userId: nat)
    ensures CountWhere(rows, Matching(id, userId)) == 0
        <==> forall i :: 0 <= i < |rows| ==> !(rows[i].id == id && rows[i].userId == userId)
  {
    CountZeroIff(rows, Matching(id, userId));
  }

  /** An UPDATE that matches nothing leaves the table as it was. */
  lemma UpdateWithoutMatch(t: TaskTable, id: nat, userId: nat, ch: TaskChanges)
    requires forall i :: 0 <= i < |t.rows| ==> !(t.rows[i].id == id && t.rows[i].userId == userId)
    ensures Update(t, id, userId, ch) == (t, 0)
  {
    NoMatchIffZero(t.rows, id, userId);
    assert Update(t, id, userId, ch).0.rows == t.rows;
  }

  /** A DELETE that matches nothing leaves the table as it was. */
  lemma DeleteWithoutMatch(t: TaskTable, id: nat, userId: nat)
    requires forall i :: 0 <= i < |t.rows| ==> !(t.rows[i].id == id && t.rows[i].userId == userId)
    ensures Delete(t, id, userId) == (t, 0)
  {
    NoMatchIffZero(t.rows, id, userId);
    FilterAllOrNothing(t.rows, NotMatching(id, userId));
  }

  /** A caller that does not own task `id` changes nothing through UPDATE or DELETE and
      is told zero rows were affected, whether or not the task exists. */
  lemma NonOwnerChangesNothing(t: TaskTable, id: nat, userId: nat, ch: TaskChanges)
    requires forall i :: 0 <= i < |t.rows| && t.rows[i].id == id ==> t.rows[i].userId != userId
    ensures Update(t, id, userId, ch) == (t, 0)
    ensures Delete(t, id, userId) == (t, 0)
  {
    UpdateWithoutMatch(t, id, userId, ch);
    DeleteWithoutMatch(t, id, userId);
  }

  /** The owner of every row is fixed for ever: UPDATE keeps each row's id and user_id,
      so the rows a user sees are the same rows, position for position. */
  lemma UpdateKeepsOwners(t: TaskTable, id: nat, userId: nat, ch: TaskChanges)
    ensures var t' := Update(t, id, userId, ch).0;
      forall i :: 0 <= i < |t.rows| ==> t'.rows[i].id == t.rows[i].id && t'.rows[i].userId == t.rows[i].userId
  {
  }

  /** UPDATE with an accepted due date preserves table validity and affects at most
      one row. */
  lemma UpdateValid(t: TaskTable, id: nat, userId: nat, ch: TaskChanges)
    requires Valid(t) && Accepts(ch.dueDate)
    ensures Valid(Update(t, id, userId, ch).0)
    ensures Update(t, id, userId, ch).1 <= 1
  {
    var t' := Update(t, id, userId, ch).0;
    assert forall i :: 0 <= i < |t.rows| ==> RowId(t'.rows[i]) == RowId(t.rows[i]);
    AtMostOneMatch(t, id, userId);
  }

  /** DELETE preserves table validity and removes at most one row. */
  lemma DeleteValid(t: TaskTable, id: nat, userId: nat)
    requires Valid(t)
    ensures Valid(Delete(t, id, userId).0)
    ensures Delete(t, id, userId).1 <= 1
  {
    FilterKeepsDistinct(t.rows, NotMatching(id, userId), RowId);
    AtMostOneMatch(t, id, userId);
  }

  /** A user's listing after an insert is the previous listing plus the new row when
      the insert is theirs, and unchanged when it is someone else's. */
  lemma ByUserAfterInsert(t: TaskTable, owner: nat, title: Option<string>, description: Option<string>,
                          dueDate: Option<string>, userId: nat)
    ensures var (t', id) := Insert(t, owner, title, description, dueDate);
      ByUser(t', userId) == ByUser(t, userId) + (if owner == userId then [t'.rows[|t.rows|]] else [])
  {
    var (t', id) := Insert(t, owner, title, description, dueDate);
    FilterAppend(t.rows, [t'.rows[|t.rows|]], OwnedBy(userId));
    assert t'.rows == t.rows + [t'.rows[|t.rows|]];
  }

  /** Another user's UPDATE or DELETE leaves a user's listing exactly as it was. */
  lemma OthersCannotTouchListing(t: TaskTable, id: nat, other: nat, userId: nat, ch: TaskChanges)
    requires other != userId
    ensures ByUser(Update(t, id, other, ch).0, userId) == ByUser(t, userId)
    ensures ByUser(Delete(t, id, other).0, userId) == ByUser(t, userId)
  {
    UpdateListing(t.rows, id, other, ch, userId);
    DeleteListing(t.rows, id, other, userId);
  }

  lemma {:induction false} UpdateListing(rows: seq<TaskRow>, id: nat, other: nat, ch: TaskChanges, userId: nat)
    requires other != userId
    ensures Filter(UpdateRows(rows, id, other, ch), OwnedBy(userId)) == Filter(rows, OwnedBy(userId))
  {
    if |rows| > 0 {
      var r := UpdateRows(rows, id, other, ch);
      assert r[1..] == UpdateRows(rows[1..], id, other, ch);
      UpdateListing(rows[1..], id, other, ch, userId);
    }
  }

  lemma {:induction false} DeleteListing(rows: seq<TaskRow>, id: nat, other: nat, userId: nat)
    requires other != userId
    ensures Filter(Filter(rows, NotMatching(id, other)), OwnedBy(userId)) == Filter(rows, OwnedBy(userId))
  {
    if |rows| > 0 {
      DeleteListing(rows[1..], id, other, userId);
    }
  }
}
