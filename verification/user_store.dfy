/** The `users` table and the statements issued against it: the user model's insert
    and lookup by email, and the lookups, updates and deletes by id that the
    authentication and administration handlers run directly. The only constraint
    modelled is the UNIQUE index on `email`, under which NULLs never collide. */
module UserStore {
  import opened Wire
  import opened Seqs

  /** One row of `users`. `password` holds the hash, never the plaintext. */
  datatype UserRow = UserRow(id: nat, name: Option<string>, email: Option<string>, password: string, role: string)

  datatype UserTable = UserTable(rows: seq<UserRow>, nextId: nat)

  function UserId(u: UserRow): int { u.id }

  /** No two rows share a non-NULL email. */
  predicate EmailsUnique(rows: seq<UserRow>)
  {
    forall i, j :: 0 <= i < j < |rows| && rows[i].email.Some? ==> rows[i].email != rows[j].email
  }

  predicate Valid(t: UserTable)
  {
    && Distinct(t.rows, UserId)
    && (forall i :: 0 <= i < |t.rows| ==> t.rows[i].id < t.nextId)
    && EmailsUnique(t.rows)
  }

  const Empty: UserTable := UserTable([], 1)

  lemma EmptyValid()
    ensures Valid(Empty)
  {
  }

  /** Some row already holds this (non-NULL) email. */
  predicate EmailTaken(rows: seq<UserRow>, email: Option<string>)
  {
    email.Some? && exists i :: 0 <= i < |rows| && rows[i].email == email
  }

  /** INSERT INTO users (name, email, password, role). InnoDB takes the next
      auto-increment value before the UNIQUE index on `email` is checked and does not
      give it back, so a duplicate-key failure (no id) leaves the rows as they were but
      still advances the counter. Returns the table and the new id. */
  function Insert(t: UserTable, name: Option<string>, email: Option<string>, password: string, role: string)
    : (r: (UserTable, Option<nat>))
    ensures r.1.None? <==> EmailTaken(t.rows, email)
    ensures r.0.nextId > t.nextId
    ensures r.1.None? ==> r.0.rows == t.rows
    ensures r.1.Some? ==>
      && r.1.value == t.nextId
      && |r.0.rows| == |t.rows| + 1 && r.0.rows[..|t.rows|] == t.rows
      && r.0.rows[|t.rows|] == UserRow(t.nextId, name, email, password, role)
    ensures Valid(t) ==> Valid(r.0)
  {
    if EmailTaken(t.rows, email) then (UserTable(t.rows, t.nextId + 1), None)
    else (UserTable(t.rows + [UserRow(t.nextId, name, email, password, role)], t.nextId + 1), Some(t.nextId))
  }

  function WithEmail(email: Option<string>): UserRow -> bool
  {
    (u: UserRow) => email.Some? && u.email == email
  }

  /** SELECT * FROM users WHERE email = ?: whole rows, hash included; a NULL email
      matches nothing. */
  function FindByEmail(t: UserTable, email: Option<string>): (r: seq<UserRow>)
    ensures email.None? ==> r == []
    ensures forall i :: 0 <= i < |r| ==> r[i] in t.rows && r[i].email == email
    ensures forall i :: 0 <= i < |t.rows| && email.Some? && t.rows[i].email == email ==> t.rows[i] in r
    ensures IsSubsequence(r, t.rows)
  {
    Filter(t.rows, WithEmail(email))
  }

  /** Under the UNIQUE index a lookup by email finds at most one row. */
  lemma {:induction false} FindByEmailUnique(rows: seq<UserRow>, email: Option<string>)
    requires EmailsUnique(rows)
    ensures |Filter(rows, WithEmail(email))| <= 1
  {
    if |rows| > 0 {
      assert EmailsUnique(rows[1..]) by {
        forall i, j | 0 <= i < j < |rows[1..]| && rows[1..][i].email.Some?
          ensures rows[1..][i].email != rows[1..][j].email
        {
          assert rows[1..][i] == rows[i + 1] && rows[1..][j] == rows[j + 1];
        }
      }
      FindByEmailUnique(rows[1..], email);
      if WithEmail(email)(rows[0]) {
        forall i | 0 <= i < |rows[1..]| ensures !WithEmail(email)(rows[1..][i]) {
          assert rows[1..][i] == rows[i + 1];
        }
        FilterAllOrNothing(rows[1..], WithEmail(email));
      }
    }
  }

  /** SELECT ... WHERE id = ? LIMIT 1: the first row with that id. */
  function FindById(t: UserTable, id: nat): (r: Option<UserRow>)
    ensures r.Some? <==> exists i :: 0 <= i < |t.rows| && t.rows[i].id == id
    ensures r.Some? ==> r.value in t.rows && r.value.id == id
  {
    FirstWithId(t.rows, id)
  }

  function FirstWithId(rows: seq<UserRow>, id: nat): (r: Option<UserRow>)
    ensures r.Some? <==> exists i :: 0 <= i < |rows| && rows[i].id == id
    ensures r.Some? ==> r.value in rows && r.value.id == id
  {
    if |rows| == 0 then None
    else if rows[0].id == id then Some(rows[0])
    else
      var r := FirstWithId(rows[1..], id);
      assert forall i :: 1 <= i < |rows| ==> rows[i] == rows[1..][i - 1];
      r
  }

  function WithId(id: nat): UserRow -> bool
  {
    (u: UserRow) => u.id == id
  }

  function WithoutId(id: nat): UserRow -> bool
  {
    (u: UserRow) => u.id != id
  }

  /** DELETE FROM users WHERE id = ?: the rows kept, in order, and the count removed. */
  function DeleteById(t: UserTable, id: nat): (r: (UserTable, nat))
    ensures r.0.nextId == t.nextId
    ensures forall i :: 0 <= i < |r.0.rows| ==> r.0.rows[i].id != id && r.0.rows[i] in t.rows
    ensures forall i :: 0 <= i < |t.rows| && t.rows[i].id != id ==> t.rows[i] in r.0.rows
    ensures IsSubsequence(r.0.rows, t.rows)
    ensures r.1 + |r.0.rows| == |t.rows|
    ensures r.1 == 0 <==> forall i :: 0 <= i < |t.rows| ==> t.rows[i].id != id
  {
    CountComplement(t.rows, WithId(id), WithoutId(id));
    CountZeroIff(t.rows, WithId(id));
    (UserTable(Filter(t.rows, WithoutId(id)), t.nextId), CountWhere(t.rows, WithId(id)))
  }

  /** DELETE preserves validity and removes at most one row. */
  lemma DeleteValid(t: UserTable, id: nat)
    requires Valid(t)
    ensures Valid(DeleteById(t, id).0)
    ensures DeleteById(t, id).1 <= 1
  {
    var rows := Filter(t.rows, WithoutId(id));
    FilterKeepsDistinct(t.rows, WithoutId(id), UserId);
    AtMostOneWithKey(t.rows, WithId(id), UserId, id);
    FilterKeepsEmailsUnique(t.rows, WithoutId(id));
  }

  lemma EmailsUniqueTail(rows: seq<UserRow>)
    requires |rows| > 0 && EmailsUnique(rows)
    ensures EmailsUnique(rows[1..])
  {
    forall i, j | 0 <= i < j < |rows[1..]| && rows[1..][i].email.Some?
      ensures rows[1..][i].email != rows[1..][j].email
    {
      assert rows[1..][i] == rows[i + 1] && rows[1..][j] == rows[j + 1];
    }
  }

  lemma {:induction false} FilterKeepsEmailsUnique(rows: seq<UserRow>, p: UserRow -> bool)
    requires EmailsUnique(rows)
    ensures EmailsUnique(Filter(rows, p))
  {
    if |rows| > 0 {
      EmailsUniqueTail(rows);
      FilterKeepsEmailsUnique(rows[1..], p);
      var rest := Filter(rows[1..], p);
      if p(rows[0]) {
        HeadEmailFresh(rows, rest);
        ConsEmailsUnique(rows[0], rest);
      }
    }
  }

  /** The first row's email is held by no row drawn from the rest. */
  lemma HeadEmailFresh(rows: seq<UserRow>, rest: seq<UserRow>)
    requires |rows| > 0 && EmailsUnique(rows)
    requires forall j :: 0 <= j < |rest| ==> rest[j] in rows[1..]
    ensures rows[0].email.Some? ==> forall j :: 0 <= j < |rest| ==> rest[j].email != rows[0].email
  {
    forall j | 0 <= j < |rest| && rows[0].email.Some? ensures rest[j].email != rows[0].email {
      var k :| 0 <= k < |rows[1..]| && rows[1..][k] == rest[j];
      assert rows[k + 1] == rest[j];
    }
  }

  /** A row whose email no other row holds can be put in front. */
  lemma ConsEmailsUnique(u: UserRow, rest: seq<UserRow>)
    requires EmailsUnique(rest)
    requires u.email.Some? ==> forall j :: 0 <= j < |rest| ==> rest[j].email != u.email
    ensures EmailsUnique([u] + rest)
  {
    var r := [u] + rest;
    forall i, j | 0 <= i < j < |r| && r[i].email.Some? ensures r[i].email != r[j].email {
      assert r[j] == rest[j - 1];
      if i > 0 {
        assert r[i] == rest[i - 1];
      }
    }
  }

  // ---------------------------------------------------------------------------
  // UPDATE users SET <assignments> WHERE id = ?
  // ---------------------------------------------------------------------------

  datatype Column = Name | Email | Role | Password
  {
    /** The column's name in SQL. */
    function Sql(): string
    {
      match this
      case Name => "name"
      case Email => "email"
      case Role => "role"
      case Password => "password"
    }
  }

  /** `column = ?` together with the value bound to its placeholder. */
  datatype Assignment = Assignment(column: Column, value: string)

  function Assign(u: UserRow, a: Assignment): (r: UserRow)
    ensures r.id == u.id
  {
    match a.column
    case Name => u.(name := Some(a.value))
    case Email => u.(email := Some(a.value))
    case Role => u.(role := a.value)
    case Password => u.(password := a.value)
  }

  /** The SET list applied left to right. */
  function AssignAll(u: UserRow, assignments: seq<Assignment>): (r: UserRow)
    ensures r.id == u.id
    decreases |assignments|
  {
    if |assignments| == 0 then u else AssignAll(Assign(u, assignments[0]), assignments[1..])
  }

  /** Row `i` receives the SET list and ends with the same email as another row. */
  predicate EmailClash(rows: seq<UserRow>, id: nat, assignments: seq<Assignment>)
  {
    exists i, j :: 0 <= i < |rows| && 0 <= j < |rows| && i != j && rows[i].id == id
      && AssignAll(rows[i], assignments).email.Some? && AssignAll(rows[i], assignments).email == rows[j].email
  }

  function UpdateRows(rows: seq<UserRow>, id: nat, assignments: seq<Assignment>): (r: seq<UserRow>)
    ensures |r| == |rows|
    ensures forall i :: 0 <= i < |rows| ==> r[i] == if rows[i].id == id then AssignAll(rows[i], assignments) else rows[i]
  {
    if |rows| == 0 then []
    else [if rows[0].id == id then AssignAll(rows[0], assignments) else rows[0]] + UpdateRows(rows[1..], id, assignments)
  }

  /** UPDATE users SET ... WHERE id = ?: the updated table and the number of matched
      rows, or a duplicate-key failure (None) when the new email belongs to another row. */
  function UpdateById(t: UserTable, id: nat, assignments: seq<Assignment>): (r: Option<(UserTable, nat)>)
    ensures r.None? <==> EmailClash(t.rows, id, assignments)
    ensures r.Some? ==> var (t', n) := r.value;
      && t'.nextId == t.nextId && |t'.rows| == |t.rows|
      && (forall i :: 0 <= i < |t.rows| && t.rows[i].id != id ==> t'.rows[i] == t.rows[i])
      && (forall i :: 0 <= i < |t.rows| ==> t'.rows[i].id == t.rows[i].id)
      && n == CountWhere(t.rows, WithId(id))
  {
    if EmailClash(t.rows, id, assignments) then None
    else Some((UserTable(UpdateRows(t.rows, id, assignments), t.nextId), CountWhere(t.rows, WithId(id))))
  }

  /** An UPDATE that succeeds on a valid table leaves it valid. */
  lemma UpdateValid(t: UserTable, id: nat, assignments: seq<Assignment>)
    requires Valid(t) && UpdateById(t, id, assignments).Some?
    ensures Valid(UpdateById(t, id, assignments).value.0)
  {
    var rows := t.rows;
    var rows' := UpdateById(t, id, assignments).value.0.rows;
    assert forall i :: 0 <= i < |rows| ==> UserId(rows'[i]) == UserId(rows[i]);
    forall i, j | 0 <= i < j < |rows'| && rows'[i].email.Some? ensures rows'[i].email != rows'[j].email {
      if rows[i].id == id {
        assert rows[j].id != id;
        assert rows'[i] == AssignAll(rows[i], assignments);
      } else if rows[j].id == id {
        assert rows'[j] == AssignAll(rows[j], assignments);
        assert !(rows'[j].email.Some? && rows'[j].email == rows[i].email);
      }
    }
  }

  // ---------------------------------------------------------------------------
  // Lookups after writes
  // ---------------------------------------------------------------------------

  /** After a successful insert into a valid table, a lookup by that email finds exactly
      the new row, and a lookup by the new id finds it too. */
  lemma FindAfterInsert(t: UserTable, name: Option<string>, email: string, password: string, role: string)
    requires Valid(t) && Insert(t, name, Some(email), password, role).1.Some?
    ensures var (t', id) := Insert(t, name, Some(email), password, role);
      && FindByEmail(t', Some(email)) == [UserRow(id.value, name, Some(email), password, role)]
      && FindById(t', id.value) == Some(UserRow(id.value, name, Some(email), password, role))
  {
    var (t', id) := Insert(t, name, Some(email), password, role);
    var row := UserRow(id.value, name, Some(email), password, role);
    assert t'.rows == t.rows + [row];
    FindByEmailAfterInsert(t.rows, row, email);
    FirstWithIdAfterFresh(t.rows, row);
  }

  /** Appending a row whose email no earlier row has makes it the only row found. */
  lemma FindByEmailAfterInsert(rows: seq<UserRow>, row: UserRow, email: string)
    requires row.email == Some(email) && !EmailTaken(rows, Some(email))
    ensures Filter(rows + [row], WithEmail(Some(email))) == [row]
  {
    FilterAppend(rows, [row], WithEmail(Some(email)));
    FilterAllOrNothing(rows, WithEmail(Some(email)));
  }

  lemma {:induction false} FirstWithIdAfterFresh(rows: seq<UserRow>, row: UserRow)
    requires forall i :: 0 <= i < |rows| ==> rows[i].id != row.id
    ensures FirstWithId(rows + [row], row.id) == Some(row)
  {
    if |rows| > 0 {
      assert (rows + [row])[1..] == rows[1..] + [row];
      FirstWithIdAfterFresh(rows[1..], row);
    } else {
      assert rows + [row] == [row];
    }
  }

  /** After a delete by id nothing has that id any more. */
  lemma NothingFoundAfterDelete(t: UserTable, id: nat)
    ensures FindById(DeleteById(t, id).0, id).None?
  {
  }
}
