/** The SQL-backed user repository
    (src/infrastructure/repositories/user_repository_impl.py) over the
    `users` table (src/infrastructure/db/models.py:12-20). The table is a
    sequence of rows in rowid order, which is the order a table scan of
    the default SQLite database returns them in. */
module Repository {
  import opened Errors
  import opened EmailValue
  import opened UserEntity

  /** One row of the `users` table. */
  datatype Row = Row(id: int, email: string, name: string, createdAt: int, updatedAt: int)

  /** What every stored row satisfies: a positive rowid, an email that
      `Email` accepts and a name that `User` accepts. */
  predicate RowIsValid(row: Row) {
    row.id >= 1 && IsValidEmail(row.email) && ValidName(row.name)
  }

  /** Every row is one the entity layer accepts. */
  predicate AllRowsValid(rows: seq<Row>) {
    forall i | 0 <= i < |rows| :: RowIsValid(rows[i])
  }

  /** Ids strictly increase in scan order, so the primary key is unique. */
  predicate IdsIncreasing(rows: seq<Row>) {
    forall i, j | 0 <= i < j < |rows| :: rows[i].id < rows[j].id
  }

  /** The unique index on the email column (db/models.py:17). */
  predicate EmailsUnique(rows: seq<Row>) {
    forall i, j | 0 <= i < j < |rows| :: rows[i].email != rows[j].email
  }

  /** The table invariant. */
  predicate TableInvariant(rows: seq<Row>) {
    AllRowsValid(rows) && IdsIncreasing(rows) && EmailsUnique(rows)
  }

  /** `_model_to_entity` (user_repository_impl.py:78-86). */
  function ToEntity(row: Row): (u: UserRecord)
    ensures RowIsValid(row) ==> u.Valid()
    ensures u.id == Some(row.id) && ToString(u.email) == row.email
  {
    UserRecord(Some(row.id), Email(row.email), row.name, row.createdAt, row.updatedAt)
  }

  /** Position of the first row with this id:
      `query(UserModel).filter(UserModel.id == id).first()`. */
  function IndexOfId(rows: seq<Row>, id: int): (r: Option<nat>)
    ensures r.Some? ==> r.value < |rows| && rows[r.value].id == id
    ensures r.Some? ==> forall i | 0 <= i < r.value :: rows[i].id != id
    ensures r.None? <==> forall i | 0 <= i < |rows| :: rows[i].id != id
  {
    if |rows| == 0 then None
    else if rows[0].id == id then Some(0)
    else match IndexOfId(rows[1..], id)
      case None => None
      case Some(i) => Some(i + 1)
  }

  /** Position of the first row with this email (the same search as
      `IndexOfId`, on the email column; the two lookups are kept apart so
      that each contract speaks of its own column):
      `query(UserModel).filter(UserModel.email == email).first()`. */
  function IndexOfEmail(rows: seq<Row>, email: string): (r: Option<nat>)
    ensures r.Some? ==> r.value < |rows| && rows[r.value].email == email
    ensures r.Some? ==> forall i | 0 <= i < r.value :: rows[i].email != email
    ensures r.None? <==> forall i | 0 <= i < |rows| :: rows[i].email != email
  {
    if |rows| == 0 then None
    else if rows[0].email == email then Some(0)
    else match IndexOfEmail(rows[1..], email)
      case None => None
      case Some(i) => Some(i + 1)
  }

  /** Number of rows with this email: `.filter(...).count()`. */
  function CountEmail(rows: seq<Row>, email: string): (n: nat)
    ensures n <= |rows|
  {
    if |rows| == 0 then 0
    else (if rows[0].email == email then 1 else 0) + CountEmail(rows[1..], email)
  }

  /** The count is positive exactly when a first match exists, and the
      unique index keeps it at most one. */
  lemma {:induction false} CountEmailMatchesIndex(rows: seq<Row>, email: string)
    ensures CountEmail(rows, email) > 0 <==> IndexOfEmail(rows, email).Some?
    ensures TableInvariant(rows) ==> CountEmail(rows, email) <= 1
  {
    if |rows| > 0 {
      CountEmailMatchesIndex(rows[1..], email);
      if TableInvariant(rows) {
        assert TableInvariant(rows[1..]) by {
          forall i | 0 <= i < |rows| - 1 ensures RowIsValid(rows[1..][i]) {
            assert rows[1..][i] == rows[i + 1];
          }
        }
        if rows[0].email == email {
          assert IndexOfEmail(rows[1..], email).None? by {
            forall i | 0 <= i < |rows| - 1 ensures rows[1..][i].email != email {
              assert rows[1..][i] == rows[i + 1];
            }
          }
        }
      }
    }
  }

  /** The largest id in the table, 0 for an empty one. */
  function MaxId(rows: seq<Row>): (m: nat)
    ensures forall i | 0 <= i < |rows| :: rows[i].id <= m
    ensures m == 0 || exists i | 0 <= i < |rows| :: rows[i].id == m
  {
    if |rows| == 0 then 0
    else
      var rest := MaxId(rows[1..]);
      assert forall i | 1 <= i < |rows| :: rows[i] == rows[1..][i - 1];
      if rows[0].id > rest then rows[0].id else rest
  }

  /** The rowid SQLite gives an inserted row when none is supplied: one
      more than the largest rowid present, 1 in an empty table. */
  function NextId(rows: seq<Row>): (id: int)
    ensures id >= 1
    ensures forall i | 0 <= i < |rows| :: rows[i].id < id
  {
    MaxId(rows) + 1
  }

  /** On a table in id order, with positive ids, the next id follows the
      last row's id. */
  lemma NextIdFollowsLast(rows: seq<Row>)
    requires IdsIncreasing(rows) && |rows| > 0 && rows[|rows| - 1].id >= 1
    ensures NextId(rows) == rows[|rows| - 1].id + 1
  {
    var last := |rows| - 1;
    var m := MaxId(rows);
    assert rows[last].id <= m;
    if m != 0 {
      var i :| 0 <= i < |rows| && rows[i].id == m;
      assert i == last || rows[i].id < rows[last].id;
    }
  }

  /** The row `save` appends for a new user (user_repository_impl.py:22-30). */
  function NewRow(rows: seq<Row>, u: UserRecord): Row {
    Row(NextId(rows), u.email.value, u.name, u.createdAt, u.updatedAt)
  }

  /** The row `save` writes over for a stored user: email, name and
      `updated_at` change, `created_at` is not written
      (user_repository_impl.py:35-37). */
  function Overwrite(row: Row, u: UserRecord): Row {
    row.(email := u.email.value, name := u.name, updatedAt := u.updatedAt)
  }

  /** Another row than the one with this id already holds the email. */
  predicate EmailClash(rows: seq<Row>, email: string, id: int) {
    var j := IndexOfEmail(rows, email);
    j.Some? && rows[j.value].id != id
  }

  /** With unique emails, "no other row holds the email" read off the
      first match is the same as read off every row. */
  lemma NoClashIff(rows: seq<Row>, email: string, id: int)
    requires EmailsUnique(rows)
    ensures !EmailClash(rows, email, id) <==>
      forall i | 0 <= i < |rows| :: rows[i].email == email ==> rows[i].id == id
  {
    match IndexOfEmail(rows, email)
    case None =>
    case Some(j) =>
      forall i | 0 <= i < |rows| && rows[i].email == email ensures i == j {
      }
  }

  /** The table after `save(u)`, or the integrity error the unique email
      index raises (user_repository_impl.py:18-40). A user whose id has no
      row is neither inserted nor updated. */
  function SaveRows(rows: seq<Row>, u: UserRecord): (r: Result<seq<Row>>)
    ensures r.Ok? && u.id.None? ==> |r.value| == |rows| + 1 && r.value[..|rows|] == rows
    ensures r.Ok? && u.id.Some? ==> |r.value| == |rows|
    ensures r.Ok? && u.id.Some? ==>
      forall k | 0 <= k < |rows| && rows[k].id != u.id.value :: r.value[k] == rows[k]
  {
    match u.id
    case None =>
      if IndexOfEmail(rows, u.email.value).Some? then Err(DuplicateEmailRow)
      else Ok(rows + [NewRow(rows, u)])
    case Some(id) =>
      match IndexOfId(rows, id)
      case None => Ok(rows)
      case Some(i) =>
        if EmailClash(rows, u.email.value, id) then Err(DuplicateEmailRow)
        else Ok(rows[i := Overwrite(rows[i], u)])
  }

  /** The id the saved entity carries afterwards (user_repository_impl.py:30). */
  function SavedId(rows: seq<Row>, u: UserRecord): Option<int> {
    if u.id.None? then Some(NextId(rows)) else u.id
  }

  /** Appending the row of a new user whose email no row holds keeps the
      invariant. */
  lemma InsertKeepsInvariant(rows: seq<Row>, u: UserRecord)
    requires TableInvariant(rows) && u.Valid() && IndexOfEmail(rows, u.email.value).None?
    ensures TableInvariant(rows + [NewRow(rows, u)])
  {
    var rows' := rows + [NewRow(rows, u)];
    forall k | 0 <= k < |rows'| ensures RowIsValid(rows'[k]) {
      if k < |rows| { assert rows'[k] == rows[k]; }
    }
    forall a, b | 0 <= a < b < |rows'| ensures rows'[a].id < rows'[b].id && rows'[a].email != rows'[b].email {
      assert rows'[a] == rows[a];
      if b < |rows| { assert rows'[b] == rows[b]; }
    }
  }

  /** Overwriting a user's own row with an email no other row holds keeps
      the invariant. */
  lemma OverwriteKeepsInvariant(rows: seq<Row>, i: nat, u: UserRecord)
    requires TableInvariant(rows) && u.Valid() && i < |rows|
    requires u.id == Some(rows[i].id) && !EmailClash(rows, u.email.value, rows[i].id)
    ensures TableInvariant(rows[i := Overwrite(rows[i], u)])
  {
    var e := u.email.value;
    forall k | 0 <= k < |rows| && rows[k].email == e ensures k == i {
      var j := IndexOfEmail(rows, e).value;
      assert rows[j].id == rows[i].id;
    }
  }

  /** `save` keeps the table invariant. */
  lemma SaveKeepsInvariant(rows: seq<Row>, u: UserRecord)
    requires TableInvariant(rows) && u.Valid() && SaveRows(rows, u).Ok?
    ensures TableInvariant(SaveRows(rows, u).value)
  {
    match u.id
    case None =>
      InsertKeepsInvariant(rows, u);
    case Some(id) =>
      match IndexOfId(rows, id)
      case None =>
      case Some(i) =>
        OverwriteKeepsInvariant(rows, i, u);
  }

  /** `save` fails exactly when the email is held by a row other than the
      user's own: by any row for a new user, by a row with another id for
      a stored one. */
  lemma SaveFailsIff(rows: seq<Row>, u: UserRecord)
    requires IdsIncreasing(rows) && EmailsUnique(rows)
    ensures SaveRows(rows, u).Err? <==>
      exists k | 0 <= k < |rows| :: rows[k].email == u.email.value
        && (u.id.None? || (rows[k].id != u.id.value && IndexOfId(rows, u.id.value).Some?))
  {
    var e := u.email.value;
    match IndexOfEmail(rows, e)
    case None =>
    case Some(j) =>
      if u.id.Some? && IndexOfId(rows, u.id.value).Some? && rows[j].id == u.id.value {
        forall k | 0 <= k < |rows| && rows[k].email == e ensures rows[k].id == u.id.value {
          assert k == j;
        }
      }
  }

  /** A row appended with an email no row holds is the first row with
      that email. */
  lemma AppendedEmailIsFound(rows: seq<Row>, row: Row)
    requires IndexOfEmail(rows, row.email).None?
    ensures IndexOfEmail(rows + [row], row.email) == Some(|rows|)
  {
    var rows' := rows + [row];
    assert rows'[|rows|] == row;
    forall k | 0 <= k < |rows| ensures rows'[k].email != row.email {
      assert rows'[k] == rows[k];
    }
  }

  /** `find_by_id` after a successful `save` returns what was saved, with
      the id `save` assigned; an overwritten row keeps its `created_at`. */
  lemma SaveThenFind(rows: seq<Row>, u: UserRecord)
    requires IdsIncreasing(rows) && SaveRows(rows, u).Ok?
    requires u.id.Some? ==> IndexOfId(rows, u.id.value).Some?
    ensures var rows' := SaveRows(rows, u).value;
      var id := SavedId(rows, u).value;
      RecordById(rows', id).Some?
      && RecordById(rows', id).value
         == u.(id := Some(id), createdAt := RecordById(rows', id).value.createdAt)
    ensures u.id.None? ==> RecordById(SaveRows(rows, u).value, SavedId(rows, u).value) == Some(u.(id := SavedId(rows, u)))
    ensures u.id.Some? ==>
      RecordById(SaveRows(rows, u).value, u.id.value).value.createdAt == rows[IndexOfId(rows, u.id.value).value].createdAt
  {
    var rows' := SaveRows(rows, u).value;
    var id := SavedId(rows, u).value;
    if u.id.None? {
      assert rows'[|rows|].id == id;
      assert IndexOfId(rows', id) == Some(|rows|) by {
        forall k | 0 <= k < |rows| ensures rows'[k].id != id {
          assert rows'[k] == rows[k];
        }
      }
    } else {
      var i := IndexOfId(rows, id).value;
      assert rows'[i].id == id;
      assert IndexOfId(rows', id) == Some(i) by {
        forall k | 0 <= k < i ensures rows'[k].id != id {
          assert rows'[k] == rows[k];
        }
      }
    }
  }

  /** The entity `find_by_id` returns, as a value. */
  function RecordById(rows: seq<Row>, id: int): (r: Option<UserRecord>)
    ensures r.Some? <==> exists i | 0 <= i < |rows| :: rows[i].id == id
    ensures r.Some? ==> r.value.id == Some(id)
  {
    match IndexOfId(rows, id)
    case None => None
    case Some(i) => Some(ToEntity(rows[i]))
  }

  /** The entity `find_by_email` returns, as a value. */
  function RecordByEmail(rows: seq<Row>, email: string): (r: Option<UserRecord>)
    ensures r.Some? <==> exists i | 0 <= i < |rows| :: rows[i].email == email
    ensures r.Some? ==> ToString(r.value.email) == email
  {
    match IndexOfEmail(rows, email)
    case None => None
    case Some(i) => Some(ToEntity(rows[i]))
  }

  /** The entities `find_all` returns, in scan order. */
  function Records(rows: seq<Row>): (us: seq<UserRecord>)
    ensures |us| == |rows|
    ensures forall i | 0 <= i < |rows| :: us[i] == ToEntity(rows[i])
  {
    seq(|rows|, i requires 0 <= i < |rows| => ToEntity(rows[i]))
  }

  /** The table without its i-th row: `session.delete(model)`. */
  function RemoveAt(rows: seq<Row>, i: nat): (r: seq<Row>)
    requires i < |rows|
    ensures |r| == |rows| - 1
    ensures forall k | 0 <= k < i :: r[k] == rows[k]
    ensures forall k | i <= k < |r| :: r[k] == rows[k + 1]
  {
    rows[..i] + rows[i + 1..]
  }

  /** Deleting a row keeps the invariant. */
  lemma RemoveKeepsInvariant(rows: seq<Row>, i: nat)
    requires TableInvariant(rows) && i < |rows|
    ensures TableInvariant(RemoveAt(rows, i))
  {
    var r := RemoveAt(rows, i);
    forall a, b | 0 <= a < b < |r| ensures r[a].id < r[b].id && r[a].email != r[b].email {
      var a' := if a < i then a else a + 1;
      var b' := if b < i then b else b + 1;
      assert r[a] == rows[a'] && r[b] == rows[b'];
    }
  }

  /** After deleting a row, no row has its id. */
  lemma RemoveForgetsId(rows: seq<Row>, i: nat)
    requires IdsIncreasing(rows) && i < |rows|
    ensures RecordById(RemoveAt(rows, i), rows[i].id).None?
  {
    var r := RemoveAt(rows, i);
    forall k | 0 <= k < |r| ensures r[k].id != rows[i].id {
      if k < i { assert r[k] == rows[k]; } else { assert r[k] == rows[k + 1]; }
    }
  }

  /** Deleting a row leaves every other user found as before. */
  lemma RemoveKeepsOthers(rows: seq<Row>, i: nat, k: nat)
    requires IdsIncreasing(rows) && i < |rows| && k < |rows| && k != i
    ensures RecordById(RemoveAt(rows, i), rows[k].id) == RecordById(rows, rows[k].id)
  {
    var r := RemoveAt(rows, i);
    var k' := if k < i then k else k - 1;
    assert r[k'] == rows[k];
    UniqueIdIndex(rows, k);
    UniqueIdIndex(r, k');
  }

  /** With unique ids, the row with a stored id is found at its position. */
  lemma UniqueIdIndex(rows: seq<Row>, k: nat)
    requires IdsIncreasing(rows) && k < |rows|
    ensures IndexOfId(rows, rows[k].id) == Some(k)
  {
  }

  /** With unique emails, the row with a stored email is found at its
      position. */
  lemma UniqueEmailIndex(rows: seq<Row>, k: nat)
    requires EmailsUnique(rows) && k < |rows|
    ensures IndexOfEmail(rows, rows[k].email) == Some(k)
  {
  }

  class UserRepository {
    /** The `users` table in scan order. */
    var rows: seq<Row>

    ghost predicate Valid()
      reads this
    {
      TableInvariant(rows)
    }

    constructor (initial: seq<Row>)
      requires TableInvariant(initial)
      ensures Valid() && rows == initial
    {
      rows := initial;
    }

    /** `save` (user_repository_impl.py:18-40): inserts a user without id
      and writes the id back, overwrites the row of a user with an id, does
      nothing for an id without row, and fails without change on a
      duplicate email. */
    method Save(user: User) returns (r: Result<User>)
      requires Valid() && user.Valid()
      modifies this, user
      ensures Valid() && user.Valid()
      ensures SaveRows(old(rows), old(user.Record())).Err? ==>
        r == Err(DuplicateEmailRow) && rows == old(rows) && unchanged(user)
      ensures SaveRows(old(rows), old(user.Record())).Ok? ==>
        && r == Ok(user)
        && rows == SaveRows(old(rows), old(user.Record())).value
        && user.Record() == old(user.Record()).(id := SavedId(old(rows), old(user.Record())))
    {
      var u := user.Record();
      match SaveRows(rows, u)
      case Err(e) =>
        r := Err(e);
      case Ok(rows') =>
        SaveKeepsInvariant(rows, u);
        if user.id.None? {
          user.id := Some(NextId(rows));
        }
        rows := rows';
        r := Ok(user);
    }

    /** `find_by_id` (user_repository_impl.py:42-48): a fresh entity copied
      from the row with this id, or null. */
    method FindById(id: int) returns (user: User?)
      requires Valid()
      ensures RecordById(rows, id).None? ==> user == null
      ensures RecordById(rows, id).Some? ==>
        user != null && fresh(user) && user.Valid() && user.Record() == RecordById(rows, id).value
    {
      match IndexOfId(rows, id)
      case None =>
        user := null;
      case Some(i) =>
        user := Load(rows[i]);
    }

    /** `find_by_email` (user_repository_impl.py:50-56). */
    method FindByEmail(email: Email) returns (user: User?)
      requires Valid()
      ensures RecordByEmail(rows, email.value).None? ==> user == null
      ensures RecordByEmail(rows, email.value).Some? ==>
        user != null && fresh(user) && user.Valid() && user.Record() == RecordByEmail(rows, email.value).value
    {
      match IndexOfEmail(rows, email.value)
      case None =>
        user := null;
      case Some(i) =>
        user := Load(rows[i]);
    }

    /** `find_all` (user_repository_impl.py:58-61): one fresh entity per
      row, in scan order. */
    method FindAll() returns (users: seq<User>)
      requires Valid()
      ensures |users| == |rows|
      ensures forall i | 0 <= i < |users| ::
        fresh(users[i]) && users[i].Valid() && users[i].Record() == Records(rows)[i]
      ensures forall i, j | 0 <= i < j < |users| :: users[i] != users[j]
    {
      users := [];
      var k := 0;
      while k < |rows|
        invariant 0 <= k <= |rows| && |users| == k
        invariant forall i | 0 <= i < k :: fresh(users[i])
        invariant forall i | 0 <= i < k :: users[i].Record() == ToEntity(rows[i])
        invariant forall i, j | 0 <= i < j < k :: users[i] != users[j]
      {
        var u := Load(rows[k]);
        users := users + [u];
        k := k + 1;
      }
      forall i | 0 <= i < |users| ensures users[i].Valid() {
        assert RowIsValid(rows[i]);
      }
    }

    /** `delete` (user_repository_impl.py:63-71): removes the row with this
      id and answers whether there was one. */
    method Delete(id: int) returns (deleted: bool)
      requires Valid()
      modifies this
      ensures Valid()
      ensures deleted <==> RecordById(old(rows), id).Some?
      ensures !deleted ==> rows == old(rows)
      ensures deleted ==> rows == RemoveAt(old(rows), IndexOfId(old(rows), id).value)
      ensures RecordById(rows, id).None?
    {
      match IndexOfId(rows, id)
      case None =>
        deleted := false;
      case Some(i) =>
        RemoveKeepsInvariant(rows, i);
        RemoveForgetsId(rows, i);
        rows := RemoveAt(rows, i);
        deleted := true;
    }

    /** `exists_by_email` (user_repository_impl.py:73-76). */
    function ExistsByEmail(email: Email): (b: bool)
      reads this
      ensures b <==> exists i | 0 <= i < |rows| :: rows[i].email == email.value
    {
      CountEmailMatchesIndex(rows, email.value);
      CountEmail(rows, email.value) > 0
    }

    /** `exists_by_email` agrees with `find_by_email`. */
    lemma ExistsIffFound(email: Email)
      ensures ExistsByEmail(email) <==> RecordByEmail(rows, email.value).Some?
    {
      CountEmailMatchesIndex(rows, email.value);
    }
  }

  /** `_model_to_entity` as the allocation of a fresh entity. */
  method Load(row: Row) returns (user: User)
    requires RowIsValid(row)
    ensures fresh(user) && user.Valid() && user.Record() == ToEntity(row)
  {
    user := new User(Some(row.id), Email(row.email), row.name, row.createdAt, row.updatedAt);
  }
}
