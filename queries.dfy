/**
 * What the SQL statements issued by the route handlers do to the rows of a
 * table: `select ... where`, `update(where) { ... }` and `deleteWhere`, the
 * latter two with the number of rows they touched. The password-entry
 * statements filter on the pair (entry id, owner id).
 */
module Queries {
  import opened Wrappers
  import opened KotlinInt
  import opened Models
  import opened Schema

  /** The filter `(PasswordEntries.id eq entryId) and (PasswordEntries.userId eq userId)`. */
  predicate IsRow(e: PasswordEntry, id: int, userId: int) {
    e.id == id && e.userId == userId
  }

  /** The values an entry update assigns. */
  datatype EntryValues = EntryValues(resourceName: string, username: string, password: string, notes: Option<string>)

  /** The row as the update leaves it: new values and time, same id, owner and creation time. */
  function Rewritten(e: PasswordEntry, v: EntryValues, updatedAt: int): PasswordEntry {
    e.(resourceName := v.resourceName, username := v.username, password := v.password,
       notes := v.notes, updatedAt := updatedAt)
  }

  /** `select where userId eq userId`: the caller's rows, in table order. */
  function SelectByOwner(rows: seq<PasswordEntry>, userId: int): (r: seq<PasswordEntry>)
    ensures forall e :: e in r <==> e in rows && e.userId == userId
    ensures |r| <= |rows|
  {
    if rows == [] then []
    else
      assert rows == [rows[0]] + rows[1..];
      (if rows[0].userId == userId then [rows[0]] else []) + SelectByOwner(rows[1..], userId)
  }

  /** An owner's listing is empty exactly when the table holds none of the owner's rows. */
  lemma SelectEmptyIff(rows: seq<PasswordEntry>, userId: int)
    ensures SelectByOwner(rows, userId) == [] <==> forall e :: e in rows ==> e.userId != userId
  {
    var r := SelectByOwner(rows, userId);
    if r != [] {
      assert r[0] in r;
    }
  }

  /** `select where (id, userId)` followed by `firstOrNull()`. */
  function FindEntry(rows: seq<PasswordEntry>, id: int, userId: int): (r: Option<PasswordEntry>)
    ensures r.Some? ==> r.value in rows && IsRow(r.value, id, userId)
    ensures r.None? <==> forall e :: e in rows ==> !IsRow(e, id, userId)
  {
    if rows == [] then None
    else if IsRow(rows[0], id, userId) then Some(rows[0])
    else
      assert rows == [rows[0]] + rows[1..];
      FindEntry(rows[1..], id, userId)
  }

  /** How many rows the (id, userId) filter matches: the count `update` and `deleteWhere` report. */
  function CountEntry(rows: seq<PasswordEntry>, id: int, userId: int): (n: nat)
    ensures n <= |rows|
    ensures n == 0 <==> forall e :: e in rows ==> !IsRow(e, id, userId)
  {
    if rows == [] then 0
    else
      assert rows == [rows[0]] + rows[1..];
      (if IsRow(rows[0], id, userId) then 1 else 0) + CountEntry(rows[1..], id, userId)
  }

  /** `update(where (id, userId)) { ... }`: every matching row rewritten in place, the others untouched. */
  function UpdateEntry(rows: seq<PasswordEntry>, id: int, userId: int, v: EntryValues, updatedAt: int)
    : (r: seq<PasswordEntry>)
    ensures |r| == |rows|
    ensures forall i :: 0 <= i < |rows| && !IsRow(rows[i], id, userId) ==> r[i] == rows[i]
    ensures forall i :: 0 <= i < |rows| && IsRow(rows[i], id, userId) ==>
      && r[i].id == rows[i].id && r[i].userId == rows[i].userId && r[i].createdAt == rows[i].createdAt
      && r[i].resourceName == v.resourceName && r[i].username == v.username
      && r[i].password == v.password && r[i].notes == v.notes && r[i].updatedAt == updatedAt
  {
    if rows == [] then []
    else
      [if IsRow(rows[0], id, userId) then Rewritten(rows[0], v, updatedAt) else rows[0]]
      + UpdateEntry(rows[1..], id, userId, v, updatedAt)
  }

  /** `deleteWhere (id, userId)`: exactly the matching rows removed, order kept. */
  function DeleteEntry(rows: seq<PasswordEntry>, id: int, userId: int): (r: seq<PasswordEntry>)
    ensures forall e :: e in r <==> e in rows && !IsRow(e, id, userId)
    ensures |r| == |rows| - CountEntry(rows, id, userId)
  {
    if rows == [] then []
    else
      assert rows == [rows[0]] + rows[1..];
      (if IsRow(rows[0], id, userId) then [] else [rows[0]]) + DeleteEntry(rows[1..], id, userId)
  }

  /** With ids distinct, the (id, userId) filter matches at most one row. */
  lemma {:induction false} AtMostOneRow(rows: seq<PasswordEntry>, id: int, userId: int)
    requires EntryIdsIncreasing(rows)
    ensures CountEntry(rows, id, userId) <= 1
  {
    if rows != [] {
      AtMostOneRow(rows[1..], id, userId);
      if IsRow(rows[0], id, userId) {
        forall e | e in rows[1..] ensures !IsRow(e, id, userId) {
          var j :| 0 <= j < |rows[1..]| && rows[1..][j] == e;
          assert rows[0].id < rows[j + 1].id;
        }
      }
    }
  }

  /** When nothing matches, an update leaves the table as it was. */
  lemma NoMatchUpdateUnchanged(rows: seq<PasswordEntry>, id: int, userId: int, v: EntryValues, updatedAt: int)
    requires CountEntry(rows, id, userId) == 0
    ensures UpdateEntry(rows, id, userId, v, updatedAt) == rows
  {
    var r := UpdateEntry(rows, id, userId, v, updatedAt);
    forall i | 0 <= i < |rows| ensures r[i] == rows[i] {
      assert rows[i] in rows;
    }
  }

  /** When nothing matches, a delete leaves the table as it was. */
  lemma {:induction false} NoMatchDeleteUnchanged(rows: seq<PasswordEntry>, id: int, userId: int)
    requires CountEntry(rows, id, userId) == 0
    ensures DeleteEntry(rows, id, userId) == rows
  {
    if rows != [] {
      assert rows[0] in rows;
      NoMatchDeleteUnchanged(rows[1..], id, userId);
      assert rows == [rows[0]] + rows[1..];
    }
  }

  /** Deleting keeps the remaining ids in increasing order. */
  lemma {:induction false} DeleteKeepsIdsIncreasing(rows: seq<PasswordEntry>, id: int, userId: int)
    requires EntryIdsIncreasing(rows)
    ensures EntryIdsIncreasing(DeleteEntry(rows, id, userId))
  {
    if rows != [] {
      DeleteKeepsIdsIncreasing(rows[1..], id, userId);
      var tail := DeleteEntry(rows[1..], id, userId);
      forall e | e in tail ensures rows[0].id < e.id {
        var j :| 0 <= j < |rows[1..]| && rows[1..][j] == e;
        assert rows[0].id < rows[j + 1].id;
      }
    }
  }

  /** A caller's lookup sees only the caller's rows: other owners' rows never change its answer. */
  lemma {:induction false} FindSeesOnlyOwnRows(rows: seq<PasswordEntry>, id: int, userId: int)
    ensures FindEntry(rows, id, userId) == FindEntry(SelectByOwner(rows, userId), id, userId)
  {
    if rows != [] {
      FindSeesOnlyOwnRows(rows[1..], id, userId);
      var tail := SelectByOwner(rows[1..], userId);
      if rows[0].userId == userId {
        assert SelectByOwner(rows, userId) == [rows[0]] + tail;
        assert ([rows[0]] + tail)[1..] == tail;
      } else {
        assert SelectByOwner(rows, userId) == tail;
      }
    }
  }

  /** Nothing a caller updates is visible in any other owner's listing. */
  lemma {:induction false} UpdateInvisibleToOthers(
    rows: seq<PasswordEntry>, id: int, userId: int, v: EntryValues, updatedAt: int, other: int)
    requires other != userId
    ensures SelectByOwner(UpdateEntry(rows, id, userId, v, updatedAt), other) == SelectByOwner(rows, other)
  {
    if rows != [] {
      var r := UpdateEntry(rows, id, userId, v, updatedAt);
      assert r[1..] == UpdateEntry(rows[1..], id, userId, v, updatedAt);
      UpdateInvisibleToOthers(rows[1..], id, userId, v, updatedAt, other);
    }
  }

  /** Nothing a caller deletes is missing from any other owner's listing. */
  lemma {:induction false} DeleteInvisibleToOthers(rows: seq<PasswordEntry>, id: int, userId: int, other: int)
    requires other != userId
    ensures SelectByOwner(DeleteEntry(rows, id, userId), other) == SelectByOwner(rows, other)
  {
    if rows != [] {
      DeleteInvisibleToOthers(rows[1..], id, userId, other);
      var d := DeleteEntry(rows[1..], id, userId);
      if IsRow(rows[0], id, userId) {
        assert DeleteEntry(rows, id, userId) == d;
      } else {
        assert DeleteEntry(rows, id, userId) == [rows[0]] + d;
        assert ([rows[0]] + d)[1..] == d;
      }
    }
  }

  /** Concatenation is associative; spelled out so the step costs nothing in the proofs that need it. */
  lemma AppendAssociative<T>(a: seq<T>, b: seq<T>, c: seq<T>)
    ensures a + (b + c) == (a + b) + c
  {
  }

  /** Selecting from a row followed by more rows: the row if it is the owner's, then the rest. */
  lemma SelectCons(row: PasswordEntry, rows: seq<PasswordEntry>, userId: int)
    ensures SelectByOwner([row] + rows, userId)
         == (if row.userId == userId then [row] else []) + SelectByOwner(rows, userId)
  {
    assert ([row] + rows)[1..] == rows;
  }

  /** A newly inserted row shows up in its owner's listing (last, in table order) and nowhere else. */
  lemma {:induction false} InsertVisibleOnlyToOwner(rows: seq<PasswordEntry>, e: PasswordEntry, userId: int)
    ensures SelectByOwner(rows + [e], userId)
         == SelectByOwner(rows, userId) + (if e.userId == userId then [e] else [])
  {
    if rows == [] {
      assert rows + [e] == [e];
    } else {
      var tail := rows[1..];
      InsertVisibleOnlyToOwner(tail, e, userId);
      assert rows == [rows[0]] + tail;
      assert rows + [e] == [rows[0]] + (tail + [e]);
      SelectCons(rows[0], tail, userId);
      SelectCons(rows[0], tail + [e], userId);
      AppendAssociative(if rows[0].userId == userId then [rows[0]] else [],
        SelectByOwner(tail, userId), if e.userId == userId then [e] else []);
    }
  }

  /** `select where username eq name` followed by `firstOrNull()`. */
  function FindUserByName(users: seq<User>, name: string): (r: Option<User>)
    ensures r.Some? ==> r.value in users && r.value.username == name
    ensures r.None? <==> forall u :: u in users ==> u.username != name
  {
    if users == [] then None
    else if users[0].username == name then Some(users[0])
    else
      assert users == [users[0]] + users[1..];
      FindUserByName(users[1..], name)
  }

  /** `select where id eq userId` followed by `firstOrNull()`. */
  function FindUserById(users: seq<User>, id: int): (r: Option<User>)
    ensures r.Some? ==> r.value in users && r.value.id == id
    ensures r.None? <==> id !in UserIds(users)
  {
    if users == [] then None
    else if users[0].id == id then Some(users[0])
    else
      assert users == [users[0]] + users[1..];
      assert UserIds(users) == {users[0].id} + UserIds(users[1..]);
      FindUserById(users[1..], id)
  }

  /** `update(where id eq userId) { masterPassword = hash }`. */
  function SetMasterPassword(users: seq<User>, id: int, hash: string): (r: seq<User>)
    ensures |r| == |users|
    ensures forall i :: 0 <= i < |users| ==>
      && r[i].id == users[i].id && r[i].username == users[i].username && r[i].createdAt == users[i].createdAt
      && r[i].masterPassword == (if users[i].id == id then hash else users[i].masterPassword)
  {
    seq(|users|, i requires 0 <= i < |users| =>
      if users[i].id == id then users[i].(masterPassword := hash) else users[i])
  }

  /** `select where userId eq userId`, mapped, then `firstOrNull()`. */
  function FindSettings(settings: seq<UserSettings>, userId: int): (r: Option<UserSettings>)
    ensures r.Some? ==> r.value in settings && r.value.userId == userId
    ensures r.None? <==> userId !in SettingsOwners(settings)
  {
    if settings == [] then None
    else if settings[0].userId == userId then Some(settings[0])
    else
      assert settings == [settings[0]] + settings[1..];
      assert SettingsOwners(settings) == {settings[0].userId} + SettingsOwners(settings[1..]);
      FindSettings(settings[1..], userId)
  }

  /** `update(where userId eq userId) { autoLogoutMinutes = minutes; updatedAt = now }`. */
  function SetAutoLogout(settings: seq<UserSettings>, userId: int, minutes: Int32, updatedAt: int)
    : (r: seq<UserSettings>)
    ensures |r| == |settings|
    ensures forall i :: 0 <= i < |settings| ==>
      && r[i].id == settings[i].id && r[i].userId == settings[i].userId
      && (settings[i].userId == userId ==> r[i].autoLogoutMinutes == minutes && r[i].updatedAt == updatedAt)
      && (settings[i].userId != userId ==> r[i] == settings[i])
  {
    seq(|settings|, i requires 0 <= i < |settings| =>
      if settings[i].userId == userId
      then settings[i].(autoLogoutMinutes := minutes, updatedAt := updatedAt)
      else settings[i])
  }
}
