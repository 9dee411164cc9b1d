/**
  The door system's store (database.py): a `users` table whose names are
  unique and an append-only `access_logs` table, held in memory. Each
  SQL statement becomes a function on the table contents; the class
  `DatabaseManager` holds the two tables and updates them in place.
  Timestamps are seconds, passed in where SQLite would read its clock.
 */
module Store {
  import opened Wrappers

  /** A row of `users` (the AUTOINCREMENT id is not modelled). */
  datatype UserRow = UserRow(name: string, createdAt: real, lastSeen: Option<real>, accessCount: nat)

  /** A row of `access_logs` (the AUTOINCREMENT id is not modelled). */
  datatype LogRow = LogRow(timestamp: real, eventType: string, personName: Option<string>, details: Option<string>)

  function Names(users: seq<UserRow>): (names: seq<string>)
    ensures |names| == |users|
    ensures forall i :: 0 <= i < |users| ==> names[i] == users[i].name
  {
    seq(|users|, i requires 0 <= i < |users| => users[i].name)
  }

  /** The `UNIQUE` constraint on `users.name`. */
  predicate UniqueNames(users: seq<UserRow>) {
    forall i, j :: 0 <= i < j < |users| ==> users[i].name != users[j].name
  }

  // ---- users: INSERT, DELETE, UPDATE, SELECT ----

  /**
    `INSERT INTO users (name) VALUES (?)`: a new name gets a row with the
    default columns; a name already present violates `UNIQUE` and the table
    stays as it was.
   */
  function Inserted(users: seq<UserRow>, name: string, now: real): (r: seq<UserRow>)
    requires UniqueNames(users)
    ensures UniqueNames(r)
    ensures name in Names(r)
    ensures name in Names(users) ==> r == users
    ensures name !in Names(users) ==> r == users + [UserRow(name, now, None, 0)]
  {
    if name in Names(users) then users
    else
      var r := users + [UserRow(name, now, None, 0)];
      assert Names(r)[|users|] == name;
      r
  }

  /** `DELETE FROM users WHERE name = ?`. */
  function Without(users: seq<UserRow>, name: string): (r: seq<UserRow>)
    ensures |r| <= |users|
  {
    if users == [] then []
    else (if users[0].name == name then [] else [users[0]]) + Without(users[1..], name)
  }

  /** The rows left are exactly the old rows with another name. */
  lemma {:induction false} WithoutMembers(users: seq<UserRow>, name: string)
    ensures forall u :: u in Without(users, name) <==> u in users && u.name != name
    ensures name !in Names(Without(users, name))
  {
    if users != [] {
      WithoutMembers(users[1..], name);
      var rest := Without(users[1..], name);
      var head := if users[0].name == name then [] else [users[0]];
      assert Without(users, name) == head + rest;
      assert users == [users[0]] + users[1..];
      forall u ensures u in head + rest <==> u in users && u.name != name {
        assert u in head + rest <==> u in head || u in rest;
        assert u in users <==> u == users[0] || u in users[1..];
      }
      forall k | 0 <= k < |head + rest| ensures Names(head + rest)[k] != name {
        assert (head + rest)[k] in head + rest;
      }
    }
  }

  /** The table shrinks exactly when some row had the name. */
  lemma {:induction false} WithoutShrinks(users: seq<UserRow>, name: string)
    ensures |Without(users, name)| < |users| <==> name in Names(users)
  {
    if users != [] {
      WithoutShrinks(users[1..], name);
      assert Names(users) == [users[0].name] + Names(users[1..]);
    }
  }

  /** Deleting keeps the names unique. */
  lemma {:induction false} WithoutUnique(users: seq<UserRow>, name: string)
    requires UniqueNames(users)
    ensures UniqueNames(Without(users, name))
  {
    if users != [] {
      var rest := Without(users[1..], name);
      assert UniqueNames(users[1..]);
      WithoutUnique(users[1..], name);
      if users[0].name != name {
        WithoutMembers(users[1..], name);
        ConsKeepsUnique(users, rest);
      }
    }
  }

  /** Rows drawn from the tail of a table with unique names keep the head's name unique. */
  lemma ConsKeepsUnique(users: seq<UserRow>, rest: seq<UserRow>)
    requires |users| > 0 && UniqueNames(users) && UniqueNames(rest)
    requires forall u :: u in rest ==> u in users[1..]
    ensures UniqueNames([users[0]] + rest)
  {
    forall k | 0 <= k < |rest| ensures Names(rest)[k] != users[0].name {
      assert rest[k] in users[1..];
      var m :| 0 <= m < |users[1..]| && users[1..][m] == rest[k];
      assert users[m + 1] == rest[k];
    }
    ConsUnique(users[0], rest);
  }

  /** With unique names, deleting a present name removes exactly its row and keeps the others in order. */
  lemma {:induction false} WithoutRemovesOne(users: seq<UserRow>, name: string, k: nat)
    requires UniqueNames(users)
    requires k < |users| && users[k].name == name
    ensures Without(users, name) == users[..k] + users[k + 1..]
  {
    assert Without(users, name) == (if users[0].name == name then [] else [users[0]]) + Without(users[1..], name);
    if k == 0 {
      forall j | 0 <= j < |users[1..]| ensures Names(users[1..])[j] != name {
        assert users[1..][j] == users[j + 1];
      }
      WithoutAbsent(users[1..], name);
    } else {
      assert users[0].name != users[k].name;
      assert users[1..][k - 1] == users[k];
      assert UniqueNames(users[1..]);
      WithoutRemovesOne(users[1..], name, k - 1);
      assert users[..k] + users[k + 1..] == [users[0]] + (users[1..][..k - 1] + users[1..][k..]);
    }
  }

  lemma {:induction false} WithoutAbsent(users: seq<UserRow>, name: string)
    requires name !in Names(users)
    ensures Without(users, name) == users
  {
    if users != [] {
      assert Names(users) == [users[0].name] + Names(users[1..]);
      WithoutAbsent(users[1..], name);
      assert users == [users[0]] + users[1..];
    }
  }

  /** `UPDATE users SET last_seen = ?, access_count = access_count + 1 WHERE name = ?`. */
  function Touched(users: seq<UserRow>, name: string, now: real): (r: seq<UserRow>)
    ensures |r| == |users| && Names(r) == Names(users)
    ensures forall i :: 0 <= i < |users| && users[i].name == name ==>
              r[i].accessCount == users[i].accessCount + 1 && r[i].lastSeen == Some(now)
              && r[i].createdAt == users[i].createdAt
    ensures forall i :: 0 <= i < |users| && users[i].name != name ==> r[i] == users[i]
  {
    seq(|users|, i requires 0 <= i < |users| =>
      if users[i].name == name
      then users[i].(lastSeen := Some(now), accessCount := users[i].accessCount + 1)
      else users[i])
  }

  /** `SELECT ... FROM users WHERE name = ?` followed by `fetchone()`. */
  function Lookup(users: seq<UserRow>, name: string): (r: Option<UserRow>)
    ensures r.Some? <==> name in Names(users)
    ensures r.Some? ==> r.value in users && r.value.name == name
  {
    if users == [] then None
    else
      assert Names(users) == [users[0].name] + Names(users[1..]);
      if users[0].name == name then Some(users[0]) else Lookup(users[1..], name)
  }

  // ---- ORDER BY name ----

  /** SQLite's default BINARY collation: code-point-wise lexicographic order. */
  predicate NameLe(a: string, b: string)
    decreases |a|
  {
    |a| == 0 || (|b| > 0 && (a[0] < b[0] || (a[0] == b[0] && NameLe(a[1..], b[1..]))))
  }

  lemma {:induction false} NameLeTotal(a: string, b: string)
    ensures NameLe(a, b) || NameLe(b, a)
    decreases |a|
  {
    if |a| > 0 && |b| > 0 && a[0] == b[0] {
      NameLeTotal(a[1..], b[1..]);
    }
  }

  lemma {:induction false} NameLeTrans(a: string, b: string, c: string)
    requires NameLe(a, b) && NameLe(b, c)
    ensures NameLe(a, c)
    decreases |a|
  {
    if |a| > 0 && |b| > 0 && |c| > 0 && a[0] == b[0] == c[0] {
      NameLeTrans(a[1..], b[1..], c[1..]);
    }
  }

  predicate SortedByName(rows: seq<UserRow>) {
    forall i, j :: 0 <= i < j < |rows| ==> NameLe(rows[i].name, rows[j].name)
  }

  function InsertByName(u: UserRow, rows: seq<UserRow>): (r: seq<UserRow>)
    requires SortedByName(rows)
    ensures SortedByName(r)
    ensures multiset(r) == multiset(rows) + multiset{u}
  {
    if rows == [] || NameLe(u.name, rows[0].name) then
      ConsSortedByName(u, rows);
      [u] + rows
    else
      var tail := InsertByName(u, rows[1..]);
      NameLeTotal(u.name, rows[0].name);
      InsertAfterHeadByName(u, rows, tail);
      [rows[0]] + tail
  }

  lemma ConsSortedByName(u: UserRow, rows: seq<UserRow>)
    requires SortedByName(rows)
    requires rows == [] || NameLe(u.name, rows[0].name)
    ensures SortedByName([u] + rows)
  {
    var r := [u] + rows;
    forall i, j | 0 <= i < j < |r| ensures NameLe(r[i].name, r[j].name) {
      assert r[j] == rows[j - 1];
      if i == 0 {
        if j > 1 { NameLeTrans(u.name, rows[0].name, rows[j - 1].name); }
      } else {
        assert r[i] == rows[i - 1];
      }
    }
  }

  lemma InsertAfterHeadByName(u: UserRow, rows: seq<UserRow>, tail: seq<UserRow>)
    requires |rows| > 0 && SortedByName(rows) && NameLe(rows[0].name, u.name)
    requires SortedByName(tail) && multiset(tail) == multiset(rows[1..]) + multiset{u}
    ensures SortedByName([rows[0]] + tail)
    ensures multiset([rows[0]] + tail) == multiset(rows) + multiset{u}
  {
    assert rows == [rows[0]] + rows[1..];
    if tail != [] {
      assert tail[0] in multiset(tail);
      if tail[0] != u {
        assert tail[0] in multiset(rows[1..]);
        var m :| 0 <= m < |rows[1..]| && rows[1..][m] == tail[0];
        assert rows[m + 1] == tail[0];
      }
    }
    ConsSortedByName(rows[0], tail);
  }

  /** `ORDER BY name`: the same rows, in name order. */
  function SortByName(rows: seq<UserRow>): (r: seq<UserRow>)
    ensures SortedByName(r)
    ensures multiset(r) == multiset(rows)
  {
    if rows == [] then []
    else
      assert rows == [rows[0]] + rows[1..];
      InsertByName(rows[0], SortByName(rows[1..]))
  }

  /** Inserting a row adds exactly its name. */
  lemma {:induction false} InsertByNameNames(u: UserRow, rows: seq<UserRow>)
    requires SortedByName(rows)
    ensures forall n :: n in Names(InsertByName(u, rows)) <==> n == u.name || n in Names(rows)
    decreases |rows|
  {
    var r := InsertByName(u, rows);
    if rows == [] || NameLe(u.name, rows[0].name) {
      NamesCons(u, rows);
    } else {
      var tail := InsertByName(u, rows[1..]);
      InsertByNameNames(u, rows[1..]);
      assert rows == [rows[0]] + rows[1..];
      NamesCons(rows[0], rows[1..]);
      NamesCons(rows[0], tail);
    }
  }

  lemma NamesCons(x: UserRow, rows: seq<UserRow>)
    ensures Names([x] + rows) == [x.name] + Names(rows)
  {
    assert forall i :: 0 < i < |rows| + 1 ==> ([x] + rows)[i] == rows[i - 1];
  }

  /** Inserting a row with a new name into rows with unique names keeps the names unique. */
  lemma {:induction false} InsertByNameUnique(u: UserRow, rows: seq<UserRow>)
    requires SortedByName(rows)
    requires UniqueNames(rows) && u.name !in Names(rows)
    ensures UniqueNames(InsertByName(u, rows))
    decreases |rows|
  {
    if rows == [] || NameLe(u.name, rows[0].name) {
      ConsUnique(u, rows);
    } else {
      var tail := InsertByName(u, rows[1..]);
      assert Names(rows) == [rows[0].name] + Names(rows[1..]);
      InsertByNameUnique(u, rows[1..]);
      InsertByNameNames(u, rows[1..]);
      ConsUnique(rows[0], tail);
    }
  }

  lemma ConsUnique(x: UserRow, rows: seq<UserRow>)
    requires UniqueNames(rows) && x.name !in Names(rows)
    ensures UniqueNames([x] + rows)
  {
    forall i, j | 0 <= i < j < |[x] + rows| ensures ([x] + rows)[i].name != ([x] + rows)[j].name {
      if i == 0 {
        assert ([x] + rows)[j].name == Names(rows)[j - 1];
      }
    }
  }

  /** `ORDER BY name` neither adds nor drops a name, and keeps names unique. */
  lemma {:induction false} SortByNameUnique(rows: seq<UserRow>)
    ensures forall n :: n in Names(SortByName(rows)) <==> n in Names(rows)
    ensures UniqueNames(rows) ==> UniqueNames(SortByName(rows))
    decreases |rows|
  {
    if rows != [] {
      SortByNameUnique(rows[1..]);
      InsertByNameNames(rows[0], SortByName(rows[1..]));
      if UniqueNames(rows) {
        InsertByNameUnique(rows[0], SortByName(rows[1..]));
      }
      assert Names(rows) == [rows[0].name] + Names(rows[1..]);
    }
  }

  // ---- access_logs: INSERT and ORDER BY timestamp DESC ----

  /** `INSERT INTO access_logs (event_type, person_name, details) VALUES (?, ?, ?)`. */
  function Appended(logs: seq<LogRow>, eventType: string, person: Option<string>, details: Option<string>, now: real): (r: seq<LogRow>)
    ensures |r| == |logs| + 1 && r[..|logs|] == logs
    ensures r[|logs|] == LogRow(now, eventType, person, details)
  {
    logs + [LogRow(now, eventType, person, details)]
  }

  predicate NewestFirst(rows: seq<LogRow>) {
    forall i, j :: 0 <= i < j < |rows| ==> rows[j].timestamp <= rows[i].timestamp
  }

  function InsertByTime(x: LogRow, rows: seq<LogRow>): (r: seq<LogRow>)
    requires NewestFirst(rows)
    ensures NewestFirst(r)
    ensures multiset(r) == multiset(rows) + multiset{x}
  {
    if rows == [] || rows[0].timestamp <= x.timestamp then
      ConsNewestFirst(x, rows);
      [x] + rows
    else
      var tail := InsertByTime(x, rows[1..]);
      InsertAfterHeadByTime(x, rows, tail);
      [rows[0]] + tail
  }

  lemma ConsNewestFirst(x: LogRow, rows: seq<LogRow>)
    requires NewestFirst(rows)
    requires rows == [] || rows[0].timestamp <= x.timestamp
    ensures NewestFirst([x] + rows)
  {
    var r := [x] + rows;
    forall i, j | 0 <= i < j < |r| ensures r[j].timestamp <= r[i].timestamp {
      assert r[j] == rows[j - 1];
      if i > 0 {
        assert r[i] == rows[i - 1];
      }
    }
  }

  lemma InsertAfterHeadByTime(x: LogRow, rows: seq<LogRow>, tail: seq<LogRow>)
    requires |rows| > 0 && NewestFirst(rows) && x.timestamp < rows[0].timestamp
    requires NewestFirst(tail) && multiset(tail) == multiset(rows[1..]) + multiset{x}
    ensures NewestFirst([rows[0]] + tail)
    ensures multiset([rows[0]] + tail) == multiset(rows) + multiset{x}
  {
    assert rows == [rows[0]] + rows[1..];
    if tail != [] {
      assert tail[0] in multiset(tail);
      if tail[0] != x {
        assert tail[0] in multiset(rows[1..]);
        var m :| 0 <= m < |rows[1..]| && rows[1..][m] == tail[0];
        assert rows[m + 1] == tail[0];
      }
    }
    ConsNewestFirst(rows[0], tail);
  }

  /** `ORDER BY timestamp DESC`. */
  function SortNewestFirst(rows: seq<LogRow>): (r: seq<LogRow>)
    ensures NewestFirst(r)
    ensures multiset(r) == multiset(rows)
  {
    if rows == [] then []
    else
      assert rows == [rows[0]] + rows[1..];
      InsertByTime(rows[0], SortNewestFirst(rows[1..]))
  }

  /**
    `SELECT ... FROM access_logs ORDER BY timestamp DESC LIMIT ?`: the
    `limit` newest rows, newest first. A negative LIMIT means no limit
    in SQLite.
   */
  function Recent(logs: seq<LogRow>, limit: int): (r: seq<LogRow>)
    ensures |r| == if 0 <= limit < |logs| then limit else |logs|
    ensures NewestFirst(r)
    ensures multiset(r) <= multiset(logs)
    ensures forall x :: x in multiset(logs) - multiset(r) ==>
              forall i :: 0 <= i < |r| ==> x.timestamp <= r[i].timestamp
  {
    var s := SortNewestFirst(logs);
    assert |s| == |logs| by { assert |multiset(s)| == |multiset(logs)|; }
    if 0 <= limit < |s| then
      NewestPrefix(s, limit);
      s[..limit]
    else s
  }

  /** The first `limit` rows of a newest-first table are at least as new as every row after them. */
  lemma NewestPrefix(s: seq<LogRow>, limit: nat)
    requires NewestFirst(s) && limit <= |s|
    ensures NewestFirst(s[..limit])
    ensures multiset(s[..limit]) <= multiset(s)
    ensures forall x :: x in multiset(s) - multiset(s[..limit]) ==>
              forall i :: 0 <= i < limit ==> x.timestamp <= s[..limit][i].timestamp
  {
    var r := s[..limit];
    assert s == r + s[limit..];
    PrefixAboveRest(s, limit);
    assert NewestFirst(r) by {
      forall i, j | 0 <= i < j < limit ensures r[j].timestamp <= r[i].timestamp {
        assert r[i] == s[i] && r[j] == s[j];
      }
    }
  }

  lemma PrefixAboveRest(s: seq<LogRow>, limit: nat)
    requires NewestFirst(s) && limit <= |s|
    ensures forall x :: x in multiset(s) - multiset(s[..limit]) ==>
              forall i :: 0 <= i < limit ==> x.timestamp <= s[i].timestamp
  {
    var rest := s[limit..];
    assert s == s[..limit] + rest;
    assert multiset(s) - multiset(s[..limit]) == multiset(rest);
    forall x: LogRow | x in multiset(rest)
      ensures forall i :: 0 <= i < limit ==> x.timestamp <= s[i].timestamp
    {
      assert x in rest;
      var j :| 0 <= j < |rest| && rest[j] == x;
      assert rest[j] == s[limit + j];
    }
  }

  /** `WHERE person_name = ?`: a NULL person never matches. */
  function ByPerson(logs: seq<LogRow>, person: string): (r: seq<LogRow>)
    ensures forall x :: multiset(r)[x] == if x.personName == Some(person) then multiset(logs)[x] else 0
  {
    if logs == [] then []
    else
      assert logs == [logs[0]] + logs[1..];
      (if logs[0].personName == Some(person) then [logs[0]] else []) + ByPerson(logs[1..], person)
  }

  /** Whether the database file already holds rows when the manager opens it. */
  datatype Tables = Tables(users: seq<UserRow>, logs: seq<LogRow>)

  class DatabaseManager {
    var users: seq<UserRow>
    var accessLogs: seq<LogRow>

    ghost predicate Valid()
      reads this
    {
      UniqueNames(users)
    }

    /**
      Opens a database file that already holds `existing` (empty tables for
      a new file) and runs `init_database`, which creates only tables that
      are missing and so keeps every row.
     */
    constructor (existing: Tables)
      requires UniqueNames(existing.users)
      ensures Valid()
      ensures users == existing.users && accessLogs == existing.logs
    {
      users := existing.users;
      accessLogs := existing.logs;
      new;
      InitDatabase();
    }

    /** `CREATE TABLE IF NOT EXISTS` for both tables: existing tables and their rows are kept. */
    method InitDatabase()
      requires Valid()
      modifies this
      ensures Valid()
      ensures users == old(users) && accessLogs == old(accessLogs)
    {
    }

    /** Returns whether the insert succeeded, i.e. whether `name` was new. */
    method AddUser(name: string, now: real) returns (added: bool)
      requires Valid()
      modifies this
      ensures Valid()
      ensures added <==> name !in Names(old(users))
      ensures users == Inserted(old(users), name, now)
      ensures accessLogs == old(accessLogs)
    {
      added := name !in Names(users);
      users := Inserted(users, name, now);
    }

    /** Returns `cursor.rowcount > 0`: whether some row had that name. */
    method DeleteUser(name: string) returns (removed: bool)
      requires Valid()
      modifies this
      ensures Valid()
      ensures removed <==> name in Names(old(users))
      ensures users == Without(old(users), name)
      ensures accessLogs == old(accessLogs)
    {
      var before := |users|;
      WithoutShrinks(users, name);
      WithoutUnique(users, name);
      users := Without(users, name);
      removed := |users| < before;
    }

    /** All users, ordered by name. */
    function GetAllUsers(): (r: seq<UserRow>)
      reads this
      ensures SortedByName(r)
      ensures multiset(r) == multiset(users)
      ensures Valid() ==> UniqueNames(r)
    {
      SortByNameUnique(users);
      SortByName(users)
    }

    function GetUser(name: string): (r: Option<UserRow>)
      reads this
      ensures r.Some? <==> name in Names(users)
      ensures r.Some? ==> r.value in users && r.value.name == name
    {
      Lookup(users, name)
    }

    method UpdateUserAccess(name: string, now: real)
      requires Valid()
      modifies this
      ensures Valid()
      ensures users == Touched(old(users), name, now)
      ensures accessLogs == old(accessLogs)
    {
      users := Touched(users, name, now);
    }

    method LogAccessEvent(eventType: string, person: Option<string>, details: Option<string>, now: real)
      requires Valid()
      modifies this
      ensures Valid()
      ensures accessLogs == Appended(old(accessLogs), eventType, person, details, now)
      ensures users == old(users)
    {
      accessLogs := Appended(accessLogs, eventType, person, details, now);
    }

    function GetRecentAccessLogs(limit: int): (r: seq<LogRow>)
      reads this
      ensures |r| == if 0 <= limit < |accessLogs| then limit else |accessLogs|
      ensures NewestFirst(r)
      ensures multiset(r) <= multiset(accessLogs)
      ensures forall x :: x in multiset(accessLogs) - multiset(r) ==>
                forall i :: 0 <= i < |r| ==> x.timestamp <= r[i].timestamp
    {
      Recent(accessLogs, limit)
    }

    /**
      The rows naming `person`, newest first. The query selects only the
      id, timestamp, event type and details columns; the rows here keep
      the person column too, which is `person` in every one of them.
     */
    function GetUserAccessLogs(person: string): (r: seq<LogRow>)
      reads this
      ensures NewestFirst(r)
      ensures forall x :: multiset(r)[x] == if x.personName == Some(person) then multiset(accessLogs)[x] else 0
    {
      SortNewestFirst(ByPerson(accessLogs, person))
    }
  }

  /** Each user-table mutator keeps `name` unique, and `add_user` of a present name is refused. */
  lemma {:induction false} AddUserTwiceRefused(users: seq<UserRow>, name: string, t1: real, t2: real)
    requires UniqueNames(users)
    ensures Inserted(Inserted(users, name, t1), name, t2) == Inserted(users, name, t1)
  {
  }
}
