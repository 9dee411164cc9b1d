/**
  The list logic of web_dashboard.py: the rows of the log page, the slice
  the index page shows, and the user list that merges the image files of
  `known_faces` with the `users` table.
 */
module Dashboard {
  import opened Wrappers
  import opened Text
  import Store
  import opened Files

  /** Shown for a log row whose person is NULL or empty. */
  const NO_PERSON: string := "N/A"
  /** `read_access_logs` asks the database for this many rows. */
  const LOG_PAGE: int := 100
  /** The index page shows this many log rows. */
  const INDEX_ROWS: nat := 20

  // ---------------------------------------------------------------------
  // Access logs (web_dashboard.py:14-19, 61-71)
  // ---------------------------------------------------------------------

  /** A row of the log page: `{'timestamp', 'event', 'person'}`. */
  datatype LogView = LogView(timestamp: real, event: string, person: string)

  /** Python's `person_name or "N/A"`: NULL and the empty string are both falsy. */
  function PersonShown(p: Option<string>): (s: string)
    ensures s != []
    ensures p.Some? && p.value != [] ==> s == p.value
    ensures p.None? || p.value == [] ==> s == NO_PERSON
  {
    if p.Some? && p.value != [] then p.value else NO_PERSON
  }

  function ViewOf(row: Store.LogRow): LogView {
    LogView(row.timestamp, row.eventType, PersonShown(row.personName))
  }

  /**
    `read_access_logs`: the 100 newest rows of `access_logs`, newest first,
    each shown with its timestamp, event and (defaulted) person.
   */
  method ReadAccessLogs(db: Store.DatabaseManager) returns (logs: seq<LogView>)
    ensures |logs| == if |db.accessLogs| < LOG_PAGE then |db.accessLogs| else LOG_PAGE
    ensures var rows := db.GetRecentAccessLogs(LOG_PAGE);
      |logs| == |rows| && forall i :: 0 <= i < |logs| ==> logs[i] == ViewOf(rows[i])
    ensures forall i, j :: 0 <= i < j < |logs| ==> logs[j].timestamp <= logs[i].timestamp
    ensures forall i :: 0 <= i < |logs| ==> logs[i].person != []
  {
    var rows := db.GetRecentAccessLogs(LOG_PAGE);
    logs := ShowLogs(rows);
    ViewsNewestFirst(rows, logs);
  }

  /** The loop of `read_access_logs`: one view per row, in the same order. */
  method ShowLogs(rows: seq<Store.LogRow>) returns (logs: seq<LogView>)
    ensures |logs| == |rows| && forall k :: 0 <= k < |rows| ==> logs[k] == ViewOf(rows[k])
  {
    logs := [];
    var i := 0;
    while i < |rows|
      invariant 0 <= i <= |rows|
      invariant |logs| == i
      invariant forall k :: 0 <= k < i ==> logs[k] == ViewOf(rows[k])
    {
      logs := logs + [ViewOf(rows[i])];
      i := i + 1;
    }
  }

  /** Showing rows one by one keeps them newest first, and every shown row names a person. */
  lemma ViewsNewestFirst(rows: seq<Store.LogRow>, logs: seq<LogView>)
    requires Store.NewestFirst(rows)
    requires |logs| == |rows| && forall k :: 0 <= k < |rows| ==> logs[k] == ViewOf(rows[k])
    ensures forall i, j :: 0 <= i < j < |logs| ==> logs[j].timestamp <= logs[i].timestamp
    ensures forall i :: 0 <= i < |logs| ==> logs[i].person != []
  {
    forall i, j | 0 <= i < j < |logs| ensures logs[j].timestamp <= logs[i].timestamp {
      assert logs[i].timestamp == rows[i].timestamp && logs[j].timestamp == rows[j].timestamp;
    }
  }

  /** The reverse of a sequence. */
  function Reverse<T>(s: seq<T>): (r: seq<T>)
    ensures |r| == |s|
    ensures forall i :: 0 <= i < |s| ==> r[i] == s[|s| - 1 - i]
  {
    if s == [] then [] else Reverse(s[1..]) + [s[0]]
  }

  /**
    `logs[-20:][::-1]` as written in `index`: the last 20 elements (all of
    them when there are fewer), last one first.
   */
  function IndexLogsAsWritten<T>(logs: seq<T>): (r: seq<T>)
    ensures |r| == if |logs| < INDEX_ROWS then |logs| else INDEX_ROWS
    ensures forall i :: 0 <= i < |r| ==> r[i] == logs[|logs| - 1 - i]
  {
    var tail := if |logs| <= INDEX_ROWS then logs else logs[|logs| - INDEX_ROWS..];
    Reverse(tail)
  }

  /**
    The list `read_access_logs` returns is already newest first, so the
    slice as written shows the oldest of those rows, oldest first: with
    more than 20 rows the newest row is not shown, and with two rows of
    different times the first one shown is the older.
   */
  lemma IndexShowsOldest(logs: seq<LogView>)
    requires forall i, j :: 0 <= i < j < |logs| ==> logs[j].timestamp < logs[i].timestamp
    ensures |logs| > INDEX_ROWS ==> logs[0] !in IndexLogsAsWritten(logs)
    ensures forall i, j :: 0 <= i < j < |IndexLogsAsWritten(logs)| ==>
              IndexLogsAsWritten(logs)[i].timestamp < IndexLogsAsWritten(logs)[j].timestamp
  {
    var r := IndexLogsAsWritten(logs);
    if |logs| > INDEX_ROWS {
      forall i | 0 <= i < |r| ensures r[i] != logs[0] {
        assert r[i].timestamp < logs[0].timestamp;
      }
    }
  }

  /**
    The view the comment in `index` describes ("last 20 logs, newest
    first"): the first 20 rows of the newest-first list.
   */
  function IndexLogs<T>(logs: seq<T>): (r: seq<T>)
    ensures |r| == if |logs| < INDEX_ROWS then |logs| else INDEX_ROWS
    ensures r <= logs
  {
    if |logs| <= INDEX_ROWS then logs else logs[..INDEX_ROWS]
  }

  /** The corrected index shows the newest rows, newest first, and no row it leaves out is newer. */
  lemma IndexShowsNewest(logs: seq<LogView>)
    requires forall i, j :: 0 <= i < j < |logs| ==> logs[j].timestamp <= logs[i].timestamp
    ensures forall i, j :: 0 <= i < j < |IndexLogs(logs)| ==>
              IndexLogs(logs)[j].timestamp <= IndexLogs(logs)[i].timestamp
    ensures forall i, j :: 0 <= i < |IndexLogs(logs)| <= j < |logs| ==>
              logs[j].timestamp <= IndexLogs(logs)[i].timestamp
    ensures |logs| > 0 ==> IndexLogs(logs)[0] == logs[0]
  {
  }

  // ---------------------------------------------------------------------
  // Registered users (web_dashboard.py:73-110)
  // ---------------------------------------------------------------------

  /** The `users` columns copied into a dashboard entry. */
  datatype DbInfo = DbInfo(createdAt: real, lastSeen: Option<real>, accessCount: nat)

  /** A user entry: name, image file (None when it came from the database only), trained flag, database columns. */
  datatype UserEntry = UserEntry(name: string, image: Option<string>, trained: bool, db: Option<DbInfo>)

  function InfoOf(u: Store.UserRow): DbInfo {
    DbInfo(u.createdAt, u.lastSeen, u.accessCount)
  }

  /** A face image the user list shows: a `.jpg` file that is not hidden. */
  predicate IsUserImage(file: string) {
    EndsWith(file, IMAGE_SUFFIX) && !StartsWith(file, ".")
  }

  /** `os.path.splitext(file)[0]` of a non-hidden `.jpg` file: the name without `.jpg`. */
  function Stem(file: string): string
    requires IsUserImage(file)
  {
    file[..|file| - |IMAGE_SUFFIX|]
  }

  /** The entry for one image file; `dir` is the full listing used for the trained check. */
  function FileEntry(file: string, dir: seq<string>): UserEntry
    requires IsUserImage(file)
  {
    UserEntry(Stem(file), Some(file), Stem(file) + ENCODING_SUFFIX in dir, None)
  }

  /** The entries built from `files`, in listing order. */
  function FileEntries(files: seq<string>, dir: seq<string>): (r: seq<UserEntry>)
    ensures |r| <= |files|
    decreases |files|
  {
    if files == [] then []
    else
      var f := files[|files| - 1];
      FileEntries(files[..|files| - 1], dir) + (if IsUserImage(f) then [FileEntry(f, dir)] else [])
  }

  /**
    Every non-hidden `.jpg` file gives an entry named after it, trained
    exactly when `<name>_encoding.npy` is in the listing, and nothing
    else gives one.
   */
  lemma {:induction false} FileEntriesFromImages(files: seq<string>, dir: seq<string>)
    ensures forall e :: e in FileEntries(files, dir) ==>
              && e.image.Some? && e.image.value in files && IsUserImage(e.image.value)
              && e.name == Stem(e.image.value) && e.db.None?
              && (e.trained <==> e.name + ENCODING_SUFFIX in dir)
    ensures forall f :: f in files && IsUserImage(f) ==> FileEntry(f, dir) in FileEntries(files, dir)
    decreases |files|
  {
    if files != [] {
      var init := files[..|files| - 1];
      FileEntriesFromImages(init, dir);
      assert files == init + [files[|files| - 1]];
    }
  }

  /** The index of the first entry named `name`. */
  function FirstIndex(users: seq<UserEntry>, name: string): (k: Option<nat>)
    ensures k.Some? ==> k.value < |users| && users[k.value].name == name
    ensures k.Some? ==> forall j :: 0 <= j < k.value ==> users[j].name != name
    ensures k.None? ==> forall j :: 0 <= j < |users| ==> users[j].name != name
  {
    if users == [] then None
    else if users[0].name == name then Some(0)
    else
      var k := FirstIndex(users[1..], name);
      if k.Some? then Some(k.value + 1) else None
  }

  /**
    One database user: the first entry of the same name takes its
    columns; without one, a database-only entry is appended.
   */
  function MergeOne(users: seq<UserEntry>, row: Store.UserRow): seq<UserEntry> {
    match FirstIndex(users, row.name)
    case Some(k) => users[k := users[k].(db := Some(InfoOf(row)))]
    case None => users + [UserEntry(row.name, None, false, Some(InfoOf(row)))]
  }

  /** The database users, in order, merged into the entries. */
  function Merge(users: seq<UserEntry>, rows: seq<Store.UserRow>): seq<UserEntry>
    decreases |rows|
  {
    if rows == [] then users else MergeOne(Merge(users, rows[..|rows| - 1]), rows[|rows| - 1])
  }

  /** The database users whose names no entry of `users` carries. */
  function Unmatched(users: seq<UserEntry>, rows: seq<Store.UserRow>): (r: seq<Store.UserRow>)
    ensures forall x :: x in r ==> x in rows
    decreases |rows|
  {
    if rows == [] then []
    else
      var row := rows[|rows| - 1];
      Unmatched(users, rows[..|rows| - 1]) + (if FirstIndex(users, row.name).None? then [row] else [])
  }

  function EntryNames(users: seq<UserEntry>): (names: seq<string>)
    ensures |names| == |users|
    ensures forall i :: 0 <= i < |users| ==> names[i] == users[i].name
  {
    seq(|users|, i requires 0 <= i < |users| => users[i].name)
  }

  /** `get_registered_users`, from the directory listing (None when `known_faces` is missing) and the `users` table. */
  function RegisteredUsers(dbUsers: seq<Store.UserRow>, listing: Option<seq<string>>): seq<UserEntry> {
    var dir := if listing.Some? then listing.value else [];
    Merge(FileEntries(dir, dir), Store.SortByName(dbUsers))
  }

  /**
    The file entries stay first, in order, with their names, images and
    trained flags; every entry after them is a database-only entry: no
    image, not trained, with database columns.
   */
  lemma {:induction false} MergeKeepsFileEntries(users: seq<UserEntry>, rows: seq<Store.UserRow>)
    ensures |users| <= |Merge(users, rows)|
    ensures forall i :: 0 <= i < |users| ==>
              && Merge(users, rows)[i].name == users[i].name
              && Merge(users, rows)[i].image == users[i].image
              && Merge(users, rows)[i].trained == users[i].trained
    ensures forall i :: |users| <= i < |Merge(users, rows)| ==>
              Merge(users, rows)[i].image.None? && !Merge(users, rows)[i].trained && Merge(users, rows)[i].db.Some?
    decreases |rows|
  {
    if rows != [] {
      MergeKeepsFileEntries(users, rows[..|rows| - 1]);
    }
  }

  /** What one database user does to the list: the earlier entries keep their names, one name is added when nothing matched. */
  lemma MergeOneShape(prev: seq<UserEntry>, row: Store.UserRow)
    ensures EntryNames(MergeOne(prev, row))
            == EntryNames(prev) + (if FirstIndex(prev, row.name).None? then [row.name] else [])
    ensures FirstIndex(MergeOne(prev, row), row.name).Some?
    ensures MergeOne(prev, row)[FirstIndex(MergeOne(prev, row), row.name).value].db == Some(InfoOf(row))
  {
    var m := MergeOne(prev, row);
    match FirstIndex(prev, row.name)
    case Some(k) =>
      assert EntryNames(m) == EntryNames(prev);
      FirstIndexStable(prev, m, row.name);
    case None =>
      assert EntryNames(m) == EntryNames(prev) + [row.name];
      assert m[|prev|].name == row.name;
  }

  /** A name missing from the added names has a first index in the longer list exactly when it has one in the shorter. */
  lemma FirstIndexExtended(users: seq<UserEntry>, prev: seq<UserEntry>, extra: seq<string>, name: string)
    requires EntryNames(prev) == EntryNames(users) + extra
    requires name !in extra
    ensures FirstIndex(prev, name).None? <==> FirstIndex(users, name).None?
  {
    forall j | 0 <= j < |users| ensures prev[j].name == users[j].name {
      assert EntryNames(prev)[j] == EntryNames(users)[j];
    }
    forall j | |users| <= j < |prev| ensures prev[j].name != name {
      assert EntryNames(prev)[j] == extra[j - |users|];
    }
    if FirstIndex(users, name).Some? {
      var k := FirstIndex(users, name).value;
      assert prev[k].name == name;
    }
  }

  /**
    With unique database names, the names of the merged list are the
    entries' names followed by the names of the unmatched database users,
    so its length is the number of entries plus the unmatched users.
   */
  lemma {:induction false} MergeNames(users: seq<UserEntry>, rows: seq<Store.UserRow>)
    requires Store.UniqueNames(rows)
    ensures EntryNames(Merge(users, rows)) == EntryNames(users) + Store.Names(Unmatched(users, rows))
    ensures |Merge(users, rows)| == |users| + |Unmatched(users, rows)|
    decreases |rows|
  {
    if rows != [] {
      var init := rows[..|rows| - 1];
      var row := rows[|rows| - 1];
      var prev := Merge(users, init);
      var un := Unmatched(users, init);
      MergeNames(users, init);
      assert row.name !in Store.Names(un) by {
        forall j | 0 <= j < |un| ensures un[j].name != row.name {
          assert un[j] in init;
          var k :| 0 <= k < |init| && init[k] == un[j];
          assert rows[k] == un[j];
        }
      }
      FirstIndexExtended(users, prev, Store.Names(un), row.name);
      MergeOneShape(prev, row);
      if FirstIndex(users, row.name).None? {
        assert Store.Names(un + [row]) == Store.Names(un) + [row.name];
      }
    }
  }

  /**
    With unique database names, every database user's columns end up on
    the first entry that carries its name.
   */
  lemma {:induction false} MergeRecordsEveryUser(users: seq<UserEntry>, rows: seq<Store.UserRow>)
    requires Store.UniqueNames(rows)
    ensures forall x :: x in rows ==>
              && FirstIndex(Merge(users, rows), x.name).Some?
              && Merge(users, rows)[FirstIndex(Merge(users, rows), x.name).value].db == Some(InfoOf(x))
    decreases |rows|
  {
    if rows != [] {
      var init := rows[..|rows| - 1];
      var row := rows[|rows| - 1];
      var prev := Merge(users, init);
      var m := Merge(users, rows);
      MergeRecordsEveryUser(users, init);
      assert m == MergeOne(prev, row);
      MergeOneShape(prev, row);
      forall x | x in rows
        ensures FirstIndex(m, x.name).Some? && m[FirstIndex(m, x.name).value].db == Some(InfoOf(x))
      {
        if x != row {
          var k :| 0 <= k < |rows| && rows[k] == x;
          assert k < |init| && init[k] == x;
          assert x.name != row.name;
          MergeOneKeepsRecord(prev, row, x);
        }
      }
    }
  }

  /** Merging one database user leaves the record of every other name where it was. */
  lemma MergeOneKeepsRecord(prev: seq<UserEntry>, row: Store.UserRow, x: Store.UserRow)
    requires x.name != row.name
    requires FirstIndex(prev, x.name).Some? && prev[FirstIndex(prev, x.name).value].db == Some(InfoOf(x))
    ensures FirstIndex(MergeOne(prev, row), x.name).Some?
    ensures MergeOne(prev, row)[FirstIndex(MergeOne(prev, row), x.name).value].db == Some(InfoOf(x))
  {
    var m := MergeOne(prev, row);
    MergeOneShape(prev, row);
    assert |prev| <= |m| && forall i :: 0 <= i < |prev| ==> m[i].name == prev[i].name by {
      forall i | 0 <= i < |prev| ensures m[i].name == prev[i].name {
        assert EntryNames(m)[i] == EntryNames(prev)[i];
      }
    }
    var p := FirstIndex(prev, x.name).value;
    FirstIndexStable(prev, m, x.name);
    assert m[p] == prev[p] by {
      assert prev[p].name == x.name;
    }
  }

  /** The first index of a name is the same in a list that keeps the earlier names and extends it. */
  lemma FirstIndexStable(prev: seq<UserEntry>, m: seq<UserEntry>, name: string)
    requires FirstIndex(prev, name).Some?
    requires |prev| <= |m| && forall i :: 0 <= i < |prev| ==> m[i].name == prev[i].name
    ensures FirstIndex(m, name) == FirstIndex(prev, name)
  {
    var p := FirstIndex(prev, name).value;
    forall j | 0 <= j < p ensures m[j].name != name {
      assert prev[j].name != name;
    }
    FirstIndexAt(m, name, p);
  }

  /** An entry carrying the name with no earlier one is the first index. */
  lemma {:induction false} FirstIndexAt(users: seq<UserEntry>, name: string, p: nat)
    requires p < |users| && users[p].name == name
    requires forall j :: 0 <= j < p ==> users[j].name != name
    ensures FirstIndex(users, name) == Some(p)
  {
    if p > 0 {
      assert users[0].name != name;
      forall j | 0 <= j < p - 1 ensures users[1..][j].name != name {
        assert users[1..][j] == users[j + 1];
      }
      FirstIndexAt(users[1..], name, p - 1);
    }
  }

  /** The entries for the image files of a listing, in order. */
  method ListImageUsers(dir: seq<string>) returns (users: seq<UserEntry>)
    ensures users == FileEntries(dir, dir)
  {
    users := [];
    var i := 0;
    while i < |dir|
      invariant 0 <= i <= |dir|
      invariant users == FileEntries(dir[..i], dir)
    {
      var file := dir[i];
      assert dir[..i + 1][..i] == dir[..i];
      if EndsWith(file, IMAGE_SUFFIX) && !StartsWith(file, ".") {
        var username := file[..|file| - |IMAGE_SUFFIX|];
        var trained := username + ENCODING_SUFFIX in dir;
        users := users + [UserEntry(username, Some(file), trained, None)];
      }
      i := i + 1;
    }
    assert dir[..|dir|] == dir;
  }

  /** One database user: search the entries for its name, fill in the first match, or append. */
  method MergeUser(entries: seq<UserEntry>, row: Store.UserRow) returns (users: seq<UserEntry>)
    ensures users == MergeOne(entries, row)
  {
    users := entries;
    var found := false;
    var k := 0;
    while k < |users| && !found
      invariant 0 <= k <= |users| && |users| == |entries|
      invariant !found ==> users == entries && forall q :: 0 <= q < k ==> entries[q].name != row.name
      invariant found ==> 0 < k && FirstIndex(entries, row.name) == Some(k - 1) && users == MergeOne(entries, row)
      decreases |users| - k
    {
      if users[k].name == row.name {
        users := users[k := users[k].(db := Some(InfoOf(row)))];
        found := true;
      }
      k := k + 1;
    }
    if !found {
      users := users + [UserEntry(row.name, None, false, Some(InfoOf(row)))];
    }
  }

  /**
    `get_registered_users`: an entry per image file, then each database
    user (in name order) either fills in the first entry of its name or is
    appended as a database-only entry.
   */
  method GetRegisteredUsers(db: Store.DatabaseManager, listing: Option<seq<string>>) returns (users: seq<UserEntry>)
    ensures users == RegisteredUsers(db.users, listing)
  {
    var dbUsers := db.GetAllUsers();
    var dir := if listing.Some? then listing.value else [];
    users := ListImageUsers(dir);
    users := MergeUsers(users, dbUsers);
  }

  /** The second loop of `get_registered_users`: each database user in turn, merged into the entries. */
  method MergeUsers(fileUsers: seq<UserEntry>, dbUsers: seq<Store.UserRow>) returns (users: seq<UserEntry>)
    ensures users == Merge(fileUsers, dbUsers)
  {
    users := fileUsers;
    var j := 0;
    while j < |dbUsers|
      invariant 0 <= j <= |dbUsers|
      invariant users == Merge(fileUsers, dbUsers[..j])
    {
      assert dbUsers[..j + 1][..j] == dbUsers[..j];
      users := MergeUser(users, dbUsers[j]);
      j := j + 1;
    }
    assert dbUsers[..|dbUsers|] == dbUsers;
  }
}
