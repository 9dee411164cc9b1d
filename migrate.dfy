/**
  The one-off migration of migrate_data.py: users from the encoding files
  of `known_faces`, and events from the text log `door_access.log`, into
  the database.
 */
module Migrate {
  import opened Wrappers
  import opened Text
  import Store
  import opened Files

  // ---------------------------------------------------------------------
  // Users (migrate_data.py:12-35)
  // ---------------------------------------------------------------------

  /** The users table after `add_user` of every encoding file's name, in listing order. */
  function UsersAfter(users: seq<Store.UserRow>, files: seq<string>, now: real): (r: seq<Store.UserRow>)
    requires Store.UniqueNames(users)
    ensures Store.UniqueNames(r)
    decreases |files|
  {
    if files == [] then users
    else
      var prev := UsersAfter(users, files[..|files| - 1], now);
      var f := files[|files| - 1];
      if EndsWith(f, ENCODING_SUFFIX) then Store.Inserted(prev, EncodingName(f), now) else prev
  }

  /** The names of the encoding files in a listing. */
  predicate NamedBy(files: seq<string>, n: string) {
    exists i :: 0 <= i < |files| && EndsWith(files[i], ENCODING_SUFFIX) && EncodingName(files[i]) == n
  }

  /**
    Migration adds every encoding file's name that was missing and no
    other: the rows already there stay first and unchanged, the names
    afterwards are the old names plus the files' names, and at most one
    row is added per encoding file.
   */
  lemma {:induction false} UsersAfterNames(users: seq<Store.UserRow>, files: seq<string>, now: real)
    requires Store.UniqueNames(users)
    ensures users <= UsersAfter(users, files, now)
    ensures forall n :: n in Store.Names(UsersAfter(users, files, now)) <==> n in Store.Names(users) || NamedBy(files, n)
    ensures forall i :: |users| <= i < |UsersAfter(users, files, now)| ==>
              UsersAfter(users, files, now)[i].accessCount == 0 && UsersAfter(users, files, now)[i].lastSeen.None?
    ensures |UsersAfter(users, files, now)| - |users| <= |files|
    decreases |files|
  {
    if files != [] {
      var init := files[..|files| - 1];
      var f := files[|files| - 1];
      UsersAfterNames(users, init, now);
      forall n ensures NamedBy(files, n) <==> NamedBy(init, n) || (EndsWith(f, ENCODING_SUFFIX) && EncodingName(f) == n) {
        if NamedBy(init, n) {
          var i :| 0 <= i < |init| && EndsWith(init[i], ENCODING_SUFFIX) && EncodingName(init[i]) == n;
          assert files[i] == init[i];
        }
        if NamedBy(files, n) {
          var i :| 0 <= i < |files| && EndsWith(files[i], ENCODING_SUFFIX) && EncodingName(files[i]) == n;
          if i < |init| {
            assert init[i] == files[i];
          }
        }
      }
      var prev := UsersAfter(users, init, now);
      if EndsWith(f, ENCODING_SUFFIX) {
        var r := Store.Inserted(prev, EncodingName(f), now);
        if EncodingName(f) !in Store.Names(prev) {
          forall n ensures n in Store.Names(r) <==> n in Store.Names(prev) || n == EncodingName(f) {
            assert Store.Names(r) == Store.Names(prev) + [EncodingName(f)];
          }
        }
      }
    }
  }

  /** Encoding files whose names are all enrolled already add nobody. */
  lemma {:induction false} UsersAfterEnrolled(users: seq<Store.UserRow>, files: seq<string>, now: real)
    requires Store.UniqueNames(users)
    requires forall n :: NamedBy(files, n) ==> n in Store.Names(users)
    ensures UsersAfter(users, files, now) == users
    decreases |files|
  {
    if files != [] {
      var init := files[..|files| - 1];
      forall n | NamedBy(init, n) ensures n in Store.Names(users) {
        var i :| 0 <= i < |init| && EndsWith(init[i], ENCODING_SUFFIX) && EncodingName(init[i]) == n;
        assert files[i] == init[i];
      }
      UsersAfterEnrolled(users, init, now);
      var f := files[|files| - 1];
      if EndsWith(f, ENCODING_SUFFIX) {
        assert NamedBy(files, EncodingName(f));
      }
    }
  }

  /** Running the user migration a second time over the same directory adds no one. */
  lemma UsersAfterIdempotent(users: seq<Store.UserRow>, files: seq<string>, now: real, later: real)
    requires Store.UniqueNames(users)
    ensures UsersAfter(UsersAfter(users, files, now), files, later) == UsersAfter(users, files, now)
  {
    UsersAfterNames(users, files, now);
    UsersAfterEnrolled(UsersAfter(users, files, now), files, later);
  }

  /**
    `migrate_users`: nothing when `known_faces` is missing; otherwise
    `add_user` for the name of each encoding file, counting the calls that
    return True, so the count is the number of rows added.
   */
  method MigrateUsers(db: Store.DatabaseManager, listing: Option<seq<string>>, now: real) returns (count: nat)
    requires db.Valid()
    modifies db
    ensures db.Valid() && db.accessLogs == old(db.accessLogs)
    ensures listing.None? ==> db.users == old(db.users) && count == 0
    ensures listing.Some? ==> db.users == UsersAfter(old(db.users), listing.value, now)
    ensures count == |db.users| - |old(db.users)|
  {
    count := 0;
    if listing.None? {
      return;
    }
    var files := listing.value;
    var i := 0;
    while i < |files|
      invariant 0 <= i <= |files|
      invariant db.Valid() && db.accessLogs == old(db.accessLogs)
      invariant db.users == UsersAfter(old(db.users), files[..i], now)
      invariant count == |db.users| - |old(db.users)|
    {
      var file := files[i];
      assert files[..i + 1][..i] == files[..i];
      if EndsWith(file, ENCODING_SUFFIX) {
        var username := RemoveAll(file, ENCODING_SUFFIX);
        var added := db.AddUser(username, now);
        if added {
          count := count + 1;
        }
      }
      i := i + 1;
    }
    assert files[..|files|] == files;
  }

  // ---------------------------------------------------------------------
  // Logs (migrate_data.py:37-71)
  // ---------------------------------------------------------------------

  /** The three fields of a log line: `timestamp,event,person`, the person possibly holding commas. */
  datatype LogFields = LogFields(timestamp: string, event: string, person: string)

  /**
    One line of the log file: blank lines and lines with fewer than two
    commas (after `strip()`) are skipped; otherwise the line is cut at its
    first two commas.
   */
  function ParseLogLine(line: string): (r: Option<LogFields>)
    ensures r.Some? ==> ',' !in r.value.timestamp && ',' !in r.value.event
  {
    var s := Strip(line);
    if s == [] then None
    else
      var parts := SplitFirstTwo(s, ',');
      if |parts| == 3 then Some(LogFields(parts[0], parts[1], parts[2])) else None
  }

  /**
    A line is migrated exactly when its stripped text holds two commas;
    the fields are then the text before the first comma, between the first
    two, and all the rest.
   */
  lemma ParseLogLineFields(line: string)
    ensures ParseLogLine(line).Some? <==> multiset(Strip(line))[','] >= 2
    ensures ParseLogLine(line).Some? ==>
              var f := ParseLogLine(line).value;
              Strip(line) == f.timestamp + "," + f.event + "," + f.person && ',' !in f.timestamp && ',' !in f.event
  {
    SplitFirstTwoCount(Strip(line), ',');
  }

  /** The `person_name` column for a person field: "N/A" becomes NULL. */
  function PersonColumn(person: string): (p: Option<string>)
    ensures p.None? <==> person == "N/A"
    ensures p.Some? ==> p.value == person
  {
    if person != "N/A" then Some(person) else None
  }

  /**
    The rows the lines after the header produce, in order. The parsed
    timestamp is not used: each row takes the migration's own time, like
    any insert into `access_logs`.
   */
  function MigratedRows(lines: seq<string>, now: real): (rows: seq<Store.LogRow>)
    ensures |rows| <= |lines|
    decreases |lines|
  {
    if lines == [] then []
    else
      MigratedRows(lines[..|lines| - 1], now) + RowsOf(lines[|lines| - 1], now)
  }

  lemma MigratedRowsStep(lines: seq<string>, i: nat, now: real)
    requires i < |lines|
    ensures MigratedRows(lines[..i + 1], now) == MigratedRows(lines[..i], now) + RowsOf(lines[i], now)
  {
    assert lines[..i + 1][..i] == lines[..i];
  }

  /** The row one line produces, if it is well formed. */
  function RowsOf(line: string, now: real): seq<Store.LogRow> {
    match ParseLogLine(line)
    case None => []
    case Some(f) => [Store.LogRow(now, f.event, PersonColumn(f.person), None)]
  }

  /** The lines after the header; an empty file has no header to skip and migrates nothing. */
  function Body(lines: seq<string>): seq<string> {
    if lines == [] then [] else lines[1..]
  }

  /**
    `migrate_logs`: nothing when the log file is missing; otherwise skip
    the header and insert one row per well-formed line, counting them.
   */
  method MigrateLogs(db: Store.DatabaseManager, file: Option<seq<string>>, now: real) returns (count: nat)
    requires db.Valid()
    modifies db
    ensures db.Valid() && db.users == old(db.users)
    ensures file.None? ==> db.accessLogs == old(db.accessLogs) && count == 0
    ensures file.Some? ==> db.accessLogs == old(db.accessLogs) + MigratedRows(Body(file.value), now)
    ensures count == |db.accessLogs| - |old(db.accessLogs)|
  {
    count := 0;
    if file.None? || file.value == [] {
      return;
    }
    var lines := file.value[1..];
    ghost var logs := db.accessLogs;
    var i := 0;
    while i < |lines|
      invariant 0 <= i <= |lines|
      invariant db.Valid() && db.users == old(db.users)
      invariant db.accessLogs == logs + MigratedRows(lines[..i], now)
      invariant count == |db.accessLogs| - |logs|
    {
      var line := lines[i];
      ghost var done := MigratedRows(lines[..i], now);
      ghost var before := db.accessLogs;
      var added := MigrateLine(db, line, now);
      if added {
        count := count + 1;
      }
      ghost var rows := RowsOf(line, now);
      assert db.accessLogs == before + rows;
      MigratedRowsStep(lines, i, now);
      AppendAssoc(logs, done, rows);
      i := i + 1;
    }
    assert lines[..|lines|] == lines;
    assert lines == Body(file.value);
  }

  lemma AppendAssoc(a: seq<Store.LogRow>, b: seq<Store.LogRow>, c: seq<Store.LogRow>)
    ensures (a + b) + c == a + (b + c)
  {
  }

  /** The body of `migrate_logs`' loop for one line: insert its row if it parses. */
  method MigrateLine(db: Store.DatabaseManager, line: string, now: real) returns (added: bool)
    requires db.Valid()
    modifies db
    ensures db.Valid() && db.users == old(db.users)
    ensures db.accessLogs == old(db.accessLogs) + RowsOf(line, now)
    ensures added <==> ParseLogLine(line).Some?
    ensures |db.accessLogs| == |old(db.accessLogs)| + (if added then 1 else 0)
  {
    var fields := ParseLogLine(line);
    added := fields.Some?;
    if added {
      db.LogAccessEvent(fields.value.event, PersonColumn(fields.value.person), None, now);
    }
  }

  // ---------------------------------------------------------------------
  // The log file written by main.py, read back
  // ---------------------------------------------------------------------

  /** The line `DoorLogger.log_event` appends: `timestamp,event,person` and a newline. */
  function WrittenLine(stamp: string, event: string, person: string): string {
    stamp + "," + event + "," + person + "\n"
  }

  /**
    A line the logger can write and the migration reads back whole: no
    field holds a line break (reading the file in text mode splits lines
    at `\n`, `\r` and `\r\n`), the timestamp and event hold no comma,
    and no blank is lost to `strip()` at either end.
   */
  predicate Readable(stamp: string, event: string, person: string) {
    && stamp != [] && !IsSpace(stamp[0]) && ',' !in stamp
    && ',' !in event
    && (person == [] || !IsSpace(person[|person| - 1]))
    && NoLineBreak(stamp) && NoLineBreak(event) && NoLineBreak(person)
  }

  predicate NoLineBreak(s: string) {
    '\n' !in s && '\r' !in s
  }

  /** A readable event is written as exactly one line: its only line break is the final newline. */
  lemma WrittenLineIsOneLine(stamp: string, event: string, person: string)
    requires Readable(stamp, event, person)
    ensures var line := WrittenLine(stamp, event, person);
      && line[|line| - 1] == '\n'
      && NoLineBreak(line[..|line| - 1])
  {
    var line := WrittenLine(stamp, event, person);
    assert line[..|line| - 1] == stamp + "," + event + "," + person;
  }

  /**
    A line written by the logger parses back into the same event and
    person, whatever commas the person holds, as long as the timestamp
    and event hold none.
   */
  lemma LogLineRoundTrip(stamp: string, event: string, person: string)
    requires Readable(stamp, event, person)
    ensures ParseLogLine(WrittenLine(stamp, event, person)) == Some(LogFields(stamp, event, person))
  {
    var line := WrittenLine(stamp, event, person);
    WrittenLineStripped(stamp, event, person);
    SplitJoined(stamp, event, person, ',');
    assert ParseLogLine(line) == Some(LogFields(stamp, event, person));
  }

  /** `strip()` takes exactly the newline off a written line. */
  lemma WrittenLineStripped(stamp: string, event: string, person: string)
    requires Readable(stamp, event, person)
    ensures Strip(WrittenLine(stamp, event, person)) == stamp + [','] + event + [','] + person
  {
    var core := stamp + [','] + event + [','] + person;
    var line := WrittenLine(stamp, event, person);
    assert line == core + "\n";
    assert core[|core| - 1] == if person == [] then ',' else person[|person| - 1];
    assert line[0] == stamp[0];
    assert StripLeft(line) == line;
    StripRightPadded(core, "\n");
  }

  /** The header `DoorLogger` writes when it creates the log file. */
  const LOG_HEADER := "Timestamp,Event,Person\n"

  /** The lines the logger appends for a sequence of events, in order. */
  function WrittenLines(fs: seq<LogFields>): seq<string>
    decreases |fs|
  {
    if fs == [] then []
    else
      var f := fs[|fs| - 1];
      WrittenLines(fs[..|fs| - 1]) + [WrittenLine(f.timestamp, f.event, f.person)]
  }

  /** The row `migrate_logs` inserts for a logged event. */
  function RowFor(f: LogFields, now: real): Store.LogRow {
    Store.LogRow(now, f.event, PersonColumn(f.person), None)
  }

  /** The rows for a sequence of logged events, one each, in order. */
  function RowsFor(fs: seq<LogFields>, now: real): (rows: seq<Store.LogRow>)
    ensures |rows| == |fs|
    ensures forall i :: 0 <= i < |fs| ==> rows[i] == RowFor(fs[i], now)
    decreases |fs|
  {
    if fs == [] then [] else RowsFor(fs[..|fs| - 1], now) + [RowFor(fs[|fs| - 1], now)]
  }

  lemma {:induction false} MigratedWrittenLines(fs: seq<LogFields>, now: real)
    requires forall i :: 0 <= i < |fs| ==> Readable(fs[i].timestamp, fs[i].event, fs[i].person)
    ensures MigratedRows(WrittenLines(fs), now) == RowsFor(fs, now)
    decreases |fs|
  {
    if fs != [] {
      var init := fs[..|fs| - 1];
      var f := fs[|fs| - 1];
      var lines := WrittenLines(fs);
      MigratedWrittenLines(init, now);
      WrittenRow(f, now);
      assert lines[..|lines| - 1] == WrittenLines(init);
    }
  }

  lemma WrittenRow(f: LogFields, now: real)
    requires Readable(f.timestamp, f.event, f.person)
    ensures RowsOf(WrittenLine(f.timestamp, f.event, f.person), now) == [RowFor(f, now)]
  {
    LogLineRoundTrip(f.timestamp, f.event, f.person);
  }

  /**
    The timestamp field never reaches the table: two lines that differ
    only in their timestamps, well formed or not as dates, give the same
    row, stamped with the migration's own time.
   */
  lemma TimestampIgnored(stamp1: string, stamp2: string, event: string, person: string, now: real)
    requires Readable(stamp1, event, person) && Readable(stamp2, event, person)
    ensures RowsOf(WrittenLine(stamp1, event, person), now) == RowsOf(WrittenLine(stamp2, event, person), now)
    ensures RowsOf(WrittenLine(stamp1, event, person), now) == [Store.LogRow(now, event, PersonColumn(person), None)]
  {
    WrittenRow(LogFields(stamp1, event, person), now);
    WrittenRow(LogFields(stamp2, event, person), now);
  }

  /**
    Migrating a log file the logger wrote (its header, then one line per
    event) inserts one row per event, in order, with the event and the
    person ("N/A" as NULL).
   */
  lemma MigrateWrittenLog(fs: seq<LogFields>, now: real)
    requires forall i :: 0 <= i < |fs| ==> Readable(fs[i].timestamp, fs[i].event, fs[i].person)
    ensures MigratedRows(Body([LOG_HEADER] + WrittenLines(fs)), now) == RowsFor(fs, now)
  {
    assert Body([LOG_HEADER] + WrittenLines(fs)) == WrittenLines(fs);
    MigratedWrittenLines(fs, now);
  }

  // ---------------------------------------------------------------------
  // main() (migrate_data.py:73-86)
  // ---------------------------------------------------------------------

  /**
    `main`: create any missing tables, then migrate users, then logs. Users
    come only from the listing and rows only from the log file; each step
    leaves the other table alone.
   */
  method MigrateAll(db: Store.DatabaseManager, listing: Option<seq<string>>, file: Option<seq<string>>, now: real)
    returns (users: nat, logs: nat)
    requires db.Valid()
    modifies db
    ensures db.Valid()
    ensures db.users == (if listing.Some? then UsersAfter(old(db.users), listing.value, now) else old(db.users))
    ensures db.accessLogs == old(db.accessLogs) + (if file.Some? then MigratedRows(Body(file.value), now) else [])
    ensures users == |db.users| - |old(db.users)| && logs == |db.accessLogs| - |old(db.accessLogs)|
  {
    db.InitDatabase();
    users := MigrateUsers(db, listing, now);
    logs := MigrateLogs(db, file, now);
    if file.None? {
      assert db.accessLogs == old(db.accessLogs) + [];
    }
  }
}
