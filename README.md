# Face-recognition door system, modelled in Dafny

The system watches a webcam. Each face is matched against the enrolled encodings. A known face is greeted once per session and unlocks the door for five seconds. An unknown face is logged every time it is seen. It is also photographed and reported by mail, but at most once per five-second cooldown. A relay pin, which can be simulated, holds the door's lock state. Every event goes to a text log and to an SQLite database.

The model covers the five programs around that loop:

- **The recognition loop and door control** (`main.py`):
  - module `Access` holds the pure rules: matching, the greet/capture decision, the door timer, one loop cycle and a whole run;
  - module `Door` holds the classes `SimulatedGpio`, `DoorLogger`, `EmailNotifier` and `DoorController`;
  - module `Session` holds the loop itself (class `MainLoop`) and `main()`.

  Each method of a class is proved to move the observable state exactly as an `Access` function says. The properties proved of those functions therefore hold of the objects.
- **The database** (`database.py`): module `Store`. The two tables are sequences of rows held by class `DatabaseManager`.
- **The web dashboard's data** (`web_dashboard.py`): module `Dashboard`. It covers the log page and the list of registered users.
- **Registration** (`register.py`): module `Register`. It covers name checks, the image count, the capture loop, encoding and the overall outcome.
- **Migration** (`migrate_data.py`): module `Migrate`. It rebuilds users from encoding files and log rows from the text log.
- **Python string semantics**: module `Text` models `strip()`, `replace`, `split(',', 2)`, `startswith`/`endswith` and `int()`. Module `Files` holds the `known_faces` file-name conventions.

Inputs the programs read from the outside world are parameters of the model:

- clock readings (`real` seconds);
- camera frames, reduced to the face distances and match flags the recognition library would return, or to key presses;
- directory listings (`None` when the directory is missing);
- log-file lines;
- console answers.

Three behaviours of the code are easy to miss:

- **No "single unlock" rule.** Each newly greeted name calls `unlock_door` again and restarts the unlock timer, even while the door is open (main.py:337-340, main.py:160). `Access.UnlockRestartsTimer` states this. Nothing in the model claims the door is unlocked at most once.
- **The relock poll tests the unlock time, not the lock flag.** It tests the truthiness of the recorded unlock time (main.py:184). A recorded time of `0.0` is falsy and never relocks. `Access.Truthy` models this.
- **The capture cooldown is strict.** An unknown face exactly 5 s after the last capture is logged but not captured (main.py:352).

## Model

| member | source | states |
|---|---|---|
| Access.ArgMin | main.py:328 | `np.argmin` returns the first index holding the minimum distance: no distance is smaller, and every earlier one is strictly larger |
| Access.MatchName | main.py:323-330 | with nothing enrolled the name is "Unknown"; otherwise it is the name at the first nearest encoding when that encoding's match flag is set, and "Unknown" when it is not; the result is always "Unknown" or an enrolled name |
| Access.Decide | main.py:334-352 | the rule for one face, in all four cases: a known name not yet greeted is greeted and let in; a known name already greeted is ignored; an unknown face is captured iff more than 5 s passed since the last capture, and otherwise only logged |
| Access.Next | main.py:334-368 | after one face, a known name is in the greeted set and an unknown face leaves the set alone; the last capture time moves to the face's time exactly when the face is captured |
| Access.NothingEnrolled | main.py:324-325 | with no known encodings, every face is named "Unknown" |
| Access.Sightings | main.py:323-332 | each face of a frame gets exactly the name `MatchName` gives it, with its own clock reading, in order |
| Access.GreetOnce | main.py:335-343 | over any run of faces the greeted set only grows; a name ends up greeted iff it was greeted before or was greeted during the run; nobody is greeted twice, and "Unknown" and already-greeted names never are |
| Access.CaptureSpacing | main.py:349-368 | every capture is more than 5 s after the previous one (the first more than 5 s after the starting value); the last capture time is the time of the last capture, or is unchanged when there was none |
| Access.KnownFaceScenario | main.py:335-343 | a known face unlocks on first sight and does nothing when seen again in the same session |
| Access.UnknownFaceScenario | main.py:344-368 | an unknown face at t=100 is captured, a second at t=102 is only logged, and a third at t=106 is captured again |
| Access.CooldownIsStrict | main.py:352 | an unknown face exactly 5 s after the last capture is logged but not captured |
| Access.HandleFaceLogCounts | main.py:335-347 | handling one face adds exactly one "Unknown Person Detected" entry iff the face is unknown, and one "Authorized Access" entry iff it is a first greeting |
| Access.EveryFaceLogged | main.py:323-347 | over a frame, the "Unknown Person Detected" entries grow by the number of unknown faces (cooldown or not), and the "Authorized Access" entries grow by the number of greetings |
| Access.HandleAllFollowsSession | main.py:322-368 | processing a frame moves the session state, greeting queue and capture list exactly as the decision rules say; the sampling flag is untouched |
| Access.HandleAllShowsNames | main.py:322-333 | `face_names` receives one name per face, in order |
| Access.HandleFaceMoves | main.py:335-368 | one face moves the session as the decision rule says and adds at most one greeting or one capture |
| Access.LogOnlyGrows | main.py:335-347 | handling faces only appends to the text log and to the `access_logs` table; no earlier entry changes |
| Access.UnlockRestartsTimer | main.py:153-161 | `unlock_door` always opens the pin, sets the unlock time to now and logs "Door Opened" for the person, whatever the door's state |
| Access.PollRelocks | main.py:182-186 | a poll at least 5 s after a recorded unlock locks the door, clears the unlock time and logs "Door Locked" once, and a later poll then changes nothing; a poll before 5 s have passed changes nothing |
| Access.CycleFlips | main.py:370 | every loop cycle that reads a frame flips `process_this_frame` |
| Access.SkippedCycle | main.py:298-310 | on a cycle with the flag off, only the door poll happens, and the flag comes back on |
| Access.PolledEveryCycle | main.py:298-300 | the door is polled at the top of every cycle, whether recognition runs or not: a due relock is logged in that cycle |
| Access.SamplingAlternates | main.py:294-370 | over n cycles that read frames, the flag ends as it started iff n is even |
| Access.Initial | main.py:237-295 | start-up leaves the door locked with no unlock time, an empty session and the sampling flag on |
| Access.ApplicationEndsLocked | main.py:393-398 | once the camera opened, the run ends with the door locked and no unlock time, however the loop ended |
| Door.SimulatedGpio.constructor | main.py:21-23 | the simulated pin starts locked, on relay pin 18 |
| Door.SimulatedGpio.Output | main.py:29-36 | driving the pin with 1 unlocks; any other value locks |
| Door.DoorLogger.constructor | main.py:109-117 | opening the logger keeps the lines the log file already holds |
| Door.DoorLogger.LogEvent | main.py:121-132 | an event appends one `timestamp,event,person` line and one `access_logs` row with that event and person, and leaves the users table alone |
| Door.EmailNotifier.constructor | main.py:55-62 | notifications are always enabled and none has been sent |
| Door.EmailNotifier.SendNotification | main.py:67-104 | a request to send appends that notification (subject, and whether an image is attached) |
| Door.DoorController.constructor | main.py:137-151 | the controller drives the pin low, so the door starts locked with no unlock time; the log, database and notifier are untouched |
| Door.DoorController.UnlockDoor | main.py:153-169 | the state moves as `Access.Unlocked` says: pin high, unlock time now, "Door Opened" logged, an "unlocked" mail sent |
| Door.DoorController.LockDoor | main.py:171-180 | the state moves as `Access.Locked` says: pin low, unlock time cleared, "Door Locked" logged |
| Door.DoorController.CheckDoorStatus | main.py:182-186 | the state moves as `Access.Polled` says |
| Door.DoorController.Cleanup | main.py:188-194 | cleanup locks the door exactly as `lock_door` does |
| Session.KnownFaceNamesFromEncodings | main.py:262-280 | a name is enrolled iff some readable `_encoding.npy` file yields it; image files and unreadable encodings add nothing |
| Session.LoadKnownFaces | main.py:262-282 | the loading loop produces one name per readable encoding file, in listing order, and nothing when the directory is missing |
| Session.MainLoop.constructor | main.py:290-295 | the loop starts with nobody greeted, last capture time 0, nothing queued or captured, and sampling on |
| Session.MainLoop.HandleFace | main.py:334-368 | one matched face moves the loop and door state as `Access.HandleFace` says |
| Session.MainLoop.ProcessFrame | main.py:319-368 | recognition restarts `face_names` and then handles each face in order, as `Access.ProcessFrame` says |
| Session.MainLoop.Step | main.py:298-370 | one loop turn moves the state as `Access.Cycle` says |
| Session.MainLoop.RunLoop | main.py:297-386 | the loop runs frame by frame up to the first failed read or 'q', as `Access.Run` says |
| Session.StartSystem | main.py:235-242 | the set-up creates a fresh logger, notifier, pin and controller on the given database, the door locked, and logs "System Started" |
| Session.RunDoorSystem | main.py:235-398 | `main()` yields exactly the state `Access.Application` describes for those inputs, and the database it leaves behind holds that state's `access_logs` rows and users |
| Store.Inserted | database.py:43-57 | inserting a new name appends a row with that name, creation time now, no last-seen time and count 0; an existing name leaves the table unchanged; names stay unique |
| Store.WithoutMembers | database.py:61-69 | the rows left after a delete are exactly the old rows with another name, and the deleted name is gone |
| Store.Without | database.py:61-69 | `DELETE FROM users WHERE name = ?` never leaves more rows than there were; which rows stay is stated by Store.WithoutMembers |
| Store.WithoutShrinks | database.py:61-69 | the table shrinks iff the deleted name was present |
| Store.WithoutUnique | database.py:61-69 | deleting keeps the user names unique |
| Store.WithoutRemovesOne | database.py:61-69 | with unique names, deleting a present name removes exactly its row and keeps the others in order |
| Store.WithoutAbsent | database.py:61-69 | deleting an absent name changes nothing |
| Store.Touched | database.py:93-104 | the named user's count goes up by exactly 1 and its last-seen time becomes now; every other row is unchanged |
| Store.Lookup | database.py:82-91 | a row is found iff the name is present, and it is that user's row |
| Store.SortByName | database.py:76 | `ORDER BY name` yields the same rows, sorted by code-point order of the names (SQLite's default collation) |
| Store.SortByNameUnique | database.py:71-80 | sorting keeps the same names, and names that were unique stay unique |
| Store.Appended | database.py:106-117 | logging appends exactly one row with the given event, person and details, and keeps the earlier rows |
| Store.SortNewestFirst | database.py:125 | `ORDER BY timestamp DESC` yields the same rows with non-increasing timestamps |
| Store.Recent | database.py:124-128 | the result has `limit` rows, or all of them when the limit is negative or at least the table size; it is newest first; it is drawn from the table; every row left out is no newer than every row kept |
| Store.ByPerson | database.py:138-142 | the rows kept are exactly those whose person is the given name, each as often as in the table |
| Store.DatabaseManager.constructor | database.py:9-11 | opening the database keeps the tables it already holds |
| Store.DatabaseManager.InitDatabase | database.py:13-41 | `CREATE TABLE IF NOT EXISTS` loses no row of either table |
| Store.DatabaseManager.AddUser | database.py:43-57 | returns True iff the name was new, and the table becomes the one `Inserted` gives; names stay unique and the log is untouched |
| Store.DatabaseManager.DeleteUser | database.py:61-69 | returns True iff a row with that name existed, and the table becomes the one `Without` gives |
| Store.DatabaseManager.GetAllUsers | database.py:71-80 | all users, sorted by name, with unique names |
| Store.DatabaseManager.GetUser | database.py:82-91 | a row is returned iff the name is present, and it is that user's row |
| Store.DatabaseManager.UpdateUserAccess | database.py:93-104 | the users table changes only as `Touched` says, and the log is untouched |
| Store.DatabaseManager.LogAccessEvent | database.py:106-117 | the log changes only as `Appended` says, and the users are untouched |
| Store.DatabaseManager.GetRecentAccessLogs | database.py:119-131 | at most `limit` rows (all when the limit is negative), newest first, all from the table |
| Store.DatabaseManager.GetUserAccessLogs | database.py:133-145 | newest first, and exactly the rows whose person is the given name |
| Store.AddUserTwiceRefused | database.py:43-57 | adding the same name a second time leaves the table as the first add left it |
| Dashboard.PersonShown | web_dashboard.py:69 | a missing or empty person is shown as "N/A"; any other person is shown as is |
| Dashboard.ShowLogs | web_dashboard.py:65-70 | the page holds one view per database row, in the same order, with the row's timestamp, event and defaulted person |
| Dashboard.ReadAccessLogs | web_dashboard.py:61-71 | the page holds the 100 newest rows (or all, if fewer), newest first, each shown with its timestamp, event and defaulted person; no person shown is empty |
| Dashboard.ViewsNewestFirst | web_dashboard.py:61-71 | showing the database rows one by one keeps them newest first, and `person or "N/A"` never shows an empty person |
| Dashboard.Reverse | web_dashboard.py:19 | `[::-1]` puts element i at position length-1-i |
| Dashboard.IndexLogsAsWritten | web_dashboard.py:19 | `logs[-20:][::-1]` yields the last 20 elements of the list, last element first |
| Dashboard.IndexShowsOldest | web_dashboard.py:19 | on a newest-first list of more than 20 rows with distinct timestamps, the newest row is not on the index page, and the rows shown run oldest first |
| Dashboard.IndexLogs | web_dashboard.py:19 | the corrected view holds the first 20 elements of the list, in order |
| Dashboard.IndexShowsNewest | web_dashboard.py:19 | on a newest-first list the corrected view is newest first, starts with the newest row, and no row left out is newer than a row shown |
| Dashboard.FileEntries | web_dashboard.py:77-88 | at most one entry per file |
| Dashboard.FileEntriesFromImages | web_dashboard.py:77-88 | each entry comes from a non-hidden `.jpg` file, is named after the file without its extension, and is marked trained iff `<name>_encoding.npy` is listed; every such file gives an entry |
| Dashboard.FirstIndex | web_dashboard.py:93-99 | the scan finds the first entry with the name, or reports that none has it |
| Dashboard.Unmatched | web_dashboard.py:100-109 | the database users that get an entry of their own are database users |
| Dashboard.MergeKeepsFileEntries | web_dashboard.py:89-110 | the file entries stay first and in order with their names, images and trained flags; every entry after them has no image, is not trained and carries database columns |
| Dashboard.MergeOneShape | web_dashboard.py:90-109 | merging one database user adds an entry iff no entry had its name, and afterwards the first entry with that name carries its columns |
| Dashboard.MergeNames | web_dashboard.py:100-110 | the names in the list are the file entries' names followed by the unmatched database users' names, so the length is file entries plus unmatched users |
| Dashboard.MergeRecordsEveryUser | web_dashboard.py:90-99 | every database user's columns end up on the first entry bearing its name |
| Dashboard.ListImageUsers | web_dashboard.py:76-88 | the loop over the listing builds exactly the file entries |
| Dashboard.MergeUser | web_dashboard.py:90-109 | the `found`/`break` loop for one database user does exactly what `MergeOne` says |
| Dashboard.MergeUsers | web_dashboard.py:90-99 | the loop over the database users computes `Merge` of the file entries with those users |
| Dashboard.GetRegisteredUsers | web_dashboard.py:73-110 | `get_registered_users` returns the merge of the file entries with the database users sorted by name; a missing directory gives no file entries |
| Register.RequestedCount | register.py:126-131 | the count is always between 1 and 10; it is 3 when the answer is blank or not an integer; otherwise it is the integer clamped to [1, 10] |
| Register.RequestedCountTyped | register.py:126-131 | typing a number from 1 to 10, with any blanks around it, asks for exactly that many images |
| Register.SaveImage | register.py:37-41 | saving the next image extends the saved list to the numbered list of the frames captured so far |
| Register.NumberedAt | register.py:39 | the k-th saved image is named `<name>_<k>.jpg`, counting from 1 |
| Register.CaptureUserImages | register.py:9-55 | the capture loop saves exactly the images `CapturedFiles` gives, and returns True iff at least one was saved |
| Register.CapturedFilesNamed | register.py:24-49 | never more images than requested; exactly the lesser of the request and the 'c' presses before the first failed read or 'q'; none without a camera; each named `<name>_<k>.jpg` in order and matched by the encoder's filter |
| Register.ImageFileIsUserImage | register.py:39-64 | every image the capture saves passes the encoder's prefix and suffix filter |
| Register.ImageFilesDistinct | register.py:39-42 | images with different numbers have different file names |
| Register.EncodedImages | register.py:62-83 | only the user's `.jpg` files are considered; an image contributes iff it holds at least one face; every image with a face contributes |
| Register.EncodeUserFaces | register.py:57-99 | the images used are exactly those `Encoded` gives; the result is True iff some image gave an encoding, so it is False when there are no images |
| Register.Existing | register.py:115 | the existing files are exactly the listed files starting with `<name>_` and ending in `.jpg` or `_encoding.npy` |
| Register.WithoutExisting | register.py:121-123 | after the overwrite, exactly the other files remain |
| Register.CaptureTick | register.py:27-49 | one turn of the capture loop: a failed read or 'q' stops, 'c' saves the frame as the next numbered image, any other key reads on; the frames still to be saved are unchanged by the turn |
| Register.EnrolmentOutcome | register.py:125-146 | capture fails iff no image was saved; encoding fails iff images were saved but none holds a face; the user is registered otherwise, with the clamped count; the new images follow the old files and the encoding file comes last |
| Register.ConfirmedOutcome | register.py:114-146 | the overwrite question cancels iff the user has files and the answer is not y/Y; otherwise exactly the user's files are deleted and capture and enrolment decide the outcome |
| Register.RegistrationOutcome | register.py:101-146 | with the corrected existence check: the outcome is EmptyName iff the stripped name is empty; it is never ListingFailed; it is Cancelled iff the user has files and the answer is not y/Y; otherwise capture and enrolment run on the listing without the user's files, and a missing directory starts from no files |
| Register.RegistrationAsWrittenOutcome | register.py:114-115 | as written, registration stops with ListingFailed iff the name is not empty and `known_faces` is missing; otherwise it agrees with the corrected flow |
| Register.FreshInstallFails | register.py:115 | on a fresh install, a first user with one captured frame holding a face is not registered as written: the listing fails |
| Register.FreshInstallRegisters | register.py:101-146 | the same session under the corrected existence check registers the user with the default count of 3 |
| Register.OneCapture | register.py:24-83 | one 'c' press on a frame with a face, then a failed read, saves `<name>_1.jpg`, and that image gives an encoding |
| Register.CaptureAndEnroll | register.py:125-146 | outcome and files are those of `Enrolment`; the users table gains the user (once) iff the outcome is Registered and is unchanged otherwise; the access log is untouched |
| Register.ConfirmAndEnroll | register.py:114-146 | outcome and files are those of `Confirmed`; the users table gains the user iff the outcome is Registered |
| Register.RegisterUserAsWritten | register.py:101-146 | outcome and files are those of `RegistrationAsWritten`; the users table gains the stripped name iff the outcome is Registered and is unchanged otherwise |
| Register.RegisterUser | register.py:101-146 | outcome and files are those of `Registration` (corrected existence check); the users table gains the stripped name iff the outcome is Registered and is unchanged otherwise |
| Files.EncodingFile | register.py:95 | the encoding file's name ends in `_encoding.npy` |
| Files.EncodingNameOfFile | migrate_data.py:24-26 | removing `_encoding.npy` from a user's encoding file gives the user's name back, for names that do not contain the suffix |
| Text.Strip | register.py:108 | `strip()` keeps a contiguous piece of the string that neither starts nor ends with whitespace, and removes only whitespace |
| Text.RemoveAllSuffix | migrate_data.py:26 | `replace(suffix, '')` applied to a suffix-free name followed by the suffix gives the name back |
| Text.SplitFirstTwo | migrate_data.py:54 | `split(',', 2)` gives at most three pieces; only the last may hold the separator; the pieces joined by separators give the string back |
| Text.SplitFirstTwoCount | migrate_data.py:54-55 | the split has three pieces iff the string holds at least two separators |
| Text.SplitJoined | migrate_data.py:54-56 | splitting two comma-free fields and a third field, joined by commas, gives the three fields back |
| Text.ParseNatToString | register.py:128 | `int()` of a number's decimal digits gives the number back |
| Text.ParseInt | register.py:128 | `int()` on a stripped answer: an empty string never parses, so a blank answer is left to the default of 3; that the digits of a number parse back to it is Text.ParseNatToString |
| Migrate.UsersAfter | migrate_data.py:23-31 | the user table stays free of duplicate names however many encoding files are listed |
| Migrate.UsersAfterNames | migrate_data.py:23-35 | the rows already there stay first and unchanged; afterwards a name is present iff it was before or an encoding file yields it; each added row has count 0 and no last-seen time; at most one row is added per file |
| Migrate.UsersAfterEnrolled | migrate_data.py:29-33 | when every encoding file's name is already a user, nothing is added |
| Migrate.UsersAfterIdempotent | migrate_data.py:23-33 | migrating users a second time over the same directory adds no one |
| Migrate.MigrateUsers | migrate_data.py:12-35 | a missing directory changes nothing; otherwise the users table becomes `UsersAfter`, and the count is the number of rows added |
| Migrate.ParseLogLineFields | migrate_data.py:53-56 | a line is migrated iff its stripped text holds at least two commas; its fields are then the text before the first comma, the text between the first two commas, and all the rest |
| Migrate.ParseLogLine | migrate_data.py:53-56 | `line.strip().split(',', 2)` with `len(parts) == 3`: a migrated line's timestamp and event hold no comma, everything after the second comma being the person; when a line is migrated is stated by Migrate.ParseLogLineFields |
| Migrate.PersonColumn | migrate_data.py:65 | a person "N/A" is stored as NULL; any other person is stored as is |
| Migrate.MigratedRows | migrate_data.py:52-66 | no line produces more than one row |
| Migrate.MigrateLine | migrate_data.py:53-66 | one line inserts its row iff it parses, and the users are untouched |
| Migrate.MigrateLogs | migrate_data.py:37-71 | a missing or empty file changes nothing; otherwise the header is skipped and the rows `MigratedRows` gives are appended in order; the count is the number of rows inserted |
| Migrate.LogLineRoundTrip | migrate_data.py:53-56 | a line the logger writes (main.py:121-122) parses back into the same timestamp, event and person, commas in the person included, when the timestamp and event hold no comma |
| Migrate.TimestampIgnored | migrate_data.py:58-65 | lines that differ only in their timestamp give the same row: the parsed timestamp never reaches the table |
| Migrate.WrittenLineIsOneLine | migrate_data.py:52 | an event whose fields hold no line break is written (main.py:121-122) as exactly one line, its only break the final newline |
| Migrate.MigratedWrittenLines | migrate_data.py:52-66 | the logger's lines migrate to one row per event, in order, for events whose fields hold no line break, no comma in the timestamp or event, and no edge blanks |
| Migrate.MigrateWrittenLog | migrate_data.py:48-66 | a log file the logger wrote, header included, migrates to one row per logged event, in order, with "N/A" stored as NULL, for events readable in the same sense |
| Migrate.MigrateAll | migrate_data.py:73-86 | `main` keeps the tables, then migrates users, then logs; each step leaves the other table alone |

## Left out

- Face detection and encoding (`face_recognition`, dlib) and the numpy averaging of encodings. The model takes distances and match flags as inputs and records which images hold a face.
- OpenCV: opening the camera, reading, resizing, drawing, windows and `imwrite`. A frame is its face data or a read failure; a key press is an integer.
- The key read by `cv2.waitKey(1000)` between captures in register.py is discarded by the program and is not modelled.
- SMTP/MIME sending, the sender account and its credentials. A notification is an appended subject and attachment flag, and the delivery result is not modelled.
- The greeting thread and the text-to-speech engine. `greeting_queue.put` is an append to a sequence, and consumption is not modelled.
- The real `RPi.GPIO` library, `GPIO.setup`/`GPIO.cleanup` and all printing.
- Flask routes, templates, `app.run`, the `add_user` placeholder route and the file deletion in the `delete_user` route. `DatabaseManager.delete_user` itself is modelled.
- The dashboard launcher and the mail-setup script are not part of this model.
- SQLite connections and SQL text. Row ids (`AUTOINCREMENT`) are not modelled. `DEFAULT CURRENT_TIMESTAMP` is the `now` parameter.
- Timestamp formatting and `strptime`. The log's timestamp field is a string that migration never stores.
- File reading: a log file is given as its lines, each with its newline.
- `os.listdir` order: listings are sequences in an arbitrary given order. Register.RegisterUser: the order in which new image files join the listing is not modelled. The encoding file is modelled as written last.
- Exception handlers: `handle_library_error` (`TypeError`), the generic `except Exception` in the main loop and in `migrate_logs`, and `sys.exit`.
- Access.Run: the main loop's `while True` (main.py:297) ends only on a failed read, 'q' or an exception. The model's frames are finite, so a run also ends, and the `finally` cleanup runs, when the frames run out.
- Register.CaptureUserImages: a camera that never fails and a user who never presses 'q' would make the capture loop run forever. The model's inputs are finite, so the session ends with the input.
- Text.ParseInt: `int()` accepts Unicode digits and whitespace rules beyond ASCII digits, an optional sign and underscores between digits. Only those ASCII forms are modelled, and other strings are rejected as by a `ValueError`.
- Session.LoadKnownFaces: the image-extension `continue` test at main.py:264-266 is not modelled separately. Any file it skips would also fail the `_encoding.npy` test.
- Door.DoorController.constructor: the default `email_notifier=None` is not modelled. `main()` always passes a notifier.
- Access.HandleFace: the alert is modelled as carrying its image. The program attaches the image only when the file exists (main.py:81), and nothing creates `captured_images`, so `imwrite` may fail silently; whether the image file exists is not modelled.
- Migrate.MigratedWrittenLines: states nothing about events with a line break inside a field (an exception text logged at main.py:392, say). Reading the file in text mode splits such an event into several lines, which give other rows or none.
- Migrate.MigrateWrittenLog: the same restriction to events without line breaks inside a field, for the same reason.
- Register.RegisterUser: follows the corrected existence check, where a missing `known_faces` directory holds no files of the user. The flow as written is Register.RegisterUserAsWritten, whose `ListingFailed` outcome stands for the `FileNotFoundError` the program raises.

## Findings

| source | as written | input that shows it | evidently intended | confidence | as-written member | corrected member |
|---|---|---|---|---|---|---|
| web_dashboard.py:19 | `logs[-20:][::-1]` takes the last 20 rows of a list that `read_access_logs` already returns newest first, then reverses them | more than 20 log rows: the page shows the 20 oldest of the 100 newest, oldest first, and omits the newest row | show the 20 newest rows, newest first (`logs[:20]`) | not executed | Dashboard.IndexShowsOldest | Dashboard.IndexShowsNewest |
| register.py:115 | `os.listdir('known_faces')` runs before anything creates the directory (the capture step creates it at register.py:14-15) | a fresh install with no `known_faces` directory: the listing raises `FileNotFoundError` and the first registration fails | a missing directory means no existing files, and registration proceeds | not executed | Register.FreshInstallFails | Register.RegistrationOutcome |
