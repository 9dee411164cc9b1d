/**
  `main()` of main.py: loading the enrolled names, the recognition loop
  with its session variables, and start-up and shutdown. The loop's
  variables live in a `MainLoop` object; each method is proved to move
  the observable state (`MainLoop.World`) as the functions of module
  Access say, so the properties proved there (greeting once, capture
  spacing, every unknown face logged, frame sampling, relocking) hold of
  the loop.
 */
module Session {
  import opened Wrappers
  import opened Text
  import Store
  import opened Access
  import opened Door
  import opened Files

  /** A file in `known_faces`, and whether `np.load` can read it. */
  datatype DirEntry = DirEntry(fileName: string, readable: bool)

  predicate IsLoadedEncoding(e: DirEntry) {
    EndsWith(e.fileName, ENCODING_SUFFIX) && e.readable
  }

  /** The names of the encodings loaded from a listing, in listing order. */
  function KnownFaceNames(listing: seq<DirEntry>): seq<string>
    decreases |listing|
  {
    if listing == [] then []
    else
      var e := listing[|listing| - 1];
      KnownFaceNames(listing[..|listing| - 1]) + (if IsLoadedEncoding(e) then [EncodingName(e.fileName)] else [])
  }

  /** A missing `known_faces` directory loads nothing. */
  function Listed(listing: Option<seq<DirEntry>>): seq<DirEntry> {
    if listing.Some? then listing.value else []
  }

  /** The file `e` loads the encoding of `n`. */
  predicate Yields(e: DirEntry, n: string) {
    IsLoadedEncoding(e) && EncodingName(e.fileName) == n
  }

  /** The last entry of a listing adds its name when it is a readable encoding. */
  lemma KnownFaceNamesStep(listing: seq<DirEntry>, n: string)
    requires listing != []
    ensures n in KnownFaceNames(listing) <==>
            n in KnownFaceNames(listing[..|listing| - 1]) || Yields(listing[|listing| - 1], n)
    ensures |KnownFaceNames(listing)| <= |KnownFaceNames(listing[..|listing| - 1])| + 1
  {
    var e := listing[|listing| - 1];
    var added := if IsLoadedEncoding(e) then [EncodingName(e.fileName)] else [];
    assert KnownFaceNames(listing) == KnownFaceNames(listing[..|listing| - 1]) + added;
  }

  /**
    A name is enrolled exactly when some readable `_encoding.npy` file
    yields it; images and unreadable encodings contribute nothing.
   */
  lemma {:induction false} KnownFaceNamesFromEncodings(listing: seq<DirEntry>, n: string)
    ensures n in KnownFaceNames(listing) <==> exists i :: 0 <= i < |listing| && Yields(listing[i], n)
    ensures |KnownFaceNames(listing)| <= |listing|
    decreases |listing|
  {
    if listing != [] {
      var init := listing[..|listing| - 1];
      KnownFaceNamesFromEncodings(init, n);
      KnownFaceNamesStep(listing, n);
      if exists i :: 0 <= i < |listing| && Yields(listing[i], n) {
        var i :| 0 <= i < |listing| && Yields(listing[i], n);
        if i < |init| {
          assert Yields(init[i], n);
        }
      }
      if exists i :: 0 <= i < |init| && Yields(init[i], n) {
        var i :| 0 <= i < |init| && Yields(init[i], n);
        assert Yields(listing[i], n);
      }
    }
  }

  /** The loading loop of main.py: one name per readable encoding file, in listing order. */
  method LoadKnownFaces(listing: Option<seq<DirEntry>>) returns (names: seq<string>)
    ensures names == KnownFaceNames(Listed(listing))
  {
    names := [];
    if listing.None? {
      return;
    }
    var files := listing.value;
    var i := 0;
    while i < |files|
      invariant 0 <= i <= |files|
      invariant names == KnownFaceNames(files[..i])
    {
      var e := files[i];
      assert files[..i + 1][..i] == files[..i];
      if EndsWith(e.fileName, ENCODING_SUFFIX) && e.readable {
        names := names + [RemoveAll(e.fileName, ENCODING_SUFFIX)];
      }
      i := i + 1;
    }
    assert files[..|files|] == files;
  }

  /** The variables of `main()`'s loop, next to the door controller they drive. */
  class MainLoop {
    const door: DoorController
    /** `known_face_names`, index for index with the known encodings. */
    const known: seq<string>
    var greeted: set<string>
    /** Every name put on `greeting_queue`. */
    var greetingQueue: seq<string>
    var lastUnknownCaptureTime: real
    /** The clock readings at which an unknown face's frame was saved. */
    var captures: seq<real>
    var processThisFrame: bool
    var faceNames: seq<string>

    ghost predicate Valid()
      reads door, door.logger.db
    {
      door.Valid()
    }

    function World(): Access.World
      reads this, door, door.gpio, door.logger, door.logger.db, door.notifier
    {
      Access.World(SessionState(greeted, lastUnknownCaptureTime), door.Plant(), greetingQueue,
                   captures, processThisFrame, faceNames)
    }

    /** The loop variables' initial values: nobody greeted, last capture at 0, sampling on. */
    constructor (door: DoorController, known: seq<string>)
      ensures this.door == door && this.known == known
      ensures World() == Access.World(FreshSession, door.Plant(), [], [], true, [])
    {
      this.door := door;
      this.known := known;
      greeted := {};
      greetingQueue := [];
      lastUnknownCaptureTime := 0.0;
      captures := [];
      processThisFrame := true;
      faceNames := [];
    }

    /** The access decision for one matched face (main.py:335-368). */
    method HandleFace(e: Sighting)
      requires Valid()
      modifies this, door, door.gpio, door.logger, door.logger.db, door.notifier
      ensures Valid()
      ensures World() == Access.HandleFace(old(World()), e)
    {
      if e.name != UNKNOWN {
        if e.name !in greeted {
          greeted := greeted + {e.name};
          greetingQueue := greetingQueue + [e.name];
          door.UnlockDoor(e.name, e.time);
          door.logger.LogEvent(EVENT_AUTHORIZED, e.name, e.time);
          door.logger.db.UpdateUserAccess(e.name, e.time);
        }
      } else {
        door.logger.LogEvent(EVENT_UNKNOWN, NO_PERSON, e.time);
        if e.time - lastUnknownCaptureTime > CAPTURE_COOLDOWN {
          captures := captures + [e.time];
          if door.notifier.enabled {
            door.notifier.SendNotification(ALERT.subject, ALERT.withImage);
          }
          lastUnknownCaptureTime := e.time;
        }
      }
    }

    /** Recognition on one frame: `face_names` restarts empty, then each face is named and handled in turn. */
    method ProcessFrame(faces: seq<Face>)
      requires Valid()
      requires AllComparable(faces, |known|)
      modifies this, door, door.gpio, door.logger, door.logger.db, door.notifier
      ensures Valid()
      ensures World() == Access.ProcessFrame(old(World()), known, faces)
    {
      faceNames := [];
      ghost var start := World();
      ghost var es := Sightings(known, faces);
      var i := 0;
      while i < |faces|
        invariant 0 <= i <= |faces|
        invariant Valid()
        invariant World() == HandleAll(start, es[..i])
      {
        var name := MatchName(known, faces[i]);
        faceNames := faceNames + [name];
        HandleFace(Sighting(name, faces[i].time));
        assert es[..i + 1][..i] == es[..i];
        i := i + 1;
      }
      assert es[..|faces|] == es;
    }

    /** One turn of the loop: poll the door, read a frame, recognise on every other frame. */
    method Step(f: Frame)
      requires Valid()
      requires f.faces.Some? ==> AllComparable(f.faces.value, |known|)
      modifies this, door, door.gpio, door.logger, door.logger.db, door.notifier
      ensures Valid()
      ensures World() == Cycle(old(World()), known, f)
    {
      door.CheckDoorStatus(f.pollTime);
      match f.faces
      case None =>
        door.logger.LogEvent("Error", "Failed to grab frame from webcam", f.pollTime);
      case Some(faces) =>
        if processThisFrame {
          ghost var before := World();
          ProcessFrame(faces);
          HandleAllFollowsSession(before.(faceNames := []), Sightings(known, faces));
        }
        processThisFrame := !processThisFrame;
    }

    /** `while True`, until a failed read or 'q'. */
    method RunLoop(frames: seq<Frame>)
      requires Valid()
      requires FramesComparable(frames, |known|)
      modifies this, door, door.gpio, door.logger, door.logger.db, door.notifier
      ensures Valid()
      ensures World() == Run(old(World()), known, frames)
    {
      var i := 0;
      var stopped := false;
      while i < |frames| && !stopped
        invariant 0 <= i <= |frames|
        invariant Valid()
        invariant FramesComparable(frames[i..], |known|)
        invariant stopped ==> World() == Run(old(World()), known, frames)
        invariant !stopped ==> Run(old(World()), known, frames) == Run(World(), known, frames[i..])
      {
        var f := frames[i];
        ghost var rest := frames[i..];
        assert rest[0] == f && rest[1..] == frames[i + 1..];
        FramesTail(rest, |known|);
        ghost var before := World();
        RunUnfolds(before, known, rest);
        Step(f);
        if Stops(f) {
          stopped := true;
        }
        i := i + 1;
      }
    }
  }

  lemma FramesTail(frames: seq<Frame>, known: nat)
    requires frames != [] && FramesComparable(frames, known)
    ensures frames[0].faces.Some? ==> AllComparable(frames[0].faces.value, known)
    ensures FramesComparable(frames[1..], known)
  {
    forall i | 0 <= i < |frames[1..]| && frames[1..][i].faces.Some?
      ensures AllComparable(frames[1..][i].faces.value, known)
    {
      assert frames[1..][i] == frames[i + 1];
    }
  }

  /** The loop's first turn, then the rest unless it stopped. */
  lemma RunUnfolds(w: World, known: seq<string>, frames: seq<Frame>)
    requires frames != [] && FramesComparable(frames, |known|)
    requires FramesComparable(frames[1..], |known|)
    requires frames[0].faces.Some? ==> AllComparable(frames[0].faces.value, |known|)
    ensures Run(w, known, frames) == if Stops(frames[0]) then Cycle(w, known, frames[0])
                                     else Run(Cycle(w, known, frames[0]), known, frames[1..])
  {
  }

  /**
    `main()`: set up the logger, notifier, pin and controller, log
    "System Started"; without a camera log the error and exit; otherwise
    load the enrolled names, run the loop, then lock the door and log
    "System Stopped". The result is the final observable state.
   */
  method RunDoorSystem(db: Store.DatabaseManager, existingLog: seq<LogEntry>, listing: Option<seq<DirEntry>>,
                       cameraOpened: bool, frames: seq<Frame>, start: real, stop: real)
    returns (w: World)
    requires db.Valid()
    requires FramesComparable(frames, |KnownFaceNames(Listed(listing))|)
    modifies db
    ensures w == Application(Initial(Access.Plant(DoorState(None, true), existingLog, old(db.accessLogs), old(db.users), [])),
                             KnownFaceNames(Listed(listing)), cameraOpened, frames, start, stop)
    ensures db.Valid() && db.accessLogs == w.plant.dbLogs && db.users == w.plant.users
  {
    ghost var w0 := Initial(Access.Plant(DoorState(None, true), existingLog, old(db.accessLogs), old(db.users), []));
    var door := StartSystem(db, existingLog, start);
    ghost var started := w0.(plant := Logged(w0.plant, "System Started", NO_PERSON, start));
    if !cameraOpened {
      door.logger.LogEvent("Error", "Cannot open webcam", start);
      w := Access.World(FreshSession, door.Plant(), [], [], true, []);
      return;
    }
    var known := LoadKnownFaces(listing);
    var loop := new MainLoop(door, known);
    assert loop.World() == started;
    loop.RunLoop(frames);
    ghost var ran := Run(started, known, frames);
    assert loop.World() == ran;
    door.Cleanup(stop);
    door.logger.LogEvent("System Stopped", NO_PERSON, stop);
    w := loop.World();
  }

  /** The set-up part of `main()`: logger, notifier, pin and controller, then "System Started" logged. */
  method StartSystem(db: Store.DatabaseManager, existingLog: seq<LogEntry>, start: real) returns (door: DoorController)
    requires db.Valid()
    modifies db
    ensures fresh(door) && fresh(door.gpio) && fresh(door.logger) && fresh(door.notifier)
    ensures door.logger.db == db && door.Valid()
    ensures door.Plant() == Logged(Access.Plant(DoorState(None, true), existingLog, old(db.accessLogs), old(db.users), []),
                                   "System Started", NO_PERSON, start)
  {
    var logger := new DoorLogger(db, existingLog);
    var notifier := new EmailNotifier();
    var gpio := new SimulatedGpio();
    door := new DoorController(gpio, logger, notifier);
    logger.LogEvent("System Started", NO_PERSON, start);
  }
}
