/**
  The access-control state machine of main.py, as pure functions.

  A `World` is everything the main loop touches: the session state
  (who has been greeted, when an unknown face was last captured), the
  door (unlock time and relay pin), the text log and the database that
  `DoorLogger` writes, the users table, the outgoing mail, the greeting
  queue, the captured images, the frame-sampling flag and the names shown
  on screen. Each step of the loop is a function from World to World;
  the classes in modules Door and Session are proved to follow them.

  Clock readings and the face library's output (distances and matches,
  one per known encoding) are inputs.
 */
module Access {
  import opened Wrappers
  import Store

  const UNKNOWN: string := "Unknown"
  /** `DoorController.unlock_duration`. */
  const UNLOCK_DURATION: real := 5.0
  /** The cooldown between two captures of an unknown face. */
  const CAPTURE_COOLDOWN: real := 5.0
  const RELAY_PIN: int := 18
  /** `DoorLogger.log_event`'s default person. */
  const NO_PERSON: string := "N/A"

  const EVENT_UNKNOWN: string := "Unknown Person Detected"
  const EVENT_AUTHORIZED: string := "Authorized Access"
  const EVENT_OPENED: string := "Door Opened"
  const EVENT_LOCKED: string := "Door Locked"
  /**
    The alert mail for an unknown face, sent with the path of the frame
    just captured; whether that file exists when the mail is built is not
    modelled.
   */
  const ALERT: Notification := Notification("Security Alert - Unknown Person Detected", true)

  // ---------------------------------------------------------------------
  // Face matching (main.py:323-330)
  // ---------------------------------------------------------------------

  /** `k` is where `np.argmin` lands: a minimum, and the first one. */
  predicate IsFirstMin(d: seq<real>, k: int) {
    && 0 <= k < |d|
    && (forall j :: 0 <= j < |d| ==> d[k] <= d[j])
    && (forall j :: 0 <= j < k ==> d[k] < d[j])
  }

  function ArgMin(d: seq<real>): (k: nat)
    requires |d| > 0
    ensures IsFirstMin(d, k)
  {
    if |d| == 1 then 0
    else
      var k := ArgMin(d[1..]);
      if d[0] <= d[1 + k] then 0 else 1 + k
  }

  /** One detected face: its distance to and match flag for each known encoding, and the clock when it is handled. */
  datatype Face = Face(distances: seq<real>, matches: seq<bool>, time: real)

  /** The face library yields one distance and one flag per known encoding. */
  predicate Comparable(f: Face, known: nat) {
    known == 0 || (|f.distances| == known && |f.matches| == known)
  }

  /**
    The name given to a face: "Unknown" when nothing is enrolled;
    otherwise the name at the first nearest encoding when its match
    flag is set, and "Unknown" when it is not.
   */
  function MatchName(known: seq<string>, f: Face): (name: string)
    requires Comparable(f, |known|)
    ensures |known| == 0 ==> name == UNKNOWN
    ensures forall k :: |known| > 0 && IsFirstMin(f.distances, k) ==>
              name == if f.matches[k] then known[k] else UNKNOWN
    ensures name == UNKNOWN || name in known
  {
    if |known| == 0 then UNKNOWN
    else
      var best := ArgMin(f.distances);
      if f.matches[best] then known[best] else UNKNOWN
  }

  // ---------------------------------------------------------------------
  // The per-face decision (main.py:335-368)
  // ---------------------------------------------------------------------

  datatype SessionState = SessionState(greeted: set<string>, lastUnknownCapture: real)

  /** `greeted_this_session = set()` and `last_unknown_capture_time = 0`. */
  const FreshSession: SessionState := SessionState({}, 0.0)

  /** A face after matching: its name and the clock reading used for it. */
  datatype Sighting = Sighting(name: string, time: real)

  datatype Action = GreetAndUnlock(name: string) | NoOp | CaptureAndAlert | LogOnly

  /**
    The rule for one face: a known name not yet greeted is greeted and let
    in, a known name already greeted is ignored, and an unknown face is
    captured only when more than the cooldown has passed since the last
    capture, and otherwise only logged.
   */
  function Decide(s: SessionState, e: Sighting): (a: Action)
    ensures a.GreetAndUnlock? <==> e.name != UNKNOWN && e.name !in s.greeted
    ensures a.GreetAndUnlock? ==> a.name == e.name
    ensures a.NoOp? <==> e.name != UNKNOWN && e.name in s.greeted
    ensures a.CaptureAndAlert? <==> e.name == UNKNOWN && e.time - s.lastUnknownCapture > CAPTURE_COOLDOWN
    ensures a.LogOnly? <==> e.name == UNKNOWN && e.time - s.lastUnknownCapture <= CAPTURE_COOLDOWN
  {
    if e.name != UNKNOWN then
      if e.name !in s.greeted then GreetAndUnlock(e.name) else NoOp
    else if e.time - s.lastUnknownCapture > CAPTURE_COOLDOWN then CaptureAndAlert
    else LogOnly
  }

  /**
    The session after one face: a known name is in the greeted set
    afterwards, an unknown one leaves the set alone, and the last capture
    time moves to the face's time exactly when it is captured.
   */
  function Next(s: SessionState, e: Sighting): (r: SessionState)
    ensures r.greeted == if e.name != UNKNOWN then s.greeted + {e.name} else s.greeted
    ensures r.lastUnknownCapture == if Decide(s, e).CaptureAndAlert? then e.time else s.lastUnknownCapture
  {
    match Decide(s, e)
    case GreetAndUnlock(n) => s.(greeted := s.greeted + {n})
    case CaptureAndAlert => s.(lastUnknownCapture := e.time)
    case _ => s
  }

  /** The session state after a run of sightings. */
  function Final(s: SessionState, es: seq<Sighting>): SessionState
    decreases |es|
  {
    if es == [] then s else Next(Final(s, es[..|es| - 1]), es[|es| - 1])
  }

  /** The names greeted (and let in) during a run of sightings, in order. */
  function Greetings(s: SessionState, es: seq<Sighting>): seq<string>
    decreases |es|
  {
    if es == [] then []
    else
      var e := es[|es| - 1];
      Greetings(s, es[..|es| - 1])
      + (if Decide(Final(s, es[..|es| - 1]), e).GreetAndUnlock? then [e.name] else [])
  }

  /** The clock readings at which an unknown face was captured and reported. */
  function CaptureTimes(s: SessionState, es: seq<Sighting>): seq<real>
    decreases |es|
  {
    if es == [] then []
    else
      var e := es[|es| - 1];
      CaptureTimes(s, es[..|es| - 1])
      + (if Decide(Final(s, es[..|es| - 1]), e).CaptureAndAlert? then [e.time] else [])
  }

  /**
    Greeting is once per name per session: the greeted set only grows, it
    is exactly the initial set plus the names greeted, no name is greeted
    twice, and a name greeted before is not greeted again.
   */
  lemma {:induction false} GreetOnce(s: SessionState, es: seq<Sighting>)
    ensures s.greeted <= Final(s, es).greeted
    ensures forall n :: n in Final(s, es).greeted <==> n in s.greeted || n in Greetings(s, es)
    ensures forall i, j :: 0 <= i < j < |Greetings(s, es)| ==> Greetings(s, es)[i] != Greetings(s, es)[j]
    ensures forall i :: 0 <= i < |Greetings(s, es)| ==>
              Greetings(s, es)[i] !in s.greeted && Greetings(s, es)[i] != UNKNOWN
    decreases |es|
  {
    if es != [] {
      var init := es[..|es| - 1];
      GreetOnce(s, init);
    }
  }

  /**
    Captures of unknown faces are more than the cooldown apart: the first
    is more than 5 s after the initial capture time, each later one more
    than 5 s after the one before, and the recorded capture time is that
    of the last capture.
   */
  lemma {:induction false} CaptureSpacing(s: SessionState, es: seq<Sighting>)
    ensures var ct := CaptureTimes(s, es);
      && (|ct| > 0 ==> ct[0] - s.lastUnknownCapture > CAPTURE_COOLDOWN)
      && (forall i :: 0 < i < |ct| ==> ct[i] - ct[i - 1] > CAPTURE_COOLDOWN)
      && Final(s, es).lastUnknownCapture == if ct == [] then s.lastUnknownCapture else ct[|ct| - 1]
    decreases |es|
  {
    if es != [] {
      var init := es[..|es| - 1];
      var e := es[|es| - 1];
      CaptureSpacing(s, init);
      var ct0 := CaptureTimes(s, init);
      var ct := CaptureTimes(s, es);
      var s0 := Final(s, init);
      if Decide(s0, e).CaptureAndAlert? {
        assert ct == ct0 + [e.time];
        assert Final(s, es).lastUnknownCapture == e.time;
        forall i | 0 < i < |ct| ensures ct[i] - ct[i - 1] > CAPTURE_COOLDOWN {
          if i < |ct0| {
            assert ct[i] == ct0[i] && ct[i - 1] == ct0[i - 1];
          }
        }
        if ct0 != [] {
          assert ct[0] == ct0[0];
        }
      } else {
        assert ct == ct0 + [];
        assert Final(s, es).lastUnknownCapture == s0.lastUnknownCapture;
      }
    }
  }

  // ---------------------------------------------------------------------
  // Door, logger, mail: the plant the decisions act on (main.py:107-194)
  // ---------------------------------------------------------------------

  /** One line of the door log: `timestamp,event,person`. */
  datatype LogEntry = LogEntry(time: real, event: string, person: string)

  datatype Notification = Notification(subject: string, withImage: bool)

  /** `door_unlocked_time` and the relay pin as `SimulatedGPIO.door_locked` holds it. */
  datatype DoorState = DoorState(unlockedAt: Option<real>, locked: bool)

  datatype Plant = Plant(
    door: DoorState,
    log: seq<LogEntry>,
    dbLogs: seq<Store.LogRow>,
    users: seq<Store.UserRow>,
    sent: seq<Notification>)

  /** `DoorLogger.log_event`: a line in the log file and a row in `access_logs`. */
  function Logged(p: Plant, event: string, person: string, now: real): Plant {
    p.(log := p.log + [LogEntry(now, event, person)],
       dbLogs := Store.Appended(p.dbLogs, event, Some(person), None, now))
  }

  /** `unlock_door`: pin high, unlock time set, "Door Opened" logged, a mail sent. */
  function Unlocked(p: Plant, person: string, now: real): Plant {
    var q := Logged(p.(door := DoorState(Some(now), false)), EVENT_OPENED, person, now);
    q.(sent := q.sent + [Notification("Door Unlocked - " + person, false)])
  }

  /** `lock_door`: pin low, unlock time cleared, "Door Locked" logged. */
  function Locked(p: Plant, now: real): Plant {
    Logged(p.(door := DoorState(None, true)), EVENT_LOCKED, NO_PERSON, now)
  }

  /** Python truthiness of `door_unlocked_time`: `None` and `0.0` are false. */
  predicate Truthy(t: Option<real>) {
    t.Some? && t.value != 0.0
  }

  /** `check_door_status`. */
  function Polled(p: Plant, now: real): Plant {
    if Truthy(p.door.unlockedAt) && now - p.door.unlockedAt.value >= UNLOCK_DURATION then Locked(p, now)
    else p
  }

  /**
    The door timer: a poll at least 5 s after a recorded unlock locks the
    door and logs it once; a later poll does nothing; a poll before the
    5 s are up changes nothing.
   */
  lemma PollRelocks(p: Plant, now: real, later: real)
    requires Truthy(p.door.unlockedAt)
    ensures now - p.door.unlockedAt.value >= UNLOCK_DURATION ==>
              && Polled(p, now).door == DoorState(None, true)
              && Polled(p, now).log == p.log + [LogEntry(now, EVENT_LOCKED, NO_PERSON)]
              && Polled(Polled(p, now), later) == Polled(p, now)
    ensures now - p.door.unlockedAt.value < UNLOCK_DURATION ==> Polled(p, now) == p
  {
  }

  /** `unlock_door` always restarts the timer, also when the door is already open. */
  lemma UnlockRestartsTimer(p: Plant, person: string, now: real)
    ensures Unlocked(p, person, now).door == DoorState(Some(now), false)
    ensures Unlocked(p, person, now).log == p.log + [LogEntry(now, EVENT_OPENED, person)]
  {
  }

  // ---------------------------------------------------------------------
  // The main loop (main.py:290-370)
  // ---------------------------------------------------------------------

  datatype World = World(
    session: SessionState,
    plant: Plant,
    greetings: seq<string>,
    captures: seq<real>,
    processThisFrame: bool,
    faceNames: seq<string>)

  /** The handling of one matched face (main.py:335-368). */
  function HandleFace(w: World, e: Sighting): World {
    match Decide(w.session, e)
    case GreetAndUnlock(n) =>
      var p := Logged(Unlocked(w.plant, n, e.time), EVENT_AUTHORIZED, n, e.time);
      w.(session := Next(w.session, e),
         greetings := w.greetings + [n],
         plant := p.(users := Store.Touched(p.users, n, e.time)))
    case NoOp => w
    case CaptureAndAlert =>
      var p := Logged(w.plant, EVENT_UNKNOWN, NO_PERSON, e.time);
      w.(session := Next(w.session, e),
         captures := w.captures + [e.time],
         plant := p.(sent := p.sent + [ALERT]))
    case LogOnly =>
      w.(plant := Logged(w.plant, EVENT_UNKNOWN, NO_PERSON, e.time))
  }

  /** The faces of one processed frame, handled in order, each name appended to `face_names`. */
  function HandleAll(w: World, es: seq<Sighting>): World
    decreases |es|
  {
    if es == [] then w
    else
      var v := HandleAll(w, es[..|es| - 1]);
      var e := es[|es| - 1];
      HandleFace(v.(faceNames := v.faceNames + [e.name]), e)
  }

  predicate AllComparable(faces: seq<Face>, known: nat) {
    forall i :: 0 <= i < |faces| ==> Comparable(faces[i], known)
  }

  function Sightings(known: seq<string>, faces: seq<Face>): (es: seq<Sighting>)
    requires AllComparable(faces, |known|)
    ensures |es| == |faces|
    ensures forall i :: 0 <= i < |faces| ==> es[i] == Sighting(MatchName(known, faces[i]), faces[i].time)
  {
    seq(|faces|, i requires 0 <= i < |faces| => Sighting(MatchName(known, faces[i]), faces[i].time))
  }

  /** Recognition on one frame: `face_names` restarts empty and every face is handled. */
  function ProcessFrame(w: World, known: seq<string>, faces: seq<Face>): World
    requires AllComparable(faces, |known|)
  {
    HandleAll(w.(faceNames := []), Sightings(known, faces))
  }

  /** What the loop's processing of faces does to the session, the greeting queue, the captures and the sampling flag. */
  lemma {:induction false} HandleAllFollowsSession(w: World, es: seq<Sighting>)
    ensures HandleAll(w, es).session == Final(w.session, es)
    ensures HandleAll(w, es).greetings == w.greetings + Greetings(w.session, es)
    ensures HandleAll(w, es).captures == w.captures + CaptureTimes(w.session, es)
    ensures HandleAll(w, es).processThisFrame == w.processThisFrame
    decreases |es|
  {
    if es != [] {
      var init := es[..|es| - 1];
      var e := es[|es| - 1];
      HandleAllFollowsSession(w, init);
      var v := HandleAll(w, init);
      HandleFaceMoves(v.(faceNames := v.faceNames + [e.name]), e);
      var greeted := if Decide(v.session, e).GreetAndUnlock? then [e.name] else [];
      var captured := if Decide(v.session, e).CaptureAndAlert? then [e.time] else [];
      assert Greetings(w.session, es) == Greetings(w.session, init) + greeted;
      assert CaptureTimes(w.session, es) == CaptureTimes(w.session, init) + captured;
      assert (w.greetings + Greetings(w.session, init)) + greeted == w.greetings + (Greetings(w.session, init) + greeted);
      assert (w.captures + CaptureTimes(w.session, init)) + captured == w.captures + (CaptureTimes(w.session, init) + captured);
    }
  }

  /** `face_names` receives the name of every face, in order. */
  lemma {:induction false} HandleAllShowsNames(w: World, es: seq<Sighting>)
    ensures HandleAll(w, es).faceNames == w.faceNames + seq(|es|, i requires 0 <= i < |es| => es[i].name)
    decreases |es|
  {
    if es != [] {
      var init := es[..|es| - 1];
      var e := es[|es| - 1];
      HandleAllShowsNames(w, init);
      var v := HandleAll(w, init);
      HandleFaceMoves(v.(faceNames := v.faceNames + [e.name]), e);
      var names := seq(|es|, i requires 0 <= i < |es| => es[i].name);
      var namesInit := seq(|init|, i requires 0 <= i < |init| => init[i].name);
      assert names == namesInit + [e.name];
      assert (w.faceNames + namesInit) + [e.name] == w.faceNames + (namesInit + [e.name]);
    }
  }

  /** One face moves the session as `Next` does and adds at most one greeting or capture. */
  lemma HandleFaceMoves(v: World, e: Sighting)
    ensures HandleFace(v, e).session == Next(v.session, e)
    ensures HandleFace(v, e).greetings == v.greetings + if Decide(v.session, e).GreetAndUnlock? then [e.name] else []
    ensures HandleFace(v, e).captures == v.captures + if Decide(v.session, e).CaptureAndAlert? then [e.time] else []
    ensures HandleFace(v, e).processThisFrame == v.processThisFrame
    ensures HandleFace(v, e).faceNames == v.faceNames
  {
    match Decide(v.session, e)
    case GreetAndUnlock(n) =>
    case NoOp =>
      assert v.greetings + [] == v.greetings && v.captures + [] == v.captures;
    case CaptureAndAlert =>
      assert v.greetings + [] == v.greetings;
    case LogOnly =>
      assert v.greetings + [] == v.greetings && v.captures + [] == v.captures;
  }

  /** How many log lines carry `event`. */
  function CountEvent(log: seq<LogEntry>, event: string): nat
    decreases |log|
  {
    if log == [] then 0
    else CountEvent(log[..|log| - 1], event) + (if log[|log| - 1].event == event then 1 else 0)
  }

  lemma {:induction false} CountEventAppend(a: seq<LogEntry>, b: seq<LogEntry>, event: string)
    ensures CountEvent(a + b, event) == CountEvent(a, event) + CountEvent(b, event)
    decreases |b|
  {
    if b != [] {
      assert (a + b)[..|a + b| - 1] == a + b[..|b| - 1];
      assert (a + b)[|a + b| - 1] == b[|b| - 1];
      CountEventAppend(a, b[..|b| - 1], event);
      assert CountEvent(a + b, event) == CountEvent(a + b[..|b| - 1], event) + (if b[|b| - 1].event == event then 1 else 0);
    } else {
      assert a + b == a;
    }
  }

  function CountUnknown(es: seq<Sighting>): nat
    decreases |es|
  {
    if es == [] then 0
    else CountUnknown(es[..|es| - 1]) + (if es[|es| - 1].name == UNKNOWN then 1 else 0)
  }

  /** One face's contribution to the log counts. */
  lemma HandleFaceLogCounts(v: World, e: Sighting)
    ensures CountEvent(HandleFace(v, e).plant.log, EVENT_UNKNOWN)
            == CountEvent(v.plant.log, EVENT_UNKNOWN) + (if e.name == UNKNOWN then 1 else 0)
    ensures CountEvent(HandleFace(v, e).plant.log, EVENT_AUTHORIZED)
            == CountEvent(v.plant.log, EVENT_AUTHORIZED) + (if Decide(v.session, e).GreetAndUnlock? then 1 else 0)
  {
    var log := v.plant.log;
    match Decide(v.session, e)
    case GreetAndUnlock(n) =>
      var added := [LogEntry(e.time, EVENT_OPENED, n), LogEntry(e.time, EVENT_AUTHORIZED, n)];
      assert HandleFace(v, e).plant.log == log + added;
      CountEventAppend(log, added, EVENT_UNKNOWN);
      CountEventAppend(log, added, EVENT_AUTHORIZED);
      assert added[..1] == [LogEntry(e.time, EVENT_OPENED, n)];
      assert added[..1][..0] == [];
    case NoOp =>
    case CaptureAndAlert =>
      assert HandleFace(v, e).plant.log == log + [LogEntry(e.time, EVENT_UNKNOWN, NO_PERSON)];
    case LogOnly =>
      assert HandleFace(v, e).plant.log == log + [LogEntry(e.time, EVENT_UNKNOWN, NO_PERSON)];
  }

  /**
    Every unknown face is logged, also inside the capture cooldown, and
    every greeting logs "Authorized Access": the log gains exactly one
    "Unknown Person Detected" line per unknown face and one
    "Authorized Access" line per greeted name.
   */
  lemma {:induction false} EveryFaceLogged(w: World, es: seq<Sighting>)
    ensures CountEvent(HandleAll(w, es).plant.log, EVENT_UNKNOWN) == CountEvent(w.plant.log, EVENT_UNKNOWN) + CountUnknown(es)
    ensures CountEvent(HandleAll(w, es).plant.log, EVENT_AUTHORIZED)
            == CountEvent(w.plant.log, EVENT_AUTHORIZED) + |Greetings(w.session, es)|
    decreases |es|
  {
    if es != [] {
      var init := es[..|es| - 1];
      var e := es[|es| - 1];
      EveryFaceLogged(w, init);
      HandleAllFollowsSession(w, init);
      var v := HandleAll(w, init);
      HandleFaceLogCounts(v.(faceNames := v.faceNames + [e.name]), e);
    }
  }

  /** A camera read: `None` when `video_capture.read()` fails. */
  datatype Frame = Frame(pollTime: real, faces: Option<seq<Face>>, quit: bool)

  predicate FramesComparable(frames: seq<Frame>, known: nat) {
    forall i :: 0 <= i < |frames| && frames[i].faces.Some? ==> AllComparable(frames[i].faces.value, known)
  }

  /**
    One turn of `while True`: poll the door; on a failed read log the
    error and stop; otherwise run recognition when the flag is set, then
    flip the flag.
   */
  function Cycle(w: World, known: seq<string>, f: Frame): World
    requires f.faces.Some? ==> AllComparable(f.faces.value, |known|)
  {
    var polled := w.(plant := Polled(w.plant, f.pollTime));
    match f.faces
    case None => polled.(plant := Logged(polled.plant, "Error", "Failed to grab frame from webcam", f.pollTime))
    case Some(faces) =>
      var seen := if polled.processThisFrame then ProcessFrame(polled, known, faces) else polled;
      seen.(processThisFrame := !polled.processThisFrame)
  }

  /** Whether the loop stops after this frame: a failed read or 'q'. */
  predicate Stops(f: Frame) {
    f.faces.None? || f.quit
  }

  /** The loop over the frames read, up to the first that stops it. */
  function Run(w: World, known: seq<string>, frames: seq<Frame>): World
    requires FramesComparable(frames, |known|)
    decreases |frames|
  {
    if frames == [] then w
    else
      var next := Cycle(w, known, frames[0]);
      if Stops(frames[0]) then next else Run(next, known, frames[1..])
  }

  /**
    Frame sampling: over cycles that do not stop the loop, the flag flips
    once per cycle, so recognition runs on the 1st, 3rd, 5th, ... cycle of
    a session, and a cycle with the flag clear changes nothing but the
    door and the flag.
   */
  lemma {:induction false} SamplingAlternates(w: World, known: seq<string>, frames: seq<Frame>)
    requires FramesComparable(frames, |known|)
    requires forall i :: 0 <= i < |frames| ==> !Stops(frames[i])
    ensures Run(w, known, frames).processThisFrame == (w.processThisFrame == (|frames| % 2 == 0))
    decreases |frames|
  {
    if frames != [] {
      var rest := frames[1..];
      LaterFrames(frames, known);
      var next := Cycle(w, known, frames[0]);
      CycleFlips(w, known, frames[0]);
      SamplingAlternates(next, known, rest);
      var n := |frames|;
      assert |rest| == n - 1;
      ParityStep(n);
      assert !Stops(frames[0]);
      assert Run(w, known, frames).processThisFrame == Run(next, known, rest).processThisFrame;
    }
  }

  lemma ParityStep(n: int)
    ensures (n - 1) % 2 == 0 <==> n % 2 != 0
  {
  }

  /** The frames after the first keep both preconditions of the sampling lemma. */
  lemma LaterFrames(frames: seq<Frame>, known: seq<string>)
    requires frames != [] && FramesComparable(frames, |known|)
    requires forall i :: 0 <= i < |frames| ==> !Stops(frames[i])
    ensures FramesComparable(frames[1..], |known|)
    ensures forall i :: 0 <= i < |frames[1..]| ==> !Stops(frames[1..][i])
  {
    forall i | 0 <= i < |frames[1..]|
      ensures frames[1..][i].faces.Some? ==> AllComparable(frames[1..][i].faces.value, |known|)
      ensures !Stops(frames[1..][i])
    {
      assert frames[1..][i] == frames[i + 1];
    }
  }

  lemma CycleFlips(w: World, known: seq<string>, f: Frame)
    requires f.faces.Some? && AllComparable(f.faces.value, |known|)
    ensures Cycle(w, known, f).processThisFrame == !w.processThisFrame
  {
    var polled := w.(plant := Polled(w.plant, f.pollTime));
    if polled.processThisFrame {
      HandleAllFollowsSession(polled.(faceNames := []), Sightings(known, f.faces.value));
    }
  }

  lemma SkippedCycle(w: World, known: seq<string>, f: Frame)
    requires f.faces.Some? && AllComparable(f.faces.value, |known|)
    requires !w.processThisFrame
    ensures Cycle(w, known, f) == w.(plant := Polled(w.plant, f.pollTime), processThisFrame := true)
  {
  }

  /** The door is polled at the start of every cycle, whether or not it runs recognition. */
  lemma PolledEveryCycle(w: World, known: seq<string>, f: Frame)
    requires f.faces.Some? && AllComparable(f.faces.value, |known|)
    requires Truthy(w.plant.door.unlockedAt) && f.pollTime - w.plant.door.unlockedAt.value >= UNLOCK_DURATION
    ensures w.plant.log + [LogEntry(f.pollTime, EVENT_LOCKED, NO_PERSON)] <= Cycle(w, known, f).plant.log
  {
    var polled := w.(plant := Polled(w.plant, f.pollTime));
    if polled.processThisFrame {
      LogOnlyGrows(polled.(faceNames := []), Sightings(known, f.faces.value));
    }
  }

  /** Handling faces only appends to the log. */
  lemma {:induction false} LogOnlyGrows(w: World, es: seq<Sighting>)
    ensures w.plant.log <= HandleAll(w, es).plant.log
    ensures w.plant.dbLogs <= HandleAll(w, es).plant.dbLogs
    decreases |es|
  {
    if es != [] {
      LogOnlyGrows(w, es[..|es| - 1]);
    }
  }

  // ---------------------------------------------------------------------
  // Start and shutdown (main.py:235-249, 393-398)
  // ---------------------------------------------------------------------

  /** The state right after `DoorController.__init__` and the loop variables' initialisation. */
  function Initial(p: Plant): (w: World)
    ensures w.plant.door == DoorState(None, true)
    ensures w.session == FreshSession && w.processThisFrame
  {
    World(FreshSession, p.(door := DoorState(None, true)), [], [], true, [])
  }

  /**
    `main()`: log "System Started"; when the camera cannot be opened log the
    error and exit; otherwise run the loop and, in `finally`, lock the door
    and log "System Stopped".
   */
  function Application(w: World, known: seq<string>, cameraOpened: bool, frames: seq<Frame>, start: real, stop: real): World
    requires FramesComparable(frames, |known|)
  {
    var started := w.(plant := Logged(w.plant, "System Started", NO_PERSON, start));
    if !cameraOpened then
      started.(plant := Logged(started.plant, "Error", "Cannot open webcam", start))
    else
      var ran := Run(started, known, frames);
      ran.(plant := Logged(Locked(ran.plant, stop), "System Stopped", NO_PERSON, stop))
  }

  /** After a session the door is locked and its timer cleared, however the loop ended. */
  lemma ApplicationEndsLocked(w: World, known: seq<string>, frames: seq<Frame>, start: real, stop: real)
    requires FramesComparable(frames, |known|)
    ensures Application(w, known, true, frames, start, stop).plant.door == DoorState(None, true)
  {
  }

  // ---------------------------------------------------------------------
  // Example scenarios (main.py:335-368)
  // ---------------------------------------------------------------------

  /** An enrolled face is greeted and let in on first sight and ignored on the second. */
  lemma KnownFaceScenario()
    ensures Decide(FreshSession, Sighting("Alice", 100.0)) == GreetAndUnlock("Alice")
    ensures Decide(Next(FreshSession, Sighting("Alice", 100.0)), Sighting("Alice", 101.0)) == NoOp
  {
  }

  /** Unknown faces at t = 100, 102 and 106: captured, only logged, captured again. */
  lemma UnknownFaceScenario()
    ensures var s1 := Next(FreshSession, Sighting(UNKNOWN, 100.0));
      && Decide(FreshSession, Sighting(UNKNOWN, 100.0)) == CaptureAndAlert
      && Decide(s1, Sighting(UNKNOWN, 102.0)) == LogOnly
      && Decide(Next(s1, Sighting(UNKNOWN, 102.0)), Sighting(UNKNOWN, 106.0)) == CaptureAndAlert
  {
  }

  /** The cooldown is strict: exactly 5 s after a capture there is no new capture. */
  lemma CooldownIsStrict(t: real)
    ensures Decide(SessionState({}, t), Sighting(UNKNOWN, t + 5.0)) == LogOnly
  {
  }

  /** With nothing enrolled, every face is "Unknown". */
  lemma NothingEnrolled(f: Face)
    ensures MatchName([], f) == UNKNOWN
  {
  }
}
