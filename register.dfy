/**
  User registration (register.py): the name and count read from the
  console, the capture loop driven by key presses, the choice of images
  to encode, and the whole registration flow with its early exits.

  The camera and the face library are inputs: each loop turn is a
  `Tick` (a failed read, or a frame with the key pressed and what the
  face library finds in the frame), and each file of `known_faces` is a
  `DirFile` carrying what the face library finds when it loads it.
 */
module Register {
  import opened Wrappers
  import opened Text
  import Store
  import opened Files

  /** `capture_user_images`'s default and `register_user`'s fallback count. */
  const DEFAULT_IMAGES: int := 3
  const MIN_IMAGES: int := 1
  const MAX_IMAGES: int := 10
  /** `ord('c')` and `ord('q')`. */
  const KEY_CAPTURE: int := 99
  const KEY_QUIT: int := 113

  /** What `face_recognition` makes of an image file: some number of faces, or an error while loading. */
  datatype FaceResult = Faces(count: nat) | LoadError

  /** A file of `known_faces`. */
  datatype DirFile = DirFile(fileName: string, faces: FaceResult)

  // ---------------------------------------------------------------------
  // Console input (register.py:108-131)
  // ---------------------------------------------------------------------

  /** `input(...).strip().lower() == 'y'`: only "y" and "Y" lower-case to "y". */
  predicate AcceptsOverwrite(answer: string) {
    Strip(answer) == "y" || Strip(answer) == "Y"
  }

  /**
    The number of images to capture: 3 for a blank answer or one `int()`
    rejects, otherwise the integer clamped to [1, 10].
   */
  function RequestedCount(answer: string): (n: int)
    ensures MIN_IMAGES <= n <= MAX_IMAGES
    ensures ParseInt(Strip(answer)).None? ==> n == DEFAULT_IMAGES
    ensures forall v :: ParseInt(Strip(answer)) == Some(v) ==>
              (MIN_IMAGES <= v <= MAX_IMAGES ==> n == v) && (v < MIN_IMAGES ==> n == MIN_IMAGES)
              && (v > MAX_IMAGES ==> n == MAX_IMAGES)
  {
    var s := Strip(answer);
    if s == [] then DEFAULT_IMAGES
    else
      match ParseInt(s)
      case None => DEFAULT_IMAGES
      case Some(v) => Max(MIN_IMAGES, Min(MAX_IMAGES, v))
  }

  function Min(a: int, b: int): int { if a <= b then a else b }
  function Max(a: int, b: int): int { if a >= b then a else b }

  /** Typing a count between 1 and 10 (with any surrounding blanks) asks for exactly that many images. */
  lemma RequestedCountTyped(k: nat, pad: string)
    requires MIN_IMAGES <= k <= MAX_IMAGES
    requires forall i :: 0 <= i < |pad| ==> IsSpace(pad[i])
    ensures RequestedCount(pad + NatToString(k) + pad) == k
  {
    var d := NatToString(k);
    var s := pad + d + pad;
    ParseNatToString(k);
    assert IsDigit(d[0]) && IsDigit(d[|d| - 1]);
    DigitNotSpace(d[0]);
    DigitNotSpace(d[|d| - 1]);
    StripPadded(pad, d);
    assert ParseInt(Strip(s)) == Some(k);
  }

  // ---------------------------------------------------------------------
  // Capturing images (register.py:9-55)
  // ---------------------------------------------------------------------

  /** One turn of the capture loop: a failed read, or a frame with `cv2.waitKey(1)`'s result. */
  datatype Tick = ReadFailed | Frame(key: int, faces: FaceResult)

  /** `cv2.waitKey(1) & 0xFF`: the low byte of the key code (-1, no key, becomes 255). */
  function KeyByte(key: int): int {
    key % 256
  }

  predicate IsCapture(t: Tick) {
    t.Frame? && KeyByte(t.key) == KEY_CAPTURE
  }

  predicate StopsCapture(t: Tick) {
    t.ReadFailed? || KeyByte(t.key) == KEY_QUIT
  }

  /** The frames saved by 'c' before the first failed read or 'q', were there no limit. */
  function Pressed(ticks: seq<Tick>): seq<FaceResult> {
    PressedFrom(ticks, 0)
  }

  /** The same, counting from tick `i` on. */
  function PressedFrom(ticks: seq<Tick>, i: nat): seq<FaceResult>
    requires i <= |ticks|
    decreases |ticks| - i
  {
    if i == |ticks| || StopsCapture(ticks[i]) then []
    else if IsCapture(ticks[i]) then [ticks[i].faces] + PressedFrom(ticks, i + 1)
    else PressedFrom(ticks, i + 1)
  }

  /** `f"{name}_{k}.jpg"`. */
  function ImageFile(name: string, k: nat): string {
    name + "_" + NatToString(k) + IMAGE_SUFFIX
  }

  /** The saved images, numbered from 1, with the frames they hold. */
  function Numbered(name: string, frames: seq<FaceResult>): (files: seq<DirFile>)
    ensures |files| == |frames|
    decreases |frames|
  {
    if frames == [] then []
    else Numbered(name, frames[..|frames| - 1]) + [DirFile(ImageFile(name, |frames|), frames[|frames| - 1])]
  }

  /** The k-th saved image is `<name>_<k>.jpg`, counting from 1, and holds the k-th frame. */
  lemma {:induction false} NumberedAt(name: string, frames: seq<FaceResult>)
    ensures forall k :: 0 <= k < |frames| ==> Numbered(name, frames)[k] == DirFile(ImageFile(name, k + 1), frames[k])
    decreases |frames|
  {
    if frames != [] {
      var init := frames[..|frames| - 1];
      NumberedAt(name, init);
      forall k | 0 <= k < |init| ensures Numbered(name, frames)[k] == DirFile(ImageFile(name, k + 1), frames[k]) {
        assert frames[k] == init[k];
        assert Numbered(name, frames)[k] == Numbered(name, init)[k];
      }
    }
  }

  /** The images a capture session saves: the first `n` frames captured with 'c', none without a camera. */
  function CapturedFiles(name: string, n: int, cameraOpened: bool, ticks: seq<Tick>): seq<DirFile> {
    if !cameraOpened then []
    else
      var p := Pressed(ticks);
      Numbered(name, if 0 <= n < |p| then p[..n] else if n < 0 then [] else p)
  }

  /**
    `capture_user_images`: until `n` images are saved, read a frame; a
    failed read or 'q' ends the session, 'c' saves the frame as the next
    numbered image. Returns whether anything was saved.
   */
  method CaptureUserImages(name: string, n: int, cameraOpened: bool, ticks: seq<Tick>) returns (ok: bool, saved: seq<DirFile>)
    ensures saved == CapturedFiles(name, n, cameraOpened, ticks)
    ensures ok <==> |saved| > 0
  {
    saved := [];
    if !cameraOpened {
      return false, saved;
    }
    var count := 0;
    var i := 0;
    var stopped := false;
    ghost var frames: seq<FaceResult> := [];
    ghost var rest := Pressed(ticks);
    while count < n && i < |ticks| && !stopped
      invariant 0 <= i <= |ticks|
      invariant count == |frames| && (n >= 0 ==> count <= n) && (n < 0 ==> count == 0)
      invariant saved == Numbered(name, frames)
      invariant Pressed(ticks) == frames + rest
      invariant stopped ==> rest == []
      invariant !stopped ==> rest == PressedFrom(ticks, i)
    {
      var captured;
      captured, stopped, saved, frames, rest := CaptureTick(name, ticks, i, frames, saved);
      if captured {
        count := count + 1;
      }
      i := i + 1;
    }
    CaptureEnds(name, ticks, frames, rest, n);
    ok := count > 0;
  }

  /**
    One turn of the capture loop: a failed read or 'q' stops it, 'c'
    saves the frame as the next numbered image, any other key reads on.
   */
  method CaptureTick(name: string, ticks: seq<Tick>, i: nat, ghost frames: seq<FaceResult>, saved: seq<DirFile>)
    returns (captured: bool, stopped: bool, files: seq<DirFile>, ghost frames': seq<FaceResult>, ghost rest: seq<FaceResult>)
    requires i < |ticks| && saved == Numbered(name, frames)
    ensures stopped <==> StopsCapture(ticks[i])
    ensures captured <==> IsCapture(ticks[i])
    ensures captured ==> frames' == frames + [ticks[i].faces]
    ensures !captured ==> frames' == frames
    ensures files == Numbered(name, frames')
    ensures frames + PressedFrom(ticks, i) == frames' + rest
    ensures stopped ==> rest == [] && !captured
    ensures !stopped ==> rest == PressedFrom(ticks, i + 1)
  {
    var t := ticks[i];
    captured, stopped, files, frames' := false, false, saved, frames;
    rest := PressedFrom(ticks, i + 1);
    if t.ReadFailed? {
      stopped, rest := true, [];
    } else {
      var key := KeyByte(t.key);
      if key == KEY_CAPTURE {
        assert frames + ([t.faces] + rest) == (frames + [t.faces]) + rest;
        files := SaveImage(name, saved, frames, t.faces);
        frames' := frames + [t.faces];
        captured := true;
      } else if key == KEY_QUIT {
        stopped, rest := true, [];
      }
    }
  }

  /** `cv2.imwrite` of the next numbered image: the saved list grows by `<name>_<k>.jpg`. */
  method SaveImage(name: string, saved: seq<DirFile>, ghost frames: seq<FaceResult>, faces: FaceResult)
    returns (files: seq<DirFile>)
    requires saved == Numbered(name, frames)
    ensures files == Numbered(name, frames + [faces])
  {
    NumberedSnoc(name, frames, faces);
    files := saved + [DirFile(ImageFile(name, |saved| + 1), faces)];
  }

  lemma NumberedSnoc(name: string, frames: seq<FaceResult>, f: FaceResult)
    ensures Numbered(name, frames + [f]) == Numbered(name, frames) + [DirFile(ImageFile(name, |frames| + 1), f)]
  {
    assert (frames + [f])[..|frames|] == frames;
  }

  /** When the loop ends the saved images are the first `n` frames captured, or all of them when fewer were taken. */
  lemma CaptureEnds(name: string, ticks: seq<Tick>, frames: seq<FaceResult>, rest: seq<FaceResult>, n: int)
    requires Pressed(ticks) == frames + rest
    requires n >= 0 ==> |frames| <= n
    requires n < 0 ==> frames == []
    requires |frames| >= n || rest == []
    ensures Numbered(name, frames) == CapturedFiles(name, n, true, ticks)
  {
    var p := Pressed(ticks);
    if 0 <= n < |p| {
      assert |frames| == n;
      assert p[..n] == frames;
    } else if n >= 0 {
      assert rest == [] by {
        if |frames| >= n {
          assert |frames| == n;
        }
      }
      assert p == frames;
    }
  }


  /**
    The capture counter never passes the requested number; each saved
    image is `<name>_<k>.jpg` for k = 1, 2, ... in order; and saved
    images are exactly those the encoder picks up for `name`.
   */
  lemma CapturedFilesNamed(name: string, n: int, cameraOpened: bool, ticks: seq<Tick>)
    ensures var files := CapturedFiles(name, n, cameraOpened, ticks);
      && |files| <= Max(n, 0)
      && |files| == (if cameraOpened then Min(Max(n, 0), |Pressed(ticks)|) else 0)
      && (forall k :: 0 <= k < |files| ==> files[k].fileName == ImageFile(name, k + 1))
      && (forall k :: 0 <= k < |files| ==> IsUserImage(name, files[k].fileName))
  {
    var files := CapturedFiles(name, n, cameraOpened, ticks);
    if cameraOpened {
      var p := Pressed(ticks);
      NumberedAt(name, if 0 <= n < |p| then p[..n] else if n < 0 then [] else p);
    }
    forall k | 0 <= k < |files| ensures IsUserImage(name, files[k].fileName) {
      ImageFileIsUserImage(name, k + 1);
    }
  }

  lemma ImageFileIsUserImage(name: string, k: nat)
    ensures IsUserImage(name, ImageFile(name, k))
  {
    var f := ImageFile(name, k);
    assert f == (name + "_") + (NatToString(k) + IMAGE_SUFFIX);
    assert f[..|name + "_"|] == name + "_";
    assert f[|f| - |IMAGE_SUFFIX|..] == IMAGE_SUFFIX;
  }

  /** Different numbers give different files, so no image overwrites another. */
  lemma ImageFilesDistinct(name: string, j: nat, k: nat)
    requires j != k
    ensures ImageFile(name, j) != ImageFile(name, k)
  {
    ParseNatToString(j);
    ParseNatToString(k);
    MiddleEqual(name + "_", NatToString(j), NatToString(k), IMAGE_SUFFIX);
  }

  /** Two strings with the same prefix and suffix are equal only when their middles are. */
  lemma MiddleEqual(a: string, x: string, y: string, b: string)
    ensures a + x + b == a + y + b ==> x == y
  {
    if a + x + b == a + y + b {
      assert |x| == |y|;
      assert (a + x + b)[|a|..|a| + |x|] == x;
      assert (a + y + b)[|a|..|a| + |y|] == y;
    }
  }

  // ---------------------------------------------------------------------
  // Encoding (register.py:57-99)
  // ---------------------------------------------------------------------

  /** The images `encode_user_faces` reads for `name`: `<name>_*.jpg`. */
  predicate IsUserImage(name: string, file: string) {
    StartsWith(file, name + "_") && EndsWith(file, IMAGE_SUFFIX)
  }

  function UserImages(name: string, dir: seq<DirFile>): seq<DirFile>
    decreases |dir|
  {
    if dir == [] then []
    else
      var f := dir[|dir| - 1];
      UserImages(name, dir[..|dir| - 1]) + (if IsUserImage(name, f.fileName) then [f] else [])
  }

  /** The images that give an encoding: those with at least one face; each gives one (its first face). */
  function Encoded(images: seq<DirFile>): seq<string>
    decreases |images|
  {
    if images == [] then []
    else
      var f := images[|images| - 1];
      Encoded(images[..|images| - 1]) + (if f.faces.Faces? && f.faces.count > 0 then [f.fileName] else [])
  }

  /**
    An image contributes exactly when it is one of the user's images and
    the face library finds at least one face in it, and it contributes
    one encoding however many faces it holds.
   */
  lemma {:induction false} EncodedImages(name: string, dir: seq<DirFile>)
    ensures |Encoded(UserImages(name, dir))| <= |UserImages(name, dir)| <= |dir|
    ensures forall f :: f in dir && IsUserImage(name, f.fileName) && f.faces.Faces? && f.faces.count > 0 ==>
              f.fileName in Encoded(UserImages(name, dir))
    ensures forall s :: s in Encoded(UserImages(name, dir)) ==>
              exists f :: f in dir && f.fileName == s && IsUserImage(name, s) && f.faces.Faces? && f.faces.count > 0
    decreases |dir|
  {
    if dir != [] {
      var init := dir[..|dir| - 1];
      var f := dir[|dir| - 1];
      EncodedImages(name, init);
      assert dir == init + [f];
      var before := UserImages(name, init);
      var images := UserImages(name, dir);
      if IsUserImage(name, f.fileName) {
        assert images == before + [f];
        assert images[..|images| - 1] == before && images[|images| - 1] == f;
        var extra := if f.faces.Faces? && f.faces.count > 0 then [f.fileName] else [];
        assert Encoded(images) == Encoded(before) + extra;
        forall s | s in Encoded(images)
          ensures exists g :: g in dir && g.fileName == s && IsUserImage(name, s) && g.faces.Faces? && g.faces.count > 0
        {
          if s in Encoded(before) {
            var g :| g in init && g.fileName == s && IsUserImage(name, s) && g.faces.Faces? && g.faces.count > 0;
            assert g in dir;
          } else {
            assert f in dir;
          }
        }
      } else {
        assert images == before;
        forall s | s in Encoded(images)
          ensures exists g :: g in dir && g.fileName == s && IsUserImage(name, s) && g.faces.Faces? && g.faces.count > 0
        {
          var g :| g in init && g.fileName == s && IsUserImage(name, s) && g.faces.Faces? && g.faces.count > 0;
          assert g in dir;
        }
      }
    }
  }

  /**
    `encode_user_faces`: collect the user's images, then take the first
    face of each image that has one. Succeeds (and saves
    `<name>_encoding.npy`) when at least one image gave an encoding;
    fails when there is no image or no image with a face.
   */
  method EncodeUserFaces(name: string, dir: seq<DirFile>) returns (ok: bool, used: seq<string>)
    ensures used == Encoded(UserImages(name, dir))
    ensures ok <==> used != []
    ensures UserImages(name, dir) == [] ==> !ok
  {
    var images: seq<DirFile> := [];
    var i := 0;
    while i < |dir|
      invariant 0 <= i <= |dir|
      invariant images == UserImages(name, dir[..i])
    {
      assert dir[..i + 1][..i] == dir[..i];
      if StartsWith(dir[i].fileName, name + "_") && EndsWith(dir[i].fileName, IMAGE_SUFFIX) {
        images := images + [dir[i]];
      }
      i := i + 1;
    }
    assert dir[..|dir|] == dir;
    used := [];
    if images == [] {
      return false, used;
    }
    var j := 0;
    while j < |images|
      invariant 0 <= j <= |images|
      invariant used == Encoded(images[..j])
    {
      assert images[..j + 1][..j] == images[..j];
      match images[j].faces {
        case LoadError =>
        case Faces(count) =>
          if count > 0 {
            used := used + [images[j].fileName];
          }
      }
      j := j + 1;
    }
    assert images[..|images|] == images;
    ok := used != [];
  }

  // ---------------------------------------------------------------------
  // Registration (register.py:101-146)
  // ---------------------------------------------------------------------

  /** The files that mark `name` as registered already: its images and its encoding. */
  predicate IsUserFile(name: string, file: string) {
    StartsWith(file, name + "_") && (EndsWith(file, IMAGE_SUFFIX) || EndsWith(file, ENCODING_SUFFIX))
  }

  function Existing(name: string, dir: seq<DirFile>): (r: seq<DirFile>)
    ensures forall f :: f in r <==> f in dir && IsUserFile(name, f.fileName)
    decreases |dir|
  {
    if dir == [] then []
    else
      var f := dir[|dir| - 1];
      assert dir == dir[..|dir| - 1] + [f];
      Existing(name, dir[..|dir| - 1]) + (if IsUserFile(name, f.fileName) then [f] else [])
  }

  /** The directory once the existing files are removed. */
  function WithoutExisting(name: string, dir: seq<DirFile>): (r: seq<DirFile>)
    ensures forall f :: f in r <==> f in dir && !IsUserFile(name, f.fileName)
    decreases |dir|
  {
    if dir == [] then []
    else
      var f := dir[|dir| - 1];
      assert dir == dir[..|dir| - 1] + [f];
      WithoutExisting(name, dir[..|dir| - 1]) + (if IsUserFile(name, f.fileName) then [] else [f])
  }

  /** The listing of `known_faces`, with a missing directory read as empty. */
  function Listed(listing: Option<seq<DirFile>>): seq<DirFile> {
    if listing.Some? then listing.value else []
  }

  /** The encoding file is never loaded as an image, so its face count plays no part. */
  function EncodingEntry(name: string): DirFile {
    DirFile(EncodingFile(name), LoadError)
  }

  datatype Outcome = EmptyName | ListingFailed | Cancelled | CaptureFailed | EncodeFailed | Registered(requested: int)
  {
    /** Registration stopped before any image was captured. */
    predicate StoppedEarly() {
      EmptyName? || ListingFailed? || Cancelled?
    }
  }

  /**
    Capture and enrolment starting from the files `files`: the outcome and
    the files of `known_faces` afterwards.
   */
  function Enrolment(name: string, files: seq<DirFile>, countAnswer: string, cameraOpened: bool, ticks: seq<Tick>)
    : (Outcome, seq<DirFile>)
  {
    var n := RequestedCount(countAnswer);
    var saved := CapturedFiles(name, n, cameraOpened, ticks);
    if saved == [] then (CaptureFailed, files)
    else if Encoded(UserImages(name, files + saved)) == [] then (EncodeFailed, files + saved)
    else (Registered(n), files + saved + [EncodingEntry(name)])
  }

  /** The overwrite question, then capture and enrolment, from the listing `files`. */
  function Confirmed(name: string, files: seq<DirFile>, overwriteAnswer: string, countAnswer: string,
                     cameraOpened: bool, ticks: seq<Tick>): (Outcome, seq<DirFile>)
  {
    if Existing(name, files) != [] && !AcceptsOverwrite(overwriteAnswer) then (Cancelled, files)
    else Enrolment(name, WithoutExisting(name, files), countAnswer, cameraOpened, ticks)
  }

  /** `register_user` as written: listing a missing `known_faces` directory raises. */
  function RegistrationAsWritten(rawName: string, listing: Option<seq<DirFile>>, overwriteAnswer: string,
                                 countAnswer: string, cameraOpened: bool, ticks: seq<Tick>): (Outcome, seq<DirFile>)
  {
    var name := Strip(rawName);
    if name == [] then (EmptyName, Listed(listing))
    else if listing.None? then (ListingFailed, [])
    else Confirmed(name, listing.value, overwriteAnswer, countAnswer, cameraOpened, ticks)
  }

  /** `register_user` with the existence check evidently intended: a missing directory holds no files of the user. */
  function Registration(rawName: string, listing: Option<seq<DirFile>>, overwriteAnswer: string,
                        countAnswer: string, cameraOpened: bool, ticks: seq<Tick>): (Outcome, seq<DirFile>)
  {
    var name := Strip(rawName);
    if name == [] then (EmptyName, Listed(listing))
    else Confirmed(name, Listed(listing), overwriteAnswer, countAnswer, cameraOpened, ticks)
  }

  /**
    Registration fails at capture exactly when no image was saved, fails
    at encoding exactly when images were saved but none holds a face, and
    registers otherwise, with the clamped count. The new images follow
    the old files, and the encoding file is written last.
   */
  lemma EnrolmentOutcome(name: string, files: seq<DirFile>, countAnswer: string, cameraOpened: bool, ticks: seq<Tick>)
    ensures var (outcome, dir) := Enrolment(name, files, countAnswer, cameraOpened, ticks);
            var saved := CapturedFiles(name, RequestedCount(countAnswer), cameraOpened, ticks);
            var enc := Encoded(UserImages(name, files + saved));
      && (outcome == CaptureFailed <==> saved == [])
      && (outcome == EncodeFailed <==> saved != [] && enc == [])
      && (outcome.Registered? <==> saved != [] && enc != [])
      && (outcome.Registered? ==> outcome.requested == RequestedCount(countAnswer))
      && dir == files + saved + (if outcome.Registered? then [EncodingEntry(name)] else [])
  {
    var n := RequestedCount(countAnswer);
    var saved := CapturedFiles(name, n, cameraOpened, ticks);
    var r := Enrolment(name, files, countAnswer, cameraOpened, ticks);
    if saved == [] {
      assert r == (CaptureFailed, files);
      assert files + saved + [] == files;
    } else if Encoded(UserImages(name, files + saved)) == [] {
      assert r == (EncodeFailed, files + saved);
      assert files + saved + [] == files + saved;
    } else {
      assert r == (Registered(n), files + saved + [EncodingEntry(name)]);
    }
  }

  /**
    The overwrite question cancels exactly when the user has files and
    the answer is not "y"; otherwise the user's files are deleted and
    capture and enrolment decide the outcome.
   */
  lemma ConfirmedOutcome(name: string, files: seq<DirFile>, overwriteAnswer: string, countAnswer: string,
                         cameraOpened: bool, ticks: seq<Tick>)
    ensures var (outcome, dir) := Confirmed(name, files, overwriteAnswer, countAnswer, cameraOpened, ticks);
      && !outcome.EmptyName? && !outcome.ListingFailed?
      && (outcome == Cancelled <==> Existing(name, files) != [] && !AcceptsOverwrite(overwriteAnswer))
      && (outcome == Cancelled ==> dir == files)
      && (outcome != Cancelled ==>
            (outcome, dir) == Enrolment(name, WithoutExisting(name, files), countAnswer, cameraOpened, ticks))
  {
    var r := Enrolment(name, WithoutExisting(name, files), countAnswer, cameraOpened, ticks);
    assert r.0.CaptureFailed? || r.0.EncodeFailed? || r.0.Registered?;
  }

  /**
    The registration flow (with the corrected existence check): an empty
    name stops it; existing files of the user stop it unless the answer
    is "y"; otherwise the overwrite deletes exactly those files and
    capture and enrolment decide the outcome. A missing directory never
    stops it: registration then starts from no files.
   */
  lemma RegistrationOutcome(rawName: string, listing: Option<seq<DirFile>>, overwriteAnswer: string,
                            countAnswer: string, cameraOpened: bool, ticks: seq<Tick>)
    ensures var name := Strip(rawName);
            var (outcome, dir) := Registration(rawName, listing, overwriteAnswer, countAnswer, cameraOpened, ticks);
      && (outcome == EmptyName <==> name == [])
      && outcome != ListingFailed
      && (outcome == Cancelled <==> name != [] && Existing(name, Listed(listing)) != [] && !AcceptsOverwrite(overwriteAnswer))
      && (outcome.StoppedEarly() ==> dir == Listed(listing))
      && (!outcome.StoppedEarly() ==>
            (outcome, dir) == Enrolment(name, WithoutExisting(name, Listed(listing)), countAnswer, cameraOpened, ticks))
      && (listing.None? && name != [] ==> (outcome, dir) == Enrolment(name, [], countAnswer, cameraOpened, ticks))
  {
    var name := Strip(rawName);
    if name != [] {
      ConfirmedOutcome(name, Listed(listing), overwriteAnswer, countAnswer, cameraOpened, ticks);
      if listing.None? {
        NoListingNoFiles(name);
      }
    }
  }

  /** An empty directory holds no files of the user, and the overwrite leaves it empty. */
  lemma NoListingNoFiles(name: string)
    ensures Existing(name, []) == [] && WithoutExisting(name, []) == []
  {
  }

  /**
    As written, registration stops at the listing exactly when the name
    is not empty and `known_faces` is missing; otherwise it agrees with
    the corrected flow.
   */
  lemma RegistrationAsWrittenOutcome(rawName: string, listing: Option<seq<DirFile>>, overwriteAnswer: string,
                                     countAnswer: string, cameraOpened: bool, ticks: seq<Tick>)
    ensures var r := RegistrationAsWritten(rawName, listing, overwriteAnswer, countAnswer, cameraOpened, ticks);
      && (r.0 == ListingFailed <==> Strip(rawName) != [] && listing.None?)
      && (r.0 != ListingFailed ==> r == Registration(rawName, listing, overwriteAnswer, countAnswer, cameraOpened, ticks))
  {
    if Strip(rawName) != [] && listing.Some? {
      ConfirmedOutcome(Strip(rawName), listing.value, overwriteAnswer, countAnswer, cameraOpened, ticks);
      assert Listed(listing) == listing.value;
    }
  }

  /**
    On a fresh install (no `known_faces` directory), a first user whose
    one captured frame holds a face is not registered as written, because
    listing the directory raises.
   */
  lemma FreshInstallFails()
    ensures RegistrationAsWritten("ann", None, "", "", true, [Frame(KEY_CAPTURE, Faces(1)), ReadFailed]).0 == ListingFailed
  {
    StripPadded("", "ann");
    assert "" + "ann" + "" == "ann";
    RegistrationAsWrittenOutcome("ann", None, "", "", true, [Frame(KEY_CAPTURE, Faces(1)), ReadFailed]);
  }

  /** With the corrected existence check the same session registers the user, with the default count. */
  lemma FreshInstallRegisters()
    ensures Registration("ann", None, "", "", true, [Frame(KEY_CAPTURE, Faces(1)), ReadFailed]).0 == Registered(DEFAULT_IMAGES)
  {
    var ticks := [Frame(KEY_CAPTURE, Faces(1)), ReadFailed];
    StripPadded("", "ann");
    assert "" + "ann" + "" == "ann";
    RegistrationOutcome("ann", None, "", "", true, ticks);
    EnrolmentOutcome("ann", [], "", true, ticks);
    assert RequestedCount("") == DEFAULT_IMAGES;
    OneCapture("ann", ticks);
    var saved := CapturedFiles("ann", DEFAULT_IMAGES, true, ticks);
    assert [] + saved == saved;
  }

  /** One 'c' press on a frame with a face, then a failed read: one image saved, and it gives an encoding. */
  lemma OneCapture(name: string, ticks: seq<Tick>)
    requires ticks == [Frame(KEY_CAPTURE, Faces(1)), ReadFailed]
    ensures CapturedFiles(name, DEFAULT_IMAGES, true, ticks) == [DirFile(ImageFile(name, 1), Faces(1))]
    ensures Encoded(UserImages(name, CapturedFiles(name, DEFAULT_IMAGES, true, ticks))) != []
  {
    assert PressedFrom(ticks, 1) == [];
    assert Pressed(ticks) == [Faces(1)];
    var image := DirFile(ImageFile(name, 1), Faces(1));
    assert Numbered(name, [Faces(1)]) == [image];
    ImageFileIsUserImage(name, 1);
    assert UserImages(name, [image]) == [image];
    assert Encoded([image]) == [image.fileName];
  }

  /**
    `register_user` as written: strip the name and stop when it is empty;
    list `known_faces`, which raises when the directory is missing; when
    files of the user exist, stop unless the answer is "y", else delete
    them; then read the count, capture, encode, and add the user only when
    both succeeded.
   */
  method RegisterUserAsWritten(db: Store.DatabaseManager, rawName: string, listing: Option<seq<DirFile>>,
                               overwriteAnswer: string, countAnswer: string, cameraOpened: bool, ticks: seq<Tick>, now: real)
    returns (outcome: Outcome, dir: seq<DirFile>)
    requires db.Valid()
    modifies db
    ensures db.Valid() && db.accessLogs == old(db.accessLogs)
    ensures (outcome, dir) == RegistrationAsWritten(rawName, listing, overwriteAnswer, countAnswer, cameraOpened, ticks)
    ensures db.users == if outcome.Registered? then Store.Inserted(old(db.users), Strip(rawName), now) else old(db.users)
  {
    var name := Strip(rawName);
    dir := Listed(listing);
    if name == [] {
      return EmptyName, dir;
    }
    if listing.None? {
      return ListingFailed, [];
    }
    outcome, dir := ConfirmAndEnroll(db, name, dir, overwriteAnswer, countAnswer, cameraOpened, ticks, now);
  }

  /**
    `register_user` with the corrected existence check: a missing
    `known_faces` directory holds no files of the user, and registration
    goes on to capture.
   */
  method RegisterUser(db: Store.DatabaseManager, rawName: string, listing: Option<seq<DirFile>>,
                      overwriteAnswer: string, countAnswer: string, cameraOpened: bool, ticks: seq<Tick>, now: real)
    returns (outcome: Outcome, dir: seq<DirFile>)
    requires db.Valid()
    modifies db
    ensures db.Valid() && db.accessLogs == old(db.accessLogs)
    ensures (outcome, dir) == Registration(rawName, listing, overwriteAnswer, countAnswer, cameraOpened, ticks)
    ensures db.users == if outcome.Registered? then Store.Inserted(old(db.users), Strip(rawName), now) else old(db.users)
  {
    var name := Strip(rawName);
    dir := Listed(listing);
    if name == [] {
      return EmptyName, dir;
    }
    outcome, dir := ConfirmAndEnroll(db, name, dir, overwriteAnswer, countAnswer, cameraOpened, ticks, now);
  }

  /**
    `register_user` once the directory is listed: ask before overwriting
    the user's files and delete them, then capture and enrol.
   */
  method ConfirmAndEnroll(db: Store.DatabaseManager, name: string, files: seq<DirFile>, overwriteAnswer: string,
                          countAnswer: string, cameraOpened: bool, ticks: seq<Tick>, now: real)
    returns (outcome: Outcome, dir: seq<DirFile>)
    requires db.Valid()
    modifies db
    ensures db.Valid() && db.accessLogs == old(db.accessLogs)
    ensures (outcome, dir) == Confirmed(name, files, overwriteAnswer, countAnswer, cameraOpened, ticks)
    ensures db.users == if outcome.Registered? then Store.Inserted(old(db.users), name, now) else old(db.users)
  {
    dir := files;
    if Existing(name, files) != [] && !AcceptsOverwrite(overwriteAnswer) {
      return Cancelled, dir;
    }
    // Deleting the user's files; there are none when the check found none.
    dir := WithoutExisting(name, dir);
    outcome, dir := CaptureAndEnroll(db, name, dir, countAnswer, cameraOpened, ticks, now);
  }

  /**
    The second half of `register_user`: read the count, capture, encode,
    and add the user to the database only when both succeeded.
   */
  method CaptureAndEnroll(db: Store.DatabaseManager, name: string, files: seq<DirFile>,
                          countAnswer: string, cameraOpened: bool, ticks: seq<Tick>, now: real)
    returns (outcome: Outcome, dir: seq<DirFile>)
    requires db.Valid()
    modifies db
    ensures db.Valid() && db.accessLogs == old(db.accessLogs)
    ensures (outcome, dir) == Enrolment(name, files, countAnswer, cameraOpened, ticks)
    ensures db.users == if outcome.Registered? then Store.Inserted(old(db.users), name, now) else old(db.users)
  {
    dir := files;
    var n := RequestedCount(countAnswer);
    var captured, saved := CaptureUserImages(name, n, cameraOpened, ticks);
    if !captured {
      return CaptureFailed, dir;
    }
    dir := dir + saved;
    var encoded, used := EncodeUserFaces(name, dir);
    if !encoded {
      return EncodeFailed, dir;
    }
    dir := dir + [EncodingEntry(name)];
    var _ := db.AddUser(name, now);
    outcome := Registered(n);
  }
}
