/** The handlers of the CSI camera web server: the stream that starts a camera and always
    stops it, the capture answer, and the gallery listing. */
module CsiWeb {
  import opened Common
  import opened Strings
  import opened PurePaths
  import opened Timestamps
  import opened CaptureFiles
  import opened BasicAuth
  import opened CsiCamera

  /** One gallery item; the modification time (`time.ctime`) is not modelled. */
  datatype GalleryImage = GalleryImage(filename: string, url: string, size: nat)

  datatype Body =
    | Text(text: string)
    | Frames(chunks: seq<Bytes>)
    | CaptureSucceeded(filename: string, path: string)
    | CaptureFailed
    | InternalError
    | Gallery(images: seq<GalleryImage>)

  /** `Response('Camera failed to start', 500)` */
  const StartFailed: Reply<Body> := Reply(500, Text("Camera failed to start"))

  /** The `/stream` route, with a consumer that takes `demand` chunks before the response is
      closed. A camera that does not start gives 500 and no chunks. Otherwise the response
      body is the generator `generate()`, whose `finally` stops the camera. A consumer that
      takes no chunk at all (a `HEAD` request, whose body is never iterated) closes that
      generator before it starts, so the `finally` never runs and `rpicam-vid` is left
      running. `child` is the process the route started, if any. */
  method Stream(dir: Directory, popen: seq<string> -> Spawn, demand: nat)
    returns (r: Reply<Body>, ghost child: ChildProcess?)
    ensures var sp := popen(VidCommand(640, 480, 30));
            && (r.status == 500 <==> !(sp.Spawned? && sp.alive))
            && (r.status == 500 ==> r == StartFailed)
            && (r.status != 500 ==>
                  && r == Reply(200, Frames(Chunked(sp.output)[..Min(demand, |Chunked(sp.output)|)]))
                  && child != null && fresh(child)
                  && (demand > 0 ==> child.terminated && !child.running
                                     && (child.killed <==> !sp.exitsOnTerminate))
                  && (demand == 0 ==> child.running && !child.terminated && !child.killed))
  {
    var camera := GetCameraService(dir);
    var ok := camera.Start(popen);
    child := camera.process;
    if !ok {
      return StartFailed, child;
    }
    var chunks: seq<Bytes> := [];
    if demand > 0 {
      chunks := camera.GenerateStream(demand);
      camera.Stop();
    }
    r := Reply(200, Frames(chunks));
  }

  /** A `HEAD` request to `/stream` answers 200 and leaves the camera process it started
      running and never signalled. */
  method HeadRequestLeavesCameraRunning(dir: Directory, popen: seq<string> -> Spawn)
    returns (r: Reply<Body>, ghost child: ChildProcess?)
    requires popen(VidCommand(640, 480, 30)).Spawned? && popen(VidCommand(640, 480, 30)).alive
    ensures r == Reply(200, Frames([]))
    ensures child != null && child.running && !child.terminated
  {
    r, child := Stream(dir, popen, 0);
  }

  /** `/stream` with the camera stopped when the response is closed (the stop registered with
      `Response.call_on_close` instead of a generator `finally`): the camera process is
      stopped whatever the consumer takes, none of it included. */
  method StreamStoppedOnClose(dir: Directory, popen: seq<string> -> Spawn, demand: nat)
    returns (r: Reply<Body>, ghost child: ChildProcess?)
    ensures var sp := popen(VidCommand(640, 480, 30));
            && (r.status == 500 <==> !(sp.Spawned? && sp.alive))
            && (r.status == 500 ==> r == StartFailed)
            && (r.status != 500 ==>
                  && r == Reply(200, Frames(Chunked(sp.output)[..Min(demand, |Chunked(sp.output)|)]))
                  && child != null && fresh(child) && child.terminated && !child.running
                  && (child.killed <==> !sp.exitsOnTerminate))
  {
    var camera := GetCameraService(dir);
    var ok := camera.Start(popen);
    child := camera.process;
    if !ok {
      return StartFailed, child;
    }
    var chunks := camera.GenerateStream(demand);
    camera.Stop();
    r := Reply(200, Frames(chunks));
  }

  /** The answer of `capture` to what `capture_image` gave and the files then present:
      success only for a returned path whose file exists. */
  function CaptureReply(outcome: CaptureOutcome, files: map<string, Bytes>): (r: Reply<Body>)
    ensures r.status == 200 <==> outcome.Saved? && Exists(outcome.path, files)
    ensures r.status == 200 ==> r.body == CaptureSucceeded(Name(outcome.path), PathString(outcome.path))
    ensures r.status != 200 ==> r.status == 500 && (r.body == InternalError <==> outcome.Raised?)
  {
    match outcome
    case Raised => Reply(500, InternalError)
    case NotSaved => Reply(500, CaptureFailed)
    case Saved(p) =>
      if Exists(p, files) then Reply(200, CaptureSucceeded(Name(p), PathString(p))) else Reply(500, CaptureFailed)
  }

  /** The `/capture` route: success exactly when `rpicam-still` exits with 0 and the file
      is there afterwards, written now or left by an earlier capture in the same second. */
  method Capture(dir: Directory, now: DateTime, still: seq<string> -> StillRun) returns (r: Reply<Body>)
    requires now.Valid()
    modifies dir
    ensures var name := CsiCaptureName(now);
            var run := still(StillCommand(CapturesDir + [name]));
            && (r.status == 200 <==> run.StillExited? && run.returncode == 0
                                     && (run.written.Some? || name in old(dir.files)))
            && (r.status == 200 ==> r.body == CaptureSucceeded(name, "/app/captures/" + name))
            && (r.status != 200 ==> r.status == 500)
            && dir.files == if run.StillExited? && run.written.Some? then old(dir.files)[name := run.written.value]
                            else old(dir.files)
  {
    var camera := GetCameraService(dir);
    var outcome := camera.CaptureImage(now, still);
    r := CaptureReply(outcome, dir.files);
    var name := CsiCaptureName(now);
    ExistsFile(name, dir.files);
    CapturePathString(name);
  }

  /** `str()` of a path in the capture directory. */
  lemma CapturePathString(name: string)
    ensures PathString(CapturesDir + [name]) == "/app/captures/" + name
    ensures Name(CapturesDir + [name]) == name
  {
    var p := CapturesDir + [name];
    assert p[1..] == ["captures", name] && p[1..][1..] == [name];
    assert JoinSlash(["captures", name]) == "captures" + "/" + name;
    assert JoinSlash(p) == "app" + "/" + ("captures" + "/" + name);
  }

  /** The gallery item for one file. */
  function Item(name: string, files: map<string, Bytes>): GalleryImage
    requires name in files
  {
    GalleryImage(name, "/captures/" + name, |files[name]|)
  }

  /** The `gallery` loop: nothing when the directory does not exist, otherwise one item per
      `.jpg` file, newest name first. */
  method GalleryImages(dirExists: bool, files: map<string, Bytes>) returns (images: seq<GalleryImage>)
    ensures !dirExists ==> images == []
    ensures dirExists ==> |images| == |Listing(files)|
    ensures dirExists ==> forall i :: 0 <= i < |images| ==>
              Listing(files)[i] in files && images[i] == Item(Listing(files)[i], files)
  {
    images := [];
    if !dirExists {
      return;
    }
    var names := Listing(files);
    for i := 0 to |names|
      invariant |images| == i
      invariant forall j :: 0 <= j < i ==> names[j] in files && images[j] == Item(names[j], files)
    {
      images := images + [Item(names[i], files)];
    }
  }

  /** The gallery shows exactly the `.jpg` files, in descending name order, each with its
      URL and size. */
  lemma GalleryListsJpgs(files: map<string, Bytes>, images: seq<GalleryImage>)
    requires |images| == |Listing(files)|
    requires forall i :: 0 <= i < |images| ==> Listing(files)[i] in files && images[i] == Item(Listing(files)[i], files)
    ensures forall i, j :: 0 <= i < j < |images| ==> Below(images[j].filename, images[i].filename)
    ensures forall n :: n in files && GlobJpg(n) ==> exists i :: 0 <= i < |images| && images[i].filename == n
    ensures forall i :: 0 <= i < |images| ==> images[i].filename in files && GlobJpg(images[i].filename)
                                              && images[i].url == "/captures/" + images[i].filename
  {
    var l := Listing(files);
    forall n | n in files && GlobJpg(n)
      ensures exists i :: 0 <= i < |images| && images[i].filename == n
    {
      assert n in l;
      var i :| 0 <= i < |l| && l[i] == n;
      assert images[i].filename == n;
    }
  }

  /** A capture the route reported as saved is shown in the gallery. */
  lemma SavedCaptureShown(now: DateTime, files: map<string, Bytes>)
    requires now.Valid() && CsiCaptureName(now) in files
    ensures CsiCaptureName(now) in Listing(files)
  {
  }

  /** `requires_auth` around `/capture`: an unauthenticated request runs no camera command
      and leaves the directory alone. */
  method GuardedCapture(auth: Option<Credentials>, cfg: Credentials, dir: Directory, now: DateTime,
                        still: seq<string> -> StillRun) returns (g: Gated<Body>)
    requires now.Valid()
    modifies dir
    ensures !Admitted(auth, cfg) ==> g == Challenge(401, "Authentication required", CsiRealm)
                                     && dir.files == old(dir.files)
    ensures Admitted(auth, cfg) ==> g.Served? && g.reply.status in {200, 500}
    ensures Admitted(auth, cfg) ==>
              var run := still(StillCommand(CapturesDir + [CsiCaptureName(now)]));
              dir.files == if run.StillExited? && run.written.Some?
                           then old(dir.files)[CsiCaptureName(now) := run.written.value]
                           else old(dir.files)
  {
    if !Admitted(auth, cfg) {
      return Challenge(401, "Authentication required", CsiRealm);
    }
    var r := Capture(dir, now, still);
    g := Served(r);
  }
}
