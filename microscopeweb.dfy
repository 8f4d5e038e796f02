/** The capture-store handlers of the microscope web server: path confinement for a requested
    name, serving one capture, the zip export, the batch delete, and the capture, status and
    health answers. */
module MicroscopeWeb {
  import opened Common
  import opened Strings
  import opened PurePaths
  import opened Timestamps
  import opened CaptureFiles
  import opened BasicAuth
  import opened UsbCamera

  /** One named file of the in-memory zip archive. */
  datatype ZipEntry = ZipEntry(arcname: string, data: Bytes)

  /** The JSON (or binary) bodies the handlers answer with. */
  datatype Body =
    | Error(error: string)
    | Failure(message: string)
    | Captured(filename: string, path: string)
    | Captures(captures: seq<string>)
    | Image(data: Bytes)
    | Zip(entries: seq<ZipEntry>)
    | Deleted(deleted: nat, requested: nat)
    | CameraReady(ready: bool)
    | Health(health: string, camera: string)

  /** `(captures_dir / filename).resolve()` */
  function Resolved(name: string): Path
  {
    Resolve(Join(CapturesDir, name))
  }

  /** Where a requested name leads: out of the directory, to nothing servable, or to one of
      its `.jpg` files. */
  datatype Verdict = Outside | Missing | Found(key: string)

  /** The checks `get_capture`, `batch_download` and `batch_delete` make of a name: the
      resolved path must be the directory or lie inside it, and must then exist and have the
      suffix `.jpg`. */
  function Confine(name: string, files: map<string, Bytes>): (v: Verdict)
    ensures v.Outside? <==> !IsRelativeTo(Resolved(name), CapturesDir)
    ensures v.Found? ==> v.key in files && Suffix(v.key) == ".jpg" && Resolved(name) == CapturesDir + [v.key]
  {
    var p := Resolved(name);
    if !IsRelativeTo(p, CapturesDir) then Outside
    else if Exists(p, files) && Suffix(Name(p)) == ".jpg" then
      assert p != CapturesDir by { NoDotNoSuffix("captures"); }
      assert |p| == 3 && p == CapturesDir + [p[2]];
      Found(p[2])
    else Missing
  }

  /** A name is found exactly when it resolves to a `.jpg` file of the directory. */
  lemma ConfineFound(name: string, files: map<string, Bytes>, k: string)
    ensures Confine(name, files) == Found(k) <==> k in files && Suffix(k) == ".jpg" && Resolved(name) == CapturesDir + [k]
  {
    var p := CapturesDir + [k];
    if Resolved(name) == p {
      assert IsRelativeTo(p, CapturesDir) && Name(p) == k;
      ExistsFile(k, files);
    }
  }

  /** The verdict depends on the name only through the path it resolves to. */
  lemma SameResolvedSameVerdict(a: string, b: string, files: map<string, Bytes>)
    requires Resolved(a) == Resolved(b)
    ensures Confine(a, files) == Confine(b, files)
  {
  }

  /** A plain file name (no slash, not `.` or `..`) is found exactly when it is a `.jpg`
      file of the directory, under its own name. */
  lemma {:induction false} PlainNameConfined(name: string, files: map<string, Bytes>)
    requires Normal(name)
    ensures Resolved(name) == CapturesDir + [name]
    ensures Confine(name, files) == if name in files && Suffix(name) == ".jpg" then Found(name) else Missing
  {
    SplitPiece(name, "");
    KeepNormal([name]);
    assert Join(CapturesDir, name) == CapturesDir + [name];
    FoldNormal([], CapturesDir + [name]);
    ConfineFound(name, files, name);
  }

  /** `..` that climbs out and back in is accepted: `../captures/x.jpg` names the same
      file as `x.jpg`. */
  lemma ClimbBackInAccepted(files: map<string, Bytes>)
    ensures Resolved("../captures/a.jpg") == CapturesDir + ["a.jpg"]
    ensures Confine("../captures/a.jpg", files) == Confine("a.jpg", files)
  {
    ClimbBackParts();
    ClimbBackFold();
    PlainNameConfined("a.jpg", files);
    SameResolvedSameVerdict("../captures/a.jpg", "a.jpg", files);
  }

  lemma ClimbBackParts()
    ensures Join(CapturesDir, "../captures/a.jpg") == CapturesDir + ["..", "captures", "a.jpg"]
  {
    ClimbBackSplit();
    ClimbBackKeep();
    assert !IsAbsolute("../captures/a.jpg");
  }

  lemma ClimbBackSplit()
    ensures Split("../captures/a.jpg") == ["..", "captures", "a.jpg"]
  {
    var pieces := ["..", "captures", "a.jpg"];
    assert JoinSlash(pieces) == "../captures/a.jpg" by {
      assert pieces[1..] == ["captures", "a.jpg"] && pieces[1..][1..] == ["a.jpg"];
      assert JoinSlash(["captures", "a.jpg"]) == "captures/a.jpg";
    }
    SplitJoinSlash(pieces);
  }

  lemma ClimbBackKeep()
    ensures Keep(["..", "captures", "a.jpg"]) == ["..", "captures", "a.jpg"]
  {
    var pieces := ["..", "captures", "a.jpg"];
    KeepNormal(pieces[1..]);
    assert pieces == [pieces[0]] + pieces[1..];
  }

  lemma ClimbBackFold()
    ensures Fold([], CapturesDir + ["..", "captures", "a.jpg"]) == CapturesDir + ["a.jpg"]
  {
    var pieces := ["..", "captures", "a.jpg"];
    FoldAppend([], CapturesDir, pieces);
    FoldNormal([], CapturesDir);
    assert Fold(CapturesDir, pieces) == Fold(["app"], pieces[1..]);
    FoldNormal(["app"], pieces[1..]);
  }

  /** An absolute name outside the directory is refused. */
  lemma AbsoluteOutsideRefused(files: map<string, Bytes>)
    ensures Confine("/etc/passwd", files) == Outside
  {
    var p := ["etc", "passwd"];
    assert PathString(p) == "/etc/passwd" by {
      assert p[1..] == ["passwd"];
    }
    PathStringRoundTrip(p);
    FoldNormal([], p);
    assert Resolved("/etc/passwd") == p;
  }

  /** `..` leads to the parent of the directory and is refused. */
  lemma ParentRefused(files: map<string, Bytes>)
    ensures Resolved("..") == ["app"]
    ensures Confine("..", files) == Outside
  {
    SplitPiece("..", "");
    assert Keep([".."]) == [".."];
    assert !IsAbsolute("..") && Join(CapturesDir, "..") == CapturesDir + [".."];
    FoldAppend([], CapturesDir, [".."]);
    FoldNormal([], CapturesDir);
  }

  /** The directory itself passes the confinement check (it is relative to itself) but is
      not a servable file. */
  lemma DirectoryItselfMissing(files: map<string, Bytes>)
    ensures Resolved(".") == CapturesDir
    ensures Confine(".", files) == Missing
  {
    SplitPiece(".", "");
    assert Keep(["."]) == Keep([]) == [];
    assert !IsAbsolute(".") && Join(CapturesDir, ".") == CapturesDir + [] == CapturesDir;
    FoldNormal([], CapturesDir);
    NoDotNoSuffix("captures");
  }

  /** `get_capture`: 400 outside the directory, 404 for a missing or non-`.jpg` path, else the
      file's bytes. */
  function GetCapture(filename: string, files: map<string, Bytes>): (r: Reply<Body>)
    ensures r.status == 400 <==> !IsRelativeTo(Resolved(filename), CapturesDir)
    ensures r.status == 404 <==> Confine(filename, files).Missing?
    ensures r.status == 200 <==> exists k :: Confine(filename, files) == Found(k)
    ensures r.status == 200 ==> r.body == Image(files[Confine(filename, files).key])
  {
    match Confine(filename, files)
    case Outside => Reply(400, Error("Invalid file path"))
    case Missing => Reply(404, Error("File not found"))
    case Found(k) => Reply(200, Image(files[k]))
  }

  /** Whatever is asked for, `get_capture` only ever serves a `.jpg` file of the directory,
      and one whose name the request resolves to. */
  lemma GetCaptureConfined(filename: string, files: map<string, Bytes>)
    requires GetCapture(filename, files).status == 200
    ensures exists k :: k in files && Suffix(k) == ".jpg" && Resolved(filename) == CapturesDir + [k]
                        && GetCapture(filename, files).body == Image(files[k])
  {
    var k := Confine(filename, files).key;
    assert k in files && Suffix(k) == ".jpg" && Resolved(filename) == CapturesDir + [k];
  }

  /** `list_captures` */
  function ListCaptures(files: map<string, Bytes>): (r: Reply<Body>)
    ensures r.status == 200 && r.body.Captures?
    ensures forall n :: n in r.body.captures <==> n in files && GlobJpg(n)
    ensures forall i, j :: 0 <= i < j < |r.body.captures| ==> Below(r.body.captures[j], r.body.captures[i])
  {
    Reply(200, Captures(Listing(files)))
  }

  /** The `files` member of the request's JSON: `None` when it is missing. */
  type FilesField = Option<seq<string>>

  /** `data.get('files', [])`, tested with `not files`. */
  function Requested(field: FilesField): seq<string>
  {
    if field.None? then [] else field.value
  }

  const NoFiles: Reply<Body> := Reply(400, Error("No files specified"))

  /** The entry `zip_file.write(filepath, filename)` adds for one name, if any. */
  function ZipEntry1(name: string, files: map<string, Bytes>): (es: seq<ZipEntry>)
    ensures |es| <= 1
  {
    var v := Confine(name, files);
    if v.Found? then [ZipEntry(name, files[v.key])] else []
  }

  /** The zip entries `batch_download` writes: one per accepted name, in request order and
      under the requested string itself. */
  function ZipEntries(names: seq<string>, files: map<string, Bytes>): (es: seq<ZipEntry>)
    ensures |es| <= |names|
    decreases |names|
  {
    if names == [] then []
    else ZipEntry1(names[0], files) + ZipEntries(names[1..], files)
  }

  /** An entry is in the archive exactly when its name was requested and found, and it holds
      the bytes of the file the name resolves to. */
  lemma {:induction false} ZipEntryMembership(names: seq<string>, files: map<string, Bytes>, e: ZipEntry)
    ensures e in ZipEntries(names, files) <==>
              e.arcname in names && Confine(e.arcname, files).Found?
              && e.data == files[Confine(e.arcname, files).key]
    decreases |names|
  {
    if names != [] {
      var head, tail := names[0], names[1..];
      ZipEntryMembership(tail, files, e);
      assert names == [head] + tail;
      ZipEntriesCons(head, tail, files);
      ZipEntry1Member(head, files, e);
      assert e in ZipEntries(names, files) <==> e in ZipEntry1(head, files) || e in ZipEntries(tail, files);
      assert e.arcname in names <==> e.arcname == head || e.arcname in tail;
    }
  }

  /** The entry one name gives is that name with the bytes of its file. */
  lemma ZipEntry1Member(name: string, files: map<string, Bytes>, e: ZipEntry)
    ensures e in ZipEntry1(name, files) <==>
              e.arcname == name && Confine(name, files).Found? && e.data == files[Confine(name, files).key]
  {
  }

  /** A refused or missing name is skipped; the rest of the request is still exported. */
  lemma {:induction false} ZipSkipsRefused(before: seq<string>, n: string, after: seq<string>, files: map<string, Bytes>)
    requires !Confine(n, files).Found?
    ensures ZipEntries(before + [n] + after, files) == ZipEntries(before + after, files)
    decreases |before|
  {
    if before == [] {
      assert before + [n] + after == [n] + after && before + after == after;
      ZipEntriesCons(n, after, files);
    } else {
      var b, bs := before[0], before[1..];
      assert before + [n] + after == [b] + (bs + [n] + after);
      assert before + after == [b] + (bs + after);
      ZipEntriesCons(b, bs + [n] + after, files);
      ZipEntriesCons(b, bs + after, files);
      ZipSkipsRefused(bs, n, after, files);
    }
  }

  /** One turn of the export loop: the entries written so far, then those of the names left. */
  lemma ZipEntriesStep(names: seq<string>, files: map<string, Bytes>, i: nat, done: seq<ZipEntry>)
    requires i < |names| && done + ZipEntries(names[i..], files) == ZipEntries(names, files)
    ensures (done + ZipEntry1(names[i], files)) + ZipEntries(names[i + 1..], files) == ZipEntries(names, files)
  {
    assert names[i..] == [names[i]] + names[i + 1..];
    ZipEntriesCons(names[i], names[i + 1..], files);
    SeqAssoc(done, ZipEntry1(names[i], files), ZipEntries(names[i + 1..], files));
  }

  lemma ZipEntriesCons(n: string, rest: seq<string>, files: map<string, Bytes>)
    ensures ZipEntries([n] + rest, files) == ZipEntry1(n, files) + ZipEntries(rest, files)
  {
    assert ([n] + rest)[0] == n && ([n] + rest)[1..] == rest;
  }

  lemma SeqAssoc<T>(a: seq<T>, b: seq<T>, c: seq<T>)
    ensures (a + b) + c == a + (b + c)
  {
  }

  /** The `with zipfile.ZipFile(...)` loop of `batch_download`. */
  method WriteZip(names: seq<string>, files: map<string, Bytes>) returns (entries: seq<ZipEntry>)
    ensures entries == ZipEntries(names, files)
  {
    entries := [];
    assert names[0..] == names;
    for i := 0 to |names|
      invariant entries + ZipEntries(names[i..], files) == ZipEntries(names, files)
    {
      ZipEntriesStep(names, files, i, entries);
      entries := entries + ZipEntry1(names[i], files);
    }
    assert names[|names|..] == [];
  }

  /** `batch_download`: 400 for an empty or missing list, otherwise the archive. */
  method BatchDownload(dir: Directory, field: FilesField) returns (r: Reply<Body>)
    ensures Requested(field) == [] ==> r == NoFiles
    ensures Requested(field) != [] ==> r == Reply(200, Zip(ZipEntries(Requested(field), dir.files)))
  {
    var names := Requested(field);
    if names == [] {
      return NoFiles;
    }
    var entries := WriteZip(names, dir.files);
    r := Reply(200, Zip(entries));
  }

  /** Some request names `k` and resolves to it, where `k` is a `.jpg` name. */
  predicate Named(k: string, names: seq<string>)
  {
    Suffix(k) == ".jpg" && exists i :: 0 <= i < |names| && Resolved(names[i]) == CapturesDir + [k]
  }

  /** What the `batch_delete` loop leaves: the remaining files and the `deleted` count. */
  function DeleteAll(files: map<string, Bytes>, readOnly: set<string>, names: seq<string>): (map<string, Bytes>, nat)
    decreases |names|
  {
    if names == [] then (files, 0)
    else match Confine(names[0], files)
      case Found(k) =>
        if k in readOnly then DeleteAll(files, readOnly, names[1..])
        else
          var rest := DeleteAll(files - {k}, readOnly, names[1..]);
          (rest.0, rest.1 + 1)
      case _ => DeleteAll(files, readOnly, names[1..])
  }

  /** Batch delete removes exactly the removable `.jpg` files some request name resolves to;
      every other file keeps its contents. */
  lemma {:induction false} DeleteAllRemoves(files: map<string, Bytes>, readOnly: set<string>, names: seq<string>)
    ensures forall k :: k in DeleteAll(files, readOnly, names).0 <==>
                          k in files && !(k !in readOnly && Named(k, names))
    ensures forall k :: k in DeleteAll(files, readOnly, names).0 ==> DeleteAll(files, readOnly, names).0[k] == files[k]
    decreases |names|
  {
    if names != [] {
      var tail := names[1..];
      forall k | k in files
        ensures Named(k, names) <==> Confine(names[0], files) == Found(k) || Named(k, tail)
      {
        NamedHead(k, names, files);
      }
      match Confine(names[0], files)
      case Found(key) =>
        if key in readOnly {
          DeleteAllRemoves(files, readOnly, tail);
        } else {
          DeleteAllRemoves(files - {key}, readOnly, tail);
        }
      case _ =>
        DeleteAllRemoves(files, readOnly, tail);
    }
  }

  /** For a file of the directory, the first name of a request names it exactly when it is
      what that name is found as. */
  lemma NamedHead(k: string, names: seq<string>, files: map<string, Bytes>)
    requires names != [] && k in files
    ensures Named(k, names) <==> Confine(names[0], files) == Found(k) || Named(k, names[1..])
  {
    var tail := names[1..];
    ConfineFound(names[0], files, k);
    if Confine(names[0], files) == Found(k) {
      assert Resolved(names[0]) == CapturesDir + [k];
      assert Named(k, names);
    }
    if Named(k, tail) {
      var i :| 0 <= i < |tail| && Resolved(tail[i]) == CapturesDir + [k];
      assert names[i + 1] == tail[i];
      assert Named(k, names);
    }
    if Named(k, names) && Confine(names[0], files) != Found(k) {
      var i :| 0 <= i < |names| && Resolved(names[i]) == CapturesDir + [k];
      assert i != 0;
      assert tail[i - 1] == names[i];
      assert Named(k, tail);
    }
  }

  /** `deleted` counts the files that are gone, and is at most the number of names. */
  lemma {:induction false} DeleteAllCount(files: map<string, Bytes>, readOnly: set<string>, names: seq<string>)
    ensures DeleteAll(files, readOnly, names).0.Keys <= files.Keys
    ensures DeleteAll(files, readOnly, names).1 == |files.Keys| - |DeleteAll(files, readOnly, names).0.Keys|
    ensures DeleteAll(files, readOnly, names).1 <= |names|
    decreases |names|
  {
    if names != [] {
      match Confine(names[0], files)
      case Found(key) =>
        if key in readOnly {
          DeleteAllCount(files, readOnly, names[1..]);
        } else {
          DeleteAllCount(files - {key}, readOnly, names[1..]);
          assert (files - {key}).Keys == files.Keys - {key};
        }
      case _ =>
        DeleteAllCount(files, readOnly, names[1..]);
    }
  }

  /** A name asked for twice is counted in `requested` twice but deleted once. */
  lemma DeleteTwice(name: string, files: map<string, Bytes>, readOnly: set<string>)
    requires Normal(name) && name in files && name !in readOnly && Suffix(name) == ".jpg"
    ensures DeleteAll(files, readOnly, [name, name]) == (files - {name}, 1)
  {
    PlainNameConfined(name, files);
    PlainNameConfined(name, files - {name});
    assert [name, name][1..] == [name];
    assert DeleteAll(files - {name}, readOnly, [name]) == DeleteAll(files - {name}, readOnly, []);
  }

  /** `batch_delete`: 400 for an empty or missing list, which leaves the directory alone;
      otherwise each accepted name is removed and the answer counts removals and names. */
  method BatchDelete(dir: Directory, field: FilesField) returns (r: Reply<Body>)
    modifies dir
    ensures Requested(field) == [] ==> r == NoFiles && dir.files == old(dir.files)
    ensures Requested(field) != [] ==>
              var res := DeleteAll(old(dir.files), dir.readOnly, Requested(field));
              dir.files == res.0 && r == Reply(200, Deleted(res.1, |Requested(field)|))
  {
    var names := Requested(field);
    if names == [] {
      return NoFiles;
    }
    ghost var res := DeleteAll(dir.files, dir.readOnly, names);
    var deleted := 0;
    for i := 0 to |names|
      invariant DeleteAll(dir.files, dir.readOnly, names[i..]).0 == res.0
      invariant deleted + DeleteAll(dir.files, dir.readOnly, names[i..]).1 == res.1
    {
      assert names[i..][0] == names[i] && names[i..][1..] == names[i + 1..];
      var v := Confine(names[i], dir.files);
      if v.Found? {
        var removed := dir.Remove(v.key);
        if removed {
          deleted := deleted + 1;
        }
      }
    }
    assert names[|names|..] == [];
    r := Reply(200, Deleted(deleted, |names|));
  }

  /** The answer of `capture` to what `capture_image` returned. */
  function CaptureReply(path: Option<Path>): (r: Reply<Body>)
    ensures r.status == 200 <==> path.Some?
    ensures path.Some? ==> r.body == Captured(Name(path.value), PathString(path.value))
    ensures path.None? ==> r == Reply(500, Failure("Capture failed"))
  {
    if path.Some? then Reply(200, Captured(Name(path.value), PathString(path.value)))
    else Reply(500, Failure("Capture failed"))
  }

  /** A capture at time `t` is answered with its file name and its full path. */
  lemma CaptureReplyNames(t: DateTime)
    requires t.Valid()
    ensures CaptureReply(Some(CapturesDir + [CaptureName(t)]))
            == Reply(200, Captured(CaptureName(t), "/app/captures/" + CaptureName(t)))
  {
    var n := CaptureName(t);
    var p := CapturesDir + [n];
    assert p[1..] == ["captures", n] && p[1..][1..] == [n];
    assert JoinSlash(["captures", n]) == "captures" + "/" + n;
    assert JoinSlash(p) == "app" + "/" + ("captures" + "/" + n);
    assert PathString(p) == "/app/captures/" + n;
  }

  /** The `capture` route. */
  method Capture(svc: CameraService, now: DateTime, imwrite: Cv.Frame -> Option<Bytes>) returns (r: Reply<Body>)
    requires now.Valid()
    modifies svc.camera, svc.captureDir
    ensures r.status == 200 <==> old(svc.NextFrame()).Some?
    ensures r.status == 200 ==> r.body == Captured(CaptureName(now), "/app/captures/" + CaptureName(now))
    ensures r.status != 200 ==> r == Reply(500, Failure("Capture failed"))
    ensures svc.camera == old(svc.camera)
    ensures svc.camera != null ==> svc.camera.isOpen == old(svc.camera.isOpen)
    ensures svc.camera != null ==>
              svc.camera.pending == (if old(svc.camera.isOpen) then Cv.Drop(old(svc.camera.pending), 1)
                                     else old(svc.camera.pending))
    ensures svc.captureDir.files ==
              if old(svc.NextFrame()).Some? && imwrite(old(svc.NextFrame()).value).Some?
              then old(svc.captureDir.files)[CaptureName(now) := imwrite(old(svc.NextFrame()).value).value]
              else old(svc.captureDir.files)
  {
    var path := svc.CaptureImage(now, imwrite);
    CaptureReplyNames(now);
    r := CaptureReply(path);
  }

  /** `camera.camera is not None and camera.camera.isOpened()` */
  predicate CameraOk(svc: CameraService)
    reads svc, svc.camera
  {
    svc.camera != null && svc.camera.isOpen
  }

  /** `status`: always 200; the camera is ready exactly when a handle is held and open. */
  function Status(svc: CameraService): (r: Reply<Body>)
    reads svc, svc.camera
    ensures r.status == 200 && r.body.CameraReady?
    ensures r.body.ready <==> svc.camera != null && svc.camera.isOpen
  {
    Reply(200, CameraReady(CameraOk(svc)))
  }

  /** `health`, the one route without authentication: 200 exactly when the camera is open,
      503 otherwise. */
  function HealthReply(cameraOk: bool): (r: Reply<Body>)
    ensures r.status == 200 <==> cameraOk
    ensures r.status == 503 <==> !cameraOk
    ensures r.body == if cameraOk then Health("healthy", "ok") else Health("unhealthy", "error")
  {
    if cameraOk then Reply(200, Health("healthy", "ok")) else Reply(503, Health("unhealthy", "error"))
  }

  /** `status` and `health` agree: the camera is reported ready exactly when health is 200. */
  lemma StatusAgreesWithHealth(svc: CameraService)
    ensures Status(svc).body.ready <==> HealthReply(CameraOk(svc)).status == 200
  {
  }

  /** A stopped service is reported unhealthy. */
  lemma StoppedUnhealthy(svc: CameraService)
    requires svc.camera == null
    ensures HealthReply(CameraOk(svc)).status == 503
  {
  }

  /** A camera that opens but fails the verification read leaves `start` with `False`, yet
      keeps its open handle, so `health` answers 200 afterwards. */
  method FailedVerificationStillHealthy(svc: CameraService, open: string -> Cv.Device) returns (ok: bool, r: Reply<Body>)
    requires open(svc.device).opens && !Verified(open(svc.device).answers)
    modifies svc
    ensures !ok && r.status == 200
  {
    ok := svc.Start(open);
    r := HealthReply(CameraOk(svc));
  }

  /** `requires_auth` around `batch_delete`: an unauthenticated request deletes nothing. */
  method GuardedBatchDelete(auth: Option<Credentials>, cfg: Credentials, dir: Directory, field: FilesField)
    returns (g: Gated<Body>)
    modifies dir
    ensures !Admitted(auth, cfg) ==> g == Challenge(401, "Authentication required", MicroscopeRealm)
                                     && dir.files == old(dir.files)
    ensures Admitted(auth, cfg) ==> g.Served? && g.reply.status in {200, 400}
  {
    if !Admitted(auth, cfg) {
      return Challenge(401, "Authentication required", MicroscopeRealm);
    }
    var r := BatchDelete(dir, field);
    g := Served(r);
  }
}
