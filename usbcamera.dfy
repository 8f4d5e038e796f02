/** `CameraService` of the microscope container: one V4L2 camera whose handle is opened by
    `start`, read by `read_frame`, streamed as MJPEG, captured to disk and released by `stop`. */
module UsbCamera {
  import opened Common
  import opened Cv
  import opened PurePaths
  import opened CaptureFiles
  import opened Timestamps

  /** Frames discarded by `start` before the verification read. */
  const WarmupReads: nat := 3

  /** `b'--frame\r\nContent-Type: image/jpeg\r\n\r\n'` */
  const PartHeader: Bytes := Ascii("--frame\r\nContent-Type: image/jpeg\r\n\r\n")

  /** `b'\r\n'` */
  const PartEnd: Bytes := Ascii("\r\n")

  /** One part of the `multipart/x-mixed-replace; boundary=frame` response. */
  function Part(jpeg: Bytes): Bytes
  {
    PartHeader + jpeg + PartEnd
  }

  /** The part for one encoded frame, none when `cv2.imencode` failed. */
  function PartsOf(jpeg: Option<Bytes>): seq<Bytes>
  {
    if jpeg.None? then [] else [Part(jpeg.value)]
  }

  /** What `read_frame` makes of one answer of an open camera. */
  function FrameOf(r: ReadResult): Option<Frame>
  {
    if r.success then r.frame else None
  }

  /** `start` accepts the camera when the read after the warm-up gives a frame. */
  predicate Verified(answers: seq<ReadResult>)
  {
    ReadAt(answers, WarmupReads).success && ReadAt(answers, WarmupReads).frame.Some?
  }

  /** The parts `generate_stream` yields from an open camera's answers: it stops at the first
      read without a frame and skips a frame `cv2.imencode` cannot encode. */
  function StreamParts(answers: seq<ReadResult>, encode: Frame -> Option<Bytes>): (parts: seq<Bytes>)
    ensures |parts| <= |answers|
    decreases |answers|
  {
    if answers == [] || FrameOf(answers[0]).None? then []
    else PartsOf(encode(FrameOf(answers[0]).value)) + StreamParts(answers[1..], encode)
  }

  /** The answers left in the camera once `generate_stream` has ended. */
  function AfterStream(answers: seq<ReadResult>): seq<ReadResult>
    decreases |answers|
  {
    if answers == [] then []
    else if FrameOf(answers[0]).None? then answers[1..]
    else AfterStream(answers[1..])
  }

  /** Every part is framed: the boundary and content-type header, the JPEG, then CRLF. */
  lemma {:induction false} StreamPartsFramed(answers: seq<ReadResult>, encode: Frame -> Option<Bytes>, k: nat)
    requires k < |StreamParts(answers, encode)|
    ensures exists jpeg :: StreamParts(answers, encode)[k] == PartHeader + jpeg + PartEnd
    decreases |answers|
  {
    var f := FrameOf(answers[0]).value;
    var head := PartsOf(encode(f));
    if k < |head| {
      var jpeg := encode(f).value;
      assert StreamParts(answers, encode)[k] == PartHeader + jpeg + PartEnd;
    } else {
      StreamPartsFramed(answers[1..], encode, k - |head|);
      assert StreamParts(answers, encode)[k] == StreamParts(answers[1..], encode)[k - |head|];
    }
  }

  /** The stream ends at the first failed read: nothing read after it is streamed. */
  lemma {:induction false} StreamEndsAtFailedRead(before: seq<ReadResult>, failed: ReadResult,
                                                  after: seq<ReadResult>, encode: Frame -> Option<Bytes>)
    requires FrameOf(failed).None?
    ensures StreamParts(before + [failed] + after, encode) == StreamParts(before, encode)
    decreases |before|
  {
    var all := before + [failed] + after;
    if before == [] {
      assert all[0] == failed;
    } else {
      assert all[0] == before[0] && all[1..] == before[1..] + [failed] + after;
      StreamEndsAtFailedRead(before[1..], failed, after, encode);
    }
  }

  /** A frame that cannot be encoded is skipped; the stream goes on with the next read. */
  lemma {:induction false} StreamSkipsUnencodable(before: seq<ReadResult>, r: ReadResult,
                                                  after: seq<ReadResult>, encode: Frame -> Option<Bytes>)
    requires FrameOf(r).Some? && encode(FrameOf(r).value).None?
    requires forall i :: 0 <= i < |before| ==> FrameOf(before[i]).Some?
    ensures StreamParts(before + [r] + after, encode) == StreamParts(before + after, encode)
    decreases |before|
  {
    var all := before + [r] + after;
    if before == [] {
      assert all[0] == r && all[1..] == after && before + after == after;
      assert PartsOf(encode(FrameOf(r).value)) == [];
    } else {
      assert all[0] == before[0] && all[1..] == before[1..] + [r] + after;
      assert (before + after)[0] == before[0] && (before + after)[1..] == before[1..] + after;
      StreamSkipsUnencodable(before[1..], r, after, encode);
    }
  }

  /** When every read gives a frame and every frame encodes, each read becomes one part. */
  lemma {:induction false} StreamAllFrames(answers: seq<ReadResult>, encode: Frame -> Option<Bytes>)
    requires forall i :: 0 <= i < |answers| ==> FrameOf(answers[i]).Some? && encode(FrameOf(answers[i]).value).Some?
    ensures |StreamParts(answers, encode)| == |answers|
    ensures forall i :: 0 <= i < |answers| ==>
              StreamParts(answers, encode)[i] == Part(encode(FrameOf(answers[i]).value).value)
    decreases |answers|
  {
    if answers != [] {
      StreamAllFrames(answers[1..], encode);
      assert forall i :: 1 <= i < |answers| ==> answers[1..][i - 1] == answers[i];
    }
  }

  class CameraService {
    const device: string
    const width: int
    const height: int
    /** `self.camera`: `None` until `start`, and again after `stop`. */
    var camera: VideoCapture?
    /** `self.capture_dir`, created by the constructor's `mkdir(exist_ok=True)`. */
    const captureDir: Directory

    constructor (device: string, width: int, height: int, captureDir: Directory)
      ensures this.device == device && this.width == width && this.height == height
      ensures this.captureDir == captureDir && camera == null
    {
      this.device, this.width, this.height := device, width, height;
      this.captureDir := captureDir;
      camera := null;
    }

    /** The frame the next `read_frame` returns. */
    ghost function NextFrame(): Option<Frame>
      reads this, camera
    {
      if camera == null || !camera.isOpen then None else FrameOf(ReadAt(camera.pending, 0))
    }

    /** `start`: open the device, configure it, read three warm-up frames and then one that
        must be a frame. On failure the new handle is kept in `camera`, not released. */
    method Start(open: string -> Device) returns (ok: bool)
      modifies this
      ensures camera != null && fresh(camera)
      ensures ok <==> open(device).opens && Verified(open(device).answers)
      ensures camera.isOpen == open(device).opens
      ensures camera.pending == (if open(device).opens then Drop(open(device).answers, WarmupReads + 1)
                                 else open(device).answers)
      ensures camera.fourcc == "MJPG" && camera.frameWidth == width && camera.frameHeight == height
    {
      var d := open(device);
      camera := new VideoCapture(d);
      camera.SetFrameSize(width, height);
      camera.SetFourcc("MJPG");
      if !camera.isOpen {
        return false;
      }
      for i := 0 to WarmupReads
        invariant camera != null && fresh(camera) && camera.isOpen && camera.pending == Drop(d.answers, i)
        invariant camera.fourcc == "MJPG" && camera.frameWidth == width && camera.frameHeight == height
      {
        DropDrop(d.answers, i, 1);
        var _ := camera.Read();
      }
      DropDrop(d.answers, WarmupReads, 1);
      DropDrop(d.answers, WarmupReads, 0);
      var r := camera.Read();
      ok := r.success && r.frame.Some?;
    }

    /** `read_frame`: `None` without an open camera or when the read fails. */
    method ReadFrame() returns (f: Option<Frame>)
      modifies camera
      ensures f == old(NextFrame())
      ensures camera == old(camera)
      ensures camera != null ==> camera.isOpen == old(camera.isOpen) && camera.fourcc == old(camera.fourcc)
      ensures camera != null ==> camera.frameWidth == old(camera.frameWidth) && camera.frameHeight == old(camera.frameHeight)
      ensures camera != null ==> camera.pending == (if old(camera.isOpen) then Drop(old(camera.pending), 1)
                                                  else old(camera.pending))
    {
      if camera == null || !camera.isOpen {
        return None;
      }
      var r := camera.Read();
      if !r.success {
        return None;
      }
      f := r.frame;
    }

    /** `generate_stream`, run until it returns: nothing without an open camera, otherwise
        the parts of `StreamParts`. */
    method GenerateStream(encode: Frame -> Option<Bytes>) returns (parts: seq<Bytes>)
      modifies camera
      ensures camera == old(camera)
      ensures old(camera) == null || !old(camera.isOpen) ==> parts == []
      ensures old(camera) != null && !old(camera.isOpen) ==> camera.pending == old(camera.pending)
      ensures old(camera) != null && old(camera.isOpen) ==>
                parts == StreamParts(old(camera.pending), encode) && camera.isOpen
                && camera.pending == AfterStream(old(camera.pending))
      ensures camera != null ==> camera.isOpen == old(camera.isOpen) && camera.fourcc == old(camera.fourcc)
                                 && camera.frameWidth == old(camera.frameWidth)
                                 && camera.frameHeight == old(camera.frameHeight)
    {
      parts := [];
      if camera == null || !camera.isOpen {
        return;
      }
      ghost var start := camera.pending;
      while true
        invariant camera != null && camera == old(camera) && camera.isOpen
        invariant camera.fourcc == old(camera.fourcc) && camera.frameWidth == old(camera.frameWidth)
        invariant camera.frameHeight == old(camera.frameHeight)
        invariant parts + StreamParts(camera.pending, encode) == StreamParts(start, encode)
        invariant AfterStream(camera.pending) == AfterStream(start)
        decreases |camera.pending|
      {
        ghost var before := camera.pending;
        var frame := ReadFrame();
        if frame.None? {
          assert before == [] || FrameOf(before[0]).None?;
          return;
        }
        assert before != [] && camera.pending == before[1..];
        var jpeg := encode(frame.value);
        assert StreamParts(before, encode) == PartsOf(jpeg) + StreamParts(camera.pending, encode);
        assert AfterStream(before) == AfterStream(camera.pending);
        if jpeg.None? {
          assert PartsOf(jpeg) + StreamParts(camera.pending, encode) == StreamParts(camera.pending, encode);
          continue;
        }
        ghost var rest := StreamParts(camera.pending, encode);
        assert (parts + [Part(jpeg.value)]) + rest == parts + ([Part(jpeg.value)] + rest);
        parts := parts + [Part(jpeg.value)];
      }
    }

    /** `capture_image`: read a frame and write it as `capture_<timestamp>.jpg`. The
        return value of `cv2.imwrite` is not checked, so the path is returned even when the
        write did not happen. */
    method CaptureImage(now: DateTime, imwrite: Frame -> Option<Bytes>) returns (path: Option<Path>)
      requires now.Valid()
      modifies camera, captureDir
      ensures camera == old(camera)
      ensures camera != null ==> camera.isOpen == old(camera.isOpen) && camera.fourcc == old(camera.fourcc)
      ensures camera != null ==> camera.frameWidth == old(camera.frameWidth) && camera.frameHeight == old(camera.frameHeight)
      ensures camera != null ==> camera.pending == (if old(camera.isOpen) then Drop(old(camera.pending), 1)
                                                  else old(camera.pending))
      ensures path.Some? <==> old(NextFrame()).Some?
      ensures path.Some? ==> path.value == CapturesDir + [CaptureName(now)]
      ensures captureDir.files ==
                if old(NextFrame()).Some? && imwrite(old(NextFrame()).value).Some?
                then old(captureDir.files)[CaptureName(now) := imwrite(old(NextFrame()).value).value]
                else old(captureDir.files)
    {
      var frame := ReadFrame();
      if frame.None? {
        return None;
      }
      var filename := CaptureName(now);
      var filepath := CapturesDir + [filename];
      var written := imwrite(frame.value);
      if written.Some? {
        captureDir.files := captureDir.files[filename := written.value];
      }
      path := Some(filepath);
    }

    /** `stop`: release and forget the handle; without one it does nothing. */
    method Stop()
      modifies this, camera
      ensures camera == null
      ensures old(camera) != null ==> !old(camera).isOpen && old(camera).pending == old(camera.pending)
    {
      if camera != null {
        camera.Release();
        camera := null;
      }
    }
  }

  /** The module global `_camera_service`. */
  class Registry {
    var service: CameraService?

    constructor ()
      ensures service == null
    {
      service := null;
    }

    /** `get_camera_service`: the first call builds the service from the configuration
        (`VIDEO_DEVICE`, `VIDEO_WIDTH`, `VIDEO_HEIGHT`); every later call returns it. */
    method GetCameraService(device: string, width: int, height: int, dir: Directory) returns (s: CameraService)
      modifies this
      ensures service == s
      ensures old(service) != null ==> s == old(service)
      ensures old(service) == null ==> fresh(s) && s.camera == null && s.device == device
                                       && s.width == width && s.height == height && s.captureDir == dir
    {
      if service == null {
        service := new CameraService(device, width, height, dir);
      }
      s := service;
    }
  }

  /** Two calls of `get_camera_service` share one instance, whatever the second is passed. */
  method SingletonShared(reg: Registry, dir: Directory) returns (a: CameraService, b: CameraService)
    modifies reg
    ensures a == b
  {
    a := reg.GetCameraService("/dev/video0", 1280, 720, dir);
    b := reg.GetCameraService("/dev/video2", 640, 480, dir);
  }

  /** `stop` twice in a row: the second call finds no handle and changes nothing. */
  method StopTwice(svc: CameraService)
    modifies svc, svc.camera
    ensures svc.camera == null
  {
    svc.Stop();
    svc.Stop();
  }
}
