/** The camera test script: the output file name, the FOURCC choice, the warm-up and capture
    of `test_camera`, the `/dev/videoN` probe of `list_devices`, and the exit status of
    `main`. */
module CameraTest {
  import opened Common
  import opened Strings
  import opened Decimal
  import opened Cv

  /** Frames discarded before the capture read. */
  const WarmupReads: nat := 5

  /** The devices `main` tests when none is named. */
  const DefaultDevices: seq<string> := ["/dev/video0", "/dev/video1", "/dev/video2"]

  /** How many `/dev/videoN` paths `list_devices` probes at most. */
  const ProbeLimit: nat := 10

  /** `f"test-{dev_name}.jpg"` with `dev_name = device.replace('/dev/', '').replace('/', '-')`. */
  function DefaultOutput(device: string): (name: string)
    ensures StartsWith(name, "test-") && EndsWith(name, ".jpg")
    ensures '/' !in name
  {
    var devName := ReplaceAll(ReplaceAll(device, "/dev/", ""), "/", "-");
    ReplaceCharRemovesIt(ReplaceAll(device, "/dev/", ""), '/', "-");
    assert ("test-" + devName + ".jpg")[..5] == "test-";
    "test-" + devName + ".jpg"
  }

  /** The file `test_camera` writes: the name given, unchanged, or the derived one. */
  function OutputFile(device: string, output: Option<string>): (name: string)
    ensures output.Some? ==> name == output.value
    ensures output.None? ==> name == DefaultOutput(device)
  {
    if output.Some? then output.value else DefaultOutput(device)
  }

  /** A string without a slash occurs unchanged after `/dev/` in the derived name. */
  lemma DefaultOutputOfDevPath(n: string)
    requires '/' !in n
    ensures DefaultOutput("/dev/" + n) == "test-" + n + ".jpg"
  {
    NoSlashNoMatch(n, "/dev/");
    NoSlashNoMatch(n, "/");
    ReplaceLeading("/dev/", n, "");
    ReplaceAbsent(n, "/dev/", "");
    ReplaceAbsent(n, "/", "-");
    assert ReplaceAll("/dev/" + n, "/dev/", "") == n;
  }

  /** A pattern that starts with a slash does not occur in a string without one. */
  lemma NoSlashNoMatch(n: string, p: string)
    requires '/' !in n && |p| > 0 && p[0] == '/'
    ensures !Contains(n, p)
  {
    ContainsAt(n, p);
    forall i | 0 <= i <= |n|
      ensures !StartsWith(n[i..], p)
    {
      if i < |n| {
        assert n[i..][0] == n[i] != '/';
      }
    }
  }

  /** The FOURCC `test_camera` asks for: `MJPG` when `video0` occurs in the device string,
      `YUYV` otherwise. */
  function FourccFor(device: string): (code: string)
    ensures code == "MJPG" <==> exists i :: 0 <= i <= |device| && StartsWith(device[i..], "video0")
    ensures code == "MJPG" || code == "YUYV"
  {
    ContainsAt(device, "video0");
    if Contains(device, "video0") then "MJPG" else "YUYV"
  }

  /** Whether `cv2.imwrite(name, frame)` raises for a frame, as it does for a name whose
      extension OpenCV has no writer for. A missing frame always makes it raise. */
  type WriteRaises = (string, Frame) -> bool

  /** The capture read after the warm-up succeeds but `cv2.imwrite` raises on its result. */
  predicate WriteFails(d: Device, out: string, writeRaises: WriteRaises)
  {
    var r := ReadAt(d.answers, WarmupReads);
    r.success && (r.frame.None? || writeRaises(out, r.frame.value))
  }

  /** The device passes: it opens, the read after five warm-up reads gives a frame, and
      writing that frame to `out` does not raise. */
  predicate Passes(d: Device, out: string, writeRaises: WriteRaises)
  {
    d.opens && ReadAt(d.answers, WarmupReads).success && !WriteFails(d, out, writeRaises)
  }

  /** `test_camera(device, output_file)`. A device that does not open is not read. An open
      one is read five times, then once more: a failed read gives `False`, a frame that is
      written gives `True`, and the capture is released in both cases. When `cv2.imwrite`
      raises (no frame, or no writer for the name) the handler returns `False` without
      releasing. */
  method TestCamera(device: string, output: Option<string>, open: string -> Device, writeRaises: WriteRaises)
    returns (passed: bool, outputFile: string, cap: VideoCapture)
    ensures outputFile == OutputFile(device, output)
    ensures passed <==> Passes(open(device), outputFile, writeRaises)
    ensures fresh(cap) && cap.fourcc == FourccFor(device)
    ensures cap.pending == if open(device).opens then Drop(open(device).answers, WarmupReads + 1)
                           else open(device).answers
    ensures cap.isOpen <==> open(device).opens && WriteFails(open(device), outputFile, writeRaises)
  {
    outputFile := OutputFile(device, output);
    var d := open(device);
    cap := new VideoCapture(d);
    cap.SetFourcc(FourccFor(device));
    if !cap.isOpen {
      return false, outputFile, cap;
    }
    for i := 0 to WarmupReads
      invariant cap.isOpen && cap.pending == Drop(d.answers, i) && cap.fourcc == FourccFor(device)
    {
      DropDrop(d.answers, i, 1);
      var _ := cap.Read();
    }
    DropDrop(d.answers, WarmupReads, 1);
    DropDrop(d.answers, WarmupReads, 0);
    var r := cap.Read();
    if r.success {
      if r.frame.None? || writeRaises(outputFile, r.frame.value) {
        return false, outputFile, cap;
      }
      cap.Release();
      passed := true;
    } else {
      cap.Release();
      passed := false;
    }
  }

  /** `f"/dev/video{i}"` */
  function VideoPath(i: nat): string
  {
    "/dev/video" + NatToString(i)
  }

  /** Different indices name different devices. */
  lemma VideoPathInjective(i: nat, j: nat)
    requires VideoPath(i) == VideoPath(j)
    ensures i == j
  {
    var p := "/dev/video";
    assert VideoPath(i)[|p|..] == NatToString(i);
    assert VideoPath(j)[|p|..] == NatToString(j);
    ParseNatToString(i);
    ParseNatToString(j);
  }

  /** The probe loop of `list_devices`: `/dev/video0`, `/dev/video1`, ... up to
      `/dev/video9`, stopping at the first path that does not exist. */
  method ListDevices(exists_: string -> bool) returns (listed: seq<string>)
    ensures |listed| <= ProbeLimit
    ensures forall i :: 0 <= i < |listed| ==> listed[i] == VideoPath(i) && exists_(VideoPath(i))
    ensures |listed| < ProbeLimit ==> !exists_(VideoPath(|listed|))
  {
    listed := [];
    var i := 0;
    while i < ProbeLimit
      invariant 0 <= i <= ProbeLimit && |listed| == i
      invariant forall k :: 0 <= k < i ==> listed[k] == VideoPath(k) && exists_(VideoPath(k))
    {
      var device := VideoPath(i);
      if !exists_(device) {
        break;
      }
      listed := listed + [device];
      i := i + 1;
    }
  }

  /** The default device `d` exists and passes, written to its derived output name. */
  predicate DefaultPasses(d: string, exists_: string -> bool, open: string -> Device, writeRaises: WriteRaises)
  {
    exists_(d) && Passes(open(d), DefaultOutput(d), writeRaises)
  }

  /** The number of devices among `devices` that exist and pass. */
  function PassCount(devices: seq<string>, exists_: string -> bool, open: string -> Device,
                     writeRaises: WriteRaises): (n: nat)
    ensures n <= |devices|
    decreases |devices|
  {
    if devices == [] then 0
    else (if DefaultPasses(devices[0], exists_, open, writeRaises) then 1 else 0)
         + PassCount(devices[1..], exists_, open, writeRaises)
  }

  /** No device passes exactly when each one is missing or fails. */
  lemma {:induction false} PassCountZero(devices: seq<string>, exists_: string -> bool, open: string -> Device,
                                         writeRaises: WriteRaises)
    ensures PassCount(devices, exists_, open, writeRaises) == 0 <==>
              forall i :: 0 <= i < |devices| ==> !DefaultPasses(devices[i], exists_, open, writeRaises)
    decreases |devices|
  {
    if devices != [] {
      PassCountZero(devices[1..], exists_, open, writeRaises);
      assert forall i :: 1 <= i < |devices| ==> devices[1..][i - 1] == devices[i];
    }
  }

  /** The command line of the script. */
  datatype Args = Args(device: Option<string>, list: bool, output: Option<string>)

  /** `if args.device:` holds for a non-empty device string only. */
  predicate Named(args: Args)
  {
    args.device.Some? && args.device.value != ""
  }

  /** `main`: with `--list` the probe, with a device its test (exit status 0 or 1), and
      otherwise the three default devices, exit status 1 exactly when none passed. */
  method RunMain(args: Args, exists_: string -> bool, open: string -> Device, writeRaises: WriteRaises)
    returns (exitCode: int, successCount: nat)
    ensures args.list ==> exitCode == 0
    ensures !args.list && Named(args) ==>
              exitCode == (if Passes(open(args.device.value), OutputFile(args.device.value, args.output),
                                     writeRaises) then 0 else 1)
    ensures !args.list && !Named(args) ==>
              successCount == PassCount(DefaultDevices, exists_, open, writeRaises)
              && (exitCode == 1 <==> successCount == 0)
              && (exitCode == 0 <==> successCount > 0)
  {
    successCount := 0;
    if args.list {
      var _ := ListDevices(exists_);
      return 0, 0;
    }
    if Named(args) {
      var success, _, _ := TestCamera(args.device.value, args.output, open, writeRaises);
      exitCode := if success then 0 else 1;
      return;
    }
    var devices := DefaultDevices;
    for i := 0 to |devices|
      invariant successCount + PassCount(devices[i..], exists_, open, writeRaises)
                == PassCount(devices, exists_, open, writeRaises)
    {
      assert devices[i..][0] == devices[i] && devices[i..][1..] == devices[i + 1..];
      if exists_(devices[i]) {
        var success, _, _ := TestCamera(devices[i], None, open, writeRaises);
        if success {
          successCount := successCount + 1;
        }
      }
    }
    assert devices[|devices|..] == [];
    exitCode := if successCount == 0 then 1 else 0;
  }
}
