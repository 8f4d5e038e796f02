/** `CSICameraService` of the CSI camera container: an `rpicam-vid` child process whose stdout
    is passed through in chunks, `rpicam-still` for captures, and terminate-then-kill on stop. */
module CsiCamera {
  import opened Common
  import opened Decimal
  import opened PurePaths
  import opened Timestamps
  import opened CaptureFiles

  /** The size of each `stdout.read` of `generate_stream`. */
  const ChunkSize: nat := 4096

  /** The seconds `stop` waits for the child after `terminate()`. */
  const StopTimeout: nat := 5

  /** The `rpicam-vid` command line `start` launches. */
  function VidCommand(width: int, height: int, fps: int): (cmd: seq<string>)
    ensures |cmd| == 14 && cmd[0] == "rpicam-vid" && cmd[1..3] == ["--timeout", "0"]
    ensures cmd[3] == "--width" && cmd[5] == "--height" && cmd[7] == "--framerate"
    ensures cmd[9..] == ["--codec", "mjpeg", "--output", "-", "--nopreview"]
  {
    ["rpicam-vid", "--timeout", "0",
     "--width", IntToString(width), "--height", IntToString(height), "--framerate", IntToString(fps),
     "--codec", "mjpeg", "--output", "-", "--nopreview"]
  }

  /** The size and rate in the command are the configured ones, written in decimal. */
  lemma VidCommandReadsBack(width: int, height: int, fps: int)
    ensures ParseInt(VidCommand(width, height, fps)[4]) == width
    ensures ParseInt(VidCommand(width, height, fps)[6]) == height
    ensures ParseInt(VidCommand(width, height, fps)[8]) == fps
  {
    IntRoundTrip(width);
    IntRoundTrip(height);
    IntRoundTrip(fps);
  }

  /** The `rpicam-still` command line that writes a capture to `path`. */
  function StillCommand(path: Path): (cmd: seq<string>)
    ensures |cmd| == 9 && cmd[0] == "rpicam-still" && cmd[1] == "-o" && cmd[2] == PathString(path)
    ensures cmd[3..] == ["--width", "1920", "--height", "1080", "--timeout", "1000"]
  {
    ["rpicam-still", "-o", PathString(path), "--width", "1920", "--height", "1080", "--timeout", "1000"]
  }

  /** What `subprocess.Popen(cmd, ...)` does: it raises (no such program), or starts a child
      that is still running one second later or not, that writes `output` on its stdout, and
      that either exits on SIGTERM or ignores it. */
  datatype Spawn = SpawnFailed | Spawned(alive: bool, output: Bytes, exitsOnTerminate: bool)

  /** What `subprocess.run(cmd, check=True)` of `rpicam-still` does: the program is missing
      (the error escapes `capture_image`), or it exits with `returncode` having written
      `written` to the output file, or nothing. */
  datatype StillRun = StillMissing | StillExited(returncode: int, written: Option<Bytes>)

  /** What `capture_image` gives back: a path, `None`, or an exception. */
  datatype CaptureOutcome = Saved(path: Path) | NotSaved | Raised

  /** A child process started with `stdout=PIPE`. */
  class ChildProcess {
    const args: seq<string>
    var running: bool
    /** The bytes in the pipe that have not been read yet. */
    var stdout: Bytes
    const exitsOnTerminate: bool
    var terminated: bool
    var killed: bool

    constructor (args: seq<string>, running: bool, stdout: Bytes, exitsOnTerminate: bool)
      ensures this.args == args && this.running == running && this.stdout == stdout
      ensures this.exitsOnTerminate == exitsOnTerminate && !terminated && !killed
    {
      this.args, this.running, this.stdout := args, running, stdout;
      this.exitsOnTerminate := exitsOnTerminate;
      terminated, killed := false, false;
    }

    /** `stdout.read(n)` on the buffered pipe: `n` bytes, or what is left before end of
        file; empty only at end of file. */
    method Read(n: nat) returns (chunk: Bytes)
      requires n > 0
      modifies this
      ensures chunk == old(stdout)[..Min(n, |old(stdout)|)]
      ensures stdout == old(stdout)[Min(n, |old(stdout)|)..]
      ensures running == old(running) && terminated == old(terminated) && killed == old(killed)
    {
      var k := Min(n, |stdout|);
      chunk := stdout[..k];
      stdout := stdout[k..];
    }

    /** `terminate()`: SIGTERM, which ends a running child that honours it. */
    method Terminate()
      modifies this
      ensures terminated && killed == old(killed) && stdout == old(stdout)
      ensures running == (old(running) && !exitsOnTerminate)
    {
      terminated := true;
      if running && exitsOnTerminate {
        running := false;
      }
    }

    /** `wait(timeout)`: times out exactly when the child is still running. */
    method Wait(timeout: nat) returns (timedOut: bool)
      ensures timedOut == running
    {
      timedOut := running;
    }

    /** `kill()`: SIGKILL, which always ends the child. */
    method Kill()
      modifies this
      ensures !running && killed && terminated == old(terminated) && stdout == old(stdout)
    {
      running, killed := false, true;
    }
  }

  /** The chunks the read loop of `generate_stream` yields from the child's whole output. */
  function Chunked(s: Bytes): (chunks: seq<Bytes>)
    decreases |s|
  {
    if s == [] then []
    else if |s| <= ChunkSize then [s]
    else [s[..ChunkSize]] + Chunked(s[ChunkSize..])
  }

  function Flatten(chunks: seq<Bytes>): Bytes
    decreases |chunks|
  {
    if chunks == [] then [] else chunks[0] + Flatten(chunks[1..])
  }

  /** The chunks pass the output through unchanged: every chunk holds 1 to 4096 bytes, all
      but the last exactly 4096, and together they are the output. */
  lemma {:induction false} ChunkedPassThrough(s: Bytes)
    ensures Flatten(Chunked(s)) == s
    ensures forall i :: 0 <= i < |Chunked(s)| ==> 0 < |Chunked(s)[i]| <= ChunkSize
    ensures forall i :: 0 <= i < |Chunked(s)| - 1 ==> |Chunked(s)[i]| == ChunkSize
    decreases |s|
  {
    if |s| > ChunkSize {
      ChunkedPassThrough(s[ChunkSize..]);
      var c := Chunked(s);
      assert c[1..] == Chunked(s[ChunkSize..]);
      assert s[..ChunkSize] + s[ChunkSize..] == s;
    }
  }

  /** The first `k` chunks are the first `k * 4096` bytes of the output (or all of it). */
  lemma {:induction false} ChunkedPrefix(s: Bytes, k: nat)
    ensures Flatten(Chunked(s)[..Min(k, |Chunked(s)|)]) == s[..Min(|s|, ChunkSize * k)]
    ensures k < |Chunked(s)| ==> ChunkSize * k < |s|
    decreases k
  {
    var c := Chunked(s);
    if k == 0 || s == [] {
      assert c[..0] == [];
    } else if |s| <= ChunkSize {
      assert c[..1] == [s];
      assert Flatten([s]) == s + Flatten([]);
    } else {
      ChunkedPrefix(s[ChunkSize..], k - 1);
      var rest := Chunked(s[ChunkSize..]);
      var m := Min(k, |c|);
      assert c[..m] == [s[..ChunkSize]] + rest[..m - 1];
      assert c[..m][1..] == rest[..Min(k - 1, |rest|)];
      var n := Min(|s[ChunkSize..]|, ChunkSize * (k - 1));
      assert s[..ChunkSize] + s[ChunkSize..][..n] == s[..Min(|s|, ChunkSize * k)];
    }
  }

  /** How many bytes `generate_stream` takes from a pipe holding `s` when its consumer asks
      for `demand` chunks. */
  function Consumed(s: Bytes, demand: nat): nat
  {
    Min(|s|, ChunkSize * demand)
  }

  /** The chunks still to come once `k` have been read are those of the bytes left. */
  lemma {:induction false} ChunkedSuffix(s: Bytes, k: nat)
    requires k <= |Chunked(s)|
    ensures Chunked(s)[k..] == Chunked(s[Consumed(s, k)..])
    ensures k == |Chunked(s)| <==> Consumed(s, k) == |s|
    decreases k
  {
    if k == 0 {
      assert Consumed(s, 0) == 0;
      assert s[0..] == s;
    } else if |s| <= ChunkSize {
      assert Chunked(s) == [s] && k == 1;
      assert Consumed(s, 1) == |s|;
    } else {
      var t := s[ChunkSize..];
      assert Chunked(s) == [s[..ChunkSize]] + Chunked(t);
      ChunkedSuffix(t, k - 1);
      assert Chunked(s)[k..] == Chunked(t)[k - 1..];
      assert ChunkSize * k == ChunkSize + ChunkSize * (k - 1);
      assert Consumed(s, k) == ChunkSize + Consumed(t, k - 1);
      assert s[Consumed(s, k)..] == t[Consumed(t, k - 1)..];
    }
  }

  /** One `read(4096)` after `k` chunks: it is empty exactly when all chunks were read, and
      otherwise it is chunk `k`, leaving the bytes after `k + 1` chunks. */
  lemma ReadIsNextChunk(s: Bytes, k: nat)
    requires k <= |Chunked(s)|
    ensures var rest := s[Consumed(s, k)..];
            var n := Min(ChunkSize, |rest|);
            && (rest[..n] == [] <==> k == |Chunked(s)|)
            && (k < |Chunked(s)| ==> Chunked(s)[k] == rest[..n] && rest[n..] == s[Consumed(s, k + 1)..])
  {
    ChunkedSuffix(s, k);
    var rest := s[Consumed(s, k)..];
    var n := Min(ChunkSize, |rest|);
    if k < |Chunked(s)| {
      assert Chunked(s)[k] == Chunked(rest)[0];
      assert Consumed(s, k + 1) == Consumed(s, k) + n;
    }
  }

  class CSICameraService {
    const width: int
    const height: int
    const fps: int
    /** `self.process`: `None` until `start`, and again after `stop`. */
    var process: ChildProcess?
    /** `self.capture_dir`, `/app/captures`. */
    const captureDir: Directory

    constructor (width: int, height: int, fps: int, captureDir: Directory)
      ensures this.width == width && this.height == height && this.fps == fps
      ensures process == null && this.captureDir == captureDir
    {
      this.width, this.height, this.fps := width, height, fps;
      process := null;
      this.captureDir := captureDir;
    }

    /** `start`: launch `rpicam-vid`; succeed iff the child is still alive after a second.
        When `Popen` raises, `process` is unchanged; a child that already exited stays in
        `process`. */
    method Start(popen: seq<string> -> Spawn) returns (ok: bool)
      modifies this
      ensures var sp := popen(VidCommand(width, height, fps));
              && (ok <==> sp.Spawned? && sp.alive)
              && (sp.SpawnFailed? ==> process == old(process))
              && (sp.Spawned? ==> process != null && fresh(process) && process.args == VidCommand(width, height, fps)
                                  && process.running == sp.alive && process.stdout == sp.output
                                  && process.exitsOnTerminate == sp.exitsOnTerminate
                                  && !process.terminated && !process.killed)
    {
      var cmd := VidCommand(width, height, fps);
      var sp := popen(cmd);
      if sp.SpawnFailed? {
        return false;
      }
      process := new ChildProcess(cmd, sp.alive, sp.output, sp.exitsOnTerminate);
      ok := process.running;
    }

    /** `generate_stream`, consumed until it ends or the consumer has taken `demand` chunks and
        closes it: the chunks of the child's output, in order. Without a process it yields
        nothing. */
    method GenerateStream(demand: nat) returns (chunks: seq<Bytes>)
      modifies process
      ensures process == old(process)
      ensures old(process) == null ==> chunks == []
      ensures old(process) != null ==>
                var s := old(process.stdout);
                && chunks == Chunked(s)[..Min(demand, |Chunked(s)|)]
                && process.stdout == s[Consumed(s, demand)..]
                && process.running == old(process.running)
                && process.terminated == old(process.terminated) && process.killed == old(process.killed)
    {
      chunks := [];
      if process == null {
        return;
      }
      ghost var s := process.stdout;
      ghost var c := Chunked(s);
      var taken: nat := 0;
      assert s[Consumed(s, 0)..] == s;
      while taken < demand
        invariant process == old(process) && taken <= demand
        invariant process.running == old(process.running)
        invariant process.terminated == old(process.terminated) && process.killed == old(process.killed)
        invariant taken <= |c| && chunks == c[..taken]
        invariant process.stdout == s[Consumed(s, taken)..]
        decreases demand - taken
      {
        ReadIsNextChunk(s, taken);
        var chunk := process.Read(ChunkSize);
        if chunk == [] {
          break;
        }
        assert chunks + [chunk] == c[..taken + 1];
        chunks := chunks + [chunk];
        taken := taken + 1;
      }
    }

    /** `capture_image`: run `rpicam-still` for `csi_capture_<timestamp>.jpg`. A non-zero exit
        gives `None`; a missing program is an exception the method does not catch. */
    method CaptureImage(now: DateTime, still: seq<string> -> StillRun) returns (outcome: CaptureOutcome)
      requires now.Valid()
      modifies captureDir
      ensures var path := CapturesDir + [CsiCaptureName(now)];
              var run := still(StillCommand(path));
              && (outcome.Saved? <==> run.StillExited? && run.returncode == 0)
              && (outcome.Saved? ==> outcome.path == path)
              && (outcome.Raised? <==> run.StillMissing?)
              && captureDir.files == if run.StillExited? && run.written.Some?
                                     then old(captureDir.files)[CsiCaptureName(now) := run.written.value]
                                     else old(captureDir.files)
    {
      var filename := CsiCaptureName(now);
      var filepath := CapturesDir + [filename];
      var run := still(StillCommand(filepath));
      if run.StillMissing? {
        return Raised;
      }
      if run.written.Some? {
        captureDir.files := captureDir.files[filename := run.written.value];
      }
      if run.returncode != 0 {
        return NotSaved;
      }
      outcome := Saved(filepath);
    }

    /** `stop`: SIGTERM, wait up to five seconds, SIGKILL if the child is still there, and
        forget it. Without a process it does nothing. */
    method Stop()
      modifies this, process
      ensures process == null
      ensures old(process) != null ==>
                && old(process).terminated && !old(process).running
                && (old(process).killed <==> old(process.killed) || (old(process.running) && !old(process).exitsOnTerminate))
                && old(process).stdout == old(process.stdout)
    {
      if process != null {
        process.Terminate();
        var timedOut := process.Wait(StopTimeout);
        if timedOut {
          process.Kill();
        }
        process := null;
      }
    }
  }

  /** `get_camera_service`: a new, unstarted service on every call. */
  method GetCameraService(dir: Directory) returns (s: CSICameraService)
    ensures fresh(s) && s.process == null
    ensures s.width == 640 && s.height == 480 && s.fps == 30 && s.captureDir == dir
  {
    s := new CSICameraService(640, 480, 30, dir);
  }

  /** A new service streams nothing. */
  method FreshServiceStreamsNothing(dir: Directory, demand: nat) returns (chunks: seq<Bytes>)
    ensures chunks == []
  {
    var s := GetCameraService(dir);
    chunks := s.GenerateStream(demand);
  }

  /** Two calls of the factory give two distinct services. */
  method FactoryNotShared(dir: Directory) returns (a: CSICameraService, b: CSICameraService)
    ensures a != b
  {
    a := GetCameraService(dir);
    b := GetCameraService(dir);
  }
}
