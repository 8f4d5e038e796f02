# microscope-cam-helper in Dafny

This project models in Dafny the logic of the microscope camera helper and proves properties
of that model. It covers the following parts:

- **The capture store of the microscope web server.** This is HTTP Basic authentication plus
  these routes:
  - `list_captures`;
  - `get_capture`, with its path-traversal check;
  - the zip export `batch_download`;
  - `batch_delete`;
  - `capture`, `status` and `health`.
- **The USB camera service.** This is the `self.camera` lifecycle:
  - `start`, with its warm-up and verification read;
  - `read_frame`;
  - the MJPEG multipart loop of `generate_stream`;
  - `capture_image`;
  - `stop`;
  - the module-global singleton.
- **The CSI camera service.** This is the `rpicam-vid` child process:
  - its command line;
  - pass-through streaming in 4096-byte chunks;
  - `rpicam-still` captures;
  - terminate-then-kill on `stop`;
  - a factory that builds a fresh service on every call.
- **The CSI web server.** These are the routes `stream`, `capture` and `gallery`.
- **The `LEDStatus` display.** This is an 8×4 Unicorn pHAT showing the system row and the
  streaming row.
- **The battery test script.** This decodes the CW2015 registers (the 16-bit word, millivolts,
  percent) and classifies the status.
- **The camera test script.** This covers:
  - the output name;
  - the FOURCC choice;
  - the warm-up;
  - the pass/fail result with its `release`;
  - the `/dev/videoN` probe;
  - the exit status of `main`.

The environment is abstract:

- **The capture directory** is a `map` from file name to bytes, held by the class
  `CaptureFiles.Directory`. Its `readOnly` set stands for the files the operating system
  refuses to remove.
- **An OpenCV capture device** is a `Cv.Device`. It records whether the device opens and the
  answers its successive `read()` calls give. `Cv.VideoCapture` consumes those answers.
- **`cv2.imencode`, and `cv2.imwrite` in the camera services,** are functions from a frame to
  optional bytes. In the camera test script, whether `cv2.imwrite` raises is a predicate of
  the output name and the frame (`CameraTest.WriteRaises`).
- **`subprocess.Popen` and `subprocess.run`** are functions from the command line to their
  outcomes (`CsiCamera.Spawn`, `CsiCamera.StillRun`).
- **The I2C bus** is a map of readable registers (`Battery.Bus`). The GPIO pin is an optional
  level.
- **The clock** is a `Timestamps.DateTime` parameter. The environment variables (credentials,
  device, size) are parameters too.

`pathlib` is modelled on lists of components, in `PurePaths`:

- joining an absolute name replaces the base;
- the empty and `.` components are dropped;
- `resolve()` folds `..` lexically, and at the root `..` stays at the root;
- `is_relative_to` accepts the base itself as well as everything below it;
- `suffix` follows `PurePath.suffix`, so a file named only `.jpg` has no suffix.

Python's ordering on `str` (`Strings.Below`) is lexicographic by code point, and the listings
are ordered by it. Every `glob('*.jpg')` listing sorted with `reverse=True` is exactly the set
of `.jpg` names, each once, strictly descending. Capture names are zero-padded, so a later
capture always sorts before an earlier one (`CaptureFiles.ListingNewestFirst`).

Where the project's own description and its code differ, the model follows the code:

- The description says names containing `..` or an absolute prefix are always refused. The
  code refuses only names whose resolved path leaves `/app/captures`. So `../captures/a.jpg` is
  accepted and names the same file as `a.jpg` (`MicroscopeWeb.ClimbBackInAccepted`).
  `/etc/passwd` is refused (`MicroscopeWeb.AbsoluteOutsideRefused`), and so is `..`
  (`MicroscopeWeb.ParentRefused`). The directory itself passes the containment check and is
  then answered as missing (`MicroscopeWeb.DirectoryItselfMissing`).
- The description asks for single-flight device opening, locks and temp-then-rename captures.
  The code has none of these, and neither does the model. `capture_image` of the USB service
  calls `cv2.imwrite` directly and returns the path even when the write did not happen.
- The description says a device that fails its verification read is closed. The code keeps
  the opened handle in `self.camera`, so `health` then answers 200
  (`MicroscopeWeb.FailedVerificationStillHealthy`).

## Model

Paths in the source column are relative to the repository root.

| member | source | states |
|---|---|---|
| BasicAuth.Gate | docker/docker-microscope/web_server.py:30-50 | the handler's reply goes out iff the request carries exactly the configured user name and password; otherwise 401 "Authentication required" with the server's realm |
| BasicAuth.GateRejects | docker/csi-camera/web_server.py:30-48 | no credentials, a wrong user name or a wrong password is challenged, whichever of the two is right |
| CaptureFiles.Listing | docker/docker-microscope/web_server.py:478-479 | the listing holds exactly the `.jpg` names of the directory, one entry per file, in strictly descending order |
| CaptureFiles.ListingNewestFirst | docker/docker-microscope/web_server.py:479 | of two capture files in the listing, the one listed first was taken later |
| CaptureFiles.ExistsFile | docker/docker-microscope/web_server.py:497 | a path directly in the directory exists iff its name is a file of the directory |
| CaptureFiles.Directory.Remove | docker/docker-microscope/web_server.py:566-570 | `os.remove` succeeds iff the file is there and removable; the file is then gone and nothing else changes |
| MicroscopeWeb.Confine | docker/docker-microscope/web_server.py:486-498 | a name is refused iff its resolved path is not the directory or below it; when found, the key is a `.jpg` file of the directory and the name resolves to it |
| MicroscopeWeb.ConfineFound | docker/docker-microscope/web_server.py:489-498 | a name is found as `k` iff `k` is a `.jpg` file of the directory and the name resolves to it |
| MicroscopeWeb.SameResolvedSameVerdict | docker/docker-microscope/web_server.py:491-497 | two names that resolve to the same path get the same verdict |
| MicroscopeWeb.PlainNameConfined | docker/docker-microscope/web_server.py:487-498 | a plain file name resolves to itself inside the directory, and is found iff it is a `.jpg` file there |
| MicroscopeWeb.ClimbBackInAccepted | docker/docker-microscope/web_server.py:518-527 | `../captures/a.jpg` resolves into the directory and gets the same verdict as `a.jpg` |
| MicroscopeWeb.AbsoluteOutsideRefused | docker/docker-microscope/web_server.py:487-493 | the absolute name `/etc/passwd` replaces the base and is refused |
| MicroscopeWeb.ParentRefused | docker/docker-microscope/web_server.py:487-493 | `..` resolves to `/app` and is refused |
| MicroscopeWeb.DirectoryItselfMissing | docker/docker-microscope/web_server.py:491-498 | `.` resolves to the directory itself, passes containment, and is answered as not found |
| MicroscopeWeb.GetCapture | docker/docker-microscope/web_server.py:484-500 | 400 iff the resolved path leaves the directory, 404 iff it stays inside but is not an existing `.jpg` file, 200 with that file's bytes otherwise |
| MicroscopeWeb.GetCaptureConfined | docker/docker-microscope/web_server.py:489-500 | whatever the name, a 200 answer carries the bytes of a `.jpg` file of the directory that the name resolves to |
| MicroscopeWeb.ListCaptures | docker/docker-microscope/web_server.py:476-480 | 200 with exactly the `.jpg` names, in descending order |
| MicroscopeWeb.ZipEntry1 | docker/docker-microscope/web_server.py:518-528 | a requested name gives at most one archive entry |
| MicroscopeWeb.ZipEntries | docker/docker-microscope/web_server.py:517-528 | the archive has at most one entry per requested name |
| MicroscopeWeb.ZipEntryMembership | docker/docker-microscope/web_server.py:517-528 | an entry is in the archive iff its name is a requested string that is found, and it holds the bytes of the file that name resolves to |
| MicroscopeWeb.ZipSkipsRefused | docker/docker-microscope/web_server.py:521-527 | a refused or missing name is skipped, and the names after it are still exported as if it were absent |
| MicroscopeWeb.WriteZip | docker/docker-microscope/web_server.py:515-528 | the loop writes exactly the entries of `ZipEntries`, in request order |
| MicroscopeWeb.BatchDownload | docker/docker-microscope/web_server.py:504-538 | an empty or missing `files` gives 400 "No files specified"; otherwise 200 with the archive |
| MicroscopeWeb.DeleteAllRemoves | docker/docker-microscope/web_server.py:553-567 | a file remains iff it was there and it is not both removable and named by some request that resolves to it as a `.jpg` file; remaining files keep their bytes |
| MicroscopeWeb.DeleteAllCount | docker/docker-microscope/web_server.py:551-572 | the remaining files are a subset of the original files, `deleted` equals the number of files removed, and `deleted` is at most the number of names |
| MicroscopeWeb.DeleteTwice | docker/docker-microscope/web_server.py:553-572 | a name asked for twice is removed once and counted once |
| MicroscopeWeb.BatchDelete | docker/docker-microscope/web_server.py:542-572 | an empty or missing `files` gives 400 and leaves the directory alone; otherwise the directory becomes the `DeleteAll` result and the answer is `deleted` with `requested` = number of names, duplicates included |
| MicroscopeWeb.GuardedBatchDelete | docker/docker-microscope/web_server.py:42-50 | an unauthenticated delete request is answered 401 and removes nothing |
| MicroscopeWeb.CaptureReply | docker/docker-microscope/web_server.py:442-449 | 200 with the file's name and `str` of its path iff a path was returned; otherwise 500 "Capture failed" |
| MicroscopeWeb.CaptureReplyNames | docker/docker-microscope/web_server.py:443-447 | a capture at time `t` is answered with `capture_<stamp>.jpg` and `/app/captures/capture_<stamp>.jpg` |
| MicroscopeWeb.Capture | docker/docker-microscope/web_server.py:437-449 | 200 iff the service read a frame, and the body names `capture_<stamp>.jpg` under `/app/captures`; otherwise 500 "Capture failed". The camera has consumed one answer iff it was open. The directory gains that file with the `imwrite` bytes iff a frame was read and written; otherwise it is unchanged |
| MicroscopeWeb.Status | docker/docker-microscope/web_server.py:453-459 | always 200; `camera_ready` iff a handle is held and open |
| MicroscopeWeb.HealthReply | docker/docker-microscope/web_server.py:465-472 | 200 "healthy"/"ok" iff the camera is fine, 503 "unhealthy"/"error" otherwise |
| MicroscopeWeb.StatusAgreesWithHealth | docker/docker-microscope/web_server.py:458-467 | `status` reports the camera ready iff `health` answers 200 |
| MicroscopeWeb.StoppedUnhealthy | docker/docker-microscope/web_server.py:465-467 | a service without a handle is reported 503 |
| MicroscopeWeb.FailedVerificationStillHealthy | docker/docker-microscope/camera_service.py:31-50 | a device that opens but fails the verification read makes `start` return false while `health` still answers 200 |
| PurePaths.SplitJoinSlash | docker/docker-microscope/web_server.py:487 | splitting slash-joined slash-free pieces gives the pieces back |
| PurePaths.ResolveIdempotent | docker/docker-microscope/web_server.py:491-492 | a resolved path has only normal components and resolving it again changes nothing |
| PurePaths.SuffixJpg | docker/docker-microscope/web_server.py:497 | the suffix is `.jpg` iff the name ends in `.jpg` and has something before it |
| PurePaths.PathStringRoundTrip | docker/docker-microscope/web_server.py:446 | parsing `str(p)` of a normal absolute path gives the path back |
| Timestamps.Stamp | docker/docker-microscope/camera_service.py:86 | `YYYYMMDD_HHMMSS`: 15 characters, all digits except the `_` at position 8 |
| Timestamps.StampOrder | docker/docker-microscope/camera_service.py:86 | one stamp sorts below another iff its time is earlier |
| Timestamps.StampInjective | docker/docker-microscope/camera_service.py:86 | different times give different stamps |
| Timestamps.CaptureName | docker/docker-microscope/camera_service.py:87 | `capture_` + stamp + `.jpg`, 27 characters, no `/` |
| Timestamps.CaptureNameOrder | docker/docker-microscope/camera_service.py:86-87 | capture names sort in time order |
| Timestamps.CsiCaptureName | docker/csi-camera/camera_service.py:74-75 | `csi_capture_` + stamp + `.jpg`, 31 characters, no `/` |
| UsbCamera.CameraService.constructor | docker/docker-microscope/camera_service.py:15-21 | the configuration is stored and there is no handle yet |
| UsbCamera.CameraService.Start | docker/docker-microscope/camera_service.py:23-50 | returns true iff the device opens and the read after exactly three warm-up reads gives a frame; the new handle is kept either way, with MJPG and the configured frame size set; an unopened device is not read |
| UsbCamera.CameraService.ReadFrame | docker/docker-microscope/camera_service.py:52-61 | `None` without an open handle or on a failed read; otherwise the frame read. An open handle has one answer consumed; its open flag, FOURCC and frame size stay as they were |
| UsbCamera.StreamParts | docker/docker-microscope/camera_service.py:63-78 | the stream has at most one part per read |
| UsbCamera.StreamPartsFramed | docker/docker-microscope/camera_service.py:77-78 | every part is `--frame\r\nContent-Type: image/jpeg\r\n\r\n` + JPEG + `\r\n` |
| UsbCamera.StreamEndsAtFailedRead | docker/docker-microscope/camera_service.py:68-71 | nothing read after the first failed read is streamed |
| UsbCamera.StreamSkipsUnencodable | docker/docker-microscope/camera_service.py:73-75 | a frame that does not encode is skipped and the stream continues |
| UsbCamera.StreamAllFrames | docker/docker-microscope/camera_service.py:68-78 | when every read gives an encodable frame, each read becomes exactly one part, in order |
| UsbCamera.CameraService.GenerateStream | docker/docker-microscope/camera_service.py:63-78 | nothing, and nothing consumed, without an open handle; otherwise exactly the parts of `StreamParts` of the pending answers, with the answers up to and including the failed read consumed; the handle's open flag, FOURCC and frame size are unchanged |
| UsbCamera.CameraService.CaptureImage | docker/docker-microscope/camera_service.py:80-91 | `None` and no write when no frame is read; otherwise the path `/app/captures/capture_<stamp>.jpg`, returned even when `imwrite` wrote nothing. The directory gains that file only when `imwrite` produced bytes. An open handle has one answer consumed; its open flag, FOURCC and frame size stay as they were |
| UsbCamera.CameraService.Stop | docker/docker-microscope/camera_service.py:93-97 | a held handle is released; afterwards there is no handle |
| UsbCamera.StopTwice | docker/docker-microscope/camera_service.py:93-97 | a second `stop` finds no handle and leaves none |
| UsbCamera.Registry.GetCameraService | docker/docker-microscope/camera_service.py:100-110 | the first call builds an unstarted service from the configuration; every later call returns that same instance |
| UsbCamera.SingletonShared | docker/docker-microscope/camera_service.py:102-110 | two calls return one instance, even with a different configuration |
| CsiCamera.VidCommand | docker/csi-camera/camera_service.py:26-35 | the 14-word `rpicam-vid` command: timeout 0, size and rate, codec `mjpeg`, output `-`, no preview |
| CsiCamera.VidCommandReadsBack | docker/csi-camera/camera_service.py:29-31 | the width, height and rate words parse back to the configured integers |
| Decimal.IntRoundTrip | docker/csi-camera/camera_service.py:29-31 | `str()` of an integer is non-empty and parses back to it |
| CsiCamera.StillCommand | docker/csi-camera/camera_service.py:79-85 | the `rpicam-still` command: output `str(path)`, 1920×1080, timeout 1000 |
| CsiCamera.ChunkedPassThrough | docker/csi-camera/camera_service.py:64-68 | the chunks concatenate to the child's output; each is non-empty and at most 4096 bytes; all but the last are exactly 4096 |
| CsiCamera.ChunkedPrefix | docker/csi-camera/camera_service.py:64-68 | the first `k` chunks are the first `4096*k` bytes of the output, or all of it |
| CsiCamera.ReadIsNextChunk | docker/csi-camera/camera_service.py:65-67 | each `read(4096)` returns the next chunk, and an empty read happens exactly when all chunks were taken |
| CsiCamera.CSICameraService.constructor | docker/csi-camera/camera_service.py:15-21 | the configuration is stored and there is no process |
| CsiCamera.CSICameraService.Start | docker/csi-camera/camera_service.py:23-56 | returns true iff `Popen` started a child that is still alive; a `Popen` that raises leaves `process` unchanged; a child that has already exited stays in `process` |
| CsiCamera.CSICameraService.GenerateStream | docker/csi-camera/camera_service.py:58-70 | nothing without a process; otherwise the first `demand` chunks of the output, stopping at the first empty read, with exactly that much of the output consumed |
| CsiCamera.CSICameraService.CaptureImage | docker/csi-camera/camera_service.py:72-90 | the path `/app/captures/csi_capture_<stamp>.jpg` iff `rpicam-still` exits with 0; `None` on another exit status; an exception when the program is missing |
| CsiCamera.CSICameraService.Stop | docker/csi-camera/camera_service.py:92-100 | the child is terminated and has stopped; it is killed iff it was running and ignored the terminate; afterwards there is no process; without one nothing happens |
| CsiCamera.GetCameraService | docker/csi-camera/camera_service.py:102-104 | a fresh, unstarted 640×480 at 30 fps service |
| CsiCamera.FreshServiceStreamsNothing | docker/csi-camera/camera_service.py:60-61 | a service that was never started streams nothing |
| CsiCamera.FactoryNotShared | docker/csi-camera/camera_service.py:102-104 | two calls give two distinct services |
| CsiWeb.Stream | docker/csi-camera/web_server.py:100-117 | 500 "Camera failed to start" with no chunks iff the child did not stay alive; otherwise 200 with the chunks taken. When at least one chunk was asked for, the child is then terminated and stopped, killed iff it ignored the terminate; when none was, the child is left running and never signalled |
| CsiWeb.HeadRequestLeavesCameraRunning | docker/csi-camera/web_server.py:106-117 | a request whose body is never read (`HEAD`) answers 200 with no chunks and leaves the started `rpicam-vid` running |
| CsiWeb.StreamStoppedOnClose | docker/csi-camera/web_server.py:100-117 | with the stop tied to closing the response, the child is terminated and stopped for every consumer, including one that takes nothing |
| CsiWeb.CaptureReply | docker/csi-camera/web_server.py:126-133 | 200 with the file's name and path iff a path was returned and that file exists; otherwise 500 |
| CsiWeb.Capture | docker/csi-camera/web_server.py:119-133 | 200 iff `rpicam-still` exited with 0 and the file is there afterwards, written now or left by an earlier capture in the same second; otherwise 500. The directory gains the file `rpicam-still` wrote, if any, and is otherwise unchanged |
| CsiWeb.CapturePathString | docker/csi-camera/web_server.py:129-130 | `filepath.name` and `str(filepath)` of a capture are its file name and `/app/captures/<name>` |
| CsiWeb.GalleryImages | docker/csi-camera/web_server.py:137-149 | empty when the directory is missing; otherwise one item per listed `.jpg` file, in listing order, with its URL and size |
| CsiWeb.GalleryListsJpgs | docker/csi-camera/web_server.py:142-149 | the gallery shows every `.jpg` file and only those, in descending name order, each with URL `/captures/<name>` |
| CsiWeb.SavedCaptureShown | docker/csi-camera/web_server.py:124-143 | a capture file that is present appears in the gallery listing |
| CsiWeb.GuardedCapture | docker/csi-camera/web_server.py:42-50 | an unauthenticated capture request is answered 401 and leaves the directory alone; an authenticated one is answered 200 or 500 and the directory gains what `rpicam-still` wrote |
| LedStatus.LEDStatus.constructor | docker/docker-microscope/led_status.py:26-42 | the display is enabled iff it was requested, the library is present and its set-up did not raise; both flags start false |
| LedStatus.LEDStatus.SetRow | docker/docker-microscope/led_status.py:44-53 | when enabled, all eight pixels of the row take the colour and every other pixel is unchanged; when disabled, nothing changes |
| LedStatus.LEDStatus.ClearRow | docker/docker-microscope/led_status.py:55-57 | `set_row` with black |
| LedStatus.LEDStatus.ClearAll | docker/docker-microscope/led_status.py:59-67 | when enabled the whole grid is black; when disabled nothing changes |
| LedStatus.LEDStatus.UpdateSystemStatus | docker/docker-microscope/led_status.py:69-82 | when enabled, records `system_ok` and makes row 0 green or black, and nothing else changes; when disabled, nothing changes |
| LedStatus.LEDStatus.SetStreaming | docker/docker-microscope/led_status.py:84-97 | when enabled, records `streaming` and makes row 1 red or black, and nothing else changes; when disabled, nothing changes |
| LedStatus.LEDStatus.Cleanup | docker/docker-microscope/led_status.py:118-125 | when enabled the grid is cleared; otherwise nothing changes |
| LedStatus.StatusRowsIndependent | docker/docker-microscope/led_status.py:69-97 | after `update_system_status` and `set_streaming`, row 0 shows the system state and row 1 the streaming state |
| Battery.Word | prep-scripts/function-test-battery.py:68 | `(high << 8) \| low` equals `high*256 + low` and is below 65536 |
| Battery.BitOrShifted | prep-scripts/function-test-battery.py:68 | or-ing a value below `2^k` into a value shifted by `k` bits adds it |
| Battery.VoltageMv | prep-scripts/function-test-battery.py:69-70 | `(raw*5) div 4` is `int(raw * 1.25)`, the floor of the real product |
| Battery.CapacityPercent | prep-scripts/function-test-battery.py:84-85 | `raw div 256` is `int(raw / 256.0)`, the floor of the real quotient |
| Battery.CapacityIsHighByte | prep-scripts/function-test-battery.py:83-85 | the capacity in percent is the high byte of the `SOC` word |
| Battery.VoltageRange | prep-scripts/function-test-battery.py:64-70 | the voltage is between 0 and 81918 mV |
| Battery.ReadVoltage | prep-scripts/function-test-battery.py:59-72 | an error iff the bus does not open or a `VCELL` byte cannot be read; otherwise the millivolts of the word |
| Battery.ReadCapacity | prep-scripts/function-test-battery.py:74-87 | an error iff the bus does not open or a `SOC` byte cannot be read; otherwise the high byte |
| Battery.IsCharging | prep-scripts/function-test-battery.py:89-99 | true iff GPIO is available, its calls do not raise, and pin 4 reads high |
| Battery.Classify | prep-scripts/function-test-battery.py:110-117 | full iff capacity ≥ 100; low iff < 5; charging iff in between and charging; discharging iff in between and not charging |
| Battery.GetStatus | prep-scripts/function-test-battery.py:101-125 | `None` iff a read fails; otherwise the readings, the charging flag and their classification |
| Battery.LowWhileCharging | prep-scripts/function-test-battery.py:110-113 | a capacity below 5 is reported low even while charging |
| Battery.TestDevice | prep-scripts/function-test-battery.py:127-135 | a bus that does not open fails the presence test and both register readings; on an open bus the device is found iff the gauge acknowledges |
| Battery.NoBusNoStatus | prep-scripts/function-test-battery.py:101-135 | without a bus neither the device nor a status is reported, whatever the charger pin says |
| Battery.FoundWithoutStatus | prep-scripts/function-test-battery.py:101-135 | the presence test does not read the registers: a gauge that acknowledges but has no readable `SOC` register is found while `get_status` gives `None` |
| CameraTest.DefaultOutput | prep-scripts/function-test-cameras.py:39-42 | the derived name starts with `test-`, ends in `.jpg` and has no `/` |
| CameraTest.OutputFile | prep-scripts/function-test-cameras.py:39-42 | a given output name is used unchanged; otherwise the derived one |
| CameraTest.DefaultOutputOfDevPath | prep-scripts/function-test-cameras.py:41-42 | `/dev/<n>` with a slash-free `n` gives `test-<n>.jpg` |
| Strings.ReplaceCharRemovesIt | prep-scripts/function-test-cameras.py:41 | replacing every `/` by `-` leaves no `/` |
| CameraTest.FourccFor | prep-scripts/function-test-cameras.py:51-56 | `MJPG` iff `video0` occurs in the device string, `YUYV` otherwise |
| CameraTest.TestCamera | prep-scripts/function-test-cameras.py:37-92 | true iff the device opens, the read after exactly five warm-up reads succeeds, and `imwrite` of its frame to the output name does not raise; an unopened device is not read; the FOURCC is set first; the capture is released after a failed read or a written frame, and left open when `imwrite` raised (no frame, or no writer for the name) |
| CameraTest.ListDevices | prep-scripts/function-test-cameras.py:16-35 | the probe lists `/dev/video0`, `/dev/video1`, … in order, all present, at most ten, and stops at the first missing one |
| CameraTest.VideoPathInjective | prep-scripts/function-test-cameras.py:20 | different indices give different device paths |
| CameraTest.PassCount | prep-scripts/function-test-cameras.py:118-121 | at most one success per tested device, each written to its derived output name |
| CameraTest.PassCountZero | prep-scripts/function-test-cameras.py:127-129 | the count is zero iff every default device is missing or fails |
| CameraTest.RunMain | prep-scripts/function-test-cameras.py:94-131 | `--list` exits 0; a named device exits 0 iff it passes with the `--output` name or the derived one; otherwise `success_count` is the number of default devices that exist and pass, and the exit status is 1 iff that count is 0 |

## Left out

- HTML templates and gallery rendering are presentation only. So are the index routes.
- Flask, werkzeug and `send_from_directory` are framework code. Handlers return (status,
  body) values.
  - `serve_capture` of the CSI server only delegates to `send_from_directory`, so it is not
    modelled.
  - The `<filename>` route converter admits no `/`. For such names the library's own
    `safe_join` only refuses `..`, which `get_capture` refuses first (`ParentRefused`).
- The microscope `/stream` route only wraps `generate_stream` in a response, so the model has
  no separate member for it.
- The CSI `/health` route answers a constant and the wall-clock time, so it is not modelled.
- Server start-up is process and I/O plumbing and is not modelled. This covers TLS,
  `run_simple`, `multiprocessing`, both `main` functions of the servers, and the random
  password printed when none is configured.
- There are no locks in the source, so the model has no threads. `LEDStatus.flash_capture`
  and its thread are not modelled.
- OpenCV, `rpicam-vid`, `rpicam-still`, `time.sleep` and the JPEG quality settings are
  outside the model. They appear as oracle parameters.
- The zip compression format is not modelled. The archive is a sequence of (name, bytes).
  - `zipfile` normalises arcnames (for example it drops a leading `/`); the model does not.
- Symbolic links and `OSError`/`ValueError` from `resolve()` are not modelled. The directory
  holds plain files and no sub-directories.
- Floating-point values are left out: `voltage_v`, frame rates and LED brightness.
- The register dump and the monitoring loop of the battery script are left out. So is the
  printed text of both test scripts.
- `function-test-hat.py` and `probe-i2c.py` are hardware demos and are not part of this
  model.
- A request whose body is not JSON, or whose `files` is not a list of strings, is not
  modelled. `FilesField` is a list of strings or absent.
  - A string `files` is iterated character by character.
  - A list with a non-string item makes `captures_dir / filename` raise outside the `try`.
    The batch then ends in a 500.
- The gallery's `mtime` (`time.ctime`) is not modelled.
- Timestamps.Stamp: only years 1000 to 9999 are modelled, where `%Y` gives four digits.
- UsbCamera.CameraService.GenerateStream: the generator is modelled as run until it returns.
  A client that disconnects mid-stream closes it earlier; that case is not modelled.
- CsiCamera.CSICameraService.GenerateStream: the `except` branch for a read that raises is
  not modelled. The pipe read returns 4096 bytes unless the output ends.
- LedStatus.LEDStatus.SetRow: a library exception part-way through a row is not modelled. A
  row off the HAT leaves the grid unchanged.
- CsiWeb.Stream: the `capture_dir.mkdir` side effect of building a service is not modelled.
  The directory is a parameter.

## Findings

| source | as written | input that shows it | evidently intended | confidence | as-written member | corrected member |
|---|---|---|---|---|---|---|
| docker/csi-camera/web_server.py:106-117 | `camera.stop()` runs only in the `finally` of the response generator, and a generator closed before its first `next()` never runs its `finally` | a `HEAD /stream` with valid credentials while the camera starts: the body is never iterated, so `rpicam-vid` keeps running and holds the camera | the camera started for a response is stopped when that response is closed, whether or not its body was read | not executed | CsiWeb.HeadRequestLeavesCameraRunning | CsiWeb.StreamStoppedOnClose |
