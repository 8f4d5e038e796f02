/** The part of OpenCV's `cv2.VideoCapture` the camera code drives, as an oracle: a device
    either opens or not, and answers a fixed sequence of reads. */
module Cv {
  import opened Common

  /** A decoded image; its pixels are never inspected. */
  type Frame = Bytes

  /** What `cap.read()` returns: a success flag and a frame or `None`. */
  datatype ReadResult = ReadResult(success: bool, frame: Option<Frame>)

  /** The answer of a capture that cannot deliver a frame. */
  const Failed := ReadResult(false, None)

  /** How the device at a path behaves once `cv2.VideoCapture(path)` is called. */
  datatype Device = Device(opens: bool, answers: seq<ReadResult>)

  /** The answer to the `k`-th read (from 0); a device whose answers ran out fails. */
  function ReadAt(answers: seq<ReadResult>, k: nat): ReadResult
  {
    if k < |answers| then answers[k] else Failed
  }

  /** The answers still to come after `k` reads. */
  function Drop(answers: seq<ReadResult>, k: nat): seq<ReadResult>
  {
    if k < |answers| then answers[k..] else []
  }

  lemma DropDrop(answers: seq<ReadResult>, i: nat, j: nat)
    ensures Drop(Drop(answers, i), j) == Drop(answers, i + j)
    ensures ReadAt(Drop(answers, i), j) == ReadAt(answers, i + j)
  {
    if i < |answers| && j < |answers| - i {
      assert answers[i..][j..] == answers[i + j..];
    }
  }

  class VideoCapture {
    var isOpen: bool
    /** The answers the next reads will give. */
    var pending: seq<ReadResult>
    var fourcc: string
    var frameWidth: int
    var frameHeight: int

    constructor (d: Device)
      ensures isOpen == d.opens && pending == d.answers
      ensures fourcc == "" && frameWidth == 0 && frameHeight == 0
    {
      isOpen, pending := d.opens, d.answers;
      fourcc, frameWidth, frameHeight := "", 0, 0;
    }

    /** `cap.read()`: an open capture hands out its next answer; a closed one fails. */
    method Read() returns (r: ReadResult)
      modifies this
      ensures r == (if old(isOpen) then ReadAt(old(pending), 0) else Failed)
      ensures pending == (if old(isOpen) then Drop(old(pending), 1) else old(pending))
      ensures isOpen == old(isOpen) && fourcc == old(fourcc)
      ensures frameWidth == old(frameWidth) && frameHeight == old(frameHeight)
    {
      if isOpen {
        r := ReadAt(pending, 0);
        pending := Drop(pending, 1);
      } else {
        r := Failed;
      }
    }

    /** `cap.release()` */
    method Release()
      modifies this
      ensures !isOpen && pending == old(pending) && fourcc == old(fourcc)
      ensures frameWidth == old(frameWidth) && frameHeight == old(frameHeight)
    {
      isOpen := false;
    }

    /** `cap.set(CAP_PROP_FOURCC, ...)` */
    method SetFourcc(code: string)
      modifies this
      ensures fourcc == code && isOpen == old(isOpen) && pending == old(pending)
      ensures frameWidth == old(frameWidth) && frameHeight == old(frameHeight)
    {
      fourcc := code;
    }

    /** `cap.set(CAP_PROP_FRAME_WIDTH, w)` and `cap.set(CAP_PROP_FRAME_HEIGHT, h)` */
    method SetFrameSize(w: int, h: int)
      modifies this
      ensures frameWidth == w && frameHeight == h
      ensures fourcc == old(fourcc) && isOpen == old(isOpen) && pending == old(pending)
    {
      frameWidth, frameHeight := w, h;
    }
  }
}
