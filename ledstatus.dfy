/** `LEDStatus` of the microscope: a Unicorn pHAT of 8 columns by 4 rows whose row 0 shows
    the system state (green) and row 1 the streaming state (red). Every operation does
    nothing while the display is disabled. */
module LedStatus {

  /** An `(r, g, b)` triple as passed to `set_pixel`. */
  datatype Color = Color(r: int, g: int, b: int)

  const Black := Color(0, 0, 0)
  const Green := Color(0, 255, 0)
  const Red := Color(255, 0, 0)

  /** The pHAT layout: columns 0..7, rows 0..3. */
  const Columns := 8
  const Rows := 4

  /** The row showing whether the system is operational. */
  const SystemRow := 0

  /** The row showing whether a stream is active. */
  const StreamingRow := 1

  class LEDStatus {
    /** `self.enabled`: fixed by the constructor. */
    const enabled: bool
    var streaming: bool
    var systemOk: bool
    /** What the HAT shows, `pixels[col, row]`. */
    const pixels: array2<Color>

    predicate Valid()
      reads this
    {
      pixels.Length0 == Columns && pixels.Length1 == Rows
    }

    /** `__init__(enabled)`: the display is on only when it was asked for, the `unicornhat`
        library imported, and its set-up did not raise. */
    constructor (requested: bool, libraryAvailable: bool, setupSucceeds: bool, pixels: array2<Color>)
      requires pixels.Length0 == Columns && pixels.Length1 == Rows
      ensures Valid() && this.pixels == pixels
      ensures enabled <==> requested && libraryAvailable && setupSucceeds
      ensures !streaming && !systemOk
    {
      enabled := requested && libraryAvailable && setupSucceeds;
      streaming, systemOk := false, false;
      this.pixels := pixels;
    }

    /** `set_row(row, r, g, b)`: all eight pixels of the row take the colour; a row off the
        HAT changes nothing. */
    method SetRow(row: int, color: Color)
      requires Valid()
      modifies pixels
      ensures forall c, r :: 0 <= c < Columns && 0 <= r < Rows ==>
                pixels[c, r] == if enabled && r == row then color else old(pixels[c, r])
    {
      if !enabled || !(0 <= row < Rows) {
        return;
      }
      for col := 0 to Columns
        invariant forall c, r :: 0 <= c < Columns && 0 <= r < Rows ==>
                    pixels[c, r] == if r == row && c < col then color else old(pixels[c, r])
      {
        pixels[col, row] := color;
      }
    }

    /** `clear_row(row)`: `set_row` with black. */
    method ClearRow(row: int)
      requires Valid()
      modifies pixels
      ensures forall c, r :: 0 <= c < Columns && 0 <= r < Rows ==>
                pixels[c, r] == if enabled && r == row then Black else old(pixels[c, r])
    {
      SetRow(row, Black);
    }

    /** `clear_all`: the whole HAT goes black. */
    method ClearAll()
      requires Valid()
      modifies pixels
      ensures forall c, r :: 0 <= c < Columns && 0 <= r < Rows ==>
                pixels[c, r] == if enabled then Black else old(pixels[c, r])
    {
      if !enabled {
        return;
      }
      forall c, r | 0 <= c < Columns && 0 <= r < Rows {
        pixels[c, r] := Black;
      }
    }

    /** `update_system_status(camera_ok)`: remembers the state and shows row 0 green when
        the camera is fine, black otherwise. */
    method UpdateSystemStatus(cameraOk: bool)
      requires Valid()
      modifies this, pixels
      ensures systemOk == if enabled then cameraOk else old(systemOk)
      ensures streaming == old(streaming)
      ensures forall c, r :: 0 <= c < Columns && 0 <= r < Rows ==>
                pixels[c, r] == if enabled && r == SystemRow then (if cameraOk then Green else Black)
                                else old(pixels[c, r])
    {
      if !enabled {
        return;
      }
      systemOk := cameraOk;
      if cameraOk {
        SetRow(SystemRow, Green);
      } else {
        ClearRow(SystemRow);
      }
    }

    /** `set_streaming(active)`: remembers the state and shows row 1 red while streaming,
        black otherwise. */
    method SetStreaming(active: bool)
      requires Valid()
      modifies this, pixels
      ensures streaming == if enabled then active else old(streaming)
      ensures systemOk == old(systemOk)
      ensures forall c, r :: 0 <= c < Columns && 0 <= r < Rows ==>
                pixels[c, r] == if enabled && r == StreamingRow then (if active then Red else Black)
                                else old(pixels[c, r])
    {
      if !enabled {
        return;
      }
      streaming := active;
      if active {
        SetRow(StreamingRow, Red);
      } else {
        ClearRow(StreamingRow);
      }
    }

    /** `cleanup`: `clear_all` when enabled. */
    method Cleanup()
      requires Valid()
      modifies pixels
      ensures forall c, r :: 0 <= c < Columns && 0 <= r < Rows ==>
                pixels[c, r] == if enabled then Black else old(pixels[c, r])
    {
      if enabled {
        ClearAll();
      }
    }
  }

  /** The two status rows do not disturb each other: after `update_system_status` and then
      `set_streaming`, row 0 still shows the system state and row 1 the streaming state. */
  method StatusRowsIndependent(leds: LEDStatus, cameraOk: bool, active: bool)
    requires leds.Valid() && leds.enabled
    modifies leds, leds.pixels
    ensures leds.systemOk == cameraOk && leds.streaming == active
    ensures forall c :: 0 <= c < Columns ==>
              leds.pixels[c, SystemRow] == (if cameraOk then Green else Black)
              && leds.pixels[c, StreamingRow] == (if active then Red else Black)
  {
    leds.UpdateSystemStatus(cameraOk);
    leds.SetStreaming(active);
  }
}
