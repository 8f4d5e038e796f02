/** The decoding part of the UPS-Lite battery test: the CW2015 fuel gauge's cell-voltage and
    state-of-charge registers, the charger pin, and the status summary. */
module Battery {
  import opened Common

  /** I2C address of the CW2015 fuel gauge. */
  const Address := 0x62

  /** The two bytes of the cell voltage (`VCELL`) and of the state of charge (`SOC`). */
  const VcellHigh: nat := 0x02
  const VcellLow: nat := 0x03
  const SocHigh: nat := 0x04
  const SocLow: nat := 0x05

  /** The bus as the script sees it: whether `smbus.SMBus(1)` opens, the registers that
      `read_byte_data(0x62, reg)` can read (any other read raises), and whether a plain
      `read_byte(0x62)` is acknowledged. */
  datatype Bus = Bus(opens: bool, registers: map<nat, byte>, acknowledges: bool)

  /** A value, or the `(None, str(e))` pair returned when a read raised. */
  datatype Reading = Value(value: int) | ReadError

  function Pow2(k: nat): (p: nat)
    ensures p >= 1
  {
    if k == 0 then 1 else 2 * Pow2(k - 1)
  }

  /** Python's `x << k` on a non-negative integer. */
  function ShiftLeft(x: nat, k: nat): nat
  {
    x * Pow2(k)
  }

  /** Python's `a | b` on non-negative integers, bit by bit from the lowest. */
  function BitOr(a: nat, b: nat): nat
    decreases a + b
  {
    if a == 0 then b
    else if b == 0 then a
    else 2 * BitOr(a / 2, b / 2) + (if a % 2 == 1 || b % 2 == 1 then 1 else 0)
  }

  /** Or-ing a value below `2^k` into a value shifted by `k` bits adds it. */
  lemma {:induction false} BitOrShifted(a: nat, l: nat, k: nat)
    requires l < Pow2(k)
    ensures BitOr(ShiftLeft(a, k), l) == ShiftLeft(a, k) + l
    decreases k
  {
    if k > 0 && a > 0 && l > 0 {
      var p := Pow2(k - 1);
      assert a * Pow2(k) == 2 * (a * p);
      assert (a * Pow2(k)) / 2 == a * p && (a * Pow2(k)) % 2 == 0;
      BitOrShifted(a, l / 2, k - 1);
    }
  }

  /** `(high << 8) | low`: the 16-bit register word. */
  function Word(high: byte, low: byte): (w: nat)
    ensures w == high as int * 256 + low as int
    ensures w < 65536
  {
    assert Pow2(8) == 256;
    BitOrShifted(high as nat, low as nat, 8);
    BitOr(ShiftLeft(high as nat, 8), low as nat)
  }

  /** `int(raw * 1.25)`, exact in integers: the product is exact in a double for a 16-bit
      raw value, and `int()` rounds a non-negative value down. */
  function VoltageMv(raw: nat): (mv: nat)
    ensures mv as real <= raw as real * 1.25 < mv as real + 1.0
  {
    (raw * 5) / 4
  }

  /** `int(raw / 256.0)` */
  function CapacityPercent(raw: nat): (pct: nat)
    ensures pct as real <= raw as real / 256.0 < pct as real + 1.0
  {
    raw / 256
  }

  /** The capacity in percent is the high byte of the `SOC` register; the low byte is a
      fraction of one percent. */
  lemma CapacityIsHighByte(high: byte, low: byte)
    ensures CapacityPercent(Word(high, low)) == high as int
  {
  }

  /** The largest voltage the register can report: 65535 * 1.25, rounded down. */
  lemma VoltageRange(high: byte, low: byte)
    ensures 0 <= VoltageMv(Word(high, low)) <= 81918
  {
  }

  /** `read_voltage`: the two `VCELL` bytes scaled to millivolts, or an error when the bus
      or either read fails. */
  function ReadVoltage(bus: Bus): (r: Reading)
    ensures r.ReadError? <==> !bus.opens || VcellHigh !in bus.registers || VcellLow !in bus.registers
    ensures r.Value? ==> r.value == VoltageMv(Word(bus.registers[VcellHigh], bus.registers[VcellLow]))
  {
    if !bus.opens || VcellHigh !in bus.registers || VcellLow !in bus.registers then ReadError
    else Value(VoltageMv(Word(bus.registers[VcellHigh], bus.registers[VcellLow])))
  }

  /** `read_capacity`: the `SOC` register in whole percent, or an error. */
  function ReadCapacity(bus: Bus): (r: Reading)
    ensures r.ReadError? <==> !bus.opens || SocHigh !in bus.registers || SocLow !in bus.registers
    ensures r.Value? ==> r.value == bus.registers[SocHigh] as int
  {
    if !bus.opens || SocHigh !in bus.registers || SocLow !in bus.registers then ReadError
    else
      CapacityIsHighByte(bus.registers[SocHigh], bus.registers[SocLow]);
      Value(CapacityPercent(Word(bus.registers[SocHigh], bus.registers[SocLow])))
  }

  /** `is_charging`: GPIO 4 reads high. Without the GPIO library, or when the GPIO calls
      raise (`pin == None`), the answer is `False`. */
  function IsCharging(gpioAvailable: bool, pin: Option<bool>): (charging: bool)
    ensures charging <==> gpioAvailable && pin == Some(true)
  {
    if !gpioAvailable then false
    else match pin
      case None => false
      case Some(high) => high
  }

  datatype Status = Full | Low | Charging | Discharging

  /** The `if`/`elif` chain of `get_status`: full first, then low (even while charging), then
      charging, else discharging. */
  function Classify(capacity: int, charging: bool): (s: Status)
    ensures s == Full <==> capacity >= 100
    ensures s == Low <==> capacity < 5
    ensures s == Charging <==> 5 <= capacity < 100 && charging
    ensures s == Discharging <==> 5 <= capacity < 100 && !charging
  {
    if capacity >= 100 then Full
    else if capacity < 5 then Low
    else if charging then Charging
    else Discharging
  }

  /** The `get_status` dictionary without the float `voltage_v`. */
  datatype BatteryStatus = BatteryStatus(voltageMv: int, capacity: int, charging: bool, status: Status)

  /** `get_status`: `None` when either register read fails. */
  function GetStatus(bus: Bus, gpioAvailable: bool, pin: Option<bool>): (r: Option<BatteryStatus>)
    ensures r.None? <==> ReadVoltage(bus).ReadError? || ReadCapacity(bus).ReadError?
    ensures r.Some? ==> r.value.voltageMv == ReadVoltage(bus).value
                        && r.value.capacity == bus.registers[SocHigh] as int
                        && r.value.charging == IsCharging(gpioAvailable, pin)
                        && r.value.status == Classify(r.value.capacity, r.value.charging)
  {
    var voltage := ReadVoltage(bus);
    var capacity := ReadCapacity(bus);
    var charging := IsCharging(gpioAvailable, pin);
    if voltage.ReadError? || capacity.ReadError? then None
    else Some(BatteryStatus(voltage.value, capacity.value, charging, Classify(capacity.value, charging)))
  }

  /** A nearly empty battery is reported low even while the charger is connected. */
  lemma LowWhileCharging(bus: Bus)
    requires ReadVoltage(bus).Value? && ReadCapacity(bus).Value?
    requires bus.registers[SocHigh] < 5
    ensures GetStatus(bus, true, Some(true)).Some?
    ensures GetStatus(bus, true, Some(true)).value.status == Low
  {
  }

  /** `test_device`: the bus opens and the gauge acknowledges a read. A bus that does not
      open fails the presence test and every register reading alike. */
  function TestDevice(bus: Bus): (found: bool)
    ensures !bus.opens ==> !found && ReadVoltage(bus).ReadError? && ReadCapacity(bus).ReadError?
    ensures bus.opens ==> (found <==> bus.acknowledges)
  {
    bus.opens && bus.acknowledges
  }

  /** Without a bus there is neither a device nor a status, whatever the charger pin says. */
  lemma NoBusNoStatus(bus: Bus, gpioAvailable: bool, pin: Option<bool>)
    requires !bus.opens
    ensures !TestDevice(bus) && GetStatus(bus, gpioAvailable, pin).None?
  {
  }

  /** The presence test and the register readings are independent: a gauge that
      acknowledges may still have an unreadable `SOC` register, so the device is found while
      `get_status` gives `None`. */
  lemma FoundWithoutStatus(gpioAvailable: bool, pin: Option<bool>)
    ensures var bus := Bus(true, map[VcellHigh := 0, VcellLow := 0], true);
            TestDevice(bus) && GetStatus(bus, gpioAvailable, pin).None?
  {
    var bus := Bus(true, map[VcellHigh := 0, VcellLow := 0], true);
    assert SocHigh !in bus.registers;
  }
}
