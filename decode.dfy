// The per-register decoders of the switch in main
// (nesMusicTranslate.cpp:63-124). Every shift and mask is on unsigned
// operands, so `x >> k` is `x / 2^k` and `x & (2^k - 1)` is `x % 2^k`.

module Decoders {
  import opened Events

  datatype Option<T> = None | Some(value: T)

  /** The APU channel a register belongs to. */
  datatype Channel = Square1 | Square2 | Triangle | Noise

  /** The sweep unit's fields, reported only when the sweep is enabled. */
  datatype SweepUnit = SweepUnit(period: nat, direction: nat, shift: nat)

  /** What the decoder reports for one write, as integer fields. */
  datatype Description =
    | DutyEnvelope(channel: Channel, duty: nat, loopEnvelope: nat, constantVolume: nat, volume: nat)
    | Sweep(channel: Channel, enabled: nat, unit: Option<SweepUnit>)
    | TimerLow(channel: Channel, wavelength: nat)
    | Trigger(channel: Channel, length: nat, wavelength: nat)
    | Placeholder(channel: Channel, index: nat)
    | Empty

  /**
   * Duty cycle, envelope loop, constant volume and volume/rate of a
   * 0x4000/0x4004 write. The four fields rebuild the written value, so no
   * bit is lost or counted twice; the duty is not masked, so it stays
   * below 4 only for byte-sized data.
   */
  function DecodeDutyEnvelope(channel: Channel, data: U16): (r: Description)
    ensures r.DutyEnvelope? && r.channel == channel
    ensures r.loopEnvelope <= 1 && r.constantVolume <= 1 && r.volume < 16
    ensures data < 256 ==> r.duty < 4
    ensures data == r.duty * 64 + r.loopEnvelope * 32 + r.constantVolume * 16 + r.volume
  {
    DutyFields(data);
    DutyEnvelope(channel, data / 64, (data / 32) % 2, (data / 16) % 2, data % 16)
  }

  /** Bits 6 and up, bit 5, bit 4 and bits 0-3 of a value partition it. */
  lemma DutyFields(x: nat)
    ensures x == (x / 64) * 64 + ((x / 32) % 2) * 32 + ((x / 16) % 2) * 16 + x % 16
  {
    var r := x / 16;
    assert x == 16 * r + x % 16;
    var r2 := r / 2;
    assert r == 2 * r2 + r % 2;
    assert r2 == 2 * (r2 / 2) + r2 % 2;
    assert x / 32 == r2;
    assert x / 64 == r2 / 2;
  }

  /**
   * Sweep setting of a 0x4001/0x4005 write. The enable field is every bit
   * from bit 7 up; period, direction and shift are reported only when bit 7
   * itself is set, and they then rebuild bits 0-6 of the value.
   */
  function DecodeSweep(channel: Channel, data: U16): (r: Description)
    ensures r.Sweep? && r.channel == channel
    ensures r.enabled * 128 <= data < r.enabled * 128 + 128
    ensures r.unit.Some? <==> r.enabled % 2 == 1
    ensures data < 256 ==> r.enabled <= 1 && (r.unit.Some? <==> r.enabled == 1)
    ensures r.unit.Some? ==>
      1 <= r.unit.value.period <= 8 && r.unit.value.direction <= 1 && r.unit.value.shift < 8 &&
      data % 128 == (r.unit.value.period - 1) * 16 + r.unit.value.direction * 8 + r.unit.value.shift
  {
    SweepFields(data);
    var unit :=
      if (data / 128) % 2 == 1 then Some(SweepUnit((data / 16) % 8 + 1, (data / 8) % 2, data % 8))
      else None;
    Sweep(channel, data / 128, unit)
  }

  /** Bits 4-6, bit 3 and bits 0-2 of a value partition its bits 0-6. */
  lemma SweepFields(x: nat)
    ensures (x / 16) % 8 == (x % 128) / 16 && (x / 8) % 2 == ((x % 128) / 8) % 2 && x % 8 == (x % 128) % 8
    ensures x % 128 == ((x / 16) % 8) * 16 + ((x / 8) % 2) * 8 + x % 8
  {
    var r := x / 8;
    assert x == 8 * r + x % 8;
    var r2 := r / 2;
    assert r == 2 * r2 + r % 2;
    assert r2 == 8 * (r2 / 8) + r2 % 8;
    assert x / 16 == r2;
    assert x / 128 == r2 / 8;
    assert x % 128 == 16 * (r2 % 8) + 8 * (r % 2) + x % 8;
  }

  /**
   * The timer period assembled from the low three bits of the high
   * register and the whole low register: `((high & 7) << 8) + low`.
   * For a byte-sized low half it is an 11-bit value whose two halves are
   * exactly the inputs.
   */
  function Period(high: U16, low: U16): (w: nat)
    ensures low <= w <= low + 7 * 256
    ensures low < 256 ==> w < 2048 && w % 256 == low && w / 256 == high % 8
  {
    (high % 8) * 256 + low
  }

  /** The registers the switch has a case for. */
  predicate HasCase(reg: int)
  {
    0x4000 <= reg < 0x4010 && reg != 0x4009 && reg != 0x400d
  }

  /**
   * The switch on the register. `bank` is the shadow register bank as it
   * stands after this write was stored, which is where the other half of a
   * timer period is read from (slot 3 for 0x4002, slot 2 for 0x4003, slot 7
   * for 0x4006, slot 6 for 0x4007).
   */
  function Decode(reg: U16, data: U16, bank: seq<U16>): (r: Description)
    requires |bank| == 32
    ensures r == Empty <==> !HasCase(reg)
    ensures reg == 0x4000 || reg == 0x4004 ==>
      r == DecodeDutyEnvelope(if reg == 0x4000 then Square1 else Square2, data)
    ensures reg == 0x4001 || reg == 0x4005 ==>
      r == DecodeSweep(if reg == 0x4001 then Square1 else Square2, data)
    ensures reg == 0x4002 || reg == 0x4006 ==>
      r == TimerLow(if reg == 0x4002 then Square1 else Square2, Period(bank[reg - 0x3fff], data))
    ensures reg == 0x4003 || reg == 0x4007 ==>
      r.Trigger? && r.channel == (if reg == 0x4003 then Square1 else Square2) &&
      r.length * 8 <= data < r.length * 8 + 8 && r.wavelength == Period(data, bank[reg - 0x4001])
    ensures HasCase(reg) && reg >= 0x4008 ==>
      r == if reg < 0x400c then Placeholder(Triangle, reg - 0x4008) else Placeholder(Noise, reg - 0x400c)
  {
    match reg
    case 0x4000 => DecodeDutyEnvelope(Square1, data)
    case 0x4001 => DecodeSweep(Square1, data)
    case 0x4002 => TimerLow(Square1, Period(bank[3], data))
    case 0x4003 => Trigger(Square1, data / 8, Period(data, bank[2]))
    case 0x4004 => DecodeDutyEnvelope(Square2, data)
    case 0x4005 => DecodeSweep(Square2, data)
    case 0x4006 => TimerLow(Square2, Period(bank[7], data))
    case 0x4007 => Trigger(Square2, data / 8, Period(data, bank[6]))
    case 0x4008 => Placeholder(Triangle, 0)
    case 0x400a => Placeholder(Triangle, 2)
    case 0x400b => Placeholder(Triangle, 3)
    case 0x400c => Placeholder(Noise, 0)
    case 0x400e => Placeholder(Noise, 2)
    case 0x400f => Placeholder(Noise, 3)
    case _ => Empty
  }

  /**
   * For byte-sized data, with byte-sized low halves stored in the bank,
   * every decoded field is within the width the APU gives it.
   */
  lemma DecodeBounds(reg: U16, data: U16, bank: seq<U16>)
    requires |bank| == 32 && data < 256 && bank[2] < 256 && bank[6] < 256
    ensures var r := Decode(reg, data, bank);
      (r.DutyEnvelope? ==> r.duty < 4 && r.loopEnvelope <= 1 && r.constantVolume <= 1 && r.volume < 16) &&
      (r.Sweep? ==> r.enabled <= 1) &&
      (r.TimerLow? ==> r.wavelength < 2048) &&
      (r.Trigger? ==> r.length < 32 && r.wavelength < 2048)
  {
  }
}
