/** The DS18B20 driver of ds18b20.py: a temperature conversion, the read
    of the nine scratchpad bytes, and their decoding into degrees Celsius.
    The CRC routine is not part of this model; it is a parameter. */
module Ds18b20 {
  import opened Types
  import opened OneWire
  import opened Addressing

  const ConvertCmd: byte := 0x44
  const ReadScratchpadCmd: byte := 0xBE
  const ScratchpadLen: nat := 9

  /** `(data[4] >> 5) & 0b11`: bits 5 and 6 of the configuration register,
      0 for a 9-bit up to 3 for a 12-bit conversion. There is no fifth
      value, so the "Unknown Resolution" branch (ds18b20.py:71-72) can
      never be taken. */
  function Resolution(config: byte): (r: nat)
    ensures r < 4
  {
    (config / 32) % 4
  }

  lemma ResolutionBits(config: byte)
    ensures Resolution(config) == BitAt(config, 5) + 2 * BitAt(config, 6)
  {
    assert Pow2(5) == 32;
    var x := config / 32;
    BitAtHigh(config, 5, 0);
    BitAtHigh(config, 5, 1);
    assert BitAt(x, 1) == BitAt(x / 2, 0);
    var h := x / 2;
    assert x == 4 * (h / 2) + (2 * (h % 2) + x % 2);
    DivUnique(x, 4, h / 2, 2 * (h % 2) + x % 2);
  }

  /** `struct.unpack('<h', data[0:2])`: the two bytes, low first, read as
      a 16-bit two's complement number. */
  function SignedLE16(lo: byte, hi: byte): (v: int)
    ensures -0x8000 <= v < 0x8000
    ensures v % 0x1_0000 == lo + 256 * hi
  {
    var u := lo + 256 * hi;
    if u < 0x8000 then u else u - 0x1_0000
  }

  /** Every 16-bit signed value is read back from its two bytes. */
  lemma SignedLE16RoundTrip(v: int)
    requires -0x8000 <= v < 0x8000
    ensures var u := v % 0x1_0000; SignedLE16(u % 256, u / 256) == v
  {
    var u := v % 0x1_0000;
    assert u % 256 + 256 * (u / 256) == u;
  }

  /** `x >> k` on a Python integer: division by 2^k rounded down, also for
      negative x. */
  function Shr(x: int, k: nat): int
  {
    x / Pow2(k)
  }

  lemma ShrFloor(x: int, k: nat)
    ensures Pow2(k) * Shr(x, k) <= x < Pow2(k) * (Shr(x, k) + 1)
  {
  }

  /** The reading in degrees (ds18b20.py:63-70): at resolution res the
      register is shifted right by 3 - res and divided by 2^(res + 1).
      Sixteen times the reading is never above the register and less than
      one resolution step below it. */
  function Temperature(reg: int, res: nat): (t: real)
    requires res < 4
    ensures (reg - Pow2(3 - res)) as real < 16.0 * t <= reg as real
    ensures res == 3 ==> 16.0 * t == reg as real
  {
    ShrScaled(reg, res);
    ShrFloor(reg, 3 - res);
    Shr(reg, 3 - res) as real / Pow2(res + 1) as real
  }

  /** Dividing the shifted register by 2^(res + 1) and multiplying by 16
      shifts it back up by 3 - res. */
  lemma ShrScaled(reg: int, res: nat)
    requires res < 4
    ensures 16.0 * (Shr(reg, 3 - res) as real / Pow2(res + 1) as real)
         == (Pow2(3 - res) * Shr(reg, 3 - res)) as real
  {
    assert Pow2(3 - res) * Pow2(res + 1) == 16 by {
      Pow2Add(3 - res, res + 1);
      assert Pow2(4) == 16;
    }
    Scale(Shr(reg, 3 - res), Pow2(3 - res), Pow2(res + 1));
  }

  /** Sixteen times the reading is the register rounded down to a multiple
      of 2^(3 - res): exact at 12 bits, the unused low bits dropped at
      lower resolutions. */
  lemma TemperatureExact(reg: int, res: nat)
    requires res < 4
    ensures var step := Pow2(3 - res);
            var m := step * Shr(reg, 3 - res);
            && 16.0 * Temperature(reg, res) == m as real
            && m <= reg < m + step
            && m % step == 0
  {
    var k := 3 - res;
    var q := Shr(reg, k);
    ShrFloor(reg, k);
    ShrScaled(reg, res);
    assert (Pow2(k) * q) % Pow2(k) == 0 by {
      DivUnique(Pow2(k) * q, Pow2(k), q, 0);
    }
  }

  /** Dividing by b and multiplying by a * b is multiplying by a. */
  lemma Scale(q: int, a: nat, b: nat)
    requires a * b == 16
    ensures 16.0 * (q as real / b as real) == (a * q) as real
  {
    assert b > 0;
    var x := q as real / b as real;
    assert x * b as real == q as real;
    assert (a as real) * (b as real) == 16.0;
    calc {
      16.0 * x;
      (a as real) * ((b as real) * x);
      (a as real) * (q as real);
    }
  }

  /** The CRC gate and the decoding (ds18b20.py:56-70): the data is
      rejected unless the CRC over all nine bytes is zero. */
  function Decode(data: seq<byte>, crc: seq<byte> -> byte): (r: Result<real>)
    requires |data| == ScratchpadLen
    ensures r.Err? <==> crc(data) != 0
    ensures r.Err? ==> r.error == CrcCheckFailed
  {
    if crc(data) != 0 then Err(CrcCheckFailed)
    else Ok(Temperature(SignedLE16(data[0], data[1]), Resolution(data[4])))
  }

  /** A reading that passes the CRC gate is sixteenths of a degree of the
      signed register held in the first two bytes, rounded down to the
      resolution the configuration byte selects. */
  lemma DecodeValue(data: seq<byte>, crc: seq<byte> -> byte)
    requires |data| == ScratchpadLen && crc(data) == 0
    ensures Decode(data, crc).Ok?
    ensures var reg := SignedLE16(data[0], data[1]);
            var res := Resolution(data[4]);
            var step := Pow2(3 - res);
            var m := step * Shr(reg, 3 - res);
            && 16.0 * Decode(data, crc).value == m as real
            && m <= reg < m + step
            && m % step == 0
  {
    var reg := SignedLE16(data[0], data[1]);
    var res := Resolution(data[4]);
    assert Decode(data, crc).value == Temperature(reg, res);
    TemperatureExact(reg, res);
  }

  /** Address and Convert T (ds18b20.py:41-42). */
  function ConvertOps(rom: Target): seq<WireOp>
    requires !rom.Unreadable?
  {
    AddressOps(rom) + BytesOps([ConvertCmd])
  }

  /** Address and Read Scratchpad, the writes before the nine bytes are
      read (ds18b20.py:50-51). */
  function RequestOps(rom: Target): seq<WireOp>
    requires !rom.Unreadable?
  {
    AddressOps(rom) + BytesOps([ReadScratchpadCmd])
  }

  /** The reset and the request, all a fetch writes before its read. */
  function FetchFailOps(rom: Target): seq<WireOp>
    requires !rom.Unreadable?
  {
    [ResetOp] + RequestOps(rom)
  }

  /** A reset, the request and nine bytes read (ds18b20.py:48-53). */
  function FetchOps(rom: Target): seq<WireOp>
    requires !rom.Unreadable?
  {
    FetchFailOps(rom) + ReadOps(8 * ScratchpadLen)
  }

  /** ds18b20.py:48-53: a reset whose answer is not looked at, address,
      Read Scratchpad, nine bytes. A failing step leaves the master as the
      steps before it left it. */
  function Fetch(e: Engine, rom: Target): (o: Outcome<seq<byte>, Engine>)
    ensures o.result.Ok? <==> !rom.Unreadable? && 4 + 16 * ScratchpadLen <= |e.input|
    ensures o.result.Err? ==> o.result.error == BadHexString || o.result.error == ReadTimeout
    ensures o.result.Err? && !rom.Unreadable? ==> o.result.error == ReadTimeout
    ensures o.result.Ok? ==> o.result.value == SampledBytes(e.cfg.pin, e.input[4..], ScratchpadLen)
    ensures o.result.Ok? ==> o.state.input == e.input[4 + 16 * ScratchpadLen..]
    ensures o.result.Err? && |e.input| < 4 ==> o.state == e
    ensures o.result.Err? && 4 <= |e.input| && rom.Unreadable? ==>
      Effect(e, o.state, [ResetOp]) && o.state.input == e.input[4..]
    ensures o.result.Err? && 4 <= |e.input| && !rom.Unreadable? ==>
      Effect(e, o.state, FetchFailOps(rom)) && o.state.input == e.input[4..]
  {
    match Reset(e)
    case Err(x) => Outcome(Err(x), e)
    case Ok((_, e1)) =>
      match Command(e1, rom, [ReadScratchpadCmd])
      case Err(x) => Outcome(Err(x), e1)
      case Ok(e2) =>
        CommandEffect(e1, rom, [ReadScratchpadCmd]);
        EffectChain(e, e1, e2, [ResetOp], RequestOps(rom));
        match ReadBytes(e2, ScratchpadLen)
        case Err(x) => Outcome(Err(x), e2)
        case Ok((data, e3)) =>
          DropDrop(e.input, 4, 16 * ScratchpadLen);
          Outcome(Ok(data), e3)
  }

  lemma FetchEffect(e: Engine, rom: Target)
    requires !rom.Unreadable? && 4 + 16 * ScratchpadLen <= |e.input|
    ensures Effect(e, Fetch(e, rom).state, FetchOps(rom))
  {
    var e1 := Reset(e).value.1;
    var e2 := Command(e1, rom, [ReadScratchpadCmd]).value;
    CommandEffect(e1, rom, [ReadScratchpadCmd]);
    EffectChain(e, e1, e2, [ResetOp], RequestOps(rom));
    ReadBytesEffect(e2, ScratchpadLen);
    EffectChain(e, e2, ReadBytes(e2, ScratchpadLen).value.1, FetchFailOps(rom),
                ReadOps(8 * ScratchpadLen));
  }

  /** The measurement after the presence check (ds18b20.py:41-53), without
      the one-second wait: address and Convert T, then the fetch. Text
      that is not hex fails first, before anything is written. */
  function Measure(e: Engine, rom: Target): (o: Outcome<seq<byte>, Engine>)
    ensures o.result.Ok? <==> !rom.Unreadable? && 4 + 16 * ScratchpadLen <= |e.input|
    ensures o.result.Err? ==> (o.result.error == BadHexString <==> rom.Unreadable?)
    ensures o.result.Err? ==> o.result.error == BadHexString || o.result.error == ReadTimeout
    ensures o.result.Ok? ==> o.result.value == SampledBytes(e.cfg.pin, e.input[4..], ScratchpadLen)
    ensures o.result.Ok? ==> o.state.input == e.input[4 + 16 * ScratchpadLen..]
    ensures rom.Unreadable? ==> o.state == e
    ensures o.result.Err? && !rom.Unreadable? && |e.input| < 4 ==>
      Effect(e, o.state, ConvertOps(rom)) && o.state.input == e.input
    ensures o.result.Err? && !rom.Unreadable? && 4 <= |e.input| ==>
      Effect(e, o.state, ConvertOps(rom) + FetchFailOps(rom)) && o.state.input == e.input[4..]
  {
    match Command(e, rom, [ConvertCmd])
    case Err(x) => Outcome(Err(x), e)
    case Ok(e1) =>
      MeasureFailed(e, e1, rom);
      Fetch(e1, rom)
  }

  /** The effects of a fetch that failed after Convert T. */
  lemma MeasureFailed(e: Engine, e1: Engine, rom: Target)
    requires Command(e, rom, [ConvertCmd]) == Ok(e1)
    ensures !rom.Unreadable? && e1.input == e.input && e1.cfg == e.cfg
    ensures Fetch(e1, rom).result.Err? && |e.input| < 4 ==> Effect(e, Fetch(e1, rom).state, ConvertOps(rom))
    ensures Fetch(e1, rom).result.Err? && 4 <= |e.input| ==>
      Effect(e, Fetch(e1, rom).state, ConvertOps(rom) + FetchFailOps(rom))
  {
    CommandEffect(e, rom, [ConvertCmd]);
    var f := Fetch(e1, rom);
    if f.result.Err? {
      if |e.input| < 4 {
        EffectNone(e1);
        EffectChain(e, e1, f.state, ConvertOps(rom), []);
        assert ConvertOps(rom) + [] == ConvertOps(rom);
      } else {
        EffectChain(e, e1, f.state, ConvertOps(rom), FetchFailOps(rom));
      }
    }
  }

  lemma MeasureEffect(e: Engine, rom: Target)
    requires !rom.Unreadable? && 4 + 16 * ScratchpadLen <= |e.input|
    ensures Effect(e, Measure(e, rom).state, ConvertOps(rom) + FetchOps(rom))
  {
    var e1 := Command(e, rom, [ConvertCmd]).value;
    CommandEffect(e, rom, [ConvertCmd]);
    FetchEffect(e1, rom);
    EffectChain(e, e1, Fetch(e1, rom).state, ConvertOps(rom), FetchOps(rom));
  }

  /** The bus part of get_temp (ds18b20.py:36-53): a reset that sees no
      presence raises "No Device"; after that the measurement. The state
      is the master after the operations performed before a failure. */
  function Reading(e: Engine, rom: Target): (o: Outcome<seq<byte>, Engine>)
    ensures o.result.Err? ==>
      o.result.error == ReadTimeout || o.result.error == NoDevice || o.result.error == BadHexString
    ensures o.result == Err(NoDevice) <==> 4 <= |e.input| && e.input[..4] == NoPresence
    ensures o.result == Err(NoDevice) ==> Effect(e, o.state, [ResetOp])
    ensures o.result == Err(BadHexString) <==> 4 <= |e.input| && e.input[..4] != NoPresence && rom.Unreadable?
    ensures o.result == Err(BadHexString) ==> Effect(e, o.state, [ResetOp])
    ensures o.result.Ok? ==> !rom.Unreadable? && 8 + 16 * ScratchpadLen <= |e.input|
    ensures o.result == Err(ReadTimeout) && |e.input| < 4 ==> o.state == e
    ensures o.result == Err(ReadTimeout) && 4 <= |e.input| ==> e.input[..4] != NoPresence && !rom.Unreadable?
    ensures o.result == Err(ReadTimeout) && 4 <= |e.input| < 8 && !rom.Unreadable? ==>
      Effect(e, o.state, [ResetOp] + ConvertOps(rom)) && o.state.input == e.input[4..]
    ensures o.result == Err(ReadTimeout) && 8 <= |e.input| && !rom.Unreadable? ==>
      Effect(e, o.state, [ResetOp] + (ConvertOps(rom) + FetchFailOps(rom)))
      && o.state.input == e.input[8..]
  {
    match Reset(e)
    case Err(x) => Outcome(Err(x), e)
    case Ok((present, e1)) =>
      if !present then Outcome(Err(NoDevice), e1)
      else
        var m := Measure(e1, rom);
        assert |e1.input| == |e.input| - 4;
        if m.result.Err? && !rom.Unreadable? then
          ReadingFailed(e, e1, m.state, rom);
          m
        else m
  }

  /** The effects of a measurement that timed out, after the first reset. */
  lemma ReadingFailed(e: Engine, e1: Engine, e2: Engine, rom: Target)
    requires !rom.Unreadable? && 4 <= |e.input|
    requires Effect(e, e1, [ResetOp]) && e1.input == e.input[4..]
    requires Measure(e1, rom).result.Err? && e2 == Measure(e1, rom).state
    ensures |e.input| < 8 ==> Effect(e, e2, [ResetOp] + ConvertOps(rom)) && e2.input == e.input[4..]
    ensures 8 <= |e.input| ==>
      Effect(e, e2, [ResetOp] + (ConvertOps(rom) + FetchFailOps(rom))) && e2.input == e.input[8..]
  {
    if |e.input| < 8 {
      EffectChain(e, e1, e2, [ResetOp], ConvertOps(rom));
    } else {
      EffectChain(e, e1, e2, [ResetOp], ConvertOps(rom) + FetchFailOps(rom));
      DropDrop(e.input, 4, 4);
    }
  }

  /** A successful reading is a reset that saw a device, then a
      successful measurement from the engine it left. */
  lemma ReadingUnfold(e: Engine, rom: Target) returns (e1: Engine)
    requires Reading(e, rom).result.Ok?
    ensures Reset(e) == Ok((true, e1)) && Measure(e1, rom).result.Ok?
    ensures Reading(e, rom) == Measure(e1, rom)
  {
    e1 := Reset(e).value.1;
  }

  /** The bytes of a successful reading: a device answered the first reset,
      and the nine bytes are those sampled after the second reset. */
  lemma ReadingData(e: Engine, rom: Target)
    requires Reading(e, rom).result.Ok?
    ensures e.input[..4] != NoPresence
    ensures Reading(e, rom).result.value == SampledBytes(e.cfg.pin, e.input[8..], ScratchpadLen)
  {
    var e1 := ReadingUnfold(e, rom);
    assert e1.input == e.input[4..] && e1.cfg == e.cfg;
    DropDrop(e.input, 4, 4);
  }

  /** What a successful reading put on the wire: reset, address, Convert T,
      reset, address, Read Scratchpad and nine byte reads; and the input it
      consumed. */
  lemma ReadingEffect(e: Engine, rom: Target)
    requires Reading(e, rom).result.Ok?
    ensures !rom.Unreadable?
    ensures var o := Reading(e, rom);
            && Effect(e, o.state, [ResetOp] + (ConvertOps(rom) + FetchOps(rom)))
            && o.state.input == e.input[8 + 16 * ScratchpadLen..]
  {
    var e1 := ReadingUnfold(e, rom);
    var e2 := Measure(e1, rom).state;
    MeasureEffect(e1, rom);
    EffectChain(e, e1, e2, [ResetOp], ConvertOps(rom) + FetchOps(rom));
    DropDrop(e.input, 4, 4 + 16 * ScratchpadLen);
  }

  /** get_temp (ds18b20.py:33-75): the reading, then the CRC gate and the
      decoding, which touch the bus no further. rom is the sensor's ROM
      argument as address_rom resolves it. A returned temperature decodes
      the nine bytes sampled after the second reset, which passed the CRC. */
  function GetTemp(e: Engine, rom: Target, crc: seq<byte> -> byte): (o: Outcome<real, Engine>)
    ensures o.state == Reading(e, rom).state
    ensures o.result.Err? ==>
      || o.result.error == ReadTimeout || o.result.error == NoDevice
      || o.result.error == BadHexString || o.result.error == CrcCheckFailed
    ensures o.result == Err(NoDevice) <==> 4 <= |e.input| && e.input[..4] == NoPresence
    ensures o.result == Err(BadHexString) <==> 4 <= |e.input| && e.input[..4] != NoPresence && rom.Unreadable?
    ensures o.result.Ok? || o.result == Err(CrcCheckFailed) ==>
      && 8 + 16 * ScratchpadLen <= |e.input| && e.input[..4] != NoPresence && !rom.Unreadable?
      && var data := SampledBytes(e.cfg.pin, e.input[8..], ScratchpadLen);
         && (o.result.Ok? <==> crc(data) == 0)
         && (o.result.Ok? ==> o.result.value == Temperature(SignedLE16(data[0], data[1]), Resolution(data[4])))
  {
    var r := Reading(e, rom);
    match r.result
    case Err(x) => Outcome(Err(x), r.state)
    case Ok(data) =>
      ReadingData(e, rom);
      Outcome(Decode(data, crc), r.state)
  }

  /** No device at the first reset: "No Device" is raised and only the
      reset was performed, no byte written. */
  lemma GetTempNoDevice(e: Engine, rom: Target, crc: seq<byte> -> byte)
    requires 4 <= |e.input| && e.input[..4] == NoPresence
    ensures GetTemp(e, rom, crc).result == Err(NoDevice)
    ensures Effect(e, GetTemp(e, rom, crc).state, [ResetOp])
  {
  }

  /** ROM text that is not hex fails after the first reset, before any
      byte is written. */
  lemma GetTempBadRom(e: Engine, rom: Target, crc: seq<byte> -> byte)
    requires GetTemp(e, rom, crc).result == Err(BadHexString)
    ensures rom.Unreadable?
    ensures Effect(e, GetTemp(e, rom, crc).state, [ResetOp])
  {
  }
}
