/** The FTDI MPSSE commands the 1-Wire master is built from: the clock
    divisor command that times every interval, the GPIO masks that drive or
    release the data pin, and the table of interval commands A..J. */
module Mpsse {
  import opened Types

  /** Base clock of the engine once divide-by-5 is off, in Hz. */
  const BaseClock: real := 30000000.0

  const SetClockOp: byte := 0x86

  /** One clock pulse, the engine's unit of delay (w1ftdi.py:49-50). */
  const PulseClock: seq<byte> := [0x8E, 0x01]

  /** Sample both GPIO bytes into the read queue (w1ftdi.py:53). */
  const ReadGpio: seq<byte> := [0x81, 0x83]

  /** Smallest integer not below x. */
  function Ceil(x: real): (c: int)
    ensures x <= c as real < x + 1.0
  {
    -((-x).Floor)
  }

  /** Divisor that makes the engine's clock run at `freq`: the ceiling of
      (BaseClock - freq) / freq, wrapped to 16 bits like `& 0xFFFF`. */
  function Divisor(freq: real): (d: int)
    requires freq != 0.0
    ensures 0 <= d < 0x1_0000
    ensures (d - Ceil((BaseClock - freq) / freq)) % 0x1_0000 == 0
  {
    Ceil((BaseClock - freq) / freq) % 0x1_0000
  }

  /** The 3-byte clock divisor command for `freq`: opcode, then the divisor
      low byte first. */
  function SetClock(freq: real): (cmd: seq<byte>)
    requires freq != 0.0
    ensures |cmd| == 3 && cmd[0] == SetClockOp
    ensures cmd[1] as int + 256 * cmd[2] as int == Divisor(freq)
  {
    var d := Divisor(freq);
    SplitWord(d);
    [SetClockOp, d % 256, (d / 256) % 256]
  }

  /** Clock command whose period makes one pulse last `seconds`: full speed
      for zero, otherwise a frequency of two ticks per interval. */
  function GetDelay(seconds: real): (cmd: seq<byte>)
    ensures |cmd| == 3 && cmd[0] == SetClockOp
    ensures seconds == 0.0 ==> cmd == [SetClockOp, 0, 0]
    ensures seconds != 0.0 ==>
      (cmd[1] as int + 256 * cmd[2] as int - Ceil(BaseClock * seconds / 2.0 - 1.0)) % 0x1_0000 == 0
  {
    if seconds == 0.0 then
      ZeroDivisor();
      SetClock(BaseClock)
    else
      var freq := 2.0 / seconds;
      assert (BaseClock - freq) / freq == BaseClock * seconds / 2.0 - 1.0 by {
        assert freq * seconds == 2.0;
        assert BaseClock / freq == BaseClock * seconds / 2.0;
      }
      SetClock(freq)
  }

  lemma ZeroDivisor()
    ensures Divisor(BaseClock) == 0
  {
    assert (BaseClock - BaseClock) / BaseClock == 0.0;
  }

  /** The ten delay commands, named after the intervals A..J of the standard
      speed 1-Wire timing table (w1ftdi.py:34-43). */
  datatype Timing = Timing(
    a: seq<byte>, b: seq<byte>, c: seq<byte>, d: seq<byte>, e: seq<byte>,
    f: seq<byte>, g: seq<byte>, h: seq<byte>, i: seq<byte>, j: seq<byte>)

  predicate IsClockCmd(cmd: seq<byte>)
  {
    |cmd| == 3 && cmd[0] == SetClockOp
  }

  /** What the protocol needs of a table: every entry is a clock command, and
      the interval that starts a 1 bit (A) differs from the one that starts a
      0 bit (C), so the two write slots are distinguishable on the wire. */
  predicate ValidTiming(t: Timing)
  {
    && IsClockCmd(t.a) && IsClockCmd(t.b) && IsClockCmd(t.c) && IsClockCmd(t.d)
    && IsClockCmd(t.e) && IsClockCmd(t.f) && IsClockCmd(t.g) && IsClockCmd(t.h)
    && IsClockCmd(t.i) && IsClockCmd(t.j)
    && t.a != t.c
  }

  /** The table computed with exact arithmetic from the interval lengths the
      constructor passes to _get_delay. */
  function StandardTiming(): Timing
  {
    Timing(
      GetDelay(0.000006), GetDelay(0.000064), GetDelay(0.000060),
      GetDelay(0.000010), GetDelay(0.000009), GetDelay(0.000055),
      GetDelay(0.0), GetDelay(0.000480), GetDelay(0.000070),
      GetDelay(0.000410))
  }

  /** With exact arithmetic every interval is a whole number of ticks, and the
      divisors are 15e6 * seconds - 1: 89, 959, 899, 149, 134, 824, 0, 7199,
      1049, 6149. */
  lemma StandardTimingValues()
    ensures StandardTiming() == Timing(
      [0x86, 89, 0], [0x86, 191, 3], [0x86, 131, 3], [0x86, 149, 0],
      [0x86, 134, 0], [0x86, 56, 3], [0x86, 0, 0], [0x86, 31, 28],
      [0x86, 25, 4], [0x86, 5, 24])
  {
    DelayValue(0.000006, 89);
    DelayValue(0.000064, 959);
    DelayValue(0.000060, 899);
    DelayValue(0.000010, 149);
    DelayValue(0.000009, 134);
    DelayValue(0.000055, 824);
    DelayValue(0.000480, 7199);
    DelayValue(0.000070, 1049);
    DelayValue(0.000410, 6149);
  }

  /** The standard table is one the bus operations accept: ten clock
      commands, the write-1 low time differing from the write-0 low time. */
  lemma StandardTimingValid()
    ensures ValidTiming(StandardTiming())
  {
    DelayValue(0.000006, 89);
    DelayValue(0.000060, 899);
  }

  lemma DelayValue(seconds: real, d: nat)
    requires seconds != 0.0 && d < 0x1_0000
    requires BaseClock * seconds / 2.0 - 1.0 == d as real
    ensures GetDelay(seconds) == [SetClockOp, d % 256, d / 256]
  {
    var cmd := GetDelay(seconds);
    assert Ceil(d as real) == d;
    assert (cmd[1] as int + 256 * cmd[2] as int - d) % 0x1_0000 == 0;
    assert cmd[1] as int + 256 * cmd[2] as int == d;
  }


  /** A 16-bit word is its low byte plus 256 times its high byte. */
  lemma SplitWord(w: int)
    requires 0 <= w < 0x1_0000
    ensures w / 256 < 256
    ensures w % 256 + 256 * (w / 256) == w
  {
  }

}
