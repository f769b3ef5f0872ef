/** The two GPIO masks of the engine's sixteen pins and the commands that
    load them into the MPSSE (w1ftdi.py:189-216). A mask is kept as its
    sixteen bits, least significant first, so it can never leave 0..0xFFFF. */
module Gpio {
  import opened Types

  const SetLowBytesOp: byte := 0x80
  const SetHighBytesOp: byte := 0x82

  type Mask = m: seq<bit> | |m| == 16 witness seq(16, _ => 0)

  /** Output levels and pin directions (1 = output). */
  datatype Gpio = Gpio(level: Mask, direction: Mask)

  /** Every bit low. */
  function Zeros(): Mask
  {
    seq(16, k requires 0 <= k < 16 => 0)
  }

  const Cleared: Gpio := Gpio(Zeros(), Zeros())

  /** `(1 << pin) & 0xFFFF`: only the pin's bit, or no bit for a pin past 15. */
  function PinMask(pin: nat): Mask
  {
    seq(16, k requires 0 <= k < 16 => if k == pin then 1 else 0)
  }

  function Or(x: Mask, y: Mask): Mask
  {
    seq(16, k requires 0 <= k < 16 => if x[k] == 1 || y[k] == 1 then 1 else 0)
  }

  function And(x: Mask, y: Mask): Mask
  {
    seq(16, k requires 0 <= k < 16 => if x[k] == 1 && y[k] == 1 then 1 else 0)
  }

  /** `~x & 0xFFFF`. */
  function Not(x: Mask): Mask
  {
    seq(16, k requires 0 <= k < 16 => 1 - x[k])
  }

  /** set_pin (w1ftdi.py:207-216): `out` sets the pin's direction bit and
      `!out` clears it; `!high` clears the pin's level bit, while `high`
      raises every level bit EXCEPT the pin's and leaves the pin's as it was.
      No other bit moves. */
  function SetPin(g: Gpio, pin: nat, out: bool, high: bool): (r: Gpio)
    ensures pin < 16 ==> (r.direction[pin] == 1 <==> out)
    ensures pin < 16 ==> (r.level[pin] == 1 <==> high && g.level[pin] == 1)
    ensures forall k | 0 <= k < 16 && k != pin ::
      && r.direction[k] == g.direction[k]
      && (r.level[k] == 1 <==> high || g.level[k] == 1)
  {
    Gpio(
      if high then Or(g.level, Not(PinMask(pin))) else And(g.level, Not(PinMask(pin))),
      if out then Or(g.direction, PinMask(pin)) else And(g.direction, Not(PinMask(pin))))
  }

  /** The value of a mask as the 16-bit integer the Python code holds:
      bit k of the integer is bit k of the mask. */
  function Value(m: Mask): (v: nat)
    ensures v < 0x1_0000
    ensures forall k | 0 <= k < 16 :: BitAt(v, k) == m[k]
  {
    MaskBits(m);
    Pow2Table();
    BitsValue(m)
  }

  lemma MaskBits(m: Mask)
    ensures forall k | 0 <= k < 16 :: BitAt(BitsValue(m), k) == m[k]
  {
    BitsOfValue(m);
    forall k | 0 <= k < 16
      ensures BitAt(BitsValue(m), k) == m[k]
    {
      BitsOfAt(BitsValue(m), 16, k);
    }
  }

  /** get_gpio (w1ftdi.py:191-199): the low-byte command then the high-byte
      command, each carrying that byte of the level mask and then of the
      direction mask; each pair of data bytes reassembles its mask. */
  function GetGpio(g: Gpio): (cmd: seq<byte>)
    ensures |cmd| == 6 && cmd[0] == SetLowBytesOp && cmd[3] == SetHighBytesOp
    ensures cmd[1] as int + 256 * cmd[4] as int == Value(g.level)
    ensures cmd[2] as int + 256 * cmd[5] as int == Value(g.direction)
  {
    SplitMask(g.level);
    SplitMask(g.direction);
    var levelLow: byte, levelHigh: byte := BitsValue(g.level[..8]), BitsValue(g.level[8..]);
    var dirLow: byte, dirHigh: byte := BitsValue(g.direction[..8]), BitsValue(g.direction[8..]);
    [SetLowBytesOp, levelLow, dirLow, SetHighBytesOp, levelHigh, dirHigh]
  }

  /** The command determines the masks: two GPIO states that load the same
      bytes are the same state. */
  lemma GetGpioDetermines(g: Gpio, h: Gpio)
    requires GetGpio(g) == GetGpio(h)
    ensures g == h
  {
    var cg, ch := GetGpio(g), GetGpio(h);
    assert Value(g.level) == Value(h.level);
    assert Value(g.direction) == Value(h.direction);
    assert forall k | 0 <= k < 16 :: g.level[k] == BitAt(Value(g.level), k) == h.level[k];
    assert forall k | 0 <= k < 16 :: g.direction[k] == BitAt(Value(g.direction), k) == h.direction[k];
  }

  lemma SplitMask(m: Mask)
    ensures BitsValue(m[..8]) < 256 && BitsValue(m[8..]) < 256
    ensures BitsValue(m[..8]) + 256 * BitsValue(m[8..]) == Value(m)
  {
    Pow2Table();
    BitsValueAppend(m[..8], m[8..]);
    assert m[..8] + m[8..] == m;
  }
}
