/** The bit-banged 1-Wire master of w1ftdi.py: reset, bit and byte slots
    built from MPSSE commands, and the decoding of the sampled GPIO bytes.
    The bus answers through `input`, the bytes the engine would read back,
    consumed in order; running out of them is the read timeout. */
module OneWire {
  import opened Types
  import opened Mpsse
  import opened Gpio
  import opened Transport

  /** What the constructor fixes: the interval table, the data pin and the
      two precomputed GPIO commands `low` (drive the pin low) and `high`
      (release it). */
  datatype Config = Config(timing: Timing, pin: nat, low: seq<byte>, high: seq<byte>)

  /** The master: its configuration and masks, the port it started from,
      the operations it has performed on the wire since, in order, and the
      sampled bytes still to be read. */
  datatype Engine = Engine(cfg: Config, gpio: Gpio, base: Port, trace: seq<WireOp>, input: seq<byte>)

  /** The constructor without its USB and kernel-module steps
      (w1ftdi.py:23-59): `low` makes the data pin the only output with every
      level low; `high` makes every pin an input and raises every level but
      the data pin's. */
  function Init(pin: nat, timing: Timing, input: seq<byte>): (e: Engine)
    ensures PortOf(e) == Initial && e.trace == [] && e.input == input
    ensures e.cfg.timing == timing && e.cfg.pin == pin
    ensures e.cfg.low == GetGpio(Gpio(Cleared.level, PinMask(pin)))
    ensures e.cfg.high == GetGpio(Gpio(Not(PinMask(pin)), Cleared.direction))
    ensures e.gpio == Gpio(Not(PinMask(pin)), Cleared.direction)
  {
    InitMasks(pin);
    Engine(Config(timing, pin, GetGpio(SetPin(Cleared, pin, true, false)),
                  GetGpio(SetPin(SetPin(Cleared, pin, true, false), pin, false, true))),
           SetPin(SetPin(Cleared, pin, true, false), pin, false, true), Initial, [], input)
  }

  /** The two set_pin calls of the constructor, starting from cleared masks. */
  lemma InitMasks(pin: nat)
    ensures SetPin(Cleared, pin, true, false) == Gpio(Cleared.level, PinMask(pin))
    ensures SetPin(Gpio(Cleared.level, PinMask(pin)), pin, false, true)
         == Gpio(Not(PinMask(pin)), Cleared.direction)
  {
    var driven := SetPin(Cleared, pin, true, false);
    assert driven.level == Cleared.level;
    assert driven.direction == PinMask(pin);
    var released := SetPin(driven, pin, false, true);
    assert released.level == Not(PinMask(pin));
    assert released.direction == Cleared.direction;
  }

  /** Reset slot (w1ftdi.py:227-228): low for H, release, wait I, sample,
      wait J, sample. */
  function ResetCmd(c: Config): seq<byte>
  {
    c.timing.h + c.low + PulseClock + c.high + c.timing.i + PulseClock + ReadGpio
      + c.timing.j + PulseClock + ReadGpio
  }

  /** Write slot (w1ftdi.py:243-246): low for A then released for B to send
      a 1; low for C then released for D to send a 0. */
  function WriteBitCmd(c: Config, b: bit): seq<byte>
  {
    if b == 1 then c.timing.a + c.low + PulseClock + c.high + c.timing.b + PulseClock
    else c.timing.c + c.low + PulseClock + c.high + c.timing.d + PulseClock
  }

  /** Read slot (w1ftdi.py:252-253): low for A, release, wait E, sample,
      wait F. */
  function ReadBitCmd(c: Config): seq<byte>
  {
    c.timing.a + c.low + PulseClock + c.high + c.timing.e + PulseClock + ReadGpio
      + c.timing.f + PulseClock
  }

  /** The bus-level operations; each one is a single _write call, or one
      call into an operation the base class does not define. */
  datatype WireOp = ResetOp | WriteBitOp(b: bit) | ReadBitOp | CallOp(op: ExtOp)

  function OpXfer(c: Config, op: WireOp): Xfer
  {
    match op
    case ResetOp => Send(ResetCmd(c))
    case WriteBitOp(b) => Send(WriteBitCmd(c, b))
    case ReadBitOp => Send(ReadBitCmd(c))
    case CallOp(x) => Call(x)
  }

  /** What a sequence of operations hands to _write, in order. */
  function Emit(c: Config, ops: seq<WireOp>): (xs: seq<Xfer>)
    ensures |xs| == |ops|
  {
    seq(|ops|, k requires 0 <= k < |ops| => OpXfer(c, ops[k]))
  }

  lemma EmitAppend(c: Config, a: seq<WireOp>, b: seq<WireOp>)
    ensures Emit(c, a + b) == Emit(c, a) + Emit(c, b)
  {
  }

  /** The transport state after every operation performed so far: each
      one handed to _write (or called) in turn, starting from the base
      port. */
  function PortOf(e: Engine): Port
  {
    Apply(e.base, Emit(e.cfg, e.trace))
  }

  /** One more operation on the wire. */
  function Perform(e: Engine, op: WireOp): Engine
  {
    e.(trace := e.trace + [op])
  }

  /** Performing an operation is one _write of its command (or the call)
      on the port as it stood. */
  lemma PerformPort(e: Engine, op: WireOp)
    ensures PortOf(Perform(e, op)) == Step(PortOf(e), OpXfer(e.cfg, op))
  {
    EmitAppend(e.cfg, e.trace, [op]);
    ApplyAppend(e.base, Emit(e.cfg, e.trace), Emit(e.cfg, [op]));
    assert Emit(e.cfg, [op]) == [OpXfer(e.cfg, op)];
  }

  /** e2 is e after performing ops on the wire: the same configuration,
      masks and base port, and ops added to the trace. How far the sampled
      input advances each operation states itself. */
  predicate Effect(e: Engine, e2: Engine, ops: seq<WireOp>)
  {
    e2 == e.(trace := e.trace + ops, input := e2.input)
  }

  /** On the transport, the operations go out after everything before. */
  lemma EffectPort(e: Engine, e2: Engine, ops: seq<WireOp>)
    requires Effect(e, e2, ops)
    ensures PortOf(e2) == Apply(PortOf(e), Emit(e.cfg, ops))
  {
    EmitAppend(e.cfg, e.trace, ops);
    ApplyAppend(e.base, Emit(e.cfg, e.trace), Emit(e.cfg, ops));
  }

  lemma EffectNone(e: Engine)
    ensures Effect(e, e, [])
  {
    assert e.trace + [] == e.trace;
  }

  lemma EffectChain(e1: Engine, e2: Engine, e3: Engine, a: seq<WireOp>, b: seq<WireOp>)
    requires Effect(e1, e2, a) && Effect(e2, e3, b)
    ensures Effect(e1, e3, a + b)
  {
    assert e1.trace + a + b == e1.trace + (a + b);
  }

  lemma ReadsChain(e1: Engine, e2: Engine, e3: Engine, m: nat, n: nat, total: nat)
    requires Effect(e1, e2, ReadOps(m)) && Effect(e2, e3, ReadOps(n)) && total == m + n
    ensures Effect(e1, e3, ReadOps(total))
  {
    ReadOpsAppend(m, n);
    EffectChain(e1, e2, e3, ReadOps(m), ReadOps(n));
  }

  lemma EffectOne(e: Engine, op: WireOp, input: seq<byte>)
    ensures Effect(e, Perform(e, op).(input := input), [op])
  {
  }

  /** _read(n): the next n sampled bytes, or the timeout when the bus has
      fewer to give. */
  function Take(e: Engine, n: nat): (r: Result<(seq<byte>, Engine)>)
    ensures r.Ok? <==> n <= |e.input|
    ensures r.Err? ==> r.error == ReadTimeout
    ensures r.Ok? ==> r.value.0 == e.input[..n] && r.value.1 == e.(input := e.input[n..])
  {
    if n <= |e.input| then Ok((e.input[..n], e.(input := e.input[n..]))) else Err(ReadTimeout)
  }

  /** The four samples a reset reads when nothing pulls the line low. */
  const NoPresence: seq<byte> := [0xFF, 0xFF, 0xFF, 0xFF]

  /** reset (w1ftdi.py:223-238): a device is present unless all four
      sampled bytes are 0xFF. */
  function Reset(e: Engine): (r: Result<(bool, Engine)>)
    ensures r.Ok? <==> |e.input| >= 4
    ensures r.Err? ==> r.error == ReadTimeout
    ensures r.Ok? ==> (r.value.0 <==> e.input[..4] != NoPresence)
    ensures r.Ok? ==> Effect(e, r.value.1, [ResetOp]) && r.value.1.input == e.input[4..]
  {
    var sent := Perform(e, ResetOp);
    var got :- Take(sent, 4);
    EffectOne(e, ResetOp, e.input[4..]);
    Ok((got.0 != NoPresence, got.1))
  }

  /** write_bit (w1ftdi.py:241-248). */
  function WriteBit(e: Engine, b: bit): (r: Engine)
    ensures Effect(e, r, [WriteBitOp(b)]) && r.input == e.input
  {
    EffectOne(e, WriteBitOp(b), e.input);
    Perform(e, WriteBitOp(b))
  }

  /** The data pin's level in a 16-bit sample read low byte first:
      `(word >> pin) & 1` (w1ftdi.py:257). */
  function PinLevel(pin: nat, lo: byte, hi: byte): bit
  {
    BitAt(lo + 256 * hi, pin)
  }

  /** read_bit (w1ftdi.py:251-259): the data pin's level in the two bytes
      sampled by the read slot. */
  function ReadBit(e: Engine): (r: Result<(bit, Engine)>)
    ensures r.Ok? <==> |e.input| >= 2
    ensures r.Err? ==> r.error == ReadTimeout
    ensures r.Ok? ==> r.value.0 == PinLevel(e.cfg.pin, e.input[0], e.input[1])
    ensures r.Ok? ==> Effect(e, r.value.1, [ReadBitOp]) && r.value.1.input == e.input[2..]
  {
    var sent := Perform(e, ReadBitOp);
    var got :- Take(sent, 2);
    EffectOne(e, ReadBitOp, e.input[2..]);
    Ok((PinLevel(e.cfg.pin, got.0[0], got.0[1]), got.1))
  }

  /** One write slot per bit, in order. */
  function WriteBitOps(bits: seq<bit>): (ops: seq<WireOp>)
    ensures |ops| == |bits|
  {
    seq(|bits|, k requires 0 <= k < |bits| => WriteBitOp(bits[k]))
  }

  /** The eight write slots of one byte, least significant bit first. */
  function ByteOps(b: byte): seq<WireOp>
  {
    WriteBitOps(BitsOf(b, 8))
  }

  function BytesOps(bs: seq<byte>): seq<WireOp>
  {
    if |bs| == 0 then [] else ByteOps(bs[0]) + BytesOps(bs[1..])
  }

  /** n read slots. */
  function ReadOps(n: nat): (ops: seq<WireOp>)
    ensures |ops| == n
  {
    seq(n, k requires 0 <= k < n => ReadBitOp)
  }

  lemma ReadOpsAppend(m: nat, n: nat)
    ensures ReadOps(m + n) == ReadOps(m) + ReadOps(n)
  {
    assert forall k | 0 <= k < m + n :: ReadOps(m + n)[k] == (ReadOps(m) + ReadOps(n))[k];
  }

  /** Successive write_bit calls. */
  function WriteBits(e: Engine, bits: seq<bit>): (r: Engine)
    ensures Effect(e, r, WriteBitOps(bits)) && r.input == e.input
    decreases |bits|
  {
    if |bits| == 0 then e else
      var e1 := WriteBit(e, bits[0]);
      var e2 := WriteBits(e1, bits[1..]);
      EffectChain(e, e1, e2, [WriteBitOp(bits[0])], WriteBitOps(bits[1..]));
      assert [WriteBitOp(bits[0])] + WriteBitOps(bits[1..]) == WriteBitOps(bits);
      e2
  }

  /** write_byte (w1ftdi.py:262-266): one write slot per bit, least
      significant first. */
  function WriteByte(e: Engine, b: byte): (r: Engine)
    ensures Effect(e, r, ByteOps(b)) && r.input == e.input
  {
    WriteBits(e, BitsOf(b, 8))
  }

  /** write_bytes (w1ftdi.py:269-271). */
  function WriteBytes(e: Engine, bs: seq<byte>): (r: Engine)
    ensures Effect(e, r, BytesOps(bs)) && r.input == e.input
    decreases |bs|
  {
    if |bs| == 0 then e else
      var e1 := WriteByte(e, bs[0]);
      var e2 := WriteBytes(e1, bs[1..]);
      EffectChain(e, e1, e2, ByteOps(bs[0]), BytesOps(bs[1..]));
      e2
  }

  /** The bits of the first n read slots' samples, two bytes per slot. */
  function SampledBits(pin: nat, s: seq<byte>, n: nat): (bits: seq<bit>)
    requires 2 * n <= |s|
    ensures |bits| == n
    decreases |s|
  {
    if n == 0 then [] else [PinLevel(pin, s[0], s[1])] + SampledBits(pin, s[2..], n - 1)
  }

  /** The byte eight read slots assemble, bit i from slot i. */
  function SampledByte(pin: nat, s: seq<byte>): (b: byte)
    requires 16 <= |s|
  {
    Pow2Table();
    BitsValue(SampledBits(pin, s, 8))
  }

  /** The first n bytes assembled from the samples, sixteen per byte. */
  function SampledBytes(pin: nat, s: seq<byte>, n: nat): (bs: seq<byte>)
    requires 16 * n <= |s|
    ensures |bs| == n
    decreases |s|
  {
    if n == 0 then [] else [SampledByte(pin, s)] + SampledBytes(pin, s[16..], n - 1)
  }

  /** Samples past the ones decoded do not matter. */
  lemma {:induction false} SampledBitsPrefix(pin: nat, s: seq<byte>, t: seq<byte>, n: nat)
    requires 2 * n <= |s|
    ensures SampledBits(pin, s + t, n) == SampledBits(pin, s, n)
  {
    if n > 0 {
      assert (s + t)[2..] == s[2..] + t;
      SampledBitsPrefix(pin, s[2..], t, n - 1);
    }
  }

  lemma {:induction false} SampledBytesPrefix(pin: nat, s: seq<byte>, t: seq<byte>, n: nat)
    requires 16 * n <= |s|
    ensures SampledBytes(pin, s + t, n) == SampledBytes(pin, s, n)
  {
    if n > 0 {
      SampledBitsPrefix(pin, s, t, 8);
      assert (s + t)[16..] == s[16..] + t;
      SampledBytesPrefix(pin, s[16..], t, n - 1);
    }
  }

  /** read_bits (w1ftdi.py:290-294). */
  function ReadBits(e: Engine, n: nat): (r: Result<(seq<bit>, Engine)>)
    ensures r.Ok? <==> 2 * n <= |e.input|
    ensures r.Err? ==> r.error == ReadTimeout
    ensures r.Ok? ==> r.value.0 == SampledBits(e.cfg.pin, e.input, n)
    ensures r.Ok? ==> Effect(e, r.value.1, ReadOps(n)) && r.value.1.input == e.input[2 * n..]
    decreases |e.input|
  {
    if n == 0 then EffectNone(e); Ok(([], e)) else
      var first :- ReadBit(e);
      var rest :- ReadBits(first.1, n - 1);
      EffectChain(e, first.1, rest.1, [ReadBitOp], ReadOps(n - 1));
      assert [ReadBitOp] + ReadOps(n - 1) == ReadOps(n);
      Ok(([first.0] + rest.0, rest.1))
  }

  /** The loop of read_byte from slot i on (w1ftdi.py:275-278): `byte |=
      bit << i`, an addition since acc only has bits below i. */
  function ReadByteFrom(e: Engine, i: nat, acc: nat): (r: Result<(nat, Engine)>)
    requires i <= 8
    ensures r.Ok? <==> 2 * (8 - i) <= |e.input|
    ensures r.Err? ==> r.error == ReadTimeout
    ensures r.Ok? ==>
      r.value.0 == acc + Pow2(i) * BitsValue(SampledBits(e.cfg.pin, e.input, 8 - i))
    ensures r.Ok? ==> Effect(e, r.value.1, ReadOps(8 - i)) && r.value.1.input == e.input[2 * (8 - i)..]
    decreases |e.input|
  {
    if i == 8 then EffectNone(e); Ok((acc, e)) else
      var first :- ReadBit(e);
      var rest :- ReadByteFrom(first.1, i + 1, acc + first.0 * Pow2(i));
      EffectChain(e, first.1, rest.1, [ReadBitOp], ReadOps(8 - (i + 1)));
      assert [ReadBitOp] + ReadOps(8 - (i + 1)) == ReadOps(8 - i);
      ReadByteStep(e.cfg.pin, e.input, i, acc, first.0);
      Ok(rest)
  }

  lemma ReadByteStep(pin: nat, s: seq<byte>, i: nat, acc: nat, b: bit)
    requires i < 8 && 2 * (8 - i) <= |s|
    requires b == PinLevel(pin, s[0], s[1])
    ensures acc + b * Pow2(i) + Pow2(i + 1) * BitsValue(SampledBits(pin, s[2..], 8 - (i + 1)))
         == acc + Pow2(i) * BitsValue(SampledBits(pin, s, 8 - i))
  {
    var rest := SampledBits(pin, s[2..], 8 - (i + 1));
    assert SampledBits(pin, s, 8 - i) == [b] + rest;
    assert ([b] + rest)[1..] == rest;
    var v := BitsValue(rest);
    assert BitsValue([b] + rest) == b + 2 * v;
    Spread(Pow2(i), b, v);
  }

  lemma Spread(p: int, b: int, v: int)
    ensures b * p + (2 * p) * v == p * (b + 2 * v)
  {
  }

  /** read_byte (w1ftdi.py:274-280): eight read slots, bit i of the result
      from slot i. */
  function ReadByte(e: Engine): (r: Result<(byte, Engine)>)
    ensures r.Ok? <==> 16 <= |e.input|
    ensures r.Err? ==> r.error == ReadTimeout
    ensures r.Ok? ==> r.value.0 == SampledByte(e.cfg.pin, e.input)
    ensures r.Ok? ==> r.value.1.input == e.input[16..] && r.value.1.cfg == e.cfg
  {
    var got :- ReadByteFrom(e, 0, 0);
    Pow2Table();
    Ok((got.0 as byte, got.1))
  }

  lemma ReadByteEffect(e: Engine)
    requires 16 <= |e.input|
    ensures Effect(e, ReadByte(e).value.1, ReadOps(8))
  {
    var _ := ReadByteFrom(e, 0, 0);
  }

  /** read_bytes (w1ftdi.py:283-287). */
  function ReadBytes(e: Engine, n: nat): (r: Result<(seq<byte>, Engine)>)
    ensures r.Ok? <==> 16 * n <= |e.input|
    ensures r.Err? ==> r.error == ReadTimeout
    ensures r.Ok? ==> r.value.0 == SampledBytes(e.cfg.pin, e.input, n)
    ensures r.Ok? ==> r.value.1.input == e.input[16 * n..]
    decreases |e.input|
  {
    if n == 0 then EffectNone(e); Ok(([], e)) else
      var first :- ReadByte(e);
      var rest :- ReadBytes(first.1, n - 1);
      DropDrop(e.input, 16, 16 * (n - 1));
      Ok(([first.0] + rest.0, rest.1))
  }

  lemma {:induction false} ReadBytesEffect(e: Engine, n: nat)
    requires 16 * n <= |e.input|
    ensures Effect(e, ReadBytes(e, n).value.1, ReadOps(8 * n))
    decreases n
  {
    if n == 0 {
      EffectNone(e);
    } else {
      var e1 := ReadByte(e).value.1;
      var e2 := ReadBytes(e1, n - 1).value.1;
      assert ReadBytes(e, n).value.1 == e2;
      assert Effect(e, e2, ReadOps(8 * n)) by {
        ReadByteEffect(e);
        ReadBytesEffect(e1, n - 1);
        ReadsChain(e, e1, e2, 8, 8 * (n - 1), 8 * n);
      }
    }
  }

  /** The bit a transport write sends when it is one whole write slot, told
      apart by the interval that opens it. */
  function DecodeSlot(c: Config, x: Xfer): Option<bit>
  {
    if x == Send(WriteBitCmd(c, 1)) then Some(1)
    else if x == Send(WriteBitCmd(c, 0)) then Some(0)
    else None
  }

  function DecodeSlots(c: Config, xs: seq<Xfer>): Option<seq<bit>>
  {
    if |xs| == 0 then Some([])
    else match (DecodeSlot(c, xs[0]), DecodeSlots(c, xs[1..]))
      case (Some(b), Some(rest)) => Some([b] + rest)
      case _ => None
  }

  /** With a valid table the two write slots differ, since their first
      three bytes are the distinct commands A and C. */
  lemma SlotsDiffer(c: Config)
    requires ValidTiming(c.timing)
    ensures WriteBitCmd(c, 1) != WriteBitCmd(c, 0)
  {
    assert WriteBitCmd(c, 1)[..3] == c.timing.a;
    assert WriteBitCmd(c, 0)[..3] == c.timing.c;
  }

  lemma {:induction false} WrittenBitsDecode(c: Config, bits: seq<bit>)
    requires ValidTiming(c.timing)
    ensures DecodeSlots(c, Emit(c, WriteBitOps(bits))) == Some(bits)
  {
    SlotsDiffer(c);
    if |bits| > 0 {
      var xs := Emit(c, WriteBitOps(bits));
      assert xs[0] == Send(WriteBitCmd(c, bits[0]));
      assert xs[1..] == Emit(c, WriteBitOps(bits[1..]));
      WrittenBitsDecode(c, bits[1..]);
      assert [bits[0]] + bits[1..] == bits;
    }
  }

  /** What write_byte puts on the wire reads back as the byte: eight write
      slots whose i-th carries `(byte >> i) & 1`, and whose bits, least
      significant first, make the byte again. */
  lemma WrittenByteDecodes(c: Config, b: byte)
    requires ValidTiming(c.timing)
    ensures |ByteOps(b)| == 8
    ensures forall i | 0 <= i < 8 :: ByteOps(b)[i] == WriteBitOp(BitAt(b, i))
    ensures DecodeSlots(c, Emit(c, ByteOps(b))).Some?
    ensures BitsValue(DecodeSlots(c, Emit(c, ByteOps(b))).value) == b
  {
    WrittenBitsDecode(c, BitsOf(b, 8));
    Pow2Table();
    ValueOfBits(b, 8);
    forall i | 0 <= i < 8
      ensures ByteOps(b)[i] == WriteBitOp(BitAt(b, i))
    {
      BitsOfAt(b, 8, i);
      WriteBitOpsAt(BitsOf(b, 8), i);
    }
  }

  lemma {:induction false} WriteBitOpsAt(bits: seq<bit>, i: nat)
    requires i < |bits|
    ensures WriteBitOps(bits)[i] == WriteBitOp(bits[i])
  {
    if i > 0 {
      WriteBitOpsAt(bits[1..], i - 1);
    }
  }

  /** Two sampled bytes in which only the data pin can be high, showing the
      level `b`. */
  function Sample(pin: nat, b: bit): seq<byte>
    requires pin < 16
  {
    var w := b * Pow2(pin);
    Pow2Below(pin);
    [w % 256, w / 256]
  }

  /** What a device answering `bits` in successive read slots leaves in the
      sampled bytes. */
  function Answer(pin: nat, bits: seq<bit>): (s: seq<byte>)
    requires pin < 16
    ensures |s| == 2 * |bits|
  {
    if |bits| == 0 then [] else Sample(pin, bits[0]) + Answer(pin, bits[1..])
  }

  lemma Pow2Below(pin: nat)
    requires pin < 16
    ensures Pow2(pin) < 0x1_0000
  {
    Pow2Add(pin, 16 - pin);
    Pow2Table();
    MulLe(Pow2(pin), 1, Pow2(16 - pin));
  }

  lemma SampleLevel(pin: nat, b: bit)
    requires pin < 16
    ensures PinLevel(pin, Sample(pin, b)[0], Sample(pin, b)[1]) == b
  {
    Pow2Below(pin);
    var w := b * Pow2(pin);
    SplitWord(w);
    assert Sample(pin, b)[0] as int + 256 * Sample(pin, b)[1] as int == w;
    BitAtShifted(b, pin);
  }

  /** A bit shifted left by `pin` places is read back at place `pin`. */
  lemma {:induction false} BitAtShifted(b: bit, pin: nat)
    ensures BitAt(b * Pow2(pin), pin) == b
  {
    if pin > 0 {
      BitAtShifted(b, pin - 1);
      assert (b * Pow2(pin)) / 2 == b * Pow2(pin - 1);
    }
  }

  /** The read slots see exactly the bits the device answered. */
  lemma {:induction false} AnswerSampled(pin: nat, bits: seq<bit>)
    requires pin < 16
    ensures SampledBits(pin, Answer(pin, bits), |bits|) == bits
  {
    if |bits| > 0 {
      var s := Answer(pin, bits);
      SampleLevel(pin, bits[0]);
      assert s[2..] == Answer(pin, bits[1..]);
      AnswerSampled(pin, bits[1..]);
      assert [bits[0]] + bits[1..] == bits;
    }
  }

  /** read_byte against a device that answers the bits of v, least
      significant first, returns v and leaves the bytes after them. */
  lemma ReadByteAnswer(e: Engine, v: byte, rest: seq<byte>)
    requires e.cfg.pin < 16
    requires e.input == Answer(e.cfg.pin, BitsOf(v, 8)) + rest
    ensures ReadByte(e).Ok?
    ensures ReadByte(e).value.0 == v
    ensures ReadByte(e).value.1.input == rest
  {
    var ans := Answer(e.cfg.pin, BitsOf(v, 8));
    SampledBitsPrefix(e.cfg.pin, ans, rest, 8);
    AnswerSampled(e.cfg.pin, BitsOf(v, 8));
    Pow2Table();
    ValueOfBits(v, 8);
    assert e.input[16..] == rest;
  }
}
