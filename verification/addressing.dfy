/** The ROM commands that pick which device on the bus listens next
    (w1ftdi.py:296-380). */
module Addressing {
  import opened Types
  import opened OneWire
  import opened RomCode

  const ReadRomCmd: byte := 0x33
  const SkipRomCmd: byte := 0xCC
  const MatchRomCmd: byte := 0x55

  /** A ROM as the drivers hand it over: raw bytes, or the text
      bytes2string prints. */
  datatype RomArg = RomBytes(bytes: seq<byte>) | RomText(text: string)

  /** Command bytes written, then n bytes read back. */
  function Query(e: Engine, cmd: seq<byte>, n: nat): (r: Result<(seq<byte>, Engine)>)
    ensures r.Ok? <==> 16 * n <= |e.input|
    ensures r.Err? ==> r.error == ReadTimeout
    ensures r.Ok? ==> |r.value.0| == n && r.value.0 == SampledBytes(e.cfg.pin, e.input, n)
    ensures r.Ok? ==> r.value.1.input == e.input[16 * n..]
  {
    var e1 := WriteBytes(e, cmd);
    assert e1.input == e.input && e1.cfg == e.cfg;
    ReadBytes(e1, n)
  }

  lemma QueryEffect(e: Engine, cmd: seq<byte>, n: nat)
    requires 16 * n <= |e.input|
    ensures Effect(e, Query(e, cmd, n).value.1, BytesOps(cmd) + ReadOps(8 * n))
  {
    var e1 := WriteBytes(e, cmd);
    ReadBytesEffect(e1, n);
    EffectChain(e, e1, ReadBytes(e1, n).value.1, BytesOps(cmd), ReadOps(8 * n));
  }

  /** rom_read (w1ftdi.py:297-303): Read ROM, then eight bytes from the one
      device on the bus. No reset is sent first. */
  function RomRead(e: Engine): (r: Result<(seq<byte>, Engine)>)
    ensures r.Ok? <==> 128 <= |e.input|
    ensures r.Err? ==> r.error == ReadTimeout
    ensures r.Ok? ==> |r.value.0| == 8 && r.value.0 == SampledBytes(e.cfg.pin, e.input, 8)
    ensures r.Ok? ==> Effect(e, r.value.1, BytesOps([ReadRomCmd]) + ReadOps(64))
  {
    if 128 <= |e.input| then QueryEffect(e, [ReadRomCmd], 8); Query(e, [ReadRomCmd], 8)
    else Query(e, [ReadRomCmd], 8)
  }

  /** A device whose ROM is `rom` answers rom_read with it. */
  lemma RomReadAnswer(e: Engine, rom: seq<byte>, rest: seq<byte>)
    requires e.cfg.pin < 16 && |rom| == 8
    requires e.input == Answer(e.cfg.pin, Unpack(rom)) + rest
    ensures RomRead(e).Ok?
    ensures RomRead(e).value.0 == rom
    ensures RomRead(e).value.1.input == rest
  {
    AnswerPrefix(e.cfg.pin, rom, rest, e.input);
    QueryOn(e, [ReadRomCmd], 8, rom, rest);
  }

  lemma QueryOn(e: Engine, cmd: seq<byte>, n: nat, v: seq<byte>, rest: seq<byte>)
    requires 16 * n <= |e.input|
    requires SampledBytes(e.cfg.pin, e.input, n) == v && e.input[16 * n..] == rest
    ensures Query(e, cmd, n).Ok?
    ensures Query(e, cmd, n).value.0 == v
    ensures Query(e, cmd, n).value.1.input == rest
  {
  }

  lemma AnswerPrefix(pin: nat, bs: seq<byte>, rest: seq<byte>, s: seq<byte>)
    requires pin < 16 && s == Answer(pin, Unpack(bs)) + rest
    ensures 16 * |bs| <= |s|
    ensures SampledBytes(pin, s, |bs|) == bs
    ensures s[16 * |bs|..] == rest
  {
    var a := Answer(pin, Unpack(bs));
    assert |a| == 16 * |bs|;
    AnswerBytes(pin, bs);
    SampledBytesPrefix(pin, a, rest, |bs|);
    assert (a + rest)[|a|..] == rest;
  }

  lemma {:induction false} AnswerBytes(pin: nat, rom: seq<byte>)
    requires pin < 16
    ensures SampledBytes(pin, Answer(pin, Unpack(rom)), |rom|) == rom
  {
    if |rom| > 0 {
      var first := BitsOf(rom[0], 8);
      var s := Answer(pin, Unpack(rom));
      AnswerAppend(pin, first, Unpack(rom[1..]));
      assert s == Answer(pin, first) + Answer(pin, Unpack(rom[1..]));
      SampledBitsPrefix(pin, Answer(pin, first), Answer(pin, Unpack(rom[1..])), 8);
      AnswerSampled(pin, first);
      Pow2Table();
      ValueOfBits(rom[0], 8);
      assert s[16..] == Answer(pin, Unpack(rom[1..]));
      AnswerBytes(pin, rom[1..]);
      assert [rom[0]] + rom[1..] == rom;
    }
  }

  lemma {:induction false} AnswerAppend(pin: nat, a: seq<bit>, b: seq<bit>)
    requires pin < 16
    ensures Answer(pin, a + b) == Answer(pin, a) + Answer(pin, b)
  {
    if |a| == 0 {
      assert a + b == b;
    } else {
      assert (a + b)[1..] == a[1..] + b;
      AnswerAppend(pin, a[1..], b);
    }
  }

  /** skip_rom (w1ftdi.py:306-307). */
  function SkipRom(e: Engine): (r: Engine)
    ensures Effect(e, r, ByteOps(SkipRomCmd))
  {
    WriteByte(e, SkipRomCmd)
  }

  /** The bytes a ROM argument stands for: bytes as they are, and text
      through string2bytes, which accepts it iff, colons removed, it is an
      even number of hex digits, byte i being digits 2i and 2i + 1. */
  function RomBytesOf(rom: RomArg): (r: Result<seq<byte>>)
    ensures r.Err? ==> rom.RomText? && r.error == BadHexString
    ensures rom.RomBytes? ==> r == Ok(rom.bytes)
    ensures rom.RomText? ==> var t := StripColons(rom.text);
      && (r.Ok? <==> |t| % 2 == 0 && forall k | 0 <= k < |t| :: IsHexDigit(t[k]))
      && (r.Ok? ==> 2 * |r.value| == |t| && forall i | 0 <= i < |r.value| ::
            r.value[i] == 16 * DigitValue(t[2 * i]) + DigitValue(t[2 * i + 1]))
  {
    match rom
    case RomBytes(bs) => Ok(bs)
    case RomText(s) =>
      String2BytesSpec(s);
      UnhexSpec(StripColons(s));
      String2Bytes(s)
  }

  /** _match_rom (w1ftdi.py:369-373): Match ROM followed by the ROM's
      bytes, whatever their number; text that is not hex raises before
      anything is written. */
  function MatchRom(e: Engine, rom: RomArg): (r: Result<Engine>)
    ensures r.Ok? <==> RomBytesOf(rom).Ok?
    ensures r.Err? ==> r.error == BadHexString
    ensures r.Ok? ==> Effect(e, r.value, ByteOps(MatchRomCmd) + BytesOps(RomBytesOf(rom).value))
    ensures r.Ok? ==> r.value.input == e.input
  {
    var bs :- RomBytesOf(rom);
    var e1 := WriteByte(e, MatchRomCmd);
    var e2 := WriteBytes(e1, bs);
    EffectChain(e, e1, e2, ByteOps(MatchRomCmd), BytesOps(bs));
    Ok(e2)
  }

  /** Addressing a device by its printed ROM is addressing it by its bytes. */
  lemma MatchRomText(e: Engine, rom: seq<byte>)
    ensures MatchRom(e, RomText(Bytes2String(rom))) == MatchRom(e, RomBytes(rom))
  {
    String2BytesRoundTrip(rom);
  }

  /** address_rom (w1ftdi.py:376-380): Skip ROM when no ROM is given,
      Match ROM otherwise. */
  function AddressRom(e: Engine, rom: Option<RomArg>): (r: Result<Engine>)
    ensures r.Ok? <==> rom.None? || RomBytesOf(rom.value).Ok?
    ensures r.Err? ==> r.error == BadHexString
    ensures r.Ok? ==> r.value.input == e.input
    ensures r.Ok? && rom.None? ==> Effect(e, r.value, ByteOps(SkipRomCmd))
    ensures r.Ok? && rom.Some? ==>
      Effect(e, r.value, ByteOps(MatchRomCmd) + BytesOps(RomBytesOf(rom.value).value))
  {
    match rom
    case None => Ok(SkipRom(e))
    case Some(arg) => MatchRom(e, arg)
  }

  /** A ROM argument as address_rom resolves it: no ROM, the bytes to
      match, or text string2bytes rejects. string2bytes is pure, so a
      driver that keeps one ROM argument resolves it the same way on every
      call. */
  datatype Target = Skip | Match(bytes: seq<byte>) | Unreadable

  function Resolve(rom: Option<RomArg>): (t: Target)
    ensures t.Skip? <==> rom.None?
    ensures t.Unreadable? <==> rom.Some? && RomBytesOf(rom.value).Err?
    ensures t.Match? ==> t.bytes == RomBytesOf(rom.value).value
  {
    match rom
    case None => Skip
    case Some(arg) =>
      match RomBytesOf(arg)
      case Ok(bs) => Match(bs)
      case Err(_) => Unreadable
  }

  /** address_rom on a resolved argument. */
  function AddressTo(e: Engine, t: Target): (r: Result<Engine>)
    ensures r.Ok? <==> !t.Unreadable?
    ensures r.Err? ==> r.error == BadHexString
    ensures r.Ok? ==> r.value.input == e.input && r.value.cfg == e.cfg
  {
    match t
    case Skip => Ok(SkipRom(e))
    case Match(bs) => Ok(WriteBytes(WriteByte(e, MatchRomCmd), bs))
    case Unreadable => Err(BadHexString)
  }

  /** address_rom is AddressTo on the resolved argument. */
  lemma AddressRomResolves(e: Engine, rom: Option<RomArg>)
    ensures AddressRom(e, rom) == AddressTo(e, Resolve(rom))
  {
  }

  /** The operations address_rom performs when it succeeds. */
  function AddressOps(t: Target): seq<WireOp>
    requires !t.Unreadable?
  {
    match t
    case Skip => ByteOps(SkipRomCmd)
    case Match(bs) => ByteOps(MatchRomCmd) + BytesOps(bs)
  }

  /** Skip ROM alone, or Match ROM and the bytes. */
  lemma AddressToEffect(e: Engine, t: Target)
    requires !t.Unreadable?
    ensures Effect(e, AddressTo(e, t).value, AddressOps(t))
  {
    if t.Match? {
      var e1 := WriteByte(e, MatchRomCmd);
      EffectChain(e, e1, WriteBytes(e1, t.bytes), ByteOps(MatchRomCmd), BytesOps(t.bytes));
    }
  }

  /** address_rom, then command bytes. Text that is not hex fails before
      anything is written. */
  function Command(e: Engine, t: Target, cmd: seq<byte>): (r: Result<Engine>)
    ensures r.Ok? <==> !t.Unreadable?
    ensures r.Err? ==> r.error == BadHexString
    ensures r.Ok? ==> r.value.input == e.input && r.value.cfg == e.cfg
  {
    var e1 :- AddressTo(e, t);
    Ok(WriteBytes(e1, cmd))
  }

  lemma CommandEffect(e: Engine, t: Target, cmd: seq<byte>)
    requires !t.Unreadable?
    ensures Effect(e, Command(e, t, cmd).value, AddressOps(t) + BytesOps(cmd))
  {
    var e1 := AddressTo(e, t).value;
    AddressToEffect(e, t);
    EffectChain(e, e1, WriteBytes(e1, cmd), AddressOps(t), BytesOps(cmd));
  }

  /** address_rom, command bytes, then n bytes read back. */
  function AddressedQuery(e: Engine, t: Target, cmd: seq<byte>, n: nat): (r: Result<(seq<byte>, Engine)>)
    ensures r.Ok? <==> !t.Unreadable? && 16 * n <= |e.input|
    ensures r.Err? ==> (r.error == BadHexString <==> t.Unreadable?)
    ensures r.Err? ==> r.error == BadHexString || r.error == ReadTimeout
    ensures r.Ok? ==> r.value.0 == SampledBytes(e.cfg.pin, e.input, n)
    ensures r.Ok? ==> r.value.1.input == e.input[16 * n..]
  {
    var e1 :- Command(e, t, cmd);
    ReadBytes(e1, n)
  }

  lemma AddressedQueryEffect(e: Engine, t: Target, cmd: seq<byte>, n: nat)
    requires !t.Unreadable? && 16 * n <= |e.input|
    ensures Effect(e, AddressedQuery(e, t, cmd, n).value.1, AddressOps(t) + BytesOps(cmd) + ReadOps(8 * n))
  {
    var e1 := Command(e, t, cmd).value;
    CommandEffect(e, t, cmd);
    ReadBytesEffect(e1, n);
    EffectChain(e, e1, ReadBytes(e1, n).value.1, AddressOps(t) + BytesOps(cmd), ReadOps(8 * n));
  }
}
