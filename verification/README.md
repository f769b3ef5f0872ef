# A Dafny model of the FT232H bit-banged 1-Wire master

This project models the 1-Wire master `W1ftdi` of `w1ftdi.py` and the two
device drivers built on its byte API: the DS18B20 temperature sensor
(`ds18b20.py`) and the DS1977 password-protected iButton (`ds1977.py`).
The master drives a GPIO pin of an FTDI FT232H through MPSSE command
strings. Each 1-Wire interval is a clock-divisor command followed by a
one-bit clock pulse. Each slot drives the pin low, releases it, and
samples the GPIO bytes.

The model is functional with explicit state:

- `Types`: bytes, bits, the failure kinds the Python code raises, a
  `Result` type, and least-significant-bit-first bit strings.
- `Mpsse`: the `0x86` clock-divisor command, `_get_delay`, and the table
  of interval commands A..J.
- `Gpio`: the two 16-bit masks of `set_pin` and their `get_gpio` command.
- `Transport`: the write buffer (`enable_write_buffer`, `_write`,
  `flush_write_buffer`) and a log of the transport writes it makes.
- `OneWire`: the engine. Its state is its configuration, the port it
  started from, the trace of bus operations performed so far, and the
  sampled GPIO bytes the bus still has to give. Those bytes come from an
  oracle consumed in order, and running out of them is the read timeout.
  Reset, bit and byte reads and writes are modelled here, along with the
  decoding of samples into bits and bytes.
- `RomCode`: packing 64 path bits into eight bytes, and the colon-hex text
  of `bytes2string` and `string2bytes`.
- `Addressing`: Read ROM, Skip ROM, Match ROM and `address_rom`.
- `Search`: `_search` and `search_roms` on the engine. The descent is
  proved equal to a pure walk over the decision at each depth.
- `Discovery`: a bus of devices, each with a 64-bit ROM code. On this
  model the walk always succeeds and the search reports every device
  exactly once. The engine's search, fed the samples such a bus drives,
  records exactly those ROM codes, printed. On any samples each of its
  passes shrinks the work stack under the measure Σ 2^(64 − |partial|).
- `Ds18b20`: `get_temp`. This covers the command framing, the CRC gate,
  the resolution bits, the signed register and the scaling, the last
  over exact reals.
- `Ds1977`: the `_ready` session, the scratchpad, copy, password and
  version commands, and the password management built from them.

Driver calls return an `Outcome`: the result and the object's state after
it. A raised exception therefore keeps the bytes already written by the
operations that completed before it.

Some behaviour of the code that a reader might expect otherwise:

- Path bit 8i+o becomes bit o of ROM byte i, least significant bit first
  (w1ftdi.py:359-361).
- search_roms checks no CRC of the ROM codes it records (w1ftdi.py:310-319).
- reset never retries at standard speed; it resets once at the timing of
  the table (w1ftdi.py:223-238).
- Each write and read slot is its own `_write` call, which the transport
  holds back only while the write buffer is enabled (w1ftdi.py:241-259).

## Model

| member | source | states |
|---|---|---|
| Mpsse.Divisor | w1ftdi.py:76-77 | the divisor lies in 0..0xFFFF and is congruent modulo 2^16 to ceil((30 MHz − f) / f) |
| Mpsse.SetClock | w1ftdi.py:76-80 | the command is three bytes, opens with 0x86, and its low byte plus 256 times its high byte is the divisor |
| Mpsse.GetDelay | w1ftdi.py:83-89 | a zero delay gives `86 00 00`; otherwise the 16-bit divisor is ceil(15e6 · seconds − 1), so that one pulse lasts the interval |
| Mpsse.ZeroDivisor | w1ftdi.py:84-85 | full speed needs divisor 0 |
| Mpsse.DelayValue | w1ftdi.py:83-89 | an interval that is a whole number of ticks below 2^16 gives the exact command for that number |
| Mpsse.StandardTimingValues | w1ftdi.py:34-43 | with exact arithmetic the constructor's ten interval commands are the divisors 89, 959, 899, 149, 134, 824, 0, 7199, 1049 and 6149 |
| Mpsse.StandardTimingValid | w1ftdi.py:34-43 | the constructor's table is ten clock commands, and the write-1 low time A differs from the write-0 low time C |
| Gpio.SetPin | w1ftdi.py:207-216 | the pin's direction bit is set exactly when `out`. The pin's level bit ends up set only if `high` and it was already set. Every other level bit ends up set iff `high` or it was set, the `~(1 << pin)` quirk reproduced. No other direction bit moves. |
| Gpio.Value | w1ftdi.py:210-216 | a mask's value lies in 0..0xFFFF, and its bit k is the mask's bit k |
| Gpio.GetGpio | w1ftdi.py:191-199 | six bytes: 0x80, low level, low direction, 0x82, high level, high direction; each pair of data bytes, low plus 256 times high, reassembles its mask's value |
| Gpio.GetGpioDetermines | w1ftdi.py:191-199 | two GPIO states whose get_gpio commands are equal are equal: the command loses nothing of the masks |
| Transport.EnableWriteBuffer | w1ftdi.py:92-96 | raises exactly when already buffering; otherwise buffering starts with nothing pending and nothing sent |
| Transport.Write | w1ftdi.py:106-116 | while buffering, the bytes are appended to what is pending and nothing is sent; otherwise they are sent as one write and nothing becomes pending |
| Transport.FlushWriteBuffer | w1ftdi.py:99-103 | buffering ends with nothing pending; one write of the collected bytes goes out iff `_output` is not None, even when the collection is empty |
| Transport.Apply | w1ftdi.py:106-116 | writes never change the buffering flag, and nothing is left pending outside buffering |
| Transport.ApplyUnbuffered | w1ftdi.py:106-116 | unbuffered, every write reaches the transport log as it is, in order |
| Transport.ApplyBuffered | w1ftdi.py:108-114 | buffered, writes send nothing, and what is pending grows by exactly their bytes in order |
| Transport.BatchEquivalence | w1ftdi.py:92-116 | writes issued directly or between enable and flush put the same bytes on the wire in the same order: one transport write per call directly, exactly one batched (none for no calls) |
| OneWire.Init | w1ftdi.py:23-59 | `low` drives only the data pin, with every level low; `high` releases every pin and raises every level but the data pin's; nothing has been written |
| OneWire.InitMasks | w1ftdi.py:55-59 | the two `set_pin` calls of the constructor from cleared masks give those two mask pairs |
| OneWire.PerformPort | w1ftdi.py:230-255 | each bus operation is one `_write` of its slot command on the port as it stood |
| OneWire.EffectPort | w1ftdi.py:230-255 | a run of operations reaches the port as its slot commands after everything before |
| OneWire.Take | w1ftdi.py:119-133 | reading n bytes succeeds iff the bus still has n, returns the next n, and fails with the read timeout otherwise |
| OneWire.Reset | w1ftdi.py:223-238 | four samples are read; a device is present iff they are not all 0xFF; one reset slot is written |
| OneWire.WriteBit | w1ftdi.py:241-248 | one write slot carrying the bit is performed and nothing is read |
| OneWire.ReadBit | w1ftdi.py:251-259 | two samples are read, and the bit is the data pin's level in the 16-bit word b0 + 256·b1 that `struct.unpack("H")` gives on a little-endian host, always 0 or 1 |
| OneWire.WriteBits | w1ftdi.py:264-266 | one write slot per bit, in order |
| OneWire.WriteByte | w1ftdi.py:262-266 | eight write slots, least significant bit first, and nothing read |
| OneWire.WriteBytes | w1ftdi.py:269-271 | the bytes' slots in order, and nothing read |
| OneWire.ReadBits | w1ftdi.py:290-294 | n read slots; the bits are the pin levels of consecutive sample pairs; the timeout iff fewer than 2n samples remain |
| OneWire.ReadByteFrom | w1ftdi.py:275-278 | the loop from slot i adds bit k of the samples at position i + k to the accumulated value |
| OneWire.ReadByte | w1ftdi.py:274-280 | the byte the `byte \|= bit << i` loop accumulates: sixteen samples give the byte whose bit i is the pin level of slot i; the timeout iff fewer remain |
| OneWire.ReadByteEffect | w1ftdi.py:276-277 | read_byte performs exactly eight read slots |
| OneWire.ReadBytes | w1ftdi.py:283-287 | n bytes, each from the next sixteen samples; the timeout iff fewer than 16n remain |
| OneWire.ReadBytesEffect | w1ftdi.py:283-287 | read_bytes(n) performs exactly 8n read slots |
| OneWire.SlotsDiffer | w1ftdi.py:243-246 | with a valid table the write-1 and write-0 slots are different commands |
| OneWire.WrittenBitsDecode | w1ftdi.py:241-248 | the commands written for a bit string decode back to that bit string |
| OneWire.WrittenByteDecodes | w1ftdi.py:262-266 | write slot i carries `(byte >> i) & 1`, and the eight written slots decode back to the byte |
| OneWire.SampleLevel | w1ftdi.py:256-257 | a sample with only the data pin showing `b` reads back as `b` |
| OneWire.AnswerSampled | w1ftdi.py:290-294 | read slots against a device answering some bits return exactly those bits |
| OneWire.ReadByteAnswer | w1ftdi.py:274-280 | read_byte against a device answering the bits of v, least significant first, returns v and consumes exactly those samples |
| RomCode.Pack | w1ftdi.py:356-362 | 64 path bits become eight bytes |
| RomCode.PackedBit | w1ftdi.py:359-361 | bit o of packed byte i is path bit 8i + o |
| RomCode.UnpackPack | w1ftdi.py:356-362 | unpacking the packed bytes gives the path back |
| RomCode.PackUnpack | w1ftdi.py:356-362 | packing the bits of any bytes gives the bytes back |
| RomCode.HexDigit | w1ftdi.py:384 | the digit is a hex digit whose value is the number |
| RomCode.HexByte | w1ftdi.py:384 | `{:02x}` prints two lower-case hex digits whose value, high digit first, is the byte |
| RomCode.Bytes2String | w1ftdi.py:383-384 | n bytes give 3n − 1 characters, and no bytes give the empty string |
| RomCode.StripColons | w1ftdi.py:388 | `replace(":", "")` leaves no colon, never lengthens the text, and leaves text without colons unchanged |
| RomCode.StripColonsSpec | w1ftdi.py:388 | removing colons keeps every other character |
| RomCode.Unhex | w1ftdi.py:388 | the hex codec fails only with a bad-hex error, and decodes 2n digits to n bytes |
| RomCode.UnhexSpec | w1ftdi.py:388 | the codec accepts exactly an even number of hex digits of either case; byte i is digits 2i and 2i + 1, high first |
| RomCode.String2Bytes | w1ftdi.py:387-388 | its only failure is the bad-hex error |
| RomCode.String2BytesSpec | w1ftdi.py:387-388 | string2bytes accepts a string iff, colons removed, it is an even number of hex digits |
| RomCode.UnhexHexString | w1ftdi.py:388 | the hex codec reads the plain hex digits of any bytes back to those bytes |
| RomCode.String2BytesHex | w1ftdi.py:387-388 | string2bytes also reads the digits without separators |
| RomCode.StripBytes2String | w1ftdi.py:383-388 | removing the colons from bytes2string leaves the plain hex digits of the bytes |
| RomCode.String2BytesRoundTrip | w1ftdi.py:383-388 | string2bytes inverts bytes2string on every byte string |
| RomCode.RomTextRoundTrip | w1ftdi.py:356-364 | a found ROM printed and parsed back is the packed path, and unpacking it gives the path |
| Addressing.Query | w1ftdi.py:299-301 | command bytes and then n bytes read: the next 16n samples decoded, or the timeout |
| Addressing.QueryEffect | w1ftdi.py:299-301 | the command's write slots, then 8n read slots |
| Addressing.RomRead | w1ftdi.py:297-303 | Read ROM 0x33 is written and eight bytes are read; no reset is sent first |
| Addressing.RomReadAnswer | w1ftdi.py:297-303 | a single device answering with its ROM code makes rom_read return that code |
| Addressing.AnswerBytes | w1ftdi.py:283-287 | read_bytes against a device answering the bits of some bytes returns those bytes |
| Addressing.SkipRom | w1ftdi.py:306-307 | only the byte 0xCC is written |
| Addressing.RomBytesOf | w1ftdi.py:370-371 | a byte ROM is used as it is. Text is accepted iff, colons removed, it is an even number of hex digits, and then byte i is digits 2i and 2i + 1; otherwise the bad-hex error |
| Addressing.MatchRom | w1ftdi.py:369-373 | Match ROM 0x55 and then the ROM's bytes; text that is not hex fails before anything is written |
| Addressing.MatchRomText | w1ftdi.py:369-373 | matching a ROM by its printed text does the same as matching it by its bytes |
| Addressing.AddressRom | w1ftdi.py:376-380 | fails, with the bad-hex error, iff the ROM is text string2bytes rejects; otherwise reads nothing and writes 0xCC without a ROM, or 0x55 and the ROM's bytes with one |
| Addressing.Resolve | w1ftdi.py:376-380 | a ROM argument resolves to skip iff absent, and to unreadable iff it is text string2bytes rejects |
| Addressing.AddressTo | w1ftdi.py:376-380 | addressing fails only for unreadable text, with the bad-hex error, and reads nothing |
| Addressing.AddressRomResolves | w1ftdi.py:376-380 | address_rom is addressing by the resolved argument |
| Addressing.AddressToEffect | w1ftdi.py:376-380 | the bus operations are Skip ROM alone, or Match ROM followed by the ROM bytes |
| Addressing.Command | ds18b20.py:41-42 | address_rom then a command fails only for unreadable ROM text, with the bad-hex error, and consumes no samples |
| Addressing.CommandEffect | ds18b20.py:41-42 | address_rom and a command write their slots in that order |
| Addressing.AddressedQuery | ds18b20.py:50-53 | address, command, then n bytes read: bad hex iff the ROM is unreadable, otherwise the next 16n samples decoded or the timeout |
| Addressing.AddressedQueryEffect | ds18b20.py:50-53 | the address slots, the command slots, then 8n read slots |
| Search.Decide | w1ftdi.py:340-354 | a differing pair takes the first bit, `(0, 0)` is a fork, and `(1, 1)` means no device answers |
| Search.Walk | w1ftdi.py:339-354 | the walk fails only with the search error; when it succeeds the path is completed to 64 bits |
| Search.WalkStep | w1ftdi.py:341-351 | one level takes the agreed bit, or takes 0 and pushes the path with 1 appended |
| Search.WalkLocal | w1ftdi.py:339-354 | a walk only depends on the decisions along the paths below its start |
| Search.WalkShape | w1ftdi.py:339-354 | the full path extends the start and has 64 bits. Each fork copies the full path up to its last bit, where the walk took 0 and the fork has 1. Forks are deeper than the start and ordered shallowest first. |
| Search.ForkShape | w1ftdi.py:345-351 | a fork step keeps that shape with the new fork first |
| Search.Probe | w1ftdi.py:340-344 | two read slots give the pin levels of the next four samples, and the chosen bit is written |
| Search.ProbeEffect | w1ftdi.py:340-344 | one step is two read slots then one write slot |
| Search.Replay | w1ftdi.py:329-337 | each known bit costs one poll, whose answer never stops the replay, and the bit is written; the timeout iff the samples run out |
| Search.ReplayEffect | w1ftdi.py:329-337 | the replay performs one step per known bit |
| Search.Descend | w1ftdi.py:339-354 | the descent fails only with the timeout or the search error; on success it consumes four samples per remaining bit and completes the path to 64 bits |
| Search.TapeWalkIsWalk | w1ftdi.py:339-354 | reading decisions off the samples four bytes at a time is the walk over the decisions the samples give at each depth |
| Search.DescendWalk | w1ftdi.py:339-354 | the descent succeeds iff the walk over its samples' decisions does, and finds the same branch |
| Search.DescendEffect | w1ftdi.py:339-351 | a successful descent ends on a whole ROM through the start, with one step on the wire per bit it added |
| Search.SearchPass | w1ftdi.py:322-365 | a pass finds nothing iff the reset sees no presence. It fails only with the timeout or the search error. Otherwise it consumes the reset, the replay and the descent, and finds a path of at least 64 bits, exactly 64 from a partial no longer than that. |
| Search.SearchPassWalk | w1ftdi.py:322-354 | with a device present, the pass finds what the walk from the replayed prefix finds over the sampled decisions |
| Search.SearchPassEffect | w1ftdi.py:322-354 | a pass writes a reset slot, and with a device present Search ROM 0xF0 and one step per bit of the ROM it ends on |
| Search.RomString | w1ftdi.py:317 | a recorded ROM is 23 characters of colon-hex |
| Search.Searches | w1ftdi.py:310-319 | search_roms fails only with the timeout, the search error, or the missing result of a pass without presence |
| Search.SearchesStep | w1ftdi.py:314-317 | one iteration pops the last partial, runs a pass, records its ROM and pushes its forks |
| Search.SearchRoms | w1ftdi.py:310-319 | the loop computes what Searches describes, and records one ROM more than the number of partials it pushed |
| Discovery.SearchesLighter | w1ftdi.py:314-317 | on any samples, each pass of the engine's search replaces the partial it pops by forks that weigh less: Σ 2^(64 − \|p\|) over the stack strictly decreases |
| Discovery.ExtSplit | w1ftdi.py:340-351 | the devices below a path split by their next bit, and each read slot is 0 iff some device has that bit next |
| Discovery.WalkPartition | w1ftdi.py:339-354 | from a prefix of some device the walk succeeds and ends on a device; the devices below the prefix are that device plus those below the forks, each below exactly one |
| Discovery.ForkPartition | w1ftdi.py:345-351 | pushing a fork keeps the partition: the devices below the path are the ROM found plus those below the forks, each below exactly one |
| Discovery.ForkWeight | w1ftdi.py:345-351 | strictly deepening forks below a level weigh less than that level |
| Discovery.PassWeight | w1ftdi.py:314-317 | popping a partial and pushing its forks strictly lowers Σ 2^(64 − length) over the stack |
| Discovery.NextBounded | w1ftdi.py:314-317 | after a pass every partial on the stack is at most 64 bits, and the stack weighs less |
| Discovery.NextStackOk | w1ftdi.py:314-317 | popping a partial and pushing its forks keeps each stack entry a prefix of some device, with no device below two entries |
| Discovery.PassFacts | w1ftdi.py:314-317 | a pass on a workable stack succeeds; the devices below the stack are the ROM found plus those below the next stack, which is workable and lighter |
| Discovery.SearchAllStep | w1ftdi.py:314-317 | one step of the search on a device set records the walk's ROM and continues on the stack with the partial popped and its forks pushed |
| Discovery.SearchAllFinds | w1ftdi.py:310-319 | from a workable stack the search succeeds and lists every device below the stack exactly once and nothing else |
| Discovery.SearchFindsEveryDevice | w1ftdi.py:310-319 | on a bus with at least one device the device-set search from the empty partial lists each device's ROM exactly once and nothing else |
| Discovery.WalkAlong | w1ftdi.py:339-354 | two polls that agree along the path a walk ends on give the same walk |
| Discovery.PassOnBus | w1ftdi.py:322-354 | on samples that show a presence pulse and the devices' wired-AND answers below the partial, a pass finds the branch the devices' walk finds and consumes 4 + 256 samples |
| Discovery.SearchesOnBus | w1ftdi.py:310-319 | on samples a bus of devices drives, the engine's search from a workable stack succeeds and records the printed ROM codes the device-set search finds, in order |
| Discovery.PrintedEnumerates | w1ftdi.py:317 | printing ROM codes with bytes2string keeps a list of each device once a list of each printed code once |
| Discovery.SearchRomsFindsEveryDevice | w1ftdi.py:310-319 | on a bus of at least one device that answers every pass as its devices do, search_roms succeeds and records each device's printed ROM code exactly once and nothing else |
| Ds18b20.Resolution | ds18b20.py:61 | the resolution is always 0..3, so the "Unknown Resolution" branch cannot be reached |
| Ds18b20.ResolutionBits | ds18b20.py:61 | the resolution is bits 5 and 6 of the configuration byte |
| Ds18b20.SignedLE16 | ds18b20.py:62 | the register is the signed 16-bit value whose two's complement is the two bytes, low first |
| Ds18b20.SignedLE16RoundTrip | ds18b20.py:62 | every signed 16-bit value is read back from its two bytes |
| Ds18b20.ShrFloor | ds18b20.py:66-70 | the shift rounds down, also for negative registers |
| Ds18b20.Temperature | ds18b20.py:63-70 | 16 times the reading is at most the register and more than one resolution step 2^(3 − res) below it, and exactly the register at 12 bits |
| Ds18b20.TemperatureExact | ds18b20.py:63-70 | 16 times the reading is the register rounded down to a multiple of 2^(3 − res) |
| Ds18b20.Decode | ds18b20.py:56-70 | the data is rejected with the CRC error iff its CRC is nonzero |
| Ds18b20.DecodeValue | ds18b20.py:56-70 | a reading that passes the CRC is the signed register rounded down to the selected resolution, in sixteenths of a degree |
| Ds18b20.Fetch | ds18b20.py:48-53 | a reset whose answer is ignored, then the nine bytes after it; bad hex or the timeout otherwise. A failure keeps the reset, and on a timeout in the read also the address and 0xBE |
| Ds18b20.FetchEffect | ds18b20.py:48-53 | the operations are a reset, the address, Read Scratchpad 0xBE and 72 read slots |
| Ds18b20.Measure | ds18b20.py:41-53 | address and Convert T, then the fetch; bad hex iff the ROM is unreadable, with nothing written. A timeout keeps the address and 0x44, and after the reset also the second address and 0xBE |
| Ds18b20.MeasureEffect | ds18b20.py:41-53 | the address, Convert T 0x44, then the fetch's operations |
| Ds18b20.Reading | ds18b20.py:36-53 | "No Device" iff the first reset sees no presence, after only that reset. Unreadable ROM text fails after the reset alone. Success needs the readable ROM and both resets' and the nine bytes' samples. A timeout keeps every operation before it: the reset, address and 0x44, then the second reset, address and 0xBE as far as the samples reached |
| Ds18b20.ReadingData | ds18b20.py:36-53 | a successful reading saw a device at the first reset and returns the nine bytes sampled after the second |
| Ds18b20.ReadingEffect | ds18b20.py:36-53 | a successful reading writes reset, address, 0x44, reset, address, 0xBE, then nine bytes of read slots |
| Ds18b20.GetTemp | ds18b20.py:33-75 | "No Device" iff the first reset sees no presence; bad hex iff a device is present and the ROM unreadable. Past that, the nine bytes sampled after the second reset are returned decoded iff their CRC is zero, and the CRC error raised otherwise; decoding touches the bus no further |
| Ds18b20.GetTempNoDevice | ds18b20.py:36-37 | without a presence pulse "No Device" is raised and only the reset was performed, no byte written |
| Ds18b20.GetTempBadRom | ds18b20.py:36-41 | unreadable ROM text fails after the first reset, before any byte is written |
| Ds1977.Ready | ds1977.py:41-51 | without presence: not ready, only the reset performed, the session flag unchanged. Otherwise ready with the session open, or bad hex when addressing unreadable text. Only the master and session flag change. |
| Ds1977.ReadyEffect | ds1977.py:41-51 | a ready session is the reset, the overdrive skip when `_od` is false, then Resume if the session was open or address_rom if not |
| Ds1977.ReadyResumes | ds1977.py:45-49 | once a session is open the next ready session resumes it instead of addressing the ROM |
| Ds1977.Session | ds1977.py:73-79 | the `if self._ready():` guard of the commands: the result is what _ready reports, nothing is written unless it reports ready, and then the session is open and only the reset's four samples were consumed |
| Ds1977.SessionEffect | ds1977.py:110-113 | a command sent in a ready session follows the session's reset, overdrive skip and resume or address on the wire |
| Ds1977.Confirm | ds1977.py:99-100 | the completion byte is consumed, and anything but 0xAA raises the given failure |
| Ds1977.Checked | ds1977.py:110-117 | a command with a completion check succeeds iff the device is ready and answers 0xAA; not ready means nothing is checked |
| Ds1977.CheckedEffect | ds1977.py:110-117 | a checked command on a ready device writes the session, the command and one pullup check, and consumes exactly one completion byte |
| Ds1977.WriteScratchpadRaw | ds1977.py:73-79 | the result is whether the device was ready, and only the master and session flag change |
| Ds1977.WriteScratchpadRawWrites | ds1977.py:73-79 | on a ready device, the session, then 0x0F, TA1, TA2 and the data in order |
| Ds1977.WriteScratchpad | ds1977.py:67-71 | an address with TA2 at 0x7F or above is refused before the bus is touched; otherwise the bytes 0x0F, TA1, TA2 and the data follow a ready session |
| Ds1977.ReadScratchpad | ds1977.py:82-88 | None iff the device is not ready; otherwise the bytes sampled after the reset, or the timeout |
| Ds1977.ReadScratchpadEffect | ds1977.py:82-88 | the session, 0xAA, then 8 · length read slots |
| Ds1977.CopyScratchpad | ds1977.py:90-100 | succeeds iff ready and the completion byte is 0xAA, and raises the copy failure iff ready with another byte |
| Ds1977.CopyScratchpadWrites | ds1977.py:90-100 | the session, 0x99, TA1, TA2, E/S and the password, then the pullup check |
| Ds1977.VerifyPassword | ds1977.py:110-117 | succeeds iff ready and the completion byte is 0xAA, and raises the password failure iff ready with another byte |
| Ds1977.VerifyPasswordWrites | ds1977.py:110-117 | the session, 0xC3, TA1, TA2 and the password, then the pullup check |
| Ds1977.Zeros | ds1977.py:104 | `bytearray(n)` is n zero bytes |
| Ds1977.ClearScratchpad | ds1977.py:102-108 | the result is whether the device was ready, and only the master and session flag change |
| Ds1977.ClearScratchpadIsWrite | ds1977.py:102-108 | clearing is writing n zero bytes at address 0, which write_scratchpad accepts |
| Ds1977.VersionCmdText | ds1977.py:60 | the text "cc0000" decodes to the bytes CC 00 00 |
| Ds1977.CheckVersion | ds1977.py:61-65 | the version `data[0] >> 5`, always below 8, is returned iff the first two bytes agree and the third is 0xFF |
| Ds1977.VersionQuery | ds1977.py:59-65 | bad hex iff the ROM is unreadable, with nothing written; with the samples there the result is the version check of the three bytes read; a timeout keeps the address and CC 00 00 |
| Ds1977.GetVersion | ds1977.py:53-65 | "No Device" iff the reset sees no presence; otherwise the version query; the session is neither opened nor used |
| Ds1977.GetVersionValue | ds1977.py:53-65 | a returned version comes from three bytes, sampled after the reset, that pass the echo check |
| Ds1977.GetVersionChecked | ds1977.py:59-65 | with a device and the samples present, the version is returned iff the echo check passes, and the version error is raised otherwise |
| Ds1977.GetVersionEffect | ds1977.py:53-61 | reset, address, CC 00 00, then 24 read slots |
| Ds1977.Echo | ds1977.py:133-136 | the check passes iff the scratchpad reads back exactly the expected bytes; no device gives the no-data failure |
| Ds1977.StorePasswords | ds1977.py:138-152 | fails only with the timeout, bad hex, or the copy or password failure; on success every completion byte consumed was 0xAA; what it writes is stated by StorePasswordsWrites |
| Ds1977.CheckedResumes | ds1977.py:45-49 | with a session open, a device answering the reset and the completion byte 0xAA, a checked command succeeds after reset, the overdrive skip when `_od` is false and Resume, consuming four samples and one completion byte |
| Ds1977.StorePasswordsWrites | ds1977.py:138-152 | with a session open, a device answering each of the four resets and the three checks returning 0xAA, the store succeeds and writes, each after a resumed session: 99 C0 7F 0F and `current` with a pullup check, C3 C0 7F and the read password with a check, C3 C8 7F and the full password with a check, then 0F 00 00 and sixteen zero bytes |
| Ds1977.ChangePasswords | ds1977.py:119-152 | raises the length error iff a password is not eight bytes, and then before the bus is touched; on success every completion byte consumed was 0xAA; what a change that goes through writes is stated by ChangePasswordsWrites |
| Ds1977.ChangePasswordsWrites | ds1977.py:119-152 | on a ready device that echoes C0 7F 0F and both passwords, answers the four later resets and completes the three checks, change_passwords succeeds, and the wire carries the session, 0F C0 7F and the sixteen password bytes, Read Scratchpad and nineteen bytes read back, then the store's writes |
| Ds1977.ChangePasswordsEcho | ds1977.py:128-136 | a successful change read back the 19 bytes C0 7F 0F, the read password and the full password |
| Ds1977.Flag | ds1977.py:155-158 | the flag is 0xAA iff enabled and 0x00 iff not |
| Ds1977.StoreFlag | ds1977.py:164-171 | success needs the control echo check to pass, and every completion byte consumed to be 0xAA; what it writes is stated by StoreFlagWrites |
| Ds1977.StoreFlagWrites | ds1977.py:164-171 | with a session open, a device echoing D0 7F 10 and the flag, answering the second reset and completing the copy, the step succeeds and writes, each after a resumed session: Read Scratchpad with four bytes read back, then 99 D0 7F 10 and the password with a pullup check |
| Ds1977.EnablePasswordsAsWritten | ds1977.py:154-171 | on a ready device the call raises because the integer flag cannot be iterated; it can succeed only when no device answers the first reset |
| Ds1977.EnablePasswordsAsWrittenWrites | ds1977.py:162 | the failing call leaves the session and the header 0x0F D0 7F on the wire, without the flag |
| Ds1977.EnablePasswords | ds1977.py:154-171 | the corrected method never fails for lack of iterability, and on success every completion byte consumed was 0xAA; what a call that goes through writes is stated by EnablePasswordsCopies |
| Ds1977.EnablePasswordsWrites | ds1977.py:154-162 | on a ready device the corrected method's write finds it ready, opens the session, consumes four samples and writes 0x0F D0 7F and then the flag |
| Ds1977.EnablePasswordsCopies | ds1977.py:154-171 | on a ready device that echoes D0 7F 10 and the flag, answers the second reset and completes the copy, the corrected method succeeds, and the wire carries the session, 0F D0 7F and the flag, the read-back, then 99 D0 7F 10 and the password, the copy that sets the control register |
| Ds1977.EnablePasswordsEcho | ds1977.py:164-167 | a successful call read back D0 7F 10 and the flag |
| Ds1977.EnablePasswordsAgree | ds1977.py:154-171 | the code as written and the corrected method agree whenever no device is ready at the first reset |

## Left out

- USB and libftdi plumbing are not modelled: `open`, `close`, `flush`, `sync`, `setup_clock`, `rmmod`, `write_gpio` and the atexit hook. They only talk to the device or the operating system.
- `_read`'s polling loop, its five-second timeout and its sleeps are not modelled. A read is the next bytes of the sampled-input oracle, and running out of them is the read timeout.
- The one-second conversion wait of `get_temp` is not modelled, because time is not part of the model.
- The `debug` printing is left out. The drivers' `self._debug(...)` calls are treated as no-op logging; as written they call the integer debug level.
- Mpsse.GetDelay: the Python code computes the frequency `2/seconds` in binary floating point. The model uses exact reals, so the table is computed without rounding. The engine only needs `ValidTiming`, and it treats the ten commands as opaque values.
- `crc` is not defined in the shown files. It is a function parameter of the DS18B20 decode, and no CRC behaviour is assumed.
- `skip_rom_od`, `resume` and `pullup_and_check` are not defined in the shown files either. Their calls are recorded in the transport log with no bytes. The completion byte `pullup_and_check` returns is the next of the button's `codes`, and running out of them is the read timeout.
- `_od` is not set by the shown base class. It is a field of the button that no operation changes, and the `overdrive=` keyword of the DS1977 constructor is dropped.
- Failure states: when an engine read times out, or ROM text is not hex, the state the model keeps is the one before that failing engine operation (a reset, an address_rom or a read_bytes); every operation completed before it stays in the log. Search.Searches keeps no state on a failure. The bus state after a timeout is undefined anyway.
- Ds1977.WriteScratchpadRaw, Ds1977.ClearScratchpad, Ds1977.CopyScratchpad and Ds1977.VerifyPassword return `None` in the Python code. The model returns the readiness `_ready` reported, which the caller cannot see there. It adds a result and hides nothing.
- Ds1977.ReadScratchpad: read_scratchpad returns `None` when the device is not ready. The model returns `None` as an `Option`. The echo checks then fail with `NoScratchpadData`, which stands for `bytes2string(None)` raising.
- Ds1977.WriteScratchpad: the refusal raises `Excpetion`, a misspelled name. That raises a `NameError`, which the model treats as the refusal it evidently is.
- Ds1977.ChangePasswords: the `current` password is a byte-string parameter. Its default "DEADBEEF" becomes its eight ASCII bytes through `bytearray`, and the caller passes them. `is not 0xaa` is treated as `!=`, since CPython caches small integers.
- Addressing.Resolve: the drivers keep their ROM argument for their whole lifetime, and string2bytes is pure. The model therefore resolves the argument once, into a `Target`, instead of decoding it on every call.
- Search.Replay: `bits is [True, True]` compares identity with a fresh list and is never true, so the replay never stops on an answer. Its dead branch is left out.
- Search.Searches: `_search` returns `None` when no device answers the reset, and `search_roms` then passes it to `bytes2string`. The model turns this into the `NoSearchResult` failure, which is what an empty bus reports.
- Search.SearchRoms: the function terminates on the consumed samples, since each pass reads at least four. The measure Σ 2^(64 − |partial|) is stated for the engine's passes separately, by Discovery.SearchesLighter.
- Discovery.SearchFindsEveryDevice: the lemma is about the device-set search. Discovery.SearchRomsFindsEveryDevice carries it to the engine's search, under `BusAnswers`: the samples are assumed to be those a bus of those devices drives, a presence pulse for each reset and the wired-AND of the devices' bits for each read. Nothing states that physical hardware produces such samples.
- Discovery.SearchAllFinds: completeness is proved for the walk over the decisions a device set produces; the engine reaches it only through `BusAnswers`, as above.
- OneWire.ReadBit: `struct.unpack("H")` uses the host's native byte order. The model fixes the word as b0 + 256·b1, the order of a little-endian host.
- `read_memory`, `read_pages` and `write_gpio_state` are not called by the modelled methods and are not modelled.
- The example and test scripts are hardware demonstrations and are not part of this model.

## Findings

| source | as written | input that shows it | evidently intended | confidence | as-written member | corrected member |
|---|---|---|---|---|---|---|
| ds1977.py:162 | enable_passwords hands the integer flag to `_write_scratchpad` as its data, and `write_bytes` iterates over that data | any call with a DS1977 answering the first reset: the header 0F D0 7F is written, then iterating the integer raises | the flag written as one data byte, since the echo check at ds1977.py:166 expects `D0 7F 10 flag` | not executed | Ds1977.EnablePasswordsAsWritten | Ds1977.EnablePasswords |
