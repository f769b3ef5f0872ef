/** The DS1977 password-protected iButton driver of ds1977.py: the
    per-command session opened by _ready, the scratchpad commands, the
    version query and the password management built from them.
    The overdrive skip, resume and strong-pullup operations are not part
    of this model's engine; their calls are logged, and the completion
    byte pullup_and_check returns is the next of the `codes` the button
    holds. */
module Ds1977 {
  import opened Types
  import opened Transport
  import opened OneWire
  import opened Addressing

  const WriteScratchpadCmd: byte := 0x0F
  const ReadScratchpadCmd: byte := 0xAA
  const CopyScratchpadCmd: byte := 0x99
  const VerifyPasswordCmd: byte := 0xC3

  /** The byte a successful copy or password check returns. */
  const Completed: byte := 0xAA

  /** The password page and the three register offsets on it
      (ds1977.py:28-31). */
  const PasswordPage: byte := 0x7F
  const ReadArea: byte := 0xC0
  const WriteArea: byte := 0xC8
  const CtrlArea: byte := 0xD0

  /** The Read Version command `string2bytes("cc0000")`. */
  const VersionCmd: seq<byte> := [0xCC, 0x00, 0x00]

  /** The driver object: the master it drives, its ROM argument as
      address_rom resolves it, the overdrive flag `_od`, the session flag
      `_rc`, and the completion bytes the pullup checks will return. */
  datatype Button = Button(bus: Engine, rom: Target, od: bool, rc: bool, codes: seq<byte>)

  /** Only the master and the session flag change; the ROM, the overdrive
      flag and the configuration stay. */
  predicate Kept(s: Button, t: Button)
  {
    t == s.(bus := t.bus, rc := t.rc) && t.bus.cfg == s.bus.cfg
  }

  /** The completion bytes consumed from s to t, in order, were all
      Completed. */
  predicate Confirmed(s: Button, t: Button)
  {
    && |t.codes| <= |s.codes|
    && t.codes == s.codes[|s.codes| - |t.codes|..]
    && forall i | 0 <= i < |s.codes| - |t.codes| :: s.codes[i] == Completed
  }

  lemma ConfirmedSame(s: Button, t: Button)
    requires t.codes == s.codes
    ensures Confirmed(s, t)
  {
  }

  lemma ConfirmedChain(s: Button, t: Button, u: Button)
    requires Confirmed(s, t) && Confirmed(t, u)
    ensures Confirmed(s, u)
  {
    var m, n := |s.codes| - |t.codes|, |t.codes| - |u.codes|;
    assert u.codes == s.codes[m + n..] by {
      DropDrop(s.codes, m, n);
    }
    forall i | 0 <= i < m + n
      ensures s.codes[i] == Completed
    {
      if i >= m {
        assert s.codes[i] == t.codes[i - m];
      }
    }
  }

  /** A call into an operation the base class does not define. */
  function Invoke(e: Engine, op: ExtOp): (r: Engine)
    ensures Effect(e, r, [CallOp(op)]) && r.input == e.input
  {
    EffectOne(e, CallOp(op), e.input);
    Perform(e, CallOp(op))
  }

  /** The overdrive skip _ready performs when `_od` is false. */
  function OverdriveOps(od: bool): seq<WireOp>
  {
    if od then [] else [CallOp(SkipRomOverdrive)]
  }

  /** What _ready puts on the wire after the reset: Resume once a session
      is open, address_rom otherwise. */
  function SessionOps(s: Button): seq<WireOp>
    requires s.rc || !s.rom.Unreadable?
  {
    if s.rc then [CallOp(Resume)] else AddressOps(s.rom)
  }

  function ReadyOps(s: Button): seq<WireOp>
    requires s.rc || !s.rom.Unreadable?
  {
    [ResetOp] + OverdriveOps(s.od) + SessionOps(s)
  }

  /** _ready (ds1977.py:41-51): a reset; without a presence pulse the
      device is not ready and nothing is addressed. Otherwise the
      overdrive skip when `_od` is false, then Resume when a session is
      open, or address_rom and the session opened. */
  function Ready(s: Button): (o: Outcome<bool, Button>)
    ensures Kept(s, o.state)
    ensures o.result == Ok(false) <==> 4 <= |s.bus.input| && s.bus.input[..4] == NoPresence
    ensures o.result == Ok(false) ==> Effect(s.bus, o.state.bus, [ResetOp]) && o.state.rc == s.rc
    ensures o.result == Err(ReadTimeout) <==> |s.bus.input| < 4
    ensures o.result == Err(BadHexString) <==>
      4 <= |s.bus.input| && s.bus.input[..4] != NoPresence && !s.rc && s.rom.Unreadable?
    ensures o.result.Err? ==> o.result.error == ReadTimeout || o.result.error == BadHexString
    ensures o.result == Ok(true) ==> o.state.rc && o.state.bus.input == s.bus.input[4..]
  {
    match Reset(s.bus)
    case Err(x) => Outcome(Err(x), s)
    case Ok((present, b1)) =>
      if !present then Outcome(Ok(false), s.(bus := b1))
      else
        var b2 := if s.od then b1 else Invoke(b1, SkipRomOverdrive);
        if s.rc then Outcome(Ok(true), s.(bus := Invoke(b2, Resume)))
        else
          match AddressTo(b2, s.rom)
          case Err(x) => Outcome(Err(x), s.(bus := b2))
          case Ok(b3) => Outcome(Ok(true), s.(bus := b3, rc := true))
  }

  /** The operations of a ready session, in order. */
  lemma ReadyEffect(s: Button)
    requires Ready(s).result == Ok(true)
    ensures s.rc || !s.rom.Unreadable?
    ensures Effect(s.bus, Ready(s).state.bus, ReadyOps(s))
  {
    var b1 := Reset(s.bus).value.1;
    var b2 := if s.od then b1 else Invoke(b1, SkipRomOverdrive);
    assert Effect(s.bus, b2, [ResetOp] + OverdriveOps(s.od)) by {
      if s.od {
        assert [ResetOp] + OverdriveOps(s.od) == [ResetOp];
      } else {
        EffectChain(s.bus, b1, b2, [ResetOp], [CallOp(SkipRomOverdrive)]);
      }
    }
    if s.rc {
      EffectChain(s.bus, b2, Invoke(b2, Resume), [ResetOp] + OverdriveOps(s.od), [CallOp(Resume)]);
    } else {
      AddressToEffect(b2, s.rom);
      EffectChain(s.bus, b2, AddressTo(b2, s.rom).value, [ResetOp] + OverdriveOps(s.od), AddressOps(s.rom));
    }
  }

  /** Once a session is open every later ready session resumes it instead
      of addressing the ROM again. */
  lemma ReadyResumes(s: Button)
    requires Ready(s).result == Ok(true)
    ensures var t := Ready(s).state;
            t.rc && ReadyOps(t) == [ResetOp] + OverdriveOps(s.od) + [CallOp(Resume)]
  {
  }

  /** A ready session followed by command bytes; nothing is written when
      the device is not ready. */
  function Session(s: Button, cmd: seq<byte>): (o: Outcome<bool, Button>)
    ensures o.result == Ready(s).result && Kept(s, o.state)
    ensures o.result != Ok(true) ==> o.state == Ready(s).state
    ensures o.result == Ok(true) ==> o.state.rc && o.state.bus.input == s.bus.input[4..]
  {
    var r := Ready(s);
    if r.result != Ok(true) then r
    else Outcome(Ok(true), r.state.(bus := WriteBytes(r.state.bus, cmd)))
  }

  lemma SessionEffect(s: Button, cmd: seq<byte>)
    requires Ready(s).result == Ok(true)
    ensures s.rc || !s.rom.Unreadable?
    ensures Effect(s.bus, Session(s, cmd).state.bus, ReadyOps(s) + BytesOps(cmd))
  {
    var b := Ready(s).state.bus;
    ReadyEffect(s);
    EffectChain(s.bus, b, WriteBytes(b, cmd), ReadyOps(s), BytesOps(cmd));
  }

  /** pullup_and_check and its verdict: the call is logged, the next
      completion byte is consumed, and anything but Completed raises
      `failure`. */
  function Confirm(s: Button, failure: Error): (o: Outcome<bool, Button>)
    ensures o.result.Ok? <==> |s.codes| > 0 && s.codes[0] == Completed
    ensures o.result.Err? ==>
      if |s.codes| == 0 then o.result.error == ReadTimeout && o.state == s
      else o.result.error == failure
    ensures |s.codes| > 0 ==>
      o.state == s.(bus := o.state.bus, codes := s.codes[1..])
      && Effect(s.bus, o.state.bus, [CallOp(PullupAndCheck)]) && o.state.bus.input == s.bus.input
    ensures o.result.Ok? ==> o.result.value && Confirmed(s, o.state)
  {
    if |s.codes| == 0 then Outcome(Err(ReadTimeout), s)
    else
      var t := s.(bus := Invoke(s.bus, PullupAndCheck), codes := s.codes[1..]);
      if s.codes[0] == Completed then Outcome(Ok(true), t) else Outcome(Err(failure), t)
  }

  /** A ready session, command bytes, then the completion check. */
  function Checked(s: Button, cmd: seq<byte>, failure: Error): (o: Outcome<bool, Button>)
    ensures o.state.rom == s.rom && o.state.od == s.od && o.state.bus.cfg == s.bus.cfg
    ensures o.result == Ok(false) <==> Ready(s).result == Ok(false)
    ensures o.result == Ok(false) ==> o.state == Ready(s).state
    ensures o.result == Ok(true) <==>
      Ready(s).result == Ok(true) && |s.codes| > 0 && s.codes[0] == Completed
    ensures o.result.Ok? ==> Confirmed(s, o.state)
    ensures o.result.Err? ==>
      o.result.error == ReadTimeout || o.result.error == BadHexString || o.result.error == failure
  {
    var r := Session(s, cmd);
    if r.result != Ok(true) then r else Confirm(r.state, failure)
  }

  /** The operations of a completed check: the session, the command, the
      pullup call; one completion byte consumed. */
  lemma CheckedEffect(s: Button, cmd: seq<byte>, failure: Error)
    requires Ready(s).result == Ok(true) && |s.codes| > 0
    ensures s.rc || !s.rom.Unreadable?
    ensures var t := Checked(s, cmd, failure).state;
            && Effect(s.bus, t.bus, ReadyOps(s) + BytesOps(cmd) + [CallOp(PullupAndCheck)])
            && t.codes == s.codes[1..]
  {
    var t := Session(s, cmd).state;
    SessionEffect(s, cmd);
    EffectChain(s.bus, t.bus, Confirm(t, failure).state.bus, ReadyOps(s) + BytesOps(cmd), [CallOp(PullupAndCheck)]);
  }

  /** _write_scratchpad (ds1977.py:73-79): on a ready device, Write
      Scratchpad, the target address TA1 TA2 and the data; nothing when no
      device answers. The flag says whether the device was ready. */
  function WriteScratchpadRaw(s: Button, ta1: byte, ta2: byte, data: seq<byte>): (o: Outcome<bool, Button>)
    ensures o.result == Ready(s).result && Kept(s, o.state)
  {
    Session(s, [WriteScratchpadCmd, ta1, ta2] + data)
  }

  lemma WriteScratchpadRawWrites(s: Button, ta1: byte, ta2: byte, data: seq<byte>)
    requires Ready(s).result == Ok(true)
    ensures s.rc || !s.rom.Unreadable?
    ensures var t := WriteScratchpadRaw(s, ta1, ta2, data).state;
            && Effect(s.bus, t.bus, ReadyOps(s) + BytesOps([WriteScratchpadCmd, ta1, ta2] + data))
            && t.bus.input == s.bus.input[4..] && t.rc
  {
    SessionEffect(s, [WriteScratchpadCmd, ta1, ta2] + data);
  }

  /** A ready write, as the next session sees it: only the master and the
      session flag change, and the session is open. */
  lemma WrittenOpen(s: Button, ta1: byte, ta2: byte, data: seq<byte>) returns (t: Button)
    requires Ready(s).result == Ok(true)
    ensures s.rc || !s.rom.Unreadable?
    ensures WriteScratchpadRaw(s, ta1, ta2, data) == Outcome(Ok(true), t) && t == s.(bus := t.bus, rc := true)
    ensures t.bus.cfg == s.bus.cfg && t.bus.input == s.bus.input[4..]
    ensures Effect(s.bus, t.bus, ReadyOps(s) + BytesOps([WriteScratchpadCmd, ta1, ta2] + data))
  {
    WriteScratchpadRawWrites(s, ta1, ta2, data);
    t := WriteScratchpadRaw(s, ta1, ta2, data).state;
  }

  /** write_scratchpad (ds1977.py:67-71): an address on the password page
      (TA2 at 0x7F or above) is refused before the bus is touched. */
  function WriteScratchpad(s: Button, ta1: byte, ta2: byte, data: seq<byte>): (o: Outcome<bool, Button>)
    ensures o.result == Err(ProtectedAddress) <==> ta2 >= PasswordPage
    ensures ta2 >= PasswordPage ==> o.state == s
    ensures ta2 < PasswordPage ==> o.result == Ready(s).result && Kept(s, o.state)
    ensures ta2 < PasswordPage && o.result == Ok(true) ==>
      Effect(s.bus, o.state.bus, ReadyOps(s) + BytesOps([WriteScratchpadCmd, ta1, ta2] + data))
  {
    if ta2 >= PasswordPage then Outcome(Err(ProtectedAddress), s)
    else
      var o := WriteScratchpadRaw(s, ta1, ta2, data);
      if o.result == Ok(true) then WriteScratchpadRawWrites(s, ta1, ta2, data); o else o
  }

  /** read_scratchpad (ds1977.py:82-88): on a ready device, Read
      Scratchpad and `length` bytes read back; None when no device
      answers. */
  function ReadScratchpad(s: Button, length: nat): (o: Outcome<Option<seq<byte>>, Button>)
    ensures Kept(s, o.state)
    ensures o.result == Ok(None) <==> Ready(s).result == Ok(false)
    ensures o.result.Ok? && o.result.value.Some? <==>
      Ready(s).result == Ok(true) && 4 + 16 * length <= |s.bus.input|
    ensures o.result.Err? ==> o.result.error == ReadTimeout || o.result.error == BadHexString
    ensures o.result.Ok? && o.result.value.Some? ==>
      && o.result.value.value == SampledBytes(s.bus.cfg.pin, s.bus.input[4..], length)
      && o.state.bus.input == s.bus.input[4 + 16 * length..] && o.state.rc
  {
    var r := Session(s, [ReadScratchpadCmd]);
    match r.result
    case Err(x) => Outcome(Err(x), r.state)
    case Ok(ready) =>
      if !ready then Outcome(Ok(None), r.state)
      else
        match ReadBytes(r.state.bus, length)
        case Err(x) => Outcome(Err(x), r.state)
        case Ok((data, b)) =>
          ReadBytesEffect(r.state.bus, length);
          DropDrop(s.bus.input, 4, 16 * length);
          Outcome(Ok(Some(data)), r.state.(bus := b))
  }

  lemma ReadScratchpadEffect(s: Button, length: nat)
    requires ReadScratchpad(s, length).result.Ok? && ReadScratchpad(s, length).result.value.Some?
    ensures s.rc || !s.rom.Unreadable?
    ensures Effect(s.bus, ReadScratchpad(s, length).state.bus,
                   ReadyOps(s) + BytesOps([ReadScratchpadCmd]) + ReadOps(8 * length))
  {
    var b := Session(s, [ReadScratchpadCmd]).state.bus;
    SessionEffect(s, [ReadScratchpadCmd]);
    ReadBytesEffect(b, length);
    EffectChain(s.bus, b, ReadBytes(b, length).value.1, ReadyOps(s) + BytesOps([ReadScratchpadCmd]), ReadOps(8 * length));
  }

  /** copy_scratchpad (ds1977.py:90-100): Copy Scratchpad, TA1 TA2, the
      ending offset and the password, then the completion byte, which must
      be Completed. */
  function CopyScratchpad(s: Button, ta1: byte, ta2: byte, esb: byte, password: seq<byte>): (o: Outcome<bool, Button>)
    ensures o.result == Ok(false) <==> Ready(s).result == Ok(false)
    ensures o.result == Ok(true) <==> Ready(s).result == Ok(true) && |s.codes| > 0 && s.codes[0] == Completed
    ensures o.result == Err(CopyFailed) <==> Ready(s).result == Ok(true) && |s.codes| > 0 && s.codes[0] != Completed
    ensures o.result.Ok? ==> Confirmed(s, o.state)
    ensures o.result.Err? ==>
      o.result.error == ReadTimeout || o.result.error == BadHexString || o.result.error == CopyFailed
  {
    Checked(s, [CopyScratchpadCmd, ta1, ta2, esb] + password, CopyFailed)
  }

  lemma CopyScratchpadWrites(s: Button, ta1: byte, ta2: byte, esb: byte, password: seq<byte>)
    requires Ready(s).result == Ok(true) && |s.codes| > 0
    ensures s.rc || !s.rom.Unreadable?
    ensures var t := CopyScratchpad(s, ta1, ta2, esb, password).state;
            && Effect(s.bus, t.bus, ReadyOps(s) + BytesOps([CopyScratchpadCmd, ta1, ta2, esb] + password)
                                    + [CallOp(PullupAndCheck)])
            && t.codes == s.codes[1..]
  {
    CheckedEffect(s, [CopyScratchpadCmd, ta1, ta2, esb] + password, CopyFailed);
  }

  /** verify_password (ds1977.py:110-117): Verify Password, TA1 TA2 and
      the password, then the completion byte, which must be Completed. */
  function VerifyPassword(s: Button, ta1: byte, ta2: byte, password: seq<byte>): (o: Outcome<bool, Button>)
    ensures o.result == Ok(false) <==> Ready(s).result == Ok(false)
    ensures o.result == Ok(true) <==> Ready(s).result == Ok(true) && |s.codes| > 0 && s.codes[0] == Completed
    ensures o.result == Err(PasswordCheckFailed) <==>
      Ready(s).result == Ok(true) && |s.codes| > 0 && s.codes[0] != Completed
    ensures o.result.Ok? ==> Confirmed(s, o.state)
    ensures o.result.Err? ==>
      o.result.error == ReadTimeout || o.result.error == BadHexString || o.result.error == PasswordCheckFailed
  {
    Checked(s, [VerifyPasswordCmd, ta1, ta2] + password, PasswordCheckFailed)
  }

  lemma VerifyPasswordWrites(s: Button, ta1: byte, ta2: byte, password: seq<byte>)
    requires Ready(s).result == Ok(true) && |s.codes| > 0
    ensures s.rc || !s.rom.Unreadable?
    ensures var t := VerifyPassword(s, ta1, ta2, password).state;
            && Effect(s.bus, t.bus, ReadyOps(s) + BytesOps([VerifyPasswordCmd, ta1, ta2] + password)
                                    + [CallOp(PullupAndCheck)])
            && t.codes == s.codes[1..]
  {
    CheckedEffect(s, [VerifyPasswordCmd, ta1, ta2] + password, PasswordCheckFailed);
  }

  /** `bytearray(n)`: n zero bytes. */
  function Zeros(n: nat): (z: seq<byte>)
    ensures |z| == n && forall i | 0 <= i < n :: z[i] == 0
  {
    if n == 0 then [] else [0] + Zeros(n - 1)
  }

  /** clear_scratchpad (ds1977.py:102-108): Write Scratchpad at address 0
      with `length` zero bytes. */
  function ClearScratchpad(s: Button, length: nat): (o: Outcome<bool, Button>)
    ensures o.result == Ready(s).result && Kept(s, o.state)
  {
    Session(s, [WriteScratchpadCmd, 0x00, 0x00] + Zeros(length))
  }

  /** Clearing is writing zeros to the start of the scratchpad, an
      address write_scratchpad accepts. */
  lemma ClearScratchpadIsWrite(s: Button, length: nat)
    ensures ClearScratchpad(s, length) == WriteScratchpad(s, 0x00, 0x00, Zeros(length))
  {
  }

  /** The next reset sees a presence pulse. */
  predicate Presence(input: seq<byte>)
  {
    4 <= |input| && input[..4] != NoPresence
  }

  /** The next n resets, with nothing read between them, each see a
      presence pulse. */
  predicate Presences(input: seq<byte>, n: nat)
    decreases n
  {
    n == 0 || (Presence(input) && Presences(input[4..], n - 1))
  }

  /** The next n completion bytes are all Completed. */
  predicate Completes(codes: seq<byte>, n: nat)
    decreases n
  {
    n == 0 || (|codes| > 0 && codes[0] == Completed && Completes(codes[1..], n - 1))
  }

  /** A session that resumes: the reset, the overdrive skip when `_od` is
      false, and Resume. */
  function ResumeOps(od: bool): seq<WireOp>
  {
    [ResetOp] + OverdriveOps(od) + [CallOp(Resume)]
  }

  /** A resumed session followed by command bytes. */
  function ResumedOps(od: bool, cmd: seq<byte>): seq<WireOp>
  {
    ResumeOps(od) + BytesOps(cmd)
  }

  /** A resumed session, command bytes and the pullup check. */
  function ResumedCheckOps(od: bool, cmd: seq<byte>): seq<WireOp>
  {
    ResumedOps(od, cmd) + [CallOp(PullupAndCheck)]
  }

  /** With a session open and a device answering the reset, _ready
      resumes. */
  lemma ResumeReady(s: Button)
    requires s.rc && Presence(s.bus.input)
    ensures Ready(s).result == Ok(true) && ReadyOps(s) == ResumeOps(s.od)
  {
  }

  /** A resumed session with command bytes: only the master changes, the
      reset's four samples are consumed, and the command follows the
      resume on the wire. */
  lemma SessionResumes(s: Button, cmd: seq<byte>) returns (t: Button)
    requires s.rc && Presence(s.bus.input)
    ensures Session(s, cmd) == Outcome(Ok(true), t) && t == s.(bus := t.bus)
    ensures t.bus.input == s.bus.input[4..] && Effect(s.bus, t.bus, ResumedOps(s.od, cmd))
  {
    ResumeReady(s);
    SessionEffect(s, cmd);
    t := Session(s, cmd).state;
  }

  /** A resumed session whose completion byte is Completed: the check
      succeeds, consuming that byte and the reset's four samples. */
  lemma CheckedResumes(s: Button, cmd: seq<byte>, failure: Error) returns (t: Button)
    requires s.rc && Presence(s.bus.input) && Completes(s.codes, 1)
    ensures Checked(s, cmd, failure) == Outcome(Ok(true), t) && t == s.(bus := t.bus, codes := s.codes[1..])
    ensures t.bus.input == s.bus.input[4..] && Effect(s.bus, t.bus, ResumedCheckOps(s.od, cmd))
  {
    var u := SessionResumes(s, cmd);
    CheckedEffect(s, cmd, failure);
    t := Checked(s, cmd, failure).state;
  }

  /** A present device that echoes its version twice and ends with 0xFF. */
  predicate VersionEcho(data: seq<byte>)
    requires |data| == 3
  {
    data[0] == data[1] && data[2] == 0xFF
  }

  /** The command text get_version decodes is the three command bytes. */
  lemma VersionCmdText()
    ensures RomCode.String2Bytes("cc0000") == Ok(VersionCmd)
  {
    assert RomCode.HexByte(0xCC) == "cc" && RomCode.HexByte(0x00) == "00";
    assert RomCode.HexString(VersionCmd) == "cc0000";
    RomCode.String2BytesHex(VersionCmd);
  }

  /** The check of get_version (ds1977.py:61-65): the version is the top
      three bits of the first byte, returned exactly when the device
      echoed it and ended with 0xFF. */
  function CheckVersion(data: seq<byte>): (r: Result<nat>)
    requires |data| == 3
    ensures r.Ok? <==> data[0] == data[1] && data[2] == 0xFF
    ensures r.Ok? ==> r.value == data[0] / 32 && r.value < 8
    ensures r.Err? ==> r.error == VersionCheckFailed
  {
    if VersionEcho(data) then Ok(data[0] / 32) else Err(VersionCheckFailed)
  }

  /** The part of get_version after its reset (ds1977.py:58-65):
      address_rom, Read Version, three bytes read and checked. */
  function VersionQuery(e: Engine, rom: Target): (o: Outcome<nat, Engine>)
    ensures o.state.cfg == e.cfg
    ensures o.result.Ok? ==> !rom.Unreadable? && 48 <= |e.input|
    ensures o.result == Err(BadHexString) <==> rom.Unreadable?
    ensures !rom.Unreadable? && 48 <= |e.input| ==>
      o.result == CheckVersion(SampledBytes(e.cfg.pin, e.input, 3))
    ensures o.result.Err? ==>
      o.result.error == ReadTimeout || o.result.error == BadHexString || o.result.error == VersionCheckFailed
    ensures rom.Unreadable? ==> o.state == e
    ensures o.result == Err(ReadTimeout) ==>
      !rom.Unreadable? && Effect(e, o.state, AddressOps(rom) + BytesOps(VersionCmd)) && o.state.input == e.input
  {
    match Command(e, rom, VersionCmd)
    case Err(x) => Outcome(Err(x), e)
    case Ok(e1) =>
      CommandEffect(e, rom, VersionCmd);
      match ReadBytes(e1, 3)
      case Err(x) => Outcome(Err(x), e1)
      case Ok((data, e2)) =>
        ReadBytesEffect(e1, 3);
        Outcome(CheckVersion(data), e2)
  }

  /** get_version (ds1977.py:53-65): its own reset, raising "No Device"
      without a presence pulse, then the version query. It neither opens
      nor uses the session. */
  function GetVersion(s: Button): (o: Outcome<nat, Button>)
    ensures Kept(s, o.state) && o.state.rc == s.rc
    ensures o.result == Err(NoDevice) <==> 4 <= |s.bus.input| && s.bus.input[..4] == NoPresence
    ensures o.result.Ok? ==> 4 <= |s.bus.input| && s.bus.input[..4] != NoPresence
    ensures 4 <= |s.bus.input| && s.bus.input[..4] != NoPresence ==>
      o.result == VersionQuery(Reset(s.bus).value.1, s.rom).result
  {
    match Reset(s.bus)
    case Err(x) => Outcome(Err(x), s)
    case Ok((present, b1)) =>
      if !present then Outcome(Err(NoDevice), s.(bus := b1))
      else
        var q := VersionQuery(b1, s.rom);
        Outcome(q.result, s.(bus := q.state))
  }

  /** The version get_version returns, in terms of the sampled input: the
      three bytes read after the reset echo the version, and it is the top
      three bits of the first. */
  lemma GetVersionValue(s: Button)
    requires GetVersion(s).result.Ok?
    ensures !s.rom.Unreadable? && 52 <= |s.bus.input|
    ensures var data := SampledBytes(s.bus.cfg.pin, s.bus.input[4..], 3);
            VersionEcho(data) && GetVersion(s).result.value == data[0] / 32 < 8
  {
  }

  /** With a device present, the ROM readable and the bytes there, the
      version is returned exactly when the echo check passes. */
  lemma GetVersionChecked(s: Button)
    requires 52 <= |s.bus.input| && s.bus.input[..4] != NoPresence && !s.rom.Unreadable?
    ensures GetVersion(s).result.Ok? <==> VersionEcho(SampledBytes(s.bus.cfg.pin, s.bus.input[4..], 3))
    ensures GetVersion(s).result.Err? ==> GetVersion(s).result.error == VersionCheckFailed
  {
  }

  lemma GetVersionEffect(s: Button)
    requires GetVersion(s).result.Ok?
    ensures !s.rom.Unreadable?
    ensures Effect(s.bus, GetVersion(s).state.bus, [ResetOp] + (AddressOps(s.rom) + BytesOps(VersionCmd) + ReadOps(24)))
  {
    var b1 := Reset(s.bus).value.1;
    AddressedQueryEffect(b1, s.rom, VersionCmd, 3);
    EffectChain(s.bus, b1, AddressedQuery(b1, s.rom, VersionCmd, 3).value.1,
                [ResetOp], AddressOps(s.rom) + BytesOps(VersionCmd) + ReadOps(24));
  }

  /** The echo checks of change_passwords and enable_passwords
      (ds1977.py:133-136, 164-167): read back as many bytes as expected and
      compare. A device that does not answer makes read_scratchpad return
      None, which bytes2string cannot iterate. */
  function Echo(s: Button, expected: seq<byte>): (o: Outcome<bool, Button>)
    ensures Kept(s, o.state)
    ensures o.result.Ok? <==> ReadScratchpad(s, |expected|).result == Ok(Some(expected))
    ensures o.result == Err(NoScratchpadData) <==> Ready(s).result == Ok(false)
    ensures o.result.Err? ==>
      || o.result.error == ReadTimeout || o.result.error == BadHexString
      || o.result.error == NoScratchpadData || o.result.error == ScratchpadDiffers
  {
    var r := ReadScratchpad(s, |expected|);
    match r.result
    case Err(x) => Outcome(Err(x), r.state)
    case Ok(None) => Outcome(Err(NoScratchpadData), r.state)
    case Ok(Some(sp)) =>
      if sp == expected then Outcome(Ok(true), r.state) else Outcome(Err(ScratchpadDiffers), r.state)
  }

  /** The scratchpad change_passwords expects: the target address on the
      password page, the ending offset 0x0F and the two passwords. */
  function PasswordEcho(readAccess: seq<byte>, fullAccess: seq<byte>): seq<byte>
  {
    [ReadArea, PasswordPage, 0x0F] + readAccess + fullAccess
  }

  /** A resumed echo check: Read Scratchpad and n bytes read back. */
  function EchoOps(od: bool, n: nat): seq<WireOp>
  {
    ResumedOps(od, [ReadScratchpadCmd]) + ReadOps(8 * n)
  }

  /** A resumed session that reads back Read Scratchpad and the expected
      bytes passes the echo check; the reset's and the bytes' samples are
      consumed. */
  lemma EchoResumes(s: Button, expected: seq<byte>) returns (t: Button)
    requires s.rc && 4 + 16 * |expected| <= |s.bus.input| && Presence(s.bus.input)
    requires SampledBytes(s.bus.cfg.pin, s.bus.input[4..], |expected|) == expected
    ensures Echo(s, expected) == Outcome(Ok(true), t) && t == s.(bus := t.bus)
    ensures t.bus.input == s.bus.input[4 + 16 * |expected|..] && Effect(s.bus, t.bus, EchoOps(s.od, |expected|))
  {
    ResumeReady(s);
    var rs := ReadScratchpad(s, |expected|);
    assert rs.result == Ok(Some(expected));
    ReadScratchpadEffect(s, |expected|);
    t := rs.state;
  }

  /** The second half of change_passwords (ds1977.py:138-152): copy the
      scratchpad to the password registers under the current password,
      verify each new password, clear the scratchpad. */
  function StorePasswords(s: Button, readAccess: seq<byte>, fullAccess: seq<byte>, current: seq<byte>): (o: Outcome<(), Button>)
    ensures o.result.Err? ==>
      || o.result.error == ReadTimeout || o.result.error == BadHexString
      || o.result.error == CopyFailed || o.result.error == PasswordCheckFailed
    ensures o.result.Ok? ==> Confirmed(s, o.state)
  {
    var c := CopyScratchpad(s, ReadArea, PasswordPage, 0x0F, current);
    if c.result.Err? then Outcome(Err(c.result.error), c.state) else
    var r := VerifyPassword(c.state, ReadArea, PasswordPage, readAccess);
    if r.result.Err? then Outcome(Err(r.result.error), r.state) else
    var f := VerifyPassword(r.state, WriteArea, PasswordPage, fullAccess);
    if f.result.Err? then Outcome(Err(f.result.error), f.state) else
    var z := ClearScratchpad(f.state, 16);
    if z.result.Err? then Outcome(Err(z.result.error), z.state) else
    ConfirmedChain(s, c.state, r.state);
    ConfirmedChain(s, r.state, f.state);
    ConfirmedSame(f.state, z.state);
    ConfirmedChain(s, f.state, z.state);
    Outcome(Ok(()), z.state)
  }

  /** A write, a read-back of m - 4 samples' worth and a run of sessions
      consuming n samples, in a row. */
  lemma Chain3(e1: Engine, e2: Engine, e3: Engine, e4: Engine, a: seq<WireOp>, b: seq<WireOp>, c: seq<WireOp>,
               m: nat, n: nat)
    requires Effect(e1, e2, a) && Effect(e2, e3, b) && Effect(e3, e4, c)
    requires 4 + m + n <= |e1.input| && e2.input == e1.input[4..]
    requires e3.input == e2.input[m..] && e4.input == e3.input[n..]
    ensures Effect(e1, e4, a + (b + c)) && e4.input == e1.input[4 + m + n..]
  {
    EffectChain(e2, e3, e4, b, c);
    EffectChain(e1, e2, e4, a, b + c);
    DropDrop(e1.input, 4, m);
    DropDrop(e1.input, 4 + m, n);
  }

  /** Four sessions in a row, each consuming one reset's samples. */
  lemma Chain4(e1: Engine, e2: Engine, e3: Engine, e4: Engine, e5: Engine,
               a: seq<WireOp>, b: seq<WireOp>, c: seq<WireOp>, d: seq<WireOp>)
    requires Effect(e1, e2, a) && Effect(e2, e3, b) && Effect(e3, e4, c) && Effect(e4, e5, d)
    requires 16 <= |e1.input| && e2.input == e1.input[4..] && e3.input == e2.input[4..]
    requires e4.input == e3.input[4..] && e5.input == e4.input[4..]
    ensures Effect(e1, e5, a + b + c + d) && e5.input == e1.input[16..]
  {
    EffectChain(e1, e2, e3, a, b);
    EffectChain(e1, e3, e4, a + b, c);
    EffectChain(e1, e4, e5, a + b + c, d);
  }

  /** What StorePasswords puts on the wire when every session resumes:
      Copy Scratchpad at the password page with the ending offset 0x0F
      under `current`, Verify Password at the read-access and at the
      full-access password, each with its pullup check, then Write
      Scratchpad of sixteen zero bytes at address 0. */
  function StorePasswordsOps(od: bool, readAccess: seq<byte>, fullAccess: seq<byte>, current: seq<byte>): seq<WireOp>
  {
    ResumedCheckOps(od, [CopyScratchpadCmd, ReadArea, PasswordPage, 0x0F] + current)
    + ResumedCheckOps(od, [VerifyPasswordCmd, ReadArea, PasswordPage] + readAccess)
    + ResumedCheckOps(od, [VerifyPasswordCmd, WriteArea, PasswordPage] + fullAccess)
    + ResumedOps(od, [WriteScratchpadCmd, 0x00, 0x00] + Zeros(16))
  }

  /** With a session open, a device answering each of the four resets and
      the three pullup checks completing, the second half of
      change_passwords succeeds with the copy, the two verifies and the
      clear on the wire, in that order. */
  lemma StorePasswordsWrites(s: Button, readAccess: seq<byte>, fullAccess: seq<byte>, current: seq<byte>)
    requires s.rc && 16 <= |s.bus.input| && Presences(s.bus.input, 4) && Completes(s.codes, 3)
    ensures var o := StorePasswords(s, readAccess, fullAccess, current);
            && o.result == Ok(()) && o.state == s.(bus := o.state.bus, codes := s.codes[3..])
            && o.state.bus.input == s.bus.input[16..]
            && Effect(s.bus, o.state.bus, StorePasswordsOps(s.od, readAccess, fullAccess, current))
  {
    var copy := [CopyScratchpadCmd, ReadArea, PasswordPage, 0x0F] + current;
    var verifyRead := [VerifyPasswordCmd, ReadArea, PasswordPage] + readAccess;
    var verifyFull := [VerifyPasswordCmd, WriteArea, PasswordPage] + fullAccess;
    var clear := [WriteScratchpadCmd, 0x00, 0x00] + Zeros(16);
    var c := CheckedResumes(s, copy, CopyFailed);
    var r := CheckedResumes(c, verifyRead, PasswordCheckFailed);
    var f := CheckedResumes(r, verifyFull, PasswordCheckFailed);
    var z := SessionResumes(f, clear);
    Chain4(s.bus, c.bus, r.bus, f.bus, z.bus, ResumedCheckOps(s.od, copy), ResumedCheckOps(s.od, verifyRead),
           ResumedCheckOps(s.od, verifyFull), ResumedOps(s.od, clear));
  }

  /** change_passwords (ds1977.py:119-152): both passwords must be eight
      bytes; they are written to the password page of the scratchpad, the
      echo checked, then stored. Every completion byte consumed on the way
      was Completed. */
  function ChangePasswords(s: Button, readAccess: seq<byte>, fullAccess: seq<byte>, current: seq<byte>): (o: Outcome<(), Button>)
    ensures o.result == Err(BadPasswordLength) <==> |readAccess| != 8 || |fullAccess| != 8
    ensures o.result == Err(BadPasswordLength) ==> o.state == s
    ensures o.result.Ok? ==> Confirmed(s, o.state)
    ensures o.result.Err? ==> o.result.error != NotIterable && o.result.error != ProtectedAddress
  {
    if |readAccess| != 8 || |fullAccess| != 8 then Outcome(Err(BadPasswordLength), s)
    else
      var w := WriteScratchpadRaw(s, ReadArea, PasswordPage, readAccess + fullAccess);
      if w.result.Err? then Outcome(Err(w.result.error), w.state) else
      var v := Echo(w.state, PasswordEcho(readAccess, fullAccess));
      if v.result.Err? then Outcome(Err(v.result.error), v.state) else
      var p := StorePasswords(v.state, readAccess, fullAccess, current);
      if p.result.Ok? then
        ConfirmedSame(s, v.state);
        ConfirmedChain(s, v.state, p.state);
        p
      else p
  }

  /** A successful change read back exactly the expected nineteen bytes
      after writing the passwords. */
  lemma ChangePasswordsEcho(s: Button, readAccess: seq<byte>, fullAccess: seq<byte>, current: seq<byte>)
    requires ChangePasswords(s, readAccess, fullAccess, current).result.Ok?
    ensures |readAccess| == 8 && |fullAccess| == 8 && |PasswordEcho(readAccess, fullAccess)| == 19
    ensures var w := WriteScratchpadRaw(s, ReadArea, PasswordPage, readAccess + fullAccess);
            ReadScratchpad(w.state, 19).result == Ok(Some(PasswordEcho(readAccess, fullAccess)))
  {
  }

  /** What change_passwords puts on the wire on a ready device whose
      later sessions resume: the session, Write Scratchpad of both
      passwords at the password page, the read-back of nineteen bytes,
      then the copy, the two verifies and the clear. */
  function ChangePasswordsOps(s: Button, readAccess: seq<byte>, fullAccess: seq<byte>, current: seq<byte>): seq<WireOp>
    requires s.rc || !s.rom.Unreadable?
  {
    ReadyOps(s) + BytesOps([WriteScratchpadCmd, ReadArea, PasswordPage] + (readAccess + fullAccess))
    + (EchoOps(s.od, 19) + StorePasswordsOps(s.od, readAccess, fullAccess, current))
  }

  /** Past the length check, a write that found the device ready and an
      echo that matched, change_passwords is the store. */
  lemma ChangePasswordsUnfold(s: Button, readAccess: seq<byte>, fullAccess: seq<byte>, current: seq<byte>,
                              w: Button, v: Button)
    requires |readAccess| == 8 && |fullAccess| == 8
    requires WriteScratchpadRaw(s, ReadArea, PasswordPage, readAccess + fullAccess) == Outcome(Ok(true), w)
    requires Echo(w, PasswordEcho(readAccess, fullAccess)) == Outcome(Ok(true), v)
    ensures ChangePasswords(s, readAccess, fullAccess, current) == StorePasswords(v, readAccess, fullAccess, current)
  {
  }

  /** A change_passwords call that goes through on a ready device: the
      passwords written to the scratchpad, the nineteen bytes read back,
      then the copy, the two verifies and the clear, every session after
      the first resuming. */
  lemma ChangePasswordsWrites(s: Button, readAccess: seq<byte>, fullAccess: seq<byte>, current: seq<byte>)
    requires |readAccess| == 8 && |fullAccess| == 8 && Ready(s).result == Ok(true)
    requires 4 + 4 + 16 * 19 <= |s.bus.input| && Presence(s.bus.input[4..])
    requires SampledBytes(s.bus.cfg.pin, s.bus.input[8..], 19) == PasswordEcho(readAccess, fullAccess)
    requires 4 + 4 + 16 * 19 + 16 <= |s.bus.input| && Presences(s.bus.input[4 + 4 + 16 * 19..], 4)
    requires Completes(s.codes, 3)
    ensures s.rc || !s.rom.Unreadable?
    ensures var o := ChangePasswords(s, readAccess, fullAccess, current);
            && o.result == Ok(()) && o.state.codes == s.codes[3..] && o.state.rc
            && o.state.bus.input == s.bus.input[4 + 4 + 16 * 19 + 16..]
            && Effect(s.bus, o.state.bus, ChangePasswordsOps(s, readAccess, fullAccess, current))
  {
    var w, v := ChangePasswordsSteps(s, readAccess, fullAccess);
    StoreAfterEcho(s, w, v, readAccess, fullAccess, current,
                   ReadyOps(s) + BytesOps([WriteScratchpadCmd, ReadArea, PasswordPage] + (readAccess + fullAccess)));
    ChangePasswordsUnfold(s, readAccess, fullAccess, current, w, v);
  }

  /** The write and the echo of a change that goes through: the session
      is open, the write's and the echo's samples are consumed, and
      nothing else of the button changes. */
  lemma ChangePasswordsSteps(s: Button, readAccess: seq<byte>, fullAccess: seq<byte>)
    returns (w: Button, v: Button)
    requires |readAccess| == 8 && |fullAccess| == 8 && Ready(s).result == Ok(true)
    requires 4 + 4 + 16 * 19 <= |s.bus.input| && Presence(s.bus.input[4..])
    requires SampledBytes(s.bus.cfg.pin, s.bus.input[8..], 19) == PasswordEcho(readAccess, fullAccess)
    ensures s.rc || !s.rom.Unreadable?
    ensures WriteScratchpadRaw(s, ReadArea, PasswordPage, readAccess + fullAccess) == Outcome(Ok(true), w)
    ensures Echo(w, PasswordEcho(readAccess, fullAccess)) == Outcome(Ok(true), v)
    ensures v == s.(bus := v.bus, rc := true) && w.bus.input == s.bus.input[4..]
    ensures v.bus.input == w.bus.input[4 + 16 * 19..]
    ensures Effect(s.bus, w.bus, ReadyOps(s) + BytesOps([WriteScratchpadCmd, ReadArea, PasswordPage] + (readAccess + fullAccess)))
    ensures Effect(w.bus, v.bus, EchoOps(s.od, 19))
  {
    w := WrittenOpen(s, ReadArea, PasswordPage, readAccess + fullAccess);
    DropDrop(s.bus.input, 4, 4);
    v := EchoResumes(w, PasswordEcho(readAccess, fullAccess));
  }

  /** The store after the echo, joined to the write and the echo before
      it. */
  lemma StoreAfterEcho(s: Button, w: Button, v: Button, readAccess: seq<byte>, fullAccess: seq<byte>, current: seq<byte>,
                       first: seq<WireOp>)
    requires 4 + 4 + 16 * 19 + 16 <= |s.bus.input| && Presences(s.bus.input[4 + 4 + 16 * 19..], 4)
    requires Completes(s.codes, 3)
    requires v == s.(bus := v.bus, rc := true) && w.bus.input == s.bus.input[4..]
    requires v.bus.input == w.bus.input[4 + 16 * 19..]
    requires Effect(s.bus, w.bus, first) && Effect(w.bus, v.bus, EchoOps(s.od, 19))
    ensures var o := StorePasswords(v, readAccess, fullAccess, current);
            && o.result == Ok(()) && o.state.codes == s.codes[3..] && o.state.rc
            && o.state.bus.input == s.bus.input[4 + 4 + 16 * 19 + 16..]
            && Effect(s.bus, o.state.bus, first + (EchoOps(s.od, 19) + StorePasswordsOps(s.od, readAccess, fullAccess, current)))
  {
    DropDrop(s.bus.input, 4, 4 + 16 * 19);
    StorePasswordsWrites(v, readAccess, fullAccess, current);
    Chain3(s.bus, w.bus, v.bus, StorePasswords(v, readAccess, fullAccess, current).state.bus,
           first, EchoOps(s.od, 19), StorePasswordsOps(s.od, readAccess, fullAccess, current), 4 + 16 * 19, 16);
  }

  /** The password control flag: 0xAA enables, 0x00 disables. */
  function Flag(enabled: bool): (f: byte)
    ensures f == 0xAA <==> enabled
    ensures f == 0x00 <==> !enabled
  {
    if enabled then 0xAA else 0x00
  }

  /** The scratchpad enable_passwords expects: the control register's
      address, the ending offset 0x10 and the flag. */
  function CtrlEcho(flag: byte): seq<byte>
  {
    [CtrlArea, PasswordPage, 0x10, flag]
  }

  /** The second half of enable_passwords (ds1977.py:164-171): the echo
      check, then the copy to the control register under the password. */
  function StoreFlag(s: Button, flag: byte, password: seq<byte>): (o: Outcome<(), Button>)
    ensures o.result.Ok? ==> Echo(s, CtrlEcho(flag)).result.Ok? && Confirmed(s, o.state)
    ensures o.result.Err? ==> o.result.error != NotIterable
  {
    var v := Echo(s, CtrlEcho(flag));
    if v.result.Err? then Outcome(Err(v.result.error), v.state) else
    var c := CopyScratchpad(v.state, CtrlArea, PasswordPage, 0x10, password);
    if c.result.Err? then Outcome(Err(c.result.error), c.state) else
    ConfirmedSame(s, v.state);
    ConfirmedChain(s, v.state, c.state);
    Outcome(Ok(()), c.state)
  }

  /** What StoreFlag puts on the wire when both sessions resume: the
      read-back of four bytes, then Copy Scratchpad at the control register
      with the ending offset 0x10 under the password, and its pullup
      check. */
  function StoreFlagOps(od: bool, password: seq<byte>): seq<WireOp>
  {
    EchoOps(od, 4) + ResumedCheckOps(od, [CopyScratchpadCmd, CtrlArea, PasswordPage, 0x10] + password)
  }

  /** With a session open, a device answering both resets and echoing the
      control register's address, the ending offset and the flag, and the
      copy completing, the second half of enable_passwords succeeds with
      the read-back and the copy to the control register on the wire. */
  lemma StoreFlagWrites(s: Button, flag: byte, password: seq<byte>)
    requires s.rc && 4 + 16 * 4 + 4 <= |s.bus.input|
    requires Presence(s.bus.input) && SampledBytes(s.bus.cfg.pin, s.bus.input[4..], 4) == CtrlEcho(flag)
    requires Presence(s.bus.input[4 + 16 * 4..]) && Completes(s.codes, 1)
    ensures var o := StoreFlag(s, flag, password);
            && o.result == Ok(()) && o.state == s.(bus := o.state.bus, codes := s.codes[1..])
            && o.state.bus.input == s.bus.input[4 + 16 * 4 + 4..]
            && Effect(s.bus, o.state.bus, StoreFlagOps(s.od, password))
  {
    var copy := [CopyScratchpadCmd, CtrlArea, PasswordPage, 0x10] + password;
    var v := EchoResumes(s, CtrlEcho(flag));
    var c := CheckedResumes(v, copy, CopyFailed);
    assert CopyScratchpad(v, CtrlArea, PasswordPage, 0x10, password) == Outcome(Ok(true), c);
    DropDrop(s.bus.input, 4 + 16 * 4, 4);
    EffectChain(s.bus, v.bus, c.bus, EchoOps(s.od, 4), ResumedCheckOps(s.od, copy));
  }

  /** enable_passwords as written (ds1977.py:154-171): the flag, an
      integer, goes to _write_scratchpad as its data, and write_bytes
      cannot iterate it. On a ready device the header bytes are written and
      the call raises; only when no device answers the first reset does
      the method go on. */
  function EnablePasswordsAsWritten(s: Button, enabled: bool, password: seq<byte>): (o: Outcome<(), Button>)
    ensures Ready(s).result == Ok(true) ==> o.result == Err(NotIterable)
    ensures o.result.Ok? ==> Ready(s).result == Ok(false)
  {
    var w := Session(s, [WriteScratchpadCmd, CtrlArea, PasswordPage]);
    match w.result
    case Err(x) => Outcome(Err(x), w.state)
    case Ok(ready) =>
      if ready then Outcome(Err(NotIterable), w.state)
      else StoreFlag(w.state, Flag(enabled), password)
  }

  /** What the failing call leaves on the wire: the session and the three
      header bytes, no flag. */
  lemma EnablePasswordsAsWrittenWrites(s: Button, enabled: bool, password: seq<byte>)
    requires Ready(s).result == Ok(true)
    ensures s.rc || !s.rom.Unreadable?
    ensures Effect(s.bus, EnablePasswordsAsWritten(s, enabled, password).state.bus,
                   ReadyOps(s) + BytesOps([WriteScratchpadCmd, CtrlArea, PasswordPage]))
  {
    SessionEffect(s, [WriteScratchpadCmd, CtrlArea, PasswordPage]);
  }

  /** enable_passwords as intended: the flag is written as one data byte
      at the control register, then echoed and copied. */
  function EnablePasswords(s: Button, enabled: bool, password: seq<byte>): (o: Outcome<(), Button>)
    ensures o.result.Err? ==> o.result.error != NotIterable
    ensures o.result.Ok? ==> Confirmed(s, o.state)
  {
    var w := WriteScratchpadRaw(s, CtrlArea, PasswordPage, [Flag(enabled)]);
    if w.result.Err? then Outcome(Err(w.result.error), w.state) else
    var f := StoreFlag(w.state, Flag(enabled), password);
    if f.result.Ok? then
      ConfirmedSame(s, w.state);
      ConfirmedChain(s, w.state, f.state);
      f
    else f
  }

  /** On a ready device the corrected method writes the flag after the
      header. */
  lemma EnablePasswordsWrites(s: Button, enabled: bool, password: seq<byte>)
    requires Ready(s).result == Ok(true)
    ensures s.rc || !s.rom.Unreadable?
    ensures var w := WriteScratchpadRaw(s, CtrlArea, PasswordPage, [Flag(enabled)]);
            && w.result == Ok(true) && w.state == s.(bus := w.state.bus, rc := true)
            && w.state.bus.input == s.bus.input[4..]
            && Effect(s.bus, w.state.bus, ReadyOps(s) + BytesOps([WriteScratchpadCmd, CtrlArea, PasswordPage, Flag(enabled)]))
  {
    assert [WriteScratchpadCmd, CtrlArea, PasswordPage] + [Flag(enabled)]
        == [WriteScratchpadCmd, CtrlArea, PasswordPage, Flag(enabled)];
    WriteScratchpadRawWrites(s, CtrlArea, PasswordPage, [Flag(enabled)]);
  }

  /** What a corrected enable_passwords puts on the wire on a ready device
      whose later sessions resume: the session, Write Scratchpad of the
      flag at the control register, then the read-back and the copy. */
  function EnablePasswordsOps(s: Button, flag: byte, password: seq<byte>): seq<WireOp>
    requires s.rc || !s.rom.Unreadable?
  {
    ReadyOps(s) + BytesOps([WriteScratchpadCmd, CtrlArea, PasswordPage, flag]) + StoreFlagOps(s.od, password)
  }

  /** Past a write that found the device ready, the corrected
      enable_passwords is the store of the flag. */
  lemma EnablePasswordsUnfold(s: Button, enabled: bool, password: seq<byte>, w: Button)
    requires WriteScratchpadRaw(s, CtrlArea, PasswordPage, [Flag(enabled)]) == Outcome(Ok(true), w)
    ensures EnablePasswords(s, enabled, password) == StoreFlag(w, Flag(enabled), password)
  {
  }

  /** The store of the flag after the write, joined to the write. */
  lemma FlagAfterWrite(s: Button, w: Button, flag: byte, password: seq<byte>, first: seq<WireOp>)
    requires 4 + 4 + 16 * 4 + 4 <= |s.bus.input| && Presence(s.bus.input[4..])
    requires SampledBytes(s.bus.cfg.pin, s.bus.input[8..], 4) == CtrlEcho(flag)
    requires Presence(s.bus.input[4 + 4 + 16 * 4..]) && Completes(s.codes, 1)
    requires w == s.(bus := w.bus, rc := true) && w.bus.input == s.bus.input[4..] && Effect(s.bus, w.bus, first)
    ensures var o := StoreFlag(w, flag, password);
            && o.result == Ok(()) && o.state.codes == s.codes[1..] && o.state.rc
            && o.state.bus.input == s.bus.input[4 + 4 + 16 * 4 + 4..]
            && Effect(s.bus, o.state.bus, first + StoreFlagOps(s.od, password))
  {
    DropDrop(s.bus.input, 4, 4);
    DropDrop(s.bus.input, 4, 4 + 16 * 4);
    DropDrop(s.bus.input, 4, 4 + 16 * 4 + 4);
    StoreFlagWrites(w, flag, password);
    EffectChain(s.bus, w.bus, StoreFlag(w, flag, password).state.bus, first, StoreFlagOps(s.od, password));
  }

  /** An enable_passwords call that goes through on a ready device: the
      flag written at the control register, the four bytes read back, then
      the copy to the control register under the password, which is what
      sets the register. */
  lemma EnablePasswordsCopies(s: Button, enabled: bool, password: seq<byte>)
    requires Ready(s).result == Ok(true)
    requires 4 + 4 + 16 * 4 + 4 <= |s.bus.input| && Presence(s.bus.input[4..])
    requires SampledBytes(s.bus.cfg.pin, s.bus.input[8..], 4) == CtrlEcho(Flag(enabled))
    requires Presence(s.bus.input[4 + 4 + 16 * 4..]) && Completes(s.codes, 1)
    ensures s.rc || !s.rom.Unreadable?
    ensures var o := EnablePasswords(s, enabled, password);
            && o.result == Ok(()) && o.state.codes == s.codes[1..] && o.state.rc
            && o.state.bus.input == s.bus.input[4 + 4 + 16 * 4 + 4..]
            && Effect(s.bus, o.state.bus, EnablePasswordsOps(s, Flag(enabled), password))
  {
    var w := WrittenOpen(s, CtrlArea, PasswordPage, [Flag(enabled)]);
    assert [WriteScratchpadCmd, CtrlArea, PasswordPage] + [Flag(enabled)]
        == [WriteScratchpadCmd, CtrlArea, PasswordPage, Flag(enabled)];
    FlagAfterWrite(s, w, Flag(enabled), password,
                   ReadyOps(s) + BytesOps([WriteScratchpadCmd, CtrlArea, PasswordPage, Flag(enabled)]));
    EnablePasswordsUnfold(s, enabled, password, w);
  }

  /** A successful call read back the control register's address, the
      ending offset and the flag it wrote. */
  lemma EnablePasswordsEcho(s: Button, enabled: bool, password: seq<byte>)
    requires EnablePasswords(s, enabled, password).result.Ok?
    ensures var w := WriteScratchpadRaw(s, CtrlArea, PasswordPage, [Flag(enabled)]);
            ReadScratchpad(w.state, 4).result == Ok(Some(CtrlEcho(Flag(enabled))))
  {
  }

  /** The two versions differ only when a device answers the first reset. */
  lemma EnablePasswordsAgree(s: Button, enabled: bool, password: seq<byte>)
    requires Ready(s).result != Ok(true)
    ensures EnablePasswordsAsWritten(s, enabled, password) == EnablePasswords(s, enabled, password)
  {
  }
}
