/** The ROM search of w1ftdi.py:310-365. Each pass resets the bus, sends
    Search ROM, replays a known prefix of ROM bits and then descends bit by
    bit, taking the 0 branch wherever the devices disagree and remembering
    the 1 branch as a partial ROM for a later pass. */
module Search {
  import opened Types
  import opened OneWire
  import opened RomCode

  const SearchRomCmd: byte := 0xF0

  /** A ROM code is 64 bits long. */
  const RomBits: nat := 64

  /** What one search poll tells the master: the bit every responding device
      has, a disagreement, or no answer at all. */
  datatype Decision = Take(b: bit) | Fork | Silent

  /** The two read slots of a poll: the bit, then its complement, each the
      wired AND over the devices still taking part (w1ftdi.py:339-354). */
  function Decide(b0: bit, b1: bit): (d: Decision)
    ensures d.Take? <==> b0 != b1
    ensures d.Take? ==> d.b == b0
    ensures d.Fork? <==> b0 == 0 && b1 == 0
  {
    if b0 != b1 then Take(b0) else if b0 == 0 then Fork else Silent
  }

  /** Where a descent ended: the full path, and the partial ROMs it left
      behind, shallowest first. */
  datatype Branch = Branch(full: seq<bit>, forks: seq<seq<bit>>)

  function Remaining(path: seq<bit>): nat
  {
    if |path| >= RomBits then 0 else RomBits - |path|
  }

  /** The descent as a pure walk over the decision at each path: the
      reference the bus-level code is measured against. */
  function Walk(poll: seq<bit> -> Decision, path: seq<bit>): (r: Result<Branch>)
    ensures r.Err? ==> r.error == SearchFailed
    ensures r.Ok? ==> |r.value.full| == |path| + Remaining(path)
    decreases Remaining(path)
  {
    if |path| >= RomBits then Ok(Branch(path, []))
    else match poll(path)
      case Take(b) => Walk(poll, path + [b])
      case Fork =>
        var rest :- Walk(poll, path + [0]);
        Ok(Branch(rest.full, [path + [1]] + rest.forks))
      case Silent => Err(SearchFailed)
  }

  /** One level of the walk, in terms of the decision at its start. */
  lemma WalkStep(poll: seq<bit> -> Decision, path: seq<bit>)
    requires |path| < RomBits && !poll(path).Silent?
    ensures var d := poll(path);
            var b := if d.Take? then d.b else 0;
            var rest := Walk(poll, path + [b]);
            && (Walk(poll, path).Ok? <==> rest.Ok?)
            && (d.Take? && rest.Ok? ==> Walk(poll, path).value == rest.value)
            && (d.Fork? && rest.Ok? ==>
                  Walk(poll, path).value == Branch(rest.value.full, [path + [1]] + rest.value.forks))
  {
  }

  /** A walk only looks at the poll along the path it takes. */
  lemma {:induction false} WalkLocal(p1: seq<bit> -> Decision, p2: seq<bit> -> Decision, path: seq<bit>)
    requires |path| <= RomBits
    requires forall q: seq<bit> | |path| <= |q| < RomBits :: p1(q) == p2(q)
    ensures Walk(p1, path) == Walk(p2, path)
    decreases Remaining(path)
  {
    if |path| < RomBits {
      match p2(path)
      case Take(b) => WalkLocal(p1, p2, path + [b]);
      case Fork => WalkLocal(p1, p2, path + [0]);
      case Silent =>
    }
  }

  /** The shape of a finished walk: the full path extends the start and is
      a whole ROM; every fork left behind agrees with the full path up to
      the forking position, where the walk took 0 and the fork holds 1;
      forks lie strictly deeper than the start and each one deeper than the
      one before. */
  predicate Shaped(path: seq<bit>, b: Branch)
  {
    && |path| <= |b.full| == RomBits
    && b.full[..|path|] == path
    && (forall i | 0 <= i < |b.forks| ::
          && |path| < |b.forks[i]| <= RomBits
          && b.forks[i] == b.full[..|b.forks[i]| - 1] + [1]
          && b.full[|b.forks[i]| - 1] == 0)
    && (forall i, j | 0 <= i < j < |b.forks| :: |b.forks[i]| < |b.forks[j]|)
  }

  lemma {:induction false} WalkShape(poll: seq<bit> -> Decision, path: seq<bit>)
    requires |path| <= RomBits && Walk(poll, path).Ok?
    ensures Shaped(path, Walk(poll, path).value)
    decreases Remaining(path)
  {
    if |path| < RomBits {
      match poll(path)
      case Take(b) =>
        WalkShape(poll, path + [b]);
        TakeShape(path, b, Walk(poll, path + [b]).value);
      case Fork =>
        WalkShape(poll, path + [0]);
        ForkShape(path, Walk(poll, path + [0]).value);
    }
  }

  lemma TakeShape(path: seq<bit>, b: bit, rest: Branch)
    requires Shaped(path + [b], rest)
    ensures Shaped(path, rest)
  {
    assert (path + [b])[..|path|] == path;
    assert rest.full[..|path|] == rest.full[..|path| + 1][..|path|];
  }

  lemma ForkShape(path: seq<bit>, rest: Branch)
    requires Shaped(path + [0], rest)
    ensures Shaped(path, Branch(rest.full, [path + [1]] + rest.forks))
  {
    var next := path + [0];
    assert rest.full[..|path|] == rest.full[..|next|][..|path|] == path;
    assert rest.full[|path|] == rest.full[..|next|][|path|] == 0;
    ForkEntries(path, rest);
    ForkOrder(path, rest);
  }

  /** Each fork after a Fork step, the new one first, has its shape. */
  lemma ForkEntries(path: seq<bit>, rest: Branch)
    requires Shaped(path + [0], rest)
    requires rest.full[..|path|] == path && rest.full[|path|] == 0
    ensures var forks := [path + [1]] + rest.forks;
            forall i | 0 <= i < |forks| ::
              && |path| < |forks[i]| <= RomBits
              && forks[i] == rest.full[..|forks[i]| - 1] + [1]
              && rest.full[|forks[i]| - 1] == 0
  {
    var forks := [path + [1]] + rest.forks;
    forall i | 0 <= i < |forks|
      ensures |path| < |forks[i]| <= RomBits
      ensures forks[i] == rest.full[..|forks[i]| - 1] + [1]
      ensures rest.full[|forks[i]| - 1] == 0
    {
      if i > 0 {
        assert forks[i] == rest.forks[i - 1];
      }
    }
  }

  /** The new fork is shallower than every older one. */
  lemma ForkOrder(path: seq<bit>, rest: Branch)
    requires Shaped(path + [0], rest)
    ensures var forks := [path + [1]] + rest.forks;
            forall i, j | 0 <= i < j < |forks| :: |forks[i]| < |forks[j]|
  {
    var forks := [path + [1]] + rest.forks;
    forall i, j | 0 <= i < j < |forks|
      ensures |forks[i]| < |forks[j]|
    {
      assert forks[j] == rest.forks[j - 1];
      if i > 0 {
        assert forks[i] == rest.forks[i - 1];
      }
    }
  }

  /** The decision the sampled bytes of a pass give at path p, for a tape
      whose first poll is the one at depth `base`. Past the end of the tape
      nothing answers. */
  function TapePoll(pin: nat, s: seq<byte>, base: nat): seq<bit> -> Decision
  {
    p => if base <= |p| && 4 * (|p| - base) + 4 <= |s|
         then TapeDecision(pin, s, 4 * (|p| - base))
         else Silent
  }

  function TapeDecision(pin: nat, s: seq<byte>, k: nat): Decision
    requires k + 4 <= |s|
  {
    Decide(PinLevel(pin, s[k], s[k + 1]), PinLevel(pin, s[k + 2], s[k + 3]))
  }

  /** Dropping the first poll's samples moves the tape one level deeper. */
  lemma TapeShift(pin: nat, s: seq<byte>, base: nat, path: seq<bit>)
    requires 4 <= |s| && base < |path| <= RomBits
    ensures Walk(TapePoll(pin, s[4..], base + 1), path) == Walk(TapePoll(pin, s, base), path)
  {
    TapeShiftAgree(pin, s, base, |path|);
    WalkLocal(TapePoll(pin, s[4..], base + 1), TapePoll(pin, s, base), path);
  }

  lemma TapeShiftAgree(pin: nat, s: seq<byte>, base: nat, n: nat)
    requires 4 <= |s| && base < n
    ensures forall q: seq<bit> | n <= |q| < RomBits ::
      TapePoll(pin, s[4..], base + 1)(q) == TapePoll(pin, s, base)(q)
  {
    forall q: seq<bit> | n <= |q| < RomBits
      ensures TapePoll(pin, s[4..], base + 1)(q) == TapePoll(pin, s, base)(q)
    {
      TapeShiftAt(pin, s, base, |q|);
    }
  }

  lemma TapeShiftAt(pin: nat, s: seq<byte>, base: nat, depth: nat)
    requires 4 <= |s| && base < depth
    ensures var k := 4 * (depth - base - 1);
            && (k + 4 <= |s[4..]| <==> k + 8 <= |s|)
            && (k + 4 <= |s[4..]| ==> TapeDecision(pin, s[4..], k) == TapeDecision(pin, s, k + 4))
  {
    var k := 4 * (depth - base - 1);
    if k + 4 <= |s[4..]| {
      assert s[4..][k] == s[k + 4] && s[4..][k + 1] == s[k + 5];
      assert s[4..][k + 2] == s[k + 6] && s[4..][k + 3] == s[k + 7];
    }
  }

  /** The two sampled bits of a poll. */
  lemma TwoBits(pin: nat, s: seq<byte>)
    requires 4 <= |s|
    ensures SampledBits(pin, s, 2) == [PinLevel(pin, s[0], s[1]), PinLevel(pin, s[2], s[3])]
  {
    assert SampledBits(pin, s[2..], 1) == [PinLevel(pin, s[2], s[3])] + SampledBits(pin, s[4..], 0);
  }

  /** The slots of one step along the path: two reads, then the chosen bit. */
  function StepOps(b: bit): seq<WireOp>
  {
    ReadOps(2) + [WriteBitOp(b)]
  }

  function PathOps(bits: seq<bit>): seq<WireOp>
  {
    if |bits| == 0 then [] else StepOps(bits[0]) + PathOps(bits[1..])
  }

  /** One step: read the bit and its complement, then write `b`. */
  function Probe(e: Engine, b: bit): (r: Result<((bit, bit), Engine)>)
    ensures r.Ok? <==> 4 <= |e.input|
    ensures r.Err? ==> r.error == ReadTimeout
    ensures r.Ok? ==> r.value.0 == (PinLevel(e.cfg.pin, e.input[0], e.input[1]),
                                    PinLevel(e.cfg.pin, e.input[2], e.input[3]))
    ensures r.Ok? ==> r.value.1.input == e.input[4..] && r.value.1.cfg == e.cfg
  {
    var got :- ReadBits(e, 2);
    TwoBits(e.cfg.pin, e.input);
    Ok(((got.0[0], got.0[1]), WriteBit(got.1, b)))
  }

  lemma ProbeEffect(e: Engine, b: bit)
    requires 4 <= |e.input|
    ensures Effect(e, Probe(e, b).value.1, StepOps(b))
  {
    var got := ReadBits(e, 2).value;
    EffectChain(e, got.1, WriteBit(got.1, b), ReadOps(2), [WriteBitOp(b)]);
  }

  /** The replay loop of _search (w1ftdi.py:329-337): a poll per known bit,
      whose answer is ignored, then the known bit. The `is [True, True]`
      test there compares identity with a fresh list and never holds. */
  function Replay(e: Engine, rom: seq<bit>): (r: Result<Engine>)
    ensures r.Ok? <==> 4 * |rom| <= |e.input|
    ensures r.Err? ==> r.error == ReadTimeout
    ensures r.Ok? ==> r.value.input == e.input[4 * |rom|..] && r.value.cfg == e.cfg
    decreases |rom|
  {
    if |rom| == 0 then Ok(e) else
      var first :- Probe(e, rom[0]);
      var rest :- Replay(first.1, rom[1..]);
      DropDrop(e.input, 4, 4 * (|rom| - 1));
      Ok(rest)
  }

  lemma {:induction false} ReplayEffect(e: Engine, rom: seq<bit>)
    requires 4 * |rom| <= |e.input|
    ensures Effect(e, Replay(e, rom).value, PathOps(rom))
    decreases |rom|
  {
    if |rom| == 0 {
      EffectNone(e);
    } else {
      var e1 := Probe(e, rom[0]).value.1;
      var e2 := Replay(e1, rom[1..]).value;
      assert Replay(e, rom).value == e2;
      assert Effect(e, e2, PathOps(rom)) by {
        ProbeEffect(e, rom[0]);
        ReplayEffect(e1, rom[1..]);
        EffectChain(e, e1, e2, StepOps(rom[0]), PathOps(rom[1..]));
      }
    }
  }

  /** The descent loop of _search (w1ftdi.py:339-354) from `path` on: one
      poll of four sampled bytes per remaining bit; it fails with
      SearchFailed where no device answers. */
  function Descend(e: Engine, path: seq<bit>): (r: Result<(Branch, Engine)>)
    ensures r.Err? ==> r.error == ReadTimeout || r.error == SearchFailed
    ensures r.Ok? ==> 4 * Remaining(path) <= |e.input|
    ensures r.Ok? ==> r.value.1.input == e.input[4 * Remaining(path)..] && r.value.1.cfg == e.cfg
    ensures r.Ok? ==> |r.value.0.full| == |path| + Remaining(path)
    decreases Remaining(path)
  {
    if |path| >= RomBits then Ok((Branch(path, []), e))
    else
      var bits := Probe(e, 0);
      if bits.Err? then Err(ReadTimeout) else
      var d := Decide(bits.value.0.0, bits.value.0.1);
      if d.Silent? then Err(SearchFailed) else
      var b := if d.Take? then d.b else 0;
      assert Remaining(path + [b]) == Remaining(path) - 1;
      var rest :- Descend(Probe(e, b).value.1, path + [b]);
      DropDrop(e.input, 4, 4 * (Remaining(path) - 1));
      if d.Take? then Ok(rest) else Ok((Branch(rest.0.full, [path + [1]] + rest.0.forks), rest.1))
  }

  /** The walk a tape of sampled bytes dictates, read off the tape
      directly: one decision per four bytes, nothing answering once the
      tape runs out. */
  function TapeWalk(pin: nat, s: seq<byte>, path: seq<bit>): Result<Branch>
    decreases Remaining(path)
  {
    if |path| >= RomBits then Ok(Branch(path, []))
    else if |s| < 4 then Err(SearchFailed)
    else match TapeDecision(pin, s, 0)
      case Take(b) => TapeWalk(pin, s[4..], path + [b])
      case Fork =>
        var rest :- TapeWalk(pin, s[4..], path + [0]);
        Ok(Branch(rest.full, [path + [1]] + rest.forks))
      case Silent => Err(SearchFailed)
  }

  lemma {:induction false} TapeWalkIsWalk(pin: nat, s: seq<byte>, path: seq<bit>)
    requires |path| <= RomBits
    ensures TapeWalk(pin, s, path) == Walk(TapePoll(pin, s, |path|), path)
    decreases Remaining(path)
  {
    if |path| < RomBits && 4 <= |s| {
      var d := TapeDecision(pin, s, 0);
      if !d.Silent? {
        TapeWalkIsWalk(pin, s[4..], path + [NextBit(d)]);
      }
      TapeWalkLevel(pin, s, path);
    } else if |path| < RomBits {
      TapePollFirst(pin, s, path);
    }
  }

  /** One level of the tape walk agrees with the walk, given that the level
      below does. */
  lemma TapeWalkLevel(pin: nat, s: seq<byte>, path: seq<bit>)
    requires |path| < RomBits && 4 <= |s|
    requires var d := TapeDecision(pin, s, 0); var next := path + [NextBit(d)];
      !d.Silent? ==> TapeWalk(pin, s[4..], next) == Walk(TapePoll(pin, s[4..], |next|), next)
    ensures TapeWalk(pin, s, path) == Walk(TapePoll(pin, s, |path|), path)
  {
    var poll := TapePoll(pin, s, |path|);
    var d := TapeDecision(pin, s, 0);
    var next := path + [NextBit(d)];
    TapePollFirst(pin, s, path);
    WalkExtend(poll, path);
    TapeWalkExtend(pin, s, path);
    if !d.Silent? {
      TapeShiftNext(pin, s, path, next);
    }
    LevelAgree(d, path, TapeWalk(pin, s, path), Walk(poll, path), TapeWalk(pin, s[4..], next), Walk(poll, next));
  }

  lemma TapeShiftNext(pin: nat, s: seq<byte>, path: seq<bit>, next: seq<bit>)
    requires 4 <= |s| && |next| == |path| + 1 <= RomBits
    requires TapeWalk(pin, s[4..], next) == Walk(TapePoll(pin, s[4..], |next|), next)
    ensures TapeWalk(pin, s[4..], next) == Walk(TapePoll(pin, s, |path|), next)
  {
    TapeShift(pin, s, |path|, next);
  }

  /** Two levels built from the same decision over agreeing rests agree. */
  lemma LevelAgree(d: Decision, path: seq<bit>, t: Result<Branch>, w: Result<Branch>, a: Result<Branch>, b: Result<Branch>)
    requires t == Extend(d, path, a) && w == Extend(d, path, b)
    requires !d.Silent? ==> a == b
    ensures t == w
  {
  }

  /** The first decision a tape yields is read from its first four samples. */
  lemma TapePollFirst(pin: nat, s: seq<byte>, path: seq<bit>)
    ensures TapePoll(pin, s, |path|)(path) == if 4 <= |s| then TapeDecision(pin, s, 0) else Silent
  {
  }

  /** The bit a step along the walk adds: the one taken, 0 at a fork. */
  function NextBit(d: Decision): bit
  {
    if d.Take? then d.b else 0
  }

  /** What one level makes of the rest of a walk. */
  function Extend(d: Decision, path: seq<bit>, rest: Result<Branch>): Result<Branch>
  {
    match d
    case Take(_) => rest
    case Fork => if rest.Err? then rest else Ok(Branch(rest.value.full, [path + [1]] + rest.value.forks))
    case Silent => Err(SearchFailed)
  }

  lemma WalkExtend(poll: seq<bit> -> Decision, path: seq<bit>)
    requires |path| < RomBits
    ensures Walk(poll, path) == Extend(poll(path), path, Walk(poll, path + [NextBit(poll(path))]))
  {
    match poll(path)
    case Take(b) =>
      assert NextBit(Take(b)) == b;
    case Fork =>
      assert NextBit(Fork) == 0;
    case Silent =>
  }

  lemma TapeWalkExtend(pin: nat, s: seq<byte>, path: seq<bit>)
    requires |path| < RomBits && 4 <= |s|
    ensures TapeWalk(pin, s, path)
         == Extend(TapeDecision(pin, s, 0), path, TapeWalk(pin, s[4..], path + [NextBit(TapeDecision(pin, s, 0))]))
  {
    match TapeDecision(pin, s, 0)
    case Take(b) =>
      assert NextBit(Take(b)) == b;
    case Fork =>
      assert NextBit(Fork) == 0;
    case Silent =>
  }

  lemma {:induction false} DescendTape(e: Engine, path: seq<bit>)
    ensures Descend(e, path).Ok? <==> TapeWalk(e.cfg.pin, e.input, path).Ok?
    ensures Descend(e, path).Ok? ==> Descend(e, path).value.0 == TapeWalk(e.cfg.pin, e.input, path).value
    decreases Remaining(path)
  {
    if |path| < RomBits && 4 <= |e.input| {
      var d := TapeDecision(e.cfg.pin, e.input, 0);
      if !d.Silent? {
        var b := if d.Take? then d.b else 0;
        var e1 := Probe(e, b).value.1;
        DescendTape(e1, path + [b]);
      }
    }
  }

  /** The descent follows the walk its sampled bytes dictate: it succeeds
      exactly when that walk does, with the same branch. */
  lemma DescendWalk(e: Engine, path: seq<bit>)
    requires |path| <= RomBits
    ensures Descend(e, path).Ok? <==> Walk(TapePoll(e.cfg.pin, e.input, |path|), path).Ok?
    ensures Descend(e, path).Ok? ==>
      Descend(e, path).value.0 == Walk(TapePoll(e.cfg.pin, e.input, |path|), path).value
  {
    DescendTape(e, path);
    TapeWalkIsWalk(e.cfg.pin, e.input, path);
  }

  lemma {:induction false} PathOpsAppend(a: seq<bit>, b: seq<bit>)
    ensures PathOps(a + b) == PathOps(a) + PathOps(b)
  {
    if |a| == 0 {
      assert a + b == b;
    } else {
      assert (a + b)[1..] == a[1..] + b;
      PathOpsAppend(a[1..], b);
    }
  }

  /** What a successful descent puts on the wire: one step per bit it
      added to the path, each two read slots then the bit taken. */
  lemma {:induction false} DescendEffect(e: Engine, path: seq<bit>)
    requires |path| <= RomBits && Descend(e, path).Ok?
    ensures Descended(e, path, Descend(e, path).value)
    decreases Remaining(path)
  {
    if |path| == RomBits {
      var r := Descend(e, path).value;
      EffectNone(e);
      assert r.0.full[|path|..] == [];
    } else {
      var b, e1 := DescendUnfold(e, path);
      DescendEffect(e1, path + [b]);
      ProbeEffect(e, b);
      DescendStep(e, e1, path, b, Descend(e1, path + [b]).value, Descend(e, path).value);
    }
  }

  /** One step, then a descent from one bit deeper, is a descent. */
  lemma DescendStep(e: Engine, e1: Engine, path: seq<bit>, b: bit, rest: (Branch, Engine), r: (Branch, Engine))
    requires Effect(e, e1, StepOps(b)) && Descended(e1, path + [b], rest)
    requires r.0.full == rest.0.full && r.1 == rest.1
    ensures Descended(e, path, r)
  {
    var full := rest.0.full;
    StepPrefix(path, b, full);
    EffectChain(e, e1, rest.1, StepOps(b), PathOps(full[|path| + 1..]));
  }

  /** A descent from `path` that ended in r: a whole ROM through path,
      and one step on the wire per bit added. */
  predicate Descended(e: Engine, path: seq<bit>, r: (Branch, Engine))
  {
    && |path| <= |r.0.full| == RomBits && r.0.full[..|path|] == path
    && Effect(e, r.1, PathOps(r.0.full[|path|..]))
  }

  /** A whole path through path + [b] runs through path, and from there
      takes b first. */
  lemma StepPrefix(path: seq<bit>, b: bit, full: seq<bit>)
    requires |path| < |full| && full[..|path| + 1] == path + [b]
    ensures full[..|path|] == path
    ensures PathOps(full[|path|..]) == StepOps(b) + PathOps(full[|path| + 1..])
  {
    PrefixOfPrefix(full, |path| + 1, |path|);
    assert full[|path|] == (path + [b])[|path|] == b;
    DropOne(full, |path|);
    assert full[|path|..][1..] == full[|path| + 1..];
  }

  /** The first level of a successful descent: the bit it took, and the
      engine after that step, from which the rest of the descent runs. */
  lemma DescendUnfold(e: Engine, path: seq<bit>) returns (b: bit, e1: Engine)
    requires |path| < RomBits && Descend(e, path).Ok?
    ensures 4 <= |e.input| && e1 == Probe(e, b).value.1
    ensures Descend(e1, path + [b]).Ok?
    ensures Descend(e, path).value.0.full == Descend(e1, path + [b]).value.0.full
    ensures Descend(e, path).value.1 == Descend(e1, path + [b]).value.1
  {
    var d := TapeDecision(e.cfg.pin, e.input, 0);
    b := if d.Take? then d.b else 0;
    e1 := Probe(e, b).value.1;
  }

  /** The tape seen from a later depth is the same tape. */
  lemma TapeDrop(pin: nat, s: seq<byte>, k: nat, path: seq<bit>)
    requires 4 * k <= |s| && k <= |path| <= RomBits
    ensures Walk(TapePoll(pin, s[4 * k..], k), path) == Walk(TapePoll(pin, s, 0), path)
  {
    TapeDropAgree(pin, s, k, |path|);
    WalkLocal(TapePoll(pin, s[4 * k..], k), TapePoll(pin, s, 0), path);
  }

  lemma TapeDropAgree(pin: nat, s: seq<byte>, k: nat, n: nat)
    requires 4 * k <= |s| && k <= n
    ensures forall q: seq<bit> | n <= |q| < RomBits ::
      TapePoll(pin, s[4 * k..], k)(q) == TapePoll(pin, s, 0)(q)
  {
    forall q: seq<bit> | n <= |q| < RomBits
      ensures TapePoll(pin, s[4 * k..], k)(q) == TapePoll(pin, s, 0)(q)
    {
      var j := 4 * (|q| - k);
      if j + 4 <= |s[4 * k..]| {
        assert s[4 * k..][j] == s[4 * |q|] && s[4 * k..][j + 1] == s[4 * |q| + 1];
        assert s[4 * k..][j + 2] == s[4 * |q| + 2] && s[4 * k..][j + 3] == s[4 * |q| + 3];
      }
    }
  }

  /** _search (w1ftdi.py:322-365): reset; with no presence pulse the pass
      ends with nothing found, otherwise Search ROM, the replay of `rom`
      and the descent from it. */
  function SearchPass(e: Engine, rom: seq<bit>): (r: Result<(Option<Branch>, Engine)>)
    ensures r.Err? ==> r.error == ReadTimeout || r.error == SearchFailed
    ensures r.Ok? ==> 4 <= |e.input| && (r.value.0.None? <==> e.input[..4] == NoPresence)
    ensures r.Ok? && r.value.0.None? ==> r.value.1.input == e.input[4..]
    ensures r.Ok? && r.value.0.Some? ==>
      4 + 4 * (|rom| + Remaining(rom)) <= |e.input| &&
      r.value.1.input == e.input[4 + 4 * (|rom| + Remaining(rom))..]
    ensures r.Ok? && r.value.0.Some? ==> |r.value.0.value.full| == |rom| + Remaining(rom)
    ensures r.Ok? && r.value.0.Some? ==> RomBits <= |r.value.0.value.full|
    ensures r.Ok? ==> r.value.1.cfg == e.cfg
  {
    var reset :- Reset(e);
    if !reset.0 then Ok((None, reset.1)) else
      var e1 := WriteByte(reset.1, SearchRomCmd);
      var e2 :- Replay(e1, rom);
      var found :- Descend(e2, rom);
      DropDrop(e.input, 4, 4 * |rom|);
      DropDrop(e.input, 4 + 4 * |rom|, 4 * Remaining(rom));
      Ok((Some(found.0), found.1))
  }

  /** The decisions of a pass: after the four reset samples, one poll of
      four bytes per depth, the replayed ones included. */
  function PassPoll(pin: nat, s: seq<byte>): seq<bit> -> Decision
  {
    TapePoll(pin, if 4 <= |s| then s[4..] else [], 0)
  }

  /** A pass that sees a presence pulse finds what the walk over its
      decisions finds, starting from the replayed prefix. */
  lemma SearchPassWalk(e: Engine, rom: seq<bit>)
    requires |rom| <= RomBits
    requires 4 <= |e.input| && e.input[..4] != NoPresence && 4 + 4 * |rom| <= |e.input|
    ensures SearchPass(e, rom).Ok? <==> Walk(PassPoll(e.cfg.pin, e.input), rom).Ok?
    ensures SearchPass(e, rom).Ok? ==>
      SearchPass(e, rom).value.0 == Some(Walk(PassPoll(e.cfg.pin, e.input), rom).value)
  {
    var e1 := WriteByte(Reset(e).value.1, SearchRomCmd);
    var e2 := Replay(e1, rom).value;
    assert e2.cfg == e.cfg;
    assert e2.input == e.input[4..][4 * |rom|..];
    DescendWalk(e2, rom);
    TapeDrop(e.cfg.pin, e.input[4..], |rom|, rom);
  }

  /** What a pass puts on the wire: the reset slot, and with a presence
      pulse Search ROM and one step per bit of the ROM it ends on. */
  lemma SearchPassEffect(e: Engine, rom: seq<bit>)
    requires |rom| <= RomBits && SearchPass(e, rom).Ok?
    ensures var r := SearchPass(e, rom).value;
            && (r.0.None? ==> Effect(e, r.1, [ResetOp]))
            && (r.0.Some? ==> Effect(e, r.1, [ResetOp] + ByteOps(SearchRomCmd) + PathOps(r.0.value.full)))
  {
    var e0 := Reset(e).value.1;
    if Reset(e).value.0 {
      var e1 := WriteByte(e0, SearchRomCmd);
      var e2 := Replay(e1, rom).value;
      var found := Descend(e2, rom).value;
      assert SearchPass(e, rom).value == (Some(found.0), found.1);
      var full := found.0.full;
      var head := [ResetOp] + ByteOps(SearchRomCmd);
      assert Effect(e, found.1, head + PathOps(full)) by {
        ReplayEffect(e1, rom);
        DescendEffect(e2, rom);
        SplitPrefix(full, |rom|);
        PathOpsAppend(rom, full[|rom|..]);
        EffectChain(e, e0, e1, [ResetOp], ByteOps(SearchRomCmd));
        EffectChain(e1, e2, found.1, PathOps(rom), PathOps(full[|rom|..]));
        EffectChain(e, e1, found.1, head, PathOps(full));
      }
    }
  }

  /** The text search_roms records for a pass: bytes2string of the first
      64 path bits packed into eight bytes. */
  function RomString(b: Branch): (t: string)
    requires |b.full| >= RomBits
    ensures |t| == 23
  {
    Bytes2String(Pack(b.full[..RomBits]))
  }

  /** search_roms (w1ftdi.py:310-319) from a given stack of partial ROMs:
      pop the last one, run a pass, push its forks, record its ROM. A pass
      without a presence pulse returns None, and bytes2string(None) raises. */
  function Searches(e: Engine, stack: seq<seq<bit>>): (r: Result<(seq<string>, Engine)>)
    ensures r.Err? ==> r.error in {ReadTimeout, SearchFailed, NoSearchResult}
    decreases |e.input|
  {
    if |stack| == 0 then Ok(([], e)) else
      var pass :- SearchPass(e, stack[|stack| - 1]);
      if pass.0.None? then Err(NoSearchResult) else
        var more :- Searches(pass.1, stack[..|stack| - 1] + pass.0.value.forks);
        Ok(([RomString(pass.0.value)] + more.0, more.1))
  }

  /** `found` recorded before a search that ends in r. */
  function After(found: seq<string>, r: Result<(seq<string>, Engine)>): Result<(seq<string>, Engine)>
  {
    if r.Ok? then Ok((found + r.value.0, r.value.1)) else r
  }

  lemma AfterNothing(r: Result<(seq<string>, Engine)>)
    ensures After([], r) == r
  {
    if r.Ok? {
      assert [] + r.value.0 == r.value.0;
    }
  }

  lemma AfterAfter(a: seq<string>, b: seq<string>, r: Result<(seq<string>, Engine)>)
    ensures After(a, After(b, r)) == After(a + b, r)
  {
    if r.Ok? {
      assert a + (b + r.value.0) == (a + b) + r.value.0;
    }
  }

  /** The loop of search_roms, run from the single empty partial. It
      returns what Searches describes, and counts the partial ROMs pushed:
      one pass runs for the initial partial and one for each pushed one, so
      a successful search records one ROM more than it pushed. */
  method SearchRoms(e: Engine) returns (r: Result<(seq<string>, Engine)>, pushed: nat)
    ensures r == Searches(e, [[]])
    ensures r.Ok? ==> |r.value.0| == pushed + 1
  {
    var stack: seq<seq<bit>> := [[]];
    var found: seq<string> := [];
    var cur := e;
    pushed := 0;
    AfterNothing(Searches(e, [[]]));
    while |stack| > 0
      invariant Searches(e, [[]]) == After(found, Searches(cur, stack))
      invariant |found| + |stack| == pushed + 1
      decreases |cur.input|
    {
      var pass := SearchPass(cur, stack[|stack| - 1]);
      SearchesStep(cur, stack);
      match pass {
        case Err(x) =>
          return Err(x), pushed;
        case Ok((res, next)) =>
          match res {
            case None =>
              return Err(NoSearchResult), pushed;
            case Some(b) =>
              var rest := stack[..|stack| - 1] + b.forks;
              var rom := RomString(b);
              AfterAfter(found, [rom], Searches(next, rest));
              stack, found, cur, pushed := rest, found + [rom], next, pushed + |b.forks|;
          }
      }
    }
    assert found + [] == found;
    return Ok((found, cur)), pushed;
  }

  /** One pass of the search, as Searches takes it. */
  lemma SearchesStep(e: Engine, stack: seq<seq<bit>>)
    requires |stack| > 0
    ensures var pass := SearchPass(e, stack[|stack| - 1]);
            && (pass.Err? ==> Searches(e, stack) == Err(pass.error))
            && (pass.Ok? && pass.value.0.None? ==> Searches(e, stack) == Err(NoSearchResult))
            && (pass.Ok? && pass.value.0.Some? ==>
                  Searches(e, stack) == After([RomString(pass.value.0.value)],
                    Searches(pass.value.1, stack[..|stack| - 1] + pass.value.0.value.forks)))
  {
  }
}
