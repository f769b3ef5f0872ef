/** The host side of the FTDI link: the write buffer of w1ftdi.py:91-116 and
    the log of what actually went to the device. Nothing here touches USB;
    the log is the observable effect of the code. */
module Transport {
  import opened Types

  /** Operations the drivers call on the master that the shown base class
      does not define. The model records that they happened and nothing
      about what they send. */
  datatype ExtOp = SkipRomOverdrive | Resume | PullupAndCheck

  /** One entry of the transport log: a `write_data` of some bytes, or a
      call into one of the undefined operations. */
  datatype Xfer = Send(data: seq<byte>) | Call(op: ExtOp)

  /** `_buffer`, `_output` (None or the bytes collected so far) and the
      transport log. */
  datatype Port = Port(buffering: bool, output: Option<seq<byte>>, log: seq<Xfer>)

  /** The state the constructor leaves (w1ftdi.py:29-30). */
  const Initial: Port := Port(false, None, [])

  /** Outside buffering nothing is pending; every operation keeps this. */
  predicate Settled(p: Port)
  {
    !p.buffering ==> p.output == None
  }

  function Pending(p: Port): seq<byte>
  {
    if p.output.Some? then p.output.value else []
  }

  /** enable_write_buffer (w1ftdi.py:92-96): fails when already buffering,
      otherwise starts buffering with nothing collected. */
  function EnableWriteBuffer(p: Port): (r: Result<Port>)
    ensures r.Err? <==> p.buffering
    ensures r.Err? ==> r.error == AlreadyBuffering
    ensures r.Ok? ==> r.value.buffering && r.value.output == None && r.value.log == p.log
  {
    if p.buffering then Err(AlreadyBuffering) else Ok(Port(true, None, p.log))
  }

  /** _write (w1ftdi.py:106-116): while buffering, append to what is
      collected and send nothing; otherwise send the bytes as one write. */
  function Write(p: Port, s: seq<byte>): (r: Port)
    ensures r.buffering == p.buffering
    ensures p.buffering ==> r.log == p.log && r.output == Some(Pending(p) + s)
    ensures !p.buffering ==> r.log == p.log + [Send(s)] && r.output == p.output
    ensures Settled(p) ==> Settled(r)
  {
    if p.buffering then
      (if p.output.None? then assert Pending(p) + s == s; p.(output := Some(s))
       else p.(output := Some(p.output.value + s)))
    else p.(log := p.log + [Send(s)])
  }

  /** flush_write_buffer (w1ftdi.py:99-103): buffering ends; whatever was
      collected, even an empty collection, goes out as one write. */
  function FlushWriteBuffer(p: Port): (r: Port)
    ensures !r.buffering && r.output == None
    ensures p.output.Some? ==> r.log == p.log + [Send(p.output.value)]
    ensures p.output.None? ==> r.log == p.log
  {
    var q := p.(buffering := false);
    if q.output.Some? then Write(q, q.output.value).(output := None) else q
  }

  /** One log entry applied to the port: a Send goes through _write, a Call
      is recorded as it happens. */
  function Step(p: Port, x: Xfer): Port
  {
    match x
    case Send(s) => Write(p, s)
    case Call(_) => p.(log := p.log + [x])
  }

  /** A sequence of entries applied in order. */
  function Apply(p: Port, xs: seq<Xfer>): (r: Port)
    ensures r.buffering == p.buffering
    ensures Settled(p) ==> Settled(r)
    decreases |xs|
  {
    if |xs| == 0 then p else Apply(Step(p, xs[0]), xs[1..])
  }

  lemma {:induction false} ApplyAppend(p: Port, a: seq<Xfer>, b: seq<Xfer>)
    ensures Apply(p, a + b) == Apply(Apply(p, a), b)
    decreases |a|
  {
    if |a| == 0 {
      assert a + b == b;
    } else {
      assert (a + b)[0] == a[0];
      assert (a + b)[1..] == a[1..] + b;
      ApplyAppend(Step(p, a[0]), a[1..], b);
    }
  }

  /** Unbuffered, every entry lands in the log as it is, in order. */
  lemma {:induction false} ApplyUnbuffered(p: Port, xs: seq<Xfer>)
    requires !p.buffering
    ensures Apply(p, xs) == p.(log := p.log + xs)
    decreases |xs|
  {
    if |xs| > 0 {
      ApplyUnbuffered(Step(p, xs[0]), xs[1..]);
      assert p.log + [xs[0]] + xs[1..] == p.log + xs;
    } else {
      assert p.log + xs == p.log;
    }
  }

  /** Every entry of xs is a write. */
  predicate AllSends(xs: seq<Xfer>)
  {
    forall k | 0 <= k < |xs| :: xs[k].Send?
  }

  /** The bytes a sequence of writes carries, in order. */
  function Bytes(xs: seq<Xfer>): seq<byte>
    requires AllSends(xs)
  {
    if |xs| == 0 then [] else xs[0].data + Bytes(xs[1..])
  }

  /** Buffered, writes only extend what is collected: nothing is sent, and
      the collection grows by exactly their bytes. */
  lemma {:induction false} ApplyBuffered(p: Port, xs: seq<Xfer>)
    requires p.buffering && AllSends(xs)
    ensures Apply(p, xs).log == p.log
    ensures |xs| == 0 ==> Apply(p, xs).output == p.output
    ensures |xs| > 0 ==> Apply(p, xs).output == Some(Pending(p) + Bytes(xs))
    decreases |xs|
  {
    if |xs| > 0 {
      var q := Step(p, xs[0]);
      ApplyBuffered(q, xs[1..]);
      assert Pending(q) == Pending(p) + xs[0].data;
      if |xs| == 1 {
        assert Bytes(xs) == xs[0].data + [] == xs[0].data;
      } else {
        assert Pending(p) + xs[0].data + Bytes(xs[1..]) == Pending(p) + Bytes(xs);
      }
    }
  }

  function Sends(ws: seq<seq<byte>>): (xs: seq<Xfer>)
    ensures |xs| == |ws| && AllSends(xs)
  {
    seq(|ws|, k requires 0 <= k < |ws| => Send(ws[k]))
  }

  function Concat(ws: seq<seq<byte>>): seq<byte>
  {
    if |ws| == 0 then [] else ws[0] + Concat(ws[1..])
  }

  lemma {:induction false} BytesOfSends(ws: seq<seq<byte>>)
    ensures Bytes(Sends(ws)) == Concat(ws)
  {
    if |ws| > 0 {
      assert Sends(ws)[1..] == Sends(ws[1..]);
      BytesOfSends(ws[1..]);
    }
  }

  /** Batching changes how many transport writes happen, never which bytes
      go out. The same writes issued (1) one at a time from a settled port,
      and (2) between enable_write_buffer and flush_write_buffer, put the
      same bytes on the wire in the same order; (1) makes one transport
      write per call, (2) makes exactly one transport write if there was at
      least one call and none otherwise, and ends with buffering off. */
  lemma BatchEquivalence(p: Port, ws: seq<seq<byte>>)
    requires Settled(p) && !p.buffering
    ensures var direct := Apply(p, Sends(ws));
            && direct.log == p.log + Sends(ws)
            && Bytes(direct.log[|p.log|..]) == Concat(ws)
    ensures EnableWriteBuffer(p).Ok?
    ensures var batched := FlushWriteBuffer(Apply(EnableWriteBuffer(p).value, Sends(ws)));
            && !batched.buffering && batched.output == None
            && (|ws| == 0 ==> batched.log == p.log)
            && (|ws| > 0 ==> batched.log == p.log + [Send(Concat(ws))])
  {
    var xs := Sends(ws);
    ApplyUnbuffered(p, xs);
    assert (p.log + xs)[|p.log|..] == xs;
    BytesOfSends(ws);
    var q := EnableWriteBuffer(p).value;
    ApplyBuffered(q, xs);
    var collected := Apply(q, xs);
    assert collected.log == p.log;
    if |ws| > 0 {
      assert Pending(q) == [];
      assert Pending(q) + Bytes(xs) == Concat(ws);
      assert collected.output == Some(Concat(ws));
    }
  }
}
