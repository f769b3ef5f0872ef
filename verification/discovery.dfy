/** The devices on the bus, seen from the search: each holds a 64-bit ROM
    code, and a device takes part in a poll while every bit written so far
    matched its own. The bit slot reads the wired AND of the participants'
    next bits, the complement slot the wired AND of their complements. On
    this model the search of w1ftdi.py:310-365 finds every device exactly
    once. */
module Discovery {
  import opened Types
  import opened OneWire
  import opened RomCode
  import opened Search

  /** d starts with p. */
  predicate Extends(d: seq<bit>, p: seq<bit>)
  {
    |p| <= |d| && d[..|p|] == p
  }

  /** Every device has a whole ROM code. */
  predicate Roms(devs: set<seq<bit>>)
  {
    forall d | d in devs :: |d| == RomBits
  }

  /** Some participant at `path` has bit v next. */
  ghost predicate Has(devs: set<seq<bit>>, path: seq<bit>, v: bit)
  {
    exists d :: d in devs && Extends(d, path) && |path| < |d| && d[|path|] == v
  }

  /** What the two read slots of a poll at `path` sample: a slot reads 0
      when some participant pulls the line low. */
  ghost function PollBits(devs: set<seq<bit>>, path: seq<bit>): (bit, bit)
  {
    (if Has(devs, path, 0) then 0 else 1, if Has(devs, path, 1) then 0 else 1)
  }

  ghost function DevPoll(devs: set<seq<bit>>): seq<bit> -> Decision
  {
    p => Decide(PollBits(devs, p).0, PollBits(devs, p).1)
  }

  /** The devices whose ROM starts with p. */
  ghost function Ext(devs: set<seq<bit>>, p: seq<bit>): set<seq<bit>>
  {
    set d | d in devs && Extends(d, p)
  }

  ghost function ExtAll(devs: set<seq<bit>>, ps: seq<seq<bit>>): set<seq<bit>>
  {
    if |ps| == 0 then {} else Ext(devs, ps[0]) + ExtAll(devs, ps[1..])
  }

  lemma {:induction false} ExtAllAppend(devs: set<seq<bit>>, a: seq<seq<bit>>, b: seq<seq<bit>>)
    ensures ExtAll(devs, a + b) == ExtAll(devs, a) + ExtAll(devs, b)
  {
    if |a| == 0 {
      assert a + b == b;
    } else {
      assert (a + b)[0] == a[0];
      assert (a + b)[1..] == a[1..] + b;
      ExtAllAppend(devs, a[1..], b);
    }
  }

  lemma {:induction false} ExtAllMember(devs: set<seq<bit>>, ps: seq<seq<bit>>, d: seq<bit>)
    ensures d in ExtAll(devs, ps) <==> exists i | 0 <= i < |ps| :: d in Ext(devs, ps[i])
  {
    if |ps| > 0 {
      ExtAllMember(devs, ps[1..], d);
      if d in ExtAll(devs, ps[1..]) {
        var i :| 0 <= i < |ps[1..]| && d in Ext(devs, ps[1..][i]);
        assert d in Ext(devs, ps[i + 1]);
      }
      if exists i | 0 <= i < |ps| :: d in Ext(devs, ps[i]) {
        var i :| 0 <= i < |ps| && d in Ext(devs, ps[i]);
        if i > 0 {
          assert d in Ext(devs, ps[1..][i - 1]);
        }
      }
    }
  }

  /** A stack of partial ROMs the search can work from: each no longer than
      a ROM, each the prefix of some device, no device below two of them. */
  ghost predicate StackOk(devs: set<seq<bit>>, stack: seq<seq<bit>>)
  {
    && (forall i | 0 <= i < |stack| :: |stack[i]| <= RomBits && Ext(devs, stack[i]) != {})
    && (forall i, j | 0 <= i < |stack| && 0 <= j < |stack| && i != j ::
          Ext(devs, stack[i]) !! Ext(devs, stack[j]))
  }

  /** The devices below `path` split by the next bit. */
  lemma ExtSplit(devs: set<seq<bit>>, path: seq<bit>)
    requires Roms(devs) && |path| < RomBits
    ensures Ext(devs, path) == Ext(devs, path + [0]) + Ext(devs, path + [1])
    ensures Ext(devs, path + [0]) !! Ext(devs, path + [1])
    ensures Has(devs, path, 0) <==> Ext(devs, path + [0]) != {}
    ensures Has(devs, path, 1) <==> Ext(devs, path + [1]) != {}
  {
    forall d | d in devs
      ensures Extends(d, path) <==> Extends(d, path + [0]) || Extends(d, path + [1])
      ensures Extends(d, path + [0]) ==> Extends(d, path) && d[|path|] == 0
      ensures Extends(d, path + [1]) ==> Extends(d, path) && d[|path|] == 1
    {
      if Extends(d, path) {
        assert d[..|path| + 1] == d[..|path|] + [d[|path|]];
      }
      if Extends(d, path + [0]) || Extends(d, path + [1]) {
        assert d[..|path|] == d[..|path| + 1][..|path|];
        assert d[|path|] == d[..|path| + 1][|path|];
      }
    }
    if Has(devs, path, 0) {
      var d :| d in devs && Extends(d, path) && |path| < |d| && d[|path|] == 0;
      assert d in Ext(devs, path + [0]);
    }
    if Has(devs, path, 1) {
      var d :| d in devs && Extends(d, path) && |path| < |d| && d[|path|] == 1;
      assert d in Ext(devs, path + [1]);
    }
  }

  /** A whole ROM code extends only itself. */
  lemma ExtFull(devs: set<seq<bit>>, path: seq<bit>)
    requires Roms(devs) && |path| == RomBits
    ensures Ext(devs, path) == if path in devs then {path} else {}
  {
    forall d | d in Ext(devs, path)
      ensures d == path
    {
      assert d == d[..|path|];
    }
    if path in devs {
      assert path[..|path|] == path;
      assert path in Ext(devs, path);
    }
  }

  /** The walk from a path some device starts with ends on a device; the
      devices below the path are that device and the devices below the
      forks it leaves, and no device lies below two of these. */
  lemma {:induction false} WalkPartition(devs: set<seq<bit>>, path: seq<bit>)
    requires Roms(devs) && |path| <= RomBits && Ext(devs, path) != {}
    ensures Walk(DevPoll(devs), path).Ok?
    ensures var b := Walk(DevPoll(devs), path).value;
            && b.full in Ext(devs, path)
            && StackOk(devs, b.forks)
            && b.full !in ExtAll(devs, b.forks)
            && Ext(devs, path) == {b.full} + ExtAll(devs, b.forks)
    decreases Remaining(path)
  {
    var poll := DevPoll(devs);
    if |path| == RomBits {
      ExtFull(devs, path);
    } else {
      ExtSplit(devs, path);
      var d := poll(path);
      assert d == Decide(PollBits(devs, path).0, PollBits(devs, path).1);
      if d.Take? {
        var next := path + [d.b];
        WalkPartition(devs, next);
        WalkStep(poll, path);
      } else {
        assert d.Fork?;
        var next := path + [0];
        WalkPartition(devs, next);
        WalkStep(poll, path);
        ForkPartition(devs, path, Walk(poll, next).value);
      }
    }
  }

  /** The fork case of WalkPartition: the 1 branch joins the forks. */
  lemma ForkPartition(devs: set<seq<bit>>, path: seq<bit>, rest: Branch)
    requires Roms(devs) && |path| < RomBits
    requires Ext(devs, path) == Ext(devs, path + [0]) + Ext(devs, path + [1])
    requires Ext(devs, path + [0]) !! Ext(devs, path + [1]) && Ext(devs, path + [1]) != {}
    requires rest.full in Ext(devs, path + [0]) && StackOk(devs, rest.forks)
    requires rest.full !in ExtAll(devs, rest.forks)
    requires Ext(devs, path + [0]) == {rest.full} + ExtAll(devs, rest.forks)
    ensures var forks := [path + [1]] + rest.forks;
            && rest.full in Ext(devs, path)
            && StackOk(devs, forks)
            && rest.full !in ExtAll(devs, forks)
            && Ext(devs, path) == {rest.full} + ExtAll(devs, forks)
  {
    var f := path + [1];
    var forks := [f] + rest.forks;
    assert forks[1..] == rest.forks;
    assert ExtAll(devs, forks) == Ext(devs, f) + ExtAll(devs, rest.forks);
    PushStackOk(devs, f, rest.forks);
  }

  /** Every entry's devices are among the devices below the stack. */
  lemma ExtAllCovers(devs: set<seq<bit>>, ps: seq<seq<bit>>)
    ensures forall i | 0 <= i < |ps| :: Ext(devs, ps[i]) <= ExtAll(devs, ps)
  {
    forall i | 0 <= i < |ps|
      ensures Ext(devs, ps[i]) <= ExtAll(devs, ps)
    {
      forall x | x in Ext(devs, ps[i])
        ensures x in ExtAll(devs, ps)
      {
        ExtAllMember(devs, ps, x);
      }
    }
  }

  /** Pushing a partial whose devices lie below none of a workable stack's
      entries keeps the stack workable. */
  lemma PushStackOk(devs: set<seq<bit>>, f: seq<bit>, ps: seq<seq<bit>>)
    requires StackOk(devs, ps) && |f| <= RomBits && Ext(devs, f) != {}
    requires Ext(devs, f) !! ExtAll(devs, ps)
    ensures StackOk(devs, [f] + ps)
  {
    var forks := [f] + ps;
    ExtAllCovers(devs, ps);
    forall i, j | 0 <= i < |forks| && 0 <= j < |forks| && i != j
      ensures Ext(devs, forks[i]) !! Ext(devs, forks[j])
    {
      if i > 0 {
        assert forks[i] == ps[i - 1];
      }
      if j > 0 {
        assert forks[j] == ps[j - 1];
      }
    }
  }

  /** Each partial ROM weighs the number of ROM codes below it. */
  function Weight(stack: seq<seq<bit>>): nat
  {
    if |stack| == 0 then 0 else Pow2(Remaining(stack[0])) + Weight(stack[1..])
  }

  lemma {:induction false} WeightAppend(a: seq<seq<bit>>, b: seq<seq<bit>>)
    ensures Weight(a + b) == Weight(a) + Weight(b)
  {
    if |a| == 0 {
      assert a + b == b;
    } else {
      assert (a + b)[0] == a[0];
      assert (a + b)[1..] == a[1..] + b;
      WeightAppend(a[1..], b);
    }
  }

  lemma {:induction false} Pow2Mono(m: nat, n: nat)
    requires m <= n
    ensures Pow2(m) <= Pow2(n)
    decreases n
  {
    if m < n {
      Pow2Mono(m, n - 1);
    }
  }

  /** Forks strictly deeper than `lo`, each deeper than the one before,
      weigh less than the partial they came from. */
  lemma {:induction false} ForkWeight(forks: seq<seq<bit>>, lo: nat)
    requires lo <= RomBits
    requires forall i | 0 <= i < |forks| :: lo < |forks[i]| <= RomBits
    requires forall i, j | 0 <= i < j < |forks| :: |forks[i]| < |forks[j]|
    ensures Weight(forks) < Pow2(RomBits - lo)
  {
    if |forks| > 0 {
      var l0 := |forks[0]|;
      assert forall i | 0 <= i < |forks[1..]| :: forks[1..][i] == forks[i + 1];
      ForkWeight(forks[1..], l0);
      Pow2Mono(RomBits - l0 + 1, RomBits - lo);
    }
  }

  /** A pass pops the last partial and pushes its forks; the stack gets
      lighter. */
  lemma PassWeight(stack: seq<seq<bit>>, b: Branch)
    requires |stack| > 0 && Shaped(stack[|stack| - 1], b)
    ensures Weight(stack[..|stack| - 1] + b.forks) < Weight(stack)
  {
    ShapedWeight(stack[|stack| - 1], b);
    Lighter(stack, b.forks);
  }

  /** The forks of a walk weigh less than the partial it started from. */
  lemma ShapedWeight(p: seq<bit>, b: Branch)
    requires Shaped(p, b)
    ensures Weight(b.forks) < Pow2(Remaining(p))
  {
    ForkWeight(b.forks, |p|);
  }

  /** Replacing the last partial by lighter ones lightens the stack. */
  lemma Lighter(stack: seq<seq<bit>>, forks: seq<seq<bit>>)
    requires |stack| > 0 && Weight(forks) < Pow2(Remaining(stack[|stack| - 1]))
    ensures Weight(stack[..|stack| - 1] + forks) < Weight(stack)
  {
    WeightAppend(stack[..|stack| - 1], forks);
    WeightLast(stack);
  }

  /** The last partial's share of the weight. */
  lemma WeightLast(stack: seq<seq<bit>>)
    requires |stack| > 0
    ensures Weight(stack) == Weight(stack[..|stack| - 1]) + Pow2(Remaining(stack[|stack| - 1]))
  {
    var n := |stack| - 1;
    var p := stack[n];
    SplitLast(stack);
    WeightAppend(stack[..n], [p]);
    assert Weight([p]) == Pow2(Remaining(p)) + Weight([]);
  }

  /** The stack after a pass from a whole walk holds partials no longer
      than a ROM, and is lighter. */
  lemma NextBounded(devs: set<seq<bit>>, stack: seq<seq<bit>>, b: Branch)
    requires forall i | 0 <= i < |stack| :: |stack[i]| <= RomBits
    requires |stack| > 0 && Walk(DevPoll(devs), stack[|stack| - 1]) == Ok(b)
    ensures var next := stack[..|stack| - 1] + b.forks;
            && Weight(next) < Weight(stack)
            && forall i | 0 <= i < |next| :: |next[i]| <= RomBits
  {
    var n := |stack| - 1;
    var head := stack[..n];
    WalkShape(DevPoll(devs), stack[n]);
    PassWeight(stack, b);
    forall i | 0 <= i < |head + b.forks|
      ensures |(head + b.forks)[i]| <= RomBits
    {
      AppendIndex(head, b.forks, i);
    }
  }

  /** The search on the device model: pop the last partial, walk from it,
      keep the ROM the walk ends on, push the forks. */
  ghost function SearchAll(devs: set<seq<bit>>, stack: seq<seq<bit>>): Result<seq<seq<bit>>>
    requires forall i | 0 <= i < |stack| :: |stack[i]| <= RomBits
    decreases Weight(stack)
  {
    if |stack| == 0 then Ok([]) else
      var p := stack[|stack| - 1];
      var b :- Walk(DevPoll(devs), p);
      var next := stack[..|stack| - 1] + b.forks;
      NextBounded(devs, stack, b);
      var more :- SearchAll(devs, next);
      Ok([b.full] + more)
  }

  predicate Distinct<T(==)>(s: seq<T>)
  {
    forall i, j | 0 <= i < |s| && 0 <= j < |s| && i != j :: s[i] != s[j]
  }

  /** `found` lists each element of `all` exactly once, and nothing else. */
  predicate Enumerates<T(==)>(found: seq<T>, all: set<T>)
  {
    && Distinct(found)
    && (forall i | 0 <= i < |found| :: found[i] in all)
    && (forall d | d in all :: d in found)
  }

  /** From a stack it can work from, the search succeeds and finds every
      device below the stack exactly once. */
  lemma {:induction false} SearchAllFinds(devs: set<seq<bit>>, stack: seq<seq<bit>>)
    requires Roms(devs) && StackOk(devs, stack)
    ensures SearchAll(devs, stack).Ok?
    ensures Enumerates(SearchAll(devs, stack).value, ExtAll(devs, stack))
    decreases Weight(stack)
  {
    if |stack| > 0 {
      var b := PassFacts(devs, stack);
      var next := stack[..|stack| - 1] + b.forks;
      SearchAllFinds(devs, next);
      SearchAllStep(devs, stack, b);
      FoundAll(b.full, SearchAll(devs, next).value, ExtAll(devs, next), ExtAll(devs, stack));
    }
  }

  /** One pass of SearchAll, once the walk from the top has succeeded. */
  lemma SearchAllStep(devs: set<seq<bit>>, stack: seq<seq<bit>>, b: Branch)
    requires forall i | 0 <= i < |stack| :: |stack[i]| <= RomBits
    requires |stack| > 0 && Walk(DevPoll(devs), stack[|stack| - 1]) == Ok(b)
    ensures var next := stack[..|stack| - 1] + b.forks;
            && (forall i | 0 <= i < |next| :: |next[i]| <= RomBits)
            && (SearchAll(devs, next).Ok? ==> SearchAll(devs, stack) == Ok([b.full] + SearchAll(devs, next).value))
  {
    NextBounded(devs, stack, b);
  }

  /** A found ROM put before an enumeration of the rest enumerates all. */
  lemma FoundAll<T>(x: T, more: seq<T>, below: set<T>, all: set<T>)
    requires all == {x} + below && x !in below && Enumerates(more, below)
    ensures Enumerates([x] + more, all)
  {
    FoundDistinct(x, more, below);
    FoundCover(x, more, below, all);
  }

  /** One pass of the search on a workable stack: the walk from the last
      partial succeeds, and what lies below the stack is the ROM it finds
      plus what lies below the next stack, which is workable and lighter. */
  lemma PassFacts(devs: set<seq<bit>>, stack: seq<seq<bit>>) returns (b: Branch)
    requires Roms(devs) && StackOk(devs, stack) && |stack| > 0
    ensures Walk(DevPoll(devs), stack[|stack| - 1]) == Ok(b)
    ensures var next := stack[..|stack| - 1] + b.forks;
            && StackOk(devs, next)
            && Weight(next) < Weight(stack)
            && ExtAll(devs, stack) == {b.full} + ExtAll(devs, next)
            && b.full !in ExtAll(devs, next)
  {
    var n := |stack| - 1;
    var p := stack[n];
    var head := stack[..n];
    WalkPartition(devs, p);
    b := Walk(DevPoll(devs), p).value;
    WalkShape(DevPoll(devs), p);
    PassWeight(stack, b);
    NextStackOk(devs, stack, b);
    StackSplit(devs, stack);
    ExtAllAppend(devs, head, b.forks);
    HeadDisjoint(devs, stack, b.full);
    PassSets(ExtAll(devs, stack), ExtAll(devs, head), Ext(devs, p), b.full,
             ExtAll(devs, b.forks), ExtAll(devs, head + b.forks));
  }

  /** The devices below a stack are those below its top and those below the rest. */
  lemma StackSplit(devs: set<seq<bit>>, stack: seq<seq<bit>>)
    requires |stack| > 0
    ensures ExtAll(devs, stack) == ExtAll(devs, stack[..|stack| - 1]) + Ext(devs, stack[|stack| - 1])
  {
    var n := |stack| - 1;
    SplitLast(stack);
    ExtAllAppend(devs, stack[..n], [stack[n]]);
    assert ExtAll(devs, [stack[n]]) == Ext(devs, stack[n]) + ExtAll(devs, []);
  }

  /** A device below the top of a workable stack is below no other entry. */
  lemma HeadDisjoint(devs: set<seq<bit>>, stack: seq<seq<bit>>, x: seq<bit>)
    requires StackOk(devs, stack) && |stack| > 0 && x in Ext(devs, stack[|stack| - 1])
    ensures x !in ExtAll(devs, stack[..|stack| - 1])
  {
    var n := |stack| - 1;
    var head := stack[..n];
    forall i | 0 <= i < n
      ensures x !in Ext(devs, head[i])
    {
      assert head[i] == stack[i];
      assert Ext(devs, stack[i]) !! Ext(devs, stack[n]);
    }
    ExtAllMember(devs, head, x);
  }

  /** The set algebra of one pass: the top's devices are the found ROM and
      the forks' devices, none shared with the rest of the stack. */
  lemma PassSets<T>(all: set<T>, head: set<T>, top: set<T>, x: T, forks: set<T>, next: set<T>)
    requires all == head + top && top == {x} + forks && next == head + forks
    requires x !in head && x !in forks
    ensures all == {x} + next && x !in next
  {
  }

  lemma FoundCover<T>(x: T, more: seq<T>, below: set<T>, all: set<T>)
    requires all == {x} + below
    requires forall i | 0 <= i < |more| :: more[i] in below
    requires forall d | d in below :: d in more
    ensures forall i | 0 <= i < |[x] + more| :: ([x] + more)[i] in all
    ensures forall d | d in all :: d in [x] + more
  {
    var s := [x] + more;
    forall i | 0 <= i < |s|
      ensures s[i] in all
    {
      if i > 0 {
        assert s[i] == more[i - 1];
      }
    }
  }

  lemma FoundDistinct<T>(x: T, more: seq<T>, below: set<T>)
    requires Distinct(more) && x !in below
    requires forall i | 0 <= i < |more| :: more[i] in below
    ensures Distinct([x] + more)
  {
    var s := [x] + more;
    forall i, j | 0 <= i < |s| && 0 <= j < |s| && i != j
      ensures s[i] != s[j]
    {
      if i > 0 && j > 0 {
        assert s[i] == more[i - 1] && s[j] == more[j - 1];
      } else if i == 0 {
        assert s[j] == more[j - 1];
      } else {
        assert s[i] == more[i - 1];
      }
    }
  }

  /** Popping a partial and pushing its forks keeps the stack workable. */
  lemma NextStackOk(devs: set<seq<bit>>, stack: seq<seq<bit>>, b: Branch)
    requires StackOk(devs, stack) && |stack| > 0 && StackOk(devs, b.forks)
    requires Ext(devs, stack[|stack| - 1]) == {b.full} + ExtAll(devs, b.forks)
    ensures StackOk(devs, stack[..|stack| - 1] + b.forks)
  {
    var n := |stack| - 1;
    var p := stack[n];
    var head := stack[..n];
    var next := head + b.forks;
    forall j | 0 <= j < |b.forks|
      ensures Ext(devs, b.forks[j]) <= Ext(devs, p)
    {
      forall x | x in Ext(devs, b.forks[j])
        ensures x in ExtAll(devs, b.forks)
      {
        ExtAllMember(devs, b.forks, x);
      }
    }
    forall i | 0 <= i < n
      ensures head[i] == stack[i]
    {
    }
    forall i | 0 <= i < |next|
      ensures next[i] == if i < n then stack[i] else b.forks[i - n]
    {
      AppendIndex(head, b.forks, i);
    }
    forall i, j | 0 <= i < |next| && 0 <= j < |next| && i != j
      ensures Ext(devs, next[i]) !! Ext(devs, next[j])
    {
      if i < n && j >= n {
        assert Ext(devs, stack[i]) !! Ext(devs, stack[n]);
      } else if j < n && i >= n {
        assert Ext(devs, stack[j]) !! Ext(devs, stack[n]);
      }
    }
  }

  /** On a bus with at least one device, the search from the empty partial
      finds each device's ROM code once and nothing else. */
  lemma SearchFindsEveryDevice(devs: set<seq<bit>>)
    requires Roms(devs) && devs != {}
    ensures SearchAll(devs, [[]]).Ok?
    ensures var found := SearchAll(devs, [[]]).value;
            && Distinct(found)
            && (forall i | 0 <= i < |found| :: found[i] in devs)
            && (forall d | d in devs :: d in found)
  {
    assert Ext(devs, []) == devs by {
      forall d | d in devs
        ensures Extends(d, [])
      {
      }
    }
    assert ExtAll(devs, [[]]) == Ext(devs, []) + ExtAll(devs, []);
    SearchAllFinds(devs, [[]]);
  }

  /** A walk only looks at the poll along the path it ends on: another
      poll agreeing there gives the same walk. */
  lemma {:induction false} WalkAlong(p1: seq<bit> -> Decision, p2: seq<bit> -> Decision, path: seq<bit>)
    requires |path| <= RomBits && Walk(p1, path).Ok?
    requires var full := Walk(p1, path).value.full;
      forall k | |path| <= k < RomBits :: p2(full[..k]) == p1(full[..k])
    ensures Walk(p2, path) == Walk(p1, path)
    decreases Remaining(path)
  {
    if |path| < RomBits {
      var full := Walk(p1, path).value.full;
      WalkShape(p1, path);
      assert full[..|path|] == path;
      assert p2(path) == p1(path);
      var next := path + [NextBit(p1(path))];
      WalkExtend(p1, path);
      WalkExtend(p2, path);
      assert Walk(p1, next).value.full == full;
      WalkAlong(p1, p2, next);
    }
  }

  /** The samples one pass from partial p reads on a bus of devs: a
      presence pulse, then for every depth the devices' walk goes through
      below p, two read slots showing the wired AND of the participants'
      next bit and of its complement. The samples of the replayed depths
      are not looked at. */
  ghost predicate PassAnswers(devs: set<seq<bit>>, pin: nat, s: seq<byte>, p: seq<bit>)
    requires |p| <= RomBits
  {
    && 4 + 4 * RomBits <= |s| && s[..4] != NoPresence
    && Walk(DevPoll(devs), p).Ok?
    && var full := Walk(DevPoll(devs), p).value.full;
       forall k | |p| <= k < RomBits ::
         && PinLevel(pin, s[4 + 4 * k], s[5 + 4 * k]) == PollBits(devs, full[..k]).0
         && PinLevel(pin, s[6 + 4 * k], s[7 + 4 * k]) == PollBits(devs, full[..k]).1
  }

  /** The samples of a whole search on a bus of devs: each pass, from the
      partial on top of the stack, reads what PassAnswers describes, and the
      next pass starts where it stopped, on the stack it left. */
  ghost predicate BusAnswers(devs: set<seq<bit>>, pin: nat, s: seq<byte>, stack: seq<seq<bit>>)
    requires forall i | 0 <= i < |stack| :: |stack[i]| <= RomBits
    decreases Weight(stack)
  {
    || |stack| == 0
    || var p := stack[|stack| - 1];
       && PassAnswers(devs, pin, s, p)
       && var b := Walk(DevPoll(devs), p).value;
          NextBounded(devs, stack, b);
          BusAnswers(devs, pin, s[4 + 4 * RomBits..], stack[..|stack| - 1] + b.forks)
  }

  /** On such samples a pass finds the branch the devices' walk finds. */
  lemma PassOnBus(e: Engine, devs: set<seq<bit>>, p: seq<bit>)
    requires |p| <= RomBits && PassAnswers(devs, e.cfg.pin, e.input, p)
    ensures SearchPass(e, p).Ok?
    ensures SearchPass(e, p).value.0 == Some(Walk(DevPoll(devs), p).value)
    ensures SearchPass(e, p).value.1.input == e.input[4 + 4 * RomBits..]
    ensures SearchPass(e, p).value.1.cfg == e.cfg
  {
    PassPollAgrees(devs, e.cfg.pin, e.input, p);
    WalkAlong(DevPoll(devs), PassPoll(e.cfg.pin, e.input), p);
    SearchPassWalk(e, p);
    var r := SearchPass(e, p);
    assert |p| + Remaining(p) == RomBits;
    assert r.value.1.input == e.input[4 + 4 * (|p| + Remaining(p))..];
  }

  /** The decisions a pass reads off such samples are the devices'
      decisions along their walk. */
  lemma PassPollAgrees(devs: set<seq<bit>>, pin: nat, s: seq<byte>, p: seq<bit>)
    requires |p| <= RomBits && PassAnswers(devs, pin, s, p)
    ensures var full := Walk(DevPoll(devs), p).value.full;
      forall k | |p| <= k < RomBits :: PassPoll(pin, s)(full[..k]) == DevPoll(devs)(full[..k])
  {
    var full := Walk(DevPoll(devs), p).value.full;
    forall k | |p| <= k < RomBits
      ensures PassPoll(pin, s)(full[..k]) == DevPoll(devs)(full[..k])
    {
      var q := full[..k];
      var bits := PollBits(devs, q);
      assert PinLevel(pin, s[4 + 4 * k], s[5 + 4 * k]) == bits.0;
      assert PinLevel(pin, s[6 + 4 * k], s[7 + 4 * k]) == bits.1;
      TapeAt(pin, s, k);
      assert PassPoll(pin, s)(q) == TapeDecision(pin, s[4..], 4 * k);
    }
  }

  /** Depth k of a pass's tape is read from samples 4 + 4k on. */
  lemma TapeAt(pin: nat, s: seq<byte>, k: nat)
    requires 4 * k + 8 <= |s|
    ensures TapeDecision(pin, s[4..], 4 * k)
         == Decide(PinLevel(pin, s[4 + 4 * k], s[5 + 4 * k]), PinLevel(pin, s[6 + 4 * k], s[7 + 4 * k]))
  {
    assert s[4..][4 * k] == s[4 + 4 * k] && s[4..][4 * k + 1] == s[5 + 4 * k];
    assert s[4..][4 * k + 2] == s[6 + 4 * k] && s[4..][4 * k + 3] == s[7 + 4 * k];
  }

  /** The ROM codes of a search as search_roms records them. */
  function Printed(roms: seq<seq<bit>>): (t: seq<string>)
    requires forall i | 0 <= i < |roms| :: |roms[i]| == RomBits
    ensures |t| == |roms|
  {
    if |roms| == 0 then [] else [Bytes2String(Pack(roms[0]))] + Printed(roms[1..])
  }

  /** Every device below a stack is a device. */
  lemma ExtAllDevices(devs: set<seq<bit>>, ps: seq<seq<bit>>)
    ensures ExtAll(devs, ps) <= devs
  {
    forall d | d in ExtAll(devs, ps)
      ensures d in devs
    {
      ExtAllMember(devs, ps, d);
    }
  }

  /** The engine's search, on the samples a bus of devs gives it, records
      the ROM codes the device-set search finds, in the same order. */
  lemma {:induction false} SearchesOnBus(e: Engine, devs: set<seq<bit>>, stack: seq<seq<bit>>)
    requires Roms(devs) && StackOk(devs, stack) && BusAnswers(devs, e.cfg.pin, e.input, stack)
    ensures SearchAll(devs, stack).Ok?
    ensures forall i | 0 <= i < |SearchAll(devs, stack).value| :: |SearchAll(devs, stack).value[i]| == RomBits
    ensures Searches(e, stack).Ok?
    ensures Searches(e, stack).value.0 == Printed(SearchAll(devs, stack).value)
    decreases Weight(stack)
  {
    SearchAllFinds(devs, stack);
    ExtAllDevices(devs, stack);
    if |stack| > 0 {
      var p := stack[|stack| - 1];
      var b := PassFacts(devs, stack);
      var next := stack[..|stack| - 1] + b.forks;
      PassOnBus(e, devs, p);
      var e1 := SearchPass(e, p).value.1;
      BusAnswersNext(devs, e.cfg.pin, e.input, stack);
      SearchesOnBus(e1, devs, next);
      var more := SearchAll(devs, next).value;
      JoinPass(e, e1, stack, b, Printed(more));
      SearchAllStep(devs, stack, b);
      PrintedCons(b.full, more);
    }
  }

  /** After the first pass the rest of the samples answer the next stack. */
  lemma BusAnswersNext(devs: set<seq<bit>>, pin: nat, s: seq<byte>, stack: seq<seq<bit>>)
    requires |stack| > 0 && forall i | 0 <= i < |stack| :: |stack[i]| <= RomBits
    requires BusAnswers(devs, pin, s, stack)
    ensures PassAnswers(devs, pin, s, stack[|stack| - 1])
    ensures var b := Walk(DevPoll(devs), stack[|stack| - 1]).value;
            var next := stack[..|stack| - 1] + b.forks;
            && (forall i | 0 <= i < |next| :: |next[i]| <= RomBits)
            && BusAnswers(devs, pin, s[4 + 4 * RomBits..], next)
  {
    var b := Walk(DevPoll(devs), stack[|stack| - 1]).value;
    NextBounded(devs, stack, b);
  }

  /** One pass of the engine's search, put in front of the rest. */
  lemma JoinPass(e: Engine, e1: Engine, stack: seq<seq<bit>>, b: Branch, found: seq<string>)
    requires |stack| > 0 && |b.full| == RomBits
    requires SearchPass(e, stack[|stack| - 1]) == Ok((Some(b), e1))
    requires var next := stack[..|stack| - 1] + b.forks;
      Searches(e1, next).Ok? && Searches(e1, next).value.0 == found
    ensures Searches(e, stack).Ok?
    ensures Searches(e, stack).value.0 == [Bytes2String(Pack(b.full))] + found
  {
    SearchesStep(e, stack);
    assert b.full[..RomBits] == b.full;
  }

  lemma PrintedCons(x: seq<bit>, more: seq<seq<bit>>)
    requires |x| == RomBits && forall i | 0 <= i < |more| :: |more[i]| == RomBits
    ensures Printed([x] + more) == [Bytes2String(Pack(x))] + Printed(more)
  {
    assert ([x] + more)[1..] == more;
  }

  /** Distinct ROM codes print differently. */
  lemma PrintedDiffer(x: seq<bit>, y: seq<bit>)
    requires |x| == RomBits && |y| == RomBits && x != y
    ensures Bytes2String(Pack(x)) != Bytes2String(Pack(y))
  {
    RomTextRoundTrip(x);
    RomTextRoundTrip(y);
  }

  /** The printed ROM codes of the devices. */
  ghost function PrintedSet(devs: set<seq<bit>>): set<string>
    requires Roms(devs)
  {
    set d | d in devs :: Bytes2String(Pack(d))
  }

  /** Printing keeps an enumeration of ROM codes an enumeration. */
  lemma PrintedEnumerates(roms: seq<seq<bit>>, devs: set<seq<bit>>)
    requires Roms(devs) && Enumerates(roms, devs)
    ensures Enumerates(Printed(roms), PrintedSet(devs))
  {
    var t := Printed(roms);
    PrintedAt(roms);
    forall i, j | 0 <= i < |t| && 0 <= j < |t| && i != j
      ensures t[i] != t[j]
    {
      PrintedDiffer(roms[i], roms[j]);
    }
    forall d | d in devs
      ensures Bytes2String(Pack(d)) in t
    {
      var i :| 0 <= i < |roms| && roms[i] == d;
      assert t[i] == Bytes2String(Pack(d));
    }
  }

  lemma {:induction false} PrintedAt(roms: seq<seq<bit>>)
    requires forall i | 0 <= i < |roms| :: |roms[i]| == RomBits
    ensures forall i | 0 <= i < |roms| :: Printed(roms)[i] == Bytes2String(Pack(roms[i]))
  {
    if |roms| > 0 {
      PrintedAt(roms[1..]);
      assert forall i | 1 <= i < |roms| :: Printed(roms)[i] == Printed(roms[1..])[i - 1];
    }
  }

  /** search_roms on a bus of devices, from the single empty partial,
      records each device's printed ROM code exactly once and nothing else,
      provided the bus answers every pass as those devices do. */
  lemma SearchRomsFindsEveryDevice(e: Engine, devs: set<seq<bit>>)
    requires Roms(devs) && devs != {} && BusAnswers(devs, e.cfg.pin, e.input, [[]])
    ensures Searches(e, [[]]).Ok?
    ensures Enumerates(Searches(e, [[]]).value.0, PrintedSet(devs))
  {
    SearchFindsEveryDevice(devs);
    assert StackOk(devs, [[]]) by {
      EmptyPrefix(devs);
    }
    SearchesOnBus(e, devs, [[]]);
    var roms := SearchAll(devs, [[]]).value;
    assert Enumerates(roms, devs);
    PrintedEnumerates(roms, devs);
    assert Searches(e, [[]]).value.0 == Printed(roms);
  }

  /** The empty partial lies below every device. */
  lemma EmptyPrefix(devs: set<seq<bit>>)
    requires devs != {}
    ensures Ext(devs, []) == devs
  {
    forall d | d in devs
      ensures Extends(d, [])
    {
    }
  }

  /** Each pass of the engine's search, whatever its samples, pops a
      partial and pushes forks that weigh less: Σ 2^(64 - |p|) over the
      stack strictly decreases, so search_roms ends after finitely many
      passes. */
  lemma SearchesLighter(e: Engine, stack: seq<seq<bit>>)
    requires |stack| > 0 && forall i | 0 <= i < |stack| :: |stack[i]| <= RomBits
    requires SearchPass(e, stack[|stack| - 1]).Ok? && SearchPass(e, stack[|stack| - 1]).value.0.Some?
    ensures var next := stack[..|stack| - 1] + SearchPass(e, stack[|stack| - 1]).value.0.value.forks;
            && Weight(next) < Weight(stack)
            && forall i | 0 <= i < |next| :: |next[i]| <= RomBits
  {
    var p := stack[|stack| - 1];
    var b := SearchPass(e, p).value.0.value;
    SearchPassWalk(e, p);
    WalkShape(PassPoll(e.cfg.pin, e.input), p);
    PassWeight(stack, b);
    var head := stack[..|stack| - 1];
    forall i | 0 <= i < |head + b.forks|
      ensures |(head + b.forks)[i]| <= RomBits
    {
      AppendIndex(head, b.forks, i);
    }
  }
}
