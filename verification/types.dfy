/** Shared vocabulary of the model: bytes and bits, the failure kinds the
    Python code raises, and the least-significant-bit-first conversions the
    1-Wire bus uses for every byte it moves. */
module Types {

  type byte = x: int | 0 <= x < 256
  type bit = x: int | 0 <= x < 2

  datatype Option<+T> = None | Some(value: T)

  /** Every exception the modelled code can raise, one constructor per cause. */
  datatype Error =
    | AlreadyBuffering     // enable_write_buffer while buffering
    | ReadTimeout          // the sampled bytes ran out before a read completed
    | BadHexString         // string2bytes on a string that is not hex pairs
    | SearchFailed         // a search poll answered (1, 1) after the replayed prefix
    | NoSearchResult       // a search pass saw no presence and produced no ROM
    | NoDevice             // a driver's reset saw no presence pulse
    | CrcCheckFailed       // scratchpad CRC did not reduce to zero
    | VersionCheckFailed   // version bytes failed their echo check
    | ProtectedAddress     // scratchpad write aimed at the password area
    | CopyFailed           // copy scratchpad completion byte was not 0xAA
    | PasswordCheckFailed  // verify password completion byte was not 0xAA
    | ScratchpadDiffers    // scratchpad echo differs from what was written
    | BadPasswordLength    // a password is not exactly eight bytes
    | NoScratchpadData     // read_scratchpad found no device and returned None
    | NotIterable          // write_bytes handed an integer instead of bytes

  datatype Result<+T> = Ok(value: T) | Err(error: Error) {
    predicate IsFailure() { Err? }

    function PropagateFailure<U>(): Result<U>
      requires Err?
    {
      Err(error)
    }

    function Extract(): T
      requires Ok?
    {
      value
    }
  }

  /** What a driver call leaves behind: its result, and the state of the
      object after it returned or raised. */
  datatype Outcome<+T, +S> = Outcome(result: Result<T>, state: S)

  function Pow2(n: nat): (r: nat)
    ensures r >= 1
  {
    if n == 0 then 1 else 2 * Pow2(n - 1)
  }

  lemma {:induction false} Pow2Add(m: nat, n: nat)
    ensures Pow2(m + n) == Pow2(m) * Pow2(n)
    decreases m
  {
    if m > 0 {
      Pow2Add(m - 1, n);
    }
  }

  lemma Pow2Table()
    ensures Pow2(8) == 256 && Pow2(16) == 0x1_0000
  {
    assert Pow2(4) == 16 by {
      assert Pow2(2) == 4;
    }
    Pow2Add(4, 4);
    Pow2Add(8, 8);
  }

  /** The number a bit string denotes when read least-significant bit first. */
  function BitsValue(bits: seq<bit>): (v: nat)
    ensures v < Pow2(|bits|)
  {
    if |bits| == 0 then 0 else bits[0] + 2 * BitsValue(bits[1..])
  }

  /** The value of a concatenation: the second part sits above the first. */
  lemma {:induction false} BitsValueAppend(a: seq<bit>, b: seq<bit>)
    ensures BitsValue(a + b) == BitsValue(a) + Pow2(|a|) * BitsValue(b)
  {
    if |a| == 0 {
      assert a + b == b;
    } else {
      var ab := a + b;
      assert ab[0] == a[0];
      assert ab[1..] == a[1..] + b;
      BitsValueAppend(a[1..], b);
      var x: int, y: int, p: int := BitsValue(a[1..]), BitsValue(b), Pow2(|a| - 1);
      var c: int := a[0];
      assert BitsValue(ab) == c + 2 * (x + p * y);
      assert BitsValue(a) == c + 2 * x;
      assert Pow2(|a|) == 2 * p;
      Regroup(c, x, p, y);
    }
  }

  lemma Regroup(c: int, x: int, p: int, y: int)
    ensures c + 2 * (x + p * y) == (c + 2 * x) + (2 * p) * y
  {
  }

  /** The n low bits of v, least-significant first, as `byte & 1; byte >>= 1`
      produces them. */
  function BitsOf(v: nat, n: nat): (bits: seq<bit>)
    ensures |bits| == n
  {
    if n == 0 then [] else [v % 2] + BitsOf(v / 2, n - 1)
  }

  /** Reading back the low n bits of a number below 2^n gives the number. */
  lemma {:induction false} ValueOfBits(v: nat, n: nat)
    requires v < Pow2(n)
    ensures BitsValue(BitsOf(v, n)) == v
  {
    if n > 0 {
      assert v / 2 < Pow2(n - 1);
      ValueOfBits(v / 2, n - 1);
      var bits := BitsOf(v, n);
      assert bits[1..] == BitsOf(v / 2, n - 1);
    }
  }

  /** Splitting a bit string's value into bits again gives the bit string. */
  lemma {:induction false} BitsOfValue(bits: seq<bit>)
    ensures BitsOf(BitsValue(bits), |bits|) == bits
  {
    if |bits| > 0 {
      var v := BitsValue(bits);
      assert v % 2 == bits[0];
      assert v / 2 == BitsValue(bits[1..]);
      BitsOfValue(bits[1..]);
    }
  }

  /** Bit i of a value, as `(v >> i) & 1`. */
  function BitAt(v: nat, i: nat): bit
  {
    if i == 0 then v % 2 else BitAt(v / 2, i - 1)
  }

  /** Bit i + j of a value is bit j of the value shifted right by i. */
  lemma {:induction false} BitAtHigh(v: nat, i: nat, j: nat)
    ensures var q := v / Pow2(i); q >= 0 && BitAt(v, i + j) == BitAt(q, j)
  {
    if i > 0 {
      BitAtHigh(v / 2, i - 1, j);
      DivDiv(v, 2, Pow2(i - 1));
    }
  }

  /** The i-th bit of BitsOf is the i-th binary digit of the value. */
  lemma {:induction false} BitsOfAt(v: nat, n: nat, i: nat)
    requires i < n
    ensures BitsOf(v, n)[i] == BitAt(v, i)
    decreases n
  {
    if i > 0 {
      BitsOfAt(v / 2, n - 1, i - 1);
    }
  }

  lemma DivDiv(v: nat, a: nat, b: nat)
    requires a > 0 && b > 0
    ensures v / (a * b) == (v / a) / b
  {
    var q := (v / a) / b;
    var r1 := v % a;
    var r2 := (v / a) % b;
    assert v / a == b * q + r2;
    assert v == a * (b * q + r2) + r1;
    assert a * (b * q + r2) == (a * b) * q + a * r2;
    assert a * r2 + r1 < a * b by {
      assert r2 <= b - 1;
      MulLe(a, r2, b - 1);
      assert a * (b - 1) == a * b - a;
    }
    DivUnique(v, a * b, q, a * r2 + r1);
  }

  lemma MulLe(a: nat, x: nat, y: nat)
    requires x <= y
    ensures a * x <= a * y
  {
  }

  lemma DivUnique(v: int, d: int, q: int, r: int)
    requires d > 0 && 0 <= r < d && v == d * q + r
    ensures v / d == q && v % d == r
  {
    var q', r' := v / d, v % d;
    assert d * q' + r' == d * q + r;
    if q' < q {
      assert d * (q - q') == r' - r;
      MulLe(d, 1, q - q');
    } else if q < q' {
      assert d * (q' - q) == r - r';
      MulLe(d, 1, q' - q);
    }
  }

  /** Dropping a then b elements drops a + b. */
  lemma DropDrop<T>(s: seq<T>, a: nat, b: nat)
    requires a + b <= |s|
    ensures s[a..][b..] == s[a + b..]
  {
  }

  lemma PrefixOfPrefix<T>(s: seq<T>, m: nat, n: nat)
    requires n <= m <= |s|
    ensures s[..m][..n] == s[..n]
    ensures forall k | 0 <= k < m :: s[..m][k] == s[k]
  {
  }

  lemma DropOne<T>(s: seq<T>, i: nat)
    requires i < |s|
    ensures s[i..] == [s[i]] + s[i + 1..]
  {
  }

  lemma SplitPrefix<T>(s: seq<T>, n: nat)
    requires n <= |s|
    ensures s == s[..n] + s[n..]
  {
  }

  lemma SplitLast<T>(s: seq<T>)
    requires |s| > 0
    ensures s == s[..|s| - 1] + [s[|s| - 1]]
  {
  }

  lemma AppendIndex<T>(a: seq<T>, b: seq<T>, i: nat)
    requires i < |a| + |b|
    ensures (a + b)[i] == if i < |a| then a[i] else b[i - |a|]
  {
  }
}
