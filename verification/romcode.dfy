/** The two forms a 64-bit ROM code takes in w1ftdi.py: the search path of
    64 bits packed into eight bytes, and the colon-separated hex text that
    bytes2string prints and string2bytes reads back. */
module RomCode {
  import opened Types

  /** Eight bits, least significant first, as one byte. */
  function ByteOfBits(bits: seq<bit>): byte
    requires |bits| == 8
  {
    Pow2Table();
    BitsValue(bits)
  }

  /** The packing loop at the end of _search (w1ftdi.py:356-362): path bit
      8i+o becomes bit o of byte i. */
  function Pack(bits: seq<bit>): (rom: seq<byte>)
    requires |bits| % 8 == 0
    ensures |rom| == |bits| / 8
  {
    if |bits| == 0 then [] else [ByteOfBits(bits[..8])] + Pack(bits[8..])
  }

  /** The bits of a ROM code in bus order: byte by byte, each least
      significant bit first. */
  function Unpack(rom: seq<byte>): (bits: seq<bit>)
    ensures |bits| == 8 * |rom|
  {
    if |rom| == 0 then [] else BitsOf(rom[0], 8) + Unpack(rom[1..])
  }

  lemma {:induction false} UnpackPack(bits: seq<bit>)
    requires |bits| % 8 == 0
    ensures Unpack(Pack(bits)) == bits
  {
    if |bits| > 0 {
      var rom := Pack(bits);
      assert rom[1..] == Pack(bits[8..]);
      BitsOfValue(bits[..8]);
      UnpackPack(bits[8..]);
      assert bits[..8] + bits[8..] == bits;
    }
  }

  lemma {:induction false} PackUnpack(rom: seq<byte>)
    ensures Pack(Unpack(rom)) == rom
  {
    if |rom| > 0 {
      var bits := Unpack(rom);
      assert bits[..8] == BitsOf(rom[0], 8);
      assert bits[8..] == Unpack(rom[1..]);
      Pow2Table();
      ValueOfBits(rom[0], 8);
      PackUnpack(rom[1..]);
      assert [rom[0]] + rom[1..] == rom;
    }
  }

  /** Bit o of packed byte i is path bit 8i+o, as `byte |= bit << o` puts
      it there. */
  lemma PackedBit(bits: seq<bit>, i: nat, o: nat)
    requires |bits| % 8 == 0 && i < |bits| / 8 && o < 8
    ensures BitAt(Pack(bits)[i], o) == bits[8 * i + o]
  {
    var rom := Pack(bits);
    UnpackPack(bits);
    UnpackAt(rom, i, o);
  }

  lemma {:induction false} UnpackAt(rom: seq<byte>, i: nat, o: nat)
    requires i < |rom| && o < 8
    ensures Unpack(rom)[8 * i + o] == BitAt(rom[i], o)
  {
    if i == 0 {
      BitsOfAt(rom[0], 8, o);
    } else {
      UnpackAt(rom[1..], i - 1, o);
    }
  }

  /** The lower-case digit for 0..15. */
  function HexDigit(d: nat): (c: char)
    requires d < 16
    ensures IsHexDigit(c) && DigitValue(c) == d
  {
    if d < 10 then ('0' as int + d) as char else ('a' as int + d - 10) as char
  }

  /** `"{:02x}".format(b)`: two lower-case hex digits whose value, high
      digit first, is the byte. */
  function HexByte(b: byte): (s: string)
    ensures |s| == 2 && IsHexDigit(s[0]) && IsHexDigit(s[1])
    ensures !('A' <= s[0] <= 'F') && !('A' <= s[1] <= 'F')
    ensures 16 * DigitValue(s[0]) + DigitValue(s[1]) == b
  {
    [HexDigit(b / 16), HexDigit(b % 16)]
  }

  /** bytes2string (w1ftdi.py:383-384): the bytes in two-digit lower-case
      hex, joined by colons. */
  function Bytes2String(bs: seq<byte>): (s: string)
    ensures |bs| == 0 ==> s == ""
    ensures |bs| > 0 ==> |s| == 3 * |bs| - 1
  {
    if |bs| == 0 then ""
    else if |bs| == 1 then HexByte(bs[0])
    else HexByte(bs[0]) + ":" + Bytes2String(bs[1..])
  }

  predicate IsHexDigit(c: char)
  {
    '0' <= c <= '9' || 'a' <= c <= 'f' || 'A' <= c <= 'F'
  }

  function DigitValue(c: char): (d: nat)
    requires IsHexDigit(c)
    ensures d < 16
  {
    if '0' <= c <= '9' then c as int - '0' as int
    else if 'a' <= c <= 'f' then c as int - 'a' as int + 10
    else c as int - 'A' as int + 10
  }

  /** `string.replace(":", "")`: no colon is left, nothing is added, and
      a string without colons passes unchanged. */
  function StripColons(s: string): (t: string)
    ensures |t| <= |s|
    ensures forall k | 0 <= k < |t| :: t[k] != ':'
    ensures (forall k | 0 <= k < |s| :: s[k] != ':') ==> t == s
  {
    if |s| == 0 then ""
    else
      assert forall k | 0 <= k < |s[1..]| :: s[1..][k] == s[k + 1];
      if s[0] == ':' then StripColons(s[1..])
      else
        assert [s[0]] + s[1..] == s;
        [s[0]] + StripColons(s[1..])
  }

  /** Every character but a colon is kept. */
  lemma {:induction false} StripColonsSpec(s: string)
    ensures forall k | 0 <= k < |s| && s[k] != ':' :: s[k] in StripColons(s)
  {
    if |s| > 0 {
      StripColonsSpec(s[1..]);
      assert forall k | 1 <= k < |s| :: s[k] == s[1..][k - 1];
    }
  }

  /** The "hex" codec: pairs of hex digits of either case, high digit
      first; an odd length or any other character is an error. */
  function Unhex(t: string): (r: Result<seq<byte>>)
    ensures r.Err? ==> r.error == BadHexString
    ensures r.Ok? ==> 2 * |r.value| == |t|
  {
    if |t| == 0 then Ok([])
    else if |t| == 1 || !IsHexDigit(t[0]) || !IsHexDigit(t[1]) then Err(BadHexString)
    else
      var rest :- Unhex(t[2..]);
      Ok([16 * DigitValue(t[0]) + DigitValue(t[1])] + rest)
  }

  /** string2bytes (w1ftdi.py:387-388): drop every colon, then decode as
      hex. */
  function String2Bytes(s: string): (r: Result<seq<byte>>)
    ensures r.Err? ==> r.error == BadHexString
  {
    Unhex(StripColons(s))
  }

  /** The codec accepts exactly an even number of hex digits, and byte i
      is the pair of digits 2i, 2i+1, high digit first. */
  lemma {:induction false} UnhexSpec(t: string)
    ensures Unhex(t).Ok? <==> |t| % 2 == 0 && forall k | 0 <= k < |t| :: IsHexDigit(t[k])
    ensures Unhex(t).Ok? ==> forall i | 0 <= i < |Unhex(t).value| ::
      Unhex(t).value[i] == 16 * DigitValue(t[2 * i]) + DigitValue(t[2 * i + 1])
    decreases |t|
  {
    if |t| >= 2 {
      var rest := t[2..];
      UnhexSpec(rest);
      assert forall k | 2 <= k < |t| :: t[k] == rest[k - 2];
      if Unhex(t).Ok? {
        var v := Unhex(t).value;
        assert v[1..] == Unhex(rest).value;
        forall i | 1 <= i < |v|
          ensures v[i] == 16 * DigitValue(t[2 * i]) + DigitValue(t[2 * i + 1])
        {
          assert v[i] == Unhex(rest).value[i - 1];
          assert t[2 * i] == rest[2 * (i - 1)] && t[2 * i + 1] == rest[2 * (i - 1) + 1];
        }
      }
    }
  }

  /** string2bytes accepts a string exactly when, colons removed, it is an
      even number of hex digits. */
  lemma String2BytesSpec(s: string)
    ensures String2Bytes(s).Ok? <==>
      |StripColons(s)| % 2 == 0 && forall k | 0 <= k < |StripColons(s)| :: IsHexDigit(StripColons(s)[k])
  {
    UnhexSpec(StripColons(s));
  }

  /** The digits of the bytes without separators. */
  function HexString(bs: seq<byte>): (s: string)
    ensures |s| == 2 * |bs|
  {
    if |bs| == 0 then "" else HexByte(bs[0]) + HexString(bs[1..])
  }

  lemma {:induction false} UnhexHexString(bs: seq<byte>)
    ensures Unhex(HexString(bs)) == Ok(bs)
  {
    if |bs| > 0 {
      var s := HexString(bs);
      var h := HexByte(bs[0]);
      assert s == h + HexString(bs[1..]);
      assert s[0] == h[0] && s[1] == h[1];
      assert s[2..] == HexString(bs[1..]);
      UnhexHexString(bs[1..]);
      assert Unhex(s) == Ok([16 * DigitValue(h[0]) + DigitValue(h[1])] + bs[1..]);
      assert [bs[0]] + bs[1..] == bs;
    }
  }

  /** string2bytes also accepts the digits without separators. */
  lemma String2BytesHex(bs: seq<byte>)
    ensures String2Bytes(HexString(bs)) == Ok(bs)
  {
    var s := HexString(bs);
    assert forall k | 0 <= k < |s| :: s[k] != ':' by {
      HexDigitsOnly(bs);
    }
    UnhexHexString(bs);
  }

  lemma {:induction false} HexDigitsOnly(bs: seq<byte>)
    ensures forall k | 0 <= k < |HexString(bs)| :: IsHexDigit(HexString(bs)[k])
  {
    if |bs| > 0 {
      HexDigitsOnly(bs[1..]);
      var h := HexByte(bs[0]);
      assert HexString(bs) == h + HexString(bs[1..]);
    }
  }

  lemma {:induction false} StripAppend(a: string, b: string)
    ensures StripColons(a + b) == StripColons(a) + StripColons(b)
  {
    if |a| == 0 {
      assert a + b == b;
    } else {
      assert (a + b)[1..] == a[1..] + b;
      StripAppend(a[1..], b);
    }
  }

  lemma {:induction false} StripBytes2String(bs: seq<byte>)
    ensures StripColons(Bytes2String(bs)) == HexString(bs)
  {
    if |bs| == 1 {
      assert StripColons(HexByte(bs[0])) == HexByte(bs[0]);
      assert HexString(bs) == HexByte(bs[0]) + "";
    } else if |bs| > 1 {
      StripAppend(HexByte(bs[0]) + ":", Bytes2String(bs[1..]));
      StripAppend(HexByte(bs[0]), ":");
      assert StripColons(HexByte(bs[0])) == HexByte(bs[0]);
      StripBytes2String(bs[1..]);
    }
  }

  /** string2bytes undoes bytes2string for every byte string. */
  lemma String2BytesRoundTrip(bs: seq<byte>)
    ensures String2Bytes(Bytes2String(bs)) == Ok(bs)
  {
    StripBytes2String(bs);
    UnhexHexString(bs);
  }

  /** A ROM found by a search, printed and parsed back, is the packed path. */
  lemma RomTextRoundTrip(bits: seq<bit>)
    requires |bits| == 64
    ensures String2Bytes(Bytes2String(Pack(bits))) == Ok(Pack(bits))
    ensures Unpack(Pack(bits)) == bits
  {
    String2BytesRoundTrip(Pack(bits));
    UnpackPack(bits);
  }
}
