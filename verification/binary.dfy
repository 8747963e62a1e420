/**
 The primitives of `BinaryReader` and `BinaryWriter` that the dialog cache
 uses, as .NET 7 and later define them (the runtime the mod targets):
 little-endian 32-bit integers, the 7-bit encoded length prefix, and
 length-prefixed UTF-8 strings. A reader takes the bytes
 still to be read and returns the value with the bytes after it; running
 out of bytes is `EndOfStream`, as `EndOfStreamException` is in the source.
 */
module Binary {
  import opened Wrappers
  import opened Numbers

  type byte = x: int | 0 <= x < 0x100

  datatype ReadError = EndOfStream | Bad7BitInt | BadStringLength | BadUtf8

  /** The two's-complement reading of the low 32 bits of `x`. */
  function ToInt32(x: int): (r: int32)
    ensures (r - x) % 0x1_0000_0000 == 0
  {
    var m := x % 0x1_0000_0000;
    if m >= 0x8000_0000 then m - 0x1_0000_0000 else m
  }

  // ---------------------------------------------------------------------
  // 32-bit integers
  // ---------------------------------------------------------------------

  function ReadUInt32(s: seq<byte>): (r: Result<(uint32, seq<byte>), ReadError>)
    ensures r.Success? <==> |s| >= 4
    ensures r.Success? ==> r.value.1 == s[4..]
  {
    if |s| < 4 then Failure(EndOfStream)
    else
      var b0: int, b1: int, b2: int, b3: int := s[0], s[1], s[2], s[3];
      Success((b0 + 0x100 * b1 + 0x1_0000 * b2 + 0x100_0000 * b3, s[4..]))
  }

  /** `ReadInt32`: four bytes, least significant first, as a signed value. */
  function ReadInt32(s: seq<byte>): Result<(int32, seq<byte>), ReadError> {
    var p :- ReadUInt32(s);
    Success((ToInt32(p.0), p.1))
  }

  function WriteUInt32(u: uint32): (r: seq<byte>)
    ensures |r| == 4
  {
    [u % 0x100, u / 0x100 % 0x100, u / 0x1_0000 % 0x100, u / 0x100_0000]
  }

  function WriteInt32(n: int32): (r: seq<byte>)
    ensures |r| == 4
  {
    WriteUInt32(if n < 0 then n + 0x1_0000_0000 else n)
  }

  /** The four bytes of a 32-bit value, least significant first, add back
      up to it. */
  lemma UInt32Bytes(u: uint32)
    ensures u % 0x100 + 0x100 * (u / 0x100 % 0x100) + 0x1_0000 * (u / 0x1_0000 % 0x100) + 0x100_0000 * (u / 0x100_0000) == u
  {
    var a := u / 0x100;
    var b := a / 0x100;
    var c := b / 0x100;
    assert u == a * 0x100 + u % 0x100;
    assert a == b * 0x100 + a % 0x100;
    assert b == c * 0x100 + b % 0x100;
    assert u / 0x1_0000 == b;
    assert u / 0x100_0000 == c;
  }

  lemma ReadWriteUInt32(u: uint32, rest: seq<byte>)
    ensures ReadUInt32(WriteUInt32(u) + rest) == Success((u, rest))
  {
    var s := WriteUInt32(u) + rest;
    assert s[0] == u % 0x100 && s[1] == u / 0x100 % 0x100;
    assert s[2] == u / 0x1_0000 % 0x100 && s[3] == u / 0x100_0000;
    UInt32Bytes(u);
    assert s[4..] == rest;
  }

  /** Reading back the unsigned pattern of a signed value gives the value. */
  lemma SignedPattern(n: int32)
    ensures ToInt32(if n < 0 then n + 0x1_0000_0000 else n) == n
  {
    var m := if n < 0 then n + 0x1_0000_0000 else n;
    assert m % 0x1_0000_0000 == m;
  }

  /** Every 32-bit integer written is read back, and the bytes after it are
      left for the next read. */
  lemma ReadWriteInt32(n: int32, rest: seq<byte>)
    ensures ReadInt32(WriteInt32(n) + rest) == Success((n, rest))
  {
    var u: uint32 := if n < 0 then n + 0x1_0000_0000 else n;
    ReadWriteUInt32(u, rest);
    SignedPattern(n);
  }

  // ---------------------------------------------------------------------
  // 7-bit encoded integers
  // ---------------------------------------------------------------------

  function Pow128(k: nat): (p: nat)
    ensures p >= 1
  {
    if k == 0 then 1 else 0x80 * Pow128(k - 1)
  }

  /** `Read7BitEncodedInt` from its `k`-th byte on, `acc` holding the groups
      read so far: seven bits per byte, least significant group first, while
      the high bit is set. The fifth byte holds the top four bits of the
      32-bit value, so it ends the read whatever its high bit; one above
      0x0F is a `FormatException`. The value is read as a signed `int`. */
  function Read7BitFrom(s: seq<byte>, k: nat, acc: nat): Result<(int32, seq<byte>), ReadError>
    requires k <= 4
    decreases 4 - k
  {
    if |s| == 0 then Failure(EndOfStream)
    else if k == 4 then
      if s[0] > 0x0F then Failure(Bad7BitInt) else Success((ToInt32(acc + s[0] * Pow128(4)), s[1..]))
    else
      var acc := acc + s[0] % 0x80 * Pow128(k);
      if s[0] < 0x80 then Success((ToInt32(acc), s[1..])) else Read7BitFrom(s[1..], k + 1, acc)
  }

  function Read7BitInt(s: seq<byte>): Result<(int32, seq<byte>), ReadError> {
    Read7BitFrom(s, 0, 0)
  }

  /** After four bytes with the high bit set, the fifth byte decides: above
      0x0F it is a `FormatException`, otherwise it ends the value whatever
      follows. */
  lemma Read7BitFifthByte(s: seq<byte>)
    requires |s| >= 5 && s[0] >= 0x80 && s[1] >= 0x80 && s[2] >= 0x80 && s[3] >= 0x80
    ensures s[4] > 0x0F ==> Read7BitInt(s) == Failure(Bad7BitInt)
    ensures s[4] <= 0x0F ==> Read7BitInt(s).Success? && Read7BitInt(s).value.1 == s[5..]
  {
    var t1, t2, t3, t4 := s[1..], s[2..], s[3..], s[4..];
    assert t1[1..] == t2 && t2[1..] == t3 && t3[1..] == t4 && t4[1..] == s[5..];
    assert t1[0] == s[1] && t2[0] == s[2] && t3[0] == s[3] && t4[0] == s[4];
    var a1 := Read7BitStep(s, 0, 0);
    var a2 := Read7BitStep(t1, 1, a1);
    var a3 := Read7BitStep(t2, 2, a2);
    var a4 := Read7BitStep(t3, 3, a3);
  }

  /** A byte with the high bit set, before the fifth, passes on to the next. */
  lemma Read7BitStep(s: seq<byte>, k: nat, acc: nat) returns (next: nat)
    requires k < 4 && |s| > 0 && s[0] >= 0x80
    ensures Read7BitFrom(s, k, acc) == Read7BitFrom(s[1..], k + 1, next)
  {
    next := acc + s[0] % 0x80 * Pow128(k);
  }

  /** `Write7BitEncodedInt` of a non-negative value. */
  function Write7BitInt(v: nat): (r: seq<byte>)
    ensures |r| >= 1
    decreases v
  {
    if v < 0x80 then [v] else [v % 0x80 + 0x80] + Write7BitInt(v / 0x80)
  }

  lemma SplitGroup(v: nat, p: nat)
    ensures v % 0x80 * p + v / 0x80 * (0x80 * p) == v * p
  {
    var q := v / 0x80;
    var r := v % 0x80;
    assert v == 0x80 * q + r;
    calc {
      r * p + q * (0x80 * p);
      { assert q * (0x80 * p) == (0x80 * q) * p; }
      r * p + (0x80 * q) * p;
      (r + 0x80 * q) * p;
    }
  }

  /** The values the groups from the `k`-th on can still carry: 2^32 in all,
      four bits in the fifth byte. */
  function GroupCap(k: nat): (c: nat)
    requires k <= 4
    ensures c >= 0x10
    decreases 4 - k
  {
    if k == 4 then 0x10 else 0x80 * GroupCap(k + 1)
  }

  lemma {:induction false} Read7BitFromWritten(v: nat, k: nat, acc: nat, rest: seq<byte>)
    requires k <= 4 && v < GroupCap(k)
    ensures Read7BitFrom(Write7BitInt(v) + rest, k, acc) == Success((ToInt32(acc + v * Pow128(k)), rest))
    decreases v
  {
    if v < 0x80 {
      ReadLastGroup(v, k, acc, rest);
    } else {
      GroupsLeft(v, k);
      Read7BitFromWritten(v / 0x80, k + 1, acc + v % 0x80 * Pow128(k), rest);
      GroupStep(v, k, acc, rest);
    }
  }

  /** One group more: if the rest of a written value reads back, so does the
      whole of it. */
  lemma GroupStep(v: nat, k: nat, acc: nat, rest: seq<byte>)
    requires k < 4 && 0x80 <= v
    requires
      var acc1 := acc + v % 0x80 * Pow128(k);
      Read7BitFrom(Write7BitInt(v / 0x80) + rest, k + 1, acc1)
      == Success((ToInt32(acc1 + v / 0x80 * Pow128(k + 1)), rest))
    ensures Read7BitFrom(Write7BitInt(v) + rest, k, acc) == Success((ToInt32(acc + v * Pow128(k)), rest))
  {
    ReadGroup(v, k, acc, rest);
    NextGroup(v, k, acc);
  }

  /** The last byte of a written value ends the read. */
  lemma ReadLastGroup(v: nat, k: nat, acc: nat, rest: seq<byte>)
    requires k <= 4 && v < 0x80 && v < GroupCap(k)
    ensures Read7BitFrom(Write7BitInt(v) + rest, k, acc) == Success((ToInt32(acc + v * Pow128(k)), rest))
  {
    var s := Write7BitInt(v) + rest;
    assert s[0] == v && s[0] % 0x80 == v;
    assert s[1..] == rest;
  }

  /** Reading the first byte of a value of several groups adds its low
      group and goes on with the bytes of the rest. */
  lemma ReadGroup(v: nat, k: nat, acc: nat, rest: seq<byte>)
    requires k < 4 && 0x80 <= v
    ensures Read7BitFrom(Write7BitInt(v) + rest, k, acc)
         == Read7BitFrom(Write7BitInt(v / 0x80) + rest, k + 1, acc + v % 0x80 * Pow128(k))
  {
    var s := Write7BitInt(v) + rest;
    assert s[0] == v % 0x80 + 0x80;
    assert s[0] % 0x80 == v % 0x80;
    assert s[1..] == Write7BitInt(v / 0x80) + rest;
  }

  /** The accumulated value after one more group equals the whole value
      shifted into place. */
  lemma NextGroup(v: nat, k: nat, acc: nat)
    ensures acc + v % 0x80 * Pow128(k) + v / 0x80 * Pow128(k + 1) == acc + v * Pow128(k)
  {
    assert Pow128(k + 1) == 0x80 * Pow128(k);
    SplitGroup(v, Pow128(k));
  }

  /** A value of more than one group still has a group slot for the rest. */
  lemma GroupsLeft(v: nat, k: nat)
    requires k <= 4 && 0x80 <= v < GroupCap(k)
    ensures k < 4 && v / 0x80 < GroupCap(k + 1)
  {
  }

  lemma GroupCapZero()
    ensures GroupCap(0) == 0x1_0000_0000
  {
    assert GroupCap(3) == 0x800;
    assert GroupCap(1) == 0x200_0000;
  }

  lemma SmallInt32(v: nat)
    requires v < 0x8000_0000
    ensures ToInt32(0 + v * 1) == v
  {
    assert v % 0x1_0000_0000 == v;
  }

  /** A length written with `Write7BitEncodedInt` is read back. */
  lemma Read7BitRoundTrip(v: nat, rest: seq<byte>)
    requires v < 0x8000_0000
    ensures Read7BitInt(Write7BitInt(v) + rest) == Success((v, rest))
  {
    assert v < GroupCap(0) by { GroupCapZero(); }
    Read7BitFromWritten(v, 0, 0, rest);
    assert Pow128(0) == 1;
    SmallInt32(v);
  }

  // ---------------------------------------------------------------------
  // UTF-8
  // ---------------------------------------------------------------------

  predicate IsCont(b: byte) {
    0x80 <= b < 0xC0
  }

  /** The UTF-8 form of one Unicode scalar value. */
  function EncodeChar(c: char): (r: seq<byte>)
    ensures 1 <= |r| <= 4
  {
    var v := c as int;
    if v < 0x80 then [v]
    else if v < 0x800 then [0xC0 + v / 0x40, 0x80 + v % 0x40]
    else if v < 0x1_0000 then [0xE0 + v / 0x1000, 0x80 + v / 0x40 % 0x40, 0x80 + v % 0x40]
    else [0xF0 + v / 0x4_0000, 0x80 + v / 0x1000 % 0x40, 0x80 + v / 0x40 % 0x40, 0x80 + v % 0x40]
  }

  function Utf8(s: string): (r: seq<byte>)
    ensures |r| >= |s|
  {
    if |s| == 0 then [] else EncodeChar(s[0]) + Utf8(s[1..])
  }

  /** The scalar value at the front of `bs` and the number of bytes it takes;
      `None` for an ill-formed sequence (overlong forms, surrogates and
      values past U+10FFFF included). */
  function DecodeChar(bs: seq<byte>): (r: Option<(char, nat)>)
    requires |bs| > 0
    ensures r.Some? ==> 1 <= r.value.1 <= |bs|
  {
    var b0: int := bs[0];
    var b1: int := if |bs| > 1 then bs[1] else 0;
    var b2: int := if |bs| > 2 then bs[2] else 0;
    var b3: int := if |bs| > 3 then bs[3] else 0;
    if b0 < 0x80 then Some((b0 as char, 1))
    else if 0xC2 <= b0 < 0xE0 && |bs| >= 2 && IsCont(bs[1]) then
      Some((((b0 - 0xC0) * 0x40 + (b1 - 0x80)) as char, 2))
    else if 0xE0 <= b0 < 0xF0 && |bs| >= 3 && IsCont(bs[1]) && IsCont(bs[2]) then
      var v := (b0 - 0xE0) * 0x1000 + (b1 - 0x80) * 0x40 + (b2 - 0x80);
      if 0x800 <= v && !(0xD800 <= v < 0xE000) then Some((v as char, 3)) else None
    else if 0xF0 <= b0 < 0xF5 && |bs| >= 4 && IsCont(bs[1]) && IsCont(bs[2]) && IsCont(bs[3]) then
      var v := (b0 - 0xF0) * 0x4_0000 + (b1 - 0x80) * 0x1000 + (b2 - 0x80) * 0x40 + (b3 - 0x80);
      if 0x1_0000 <= v < 0x11_0000 then Some((v as char, 4)) else None
    else None
  }

  function DecodeUtf8(bs: seq<byte>): Option<string>
    decreases |bs|
  {
    if |bs| == 0 then Some([])
    else
      var p :- DecodeChar(bs);
      var rest :- DecodeUtf8(bs[p.1..]);
      Some([p.0] + rest)
  }

  lemma DecodeEncodedChar(c: char, rest: seq<byte>)
    ensures DecodeChar(EncodeChar(c) + rest) == Some((c, |EncodeChar(c)|))
  {
    var v := c as int;
    if v < 0x80 {
    } else if v < 0x800 {
      DecodeTwo(c, rest);
    } else if v < 0x1_0000 {
      DecodeThree(c, rest);
    } else {
      DecodeFour(c, rest);
    }
  }

  lemma DecodeTwo(c: char, rest: seq<byte>)
    requires 0x80 <= c as int < 0x800
    ensures DecodeChar(EncodeChar(c) + rest) == Some((c, 2))
  {
    var v := c as int;
    var bs := EncodeChar(c) + rest;
    assert bs[0] == 0xC0 + v / 0x40 && bs[1] == 0x80 + v % 0x40;
    assert (v / 0x40) * 0x40 + v % 0x40 == v;
  }

  lemma DecodeThree(c: char, rest: seq<byte>)
    requires 0x800 <= c as int < 0x1_0000
    ensures DecodeChar(EncodeChar(c) + rest) == Some((c, 3))
  {
    var v := c as int;
    var bs := EncodeChar(c) + rest;
    var hi, mid, lo := v / 0x1000, v / 0x40 % 0x40, v % 0x40;
    assert bs[0] == 0xE0 + hi && bs[1] == 0x80 + mid && bs[2] == 0x80 + lo;
    assert hi * 0x1000 + mid * 0x40 + lo == v;
  }

  lemma DecodeFour(c: char, rest: seq<byte>)
    requires 0x1_0000 <= c as int
    ensures DecodeChar(EncodeChar(c) + rest) == Some((c, 4))
  {
    var v := c as int;
    var bs := EncodeChar(c) + rest;
    var top, hi, mid, lo := v / 0x4_0000, v / 0x1000 % 0x40, v / 0x40 % 0x40, v % 0x40;
    assert bs[0] == 0xF0 + top && bs[1] == 0x80 + hi && bs[2] == 0x80 + mid && bs[3] == 0x80 + lo;
    FourGroups(v);
  }

  lemma FourGroups(v: nat)
    ensures v / 0x4_0000 * 0x4_0000 + v / 0x1000 % 0x40 * 0x1000 + v / 0x40 % 0x40 * 0x40 + v % 0x40 == v
  {
    var a := v / 0x40;
    var b := a / 0x40;
    assert v == a * 0x40 + v % 0x40;
    assert a == b * 0x40 + a % 0x40;
    assert v / 0x1000 == b;
    assert v / 0x4_0000 == b / 0x40;
    assert b == b / 0x40 * 0x40 + b % 0x40;
  }

  /** Every string encoded in UTF-8 decodes back to itself. */
  lemma {:induction false} Utf8RoundTrip(s: string)
    ensures DecodeUtf8(Utf8(s)) == Some(s)
  {
    if |s| > 0 {
      var bs := Utf8(s);
      DecodeEncodedChar(s[0], Utf8(s[1..]));
      assert bs[|EncodeChar(s[0])|..] == Utf8(s[1..]);
      Utf8RoundTrip(s[1..]);
      assert [s[0]] + s[1..] == s;
    }
  }

  // ---------------------------------------------------------------------
  // Strings
  // ---------------------------------------------------------------------

  /** `ReadString`: the byte length as a 7-bit encoded integer, then that
      many bytes of UTF-8. */
  function ReadString(s: seq<byte>): Result<(string, seq<byte>), ReadError> {
    var p :- Read7BitInt(s);
    var len := p.0;
    var s1 := p.1;
    if len < 0 then Failure(BadStringLength)
    else if |s1| < len then Failure(EndOfStream)
    else
      var str :- Need(DecodeUtf8(s1[..len]), BadUtf8);
      Success((str, s1[len..]))
  }

  /** A string whose UTF-8 length fits the writer's 32-bit length. */
  predicate Writable(s: string) {
    |Utf8(s)| < 0x8000_0000
  }

  function WriteString(s: string): (r: seq<byte>)
    requires Writable(s)
    ensures |r| > |Utf8(s)|
  {
    Write7BitInt(|Utf8(s)|) + Utf8(s)
  }

  /** Every string written is read back, and the bytes after it are left
      for the next read. */
  lemma ReadWriteString(str: string, rest: seq<byte>)
    requires Writable(str)
    ensures ReadString(WriteString(str) + rest) == Success((str, rest))
  {
    var bs := Utf8(str);
    var s := WriteString(str) + rest;
    assert s == Write7BitInt(|bs|) + (bs + rest);
    Read7BitRoundTrip(|bs|, bs + rest);
    assert (bs + rest)[..|bs|] == bs;
    assert (bs + rest)[|bs|..] == rest;
    Utf8RoundTrip(str);
  }
}
