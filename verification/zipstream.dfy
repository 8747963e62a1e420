/**
 A seekable read-only view of a zip entry. The entry's decompressed stream
 can only be read forwards, so a seek backwards reopens the entry and a seek
 forwards reads and throws away the bytes in between, in chunks of 8192.

 Source: Celeste.Mod.mm/Mod/Helpers/SynchronizedZipEntryStream.cs.
 */
module ZipStream {
  import opened Wrappers
  import opened Numbers
  import opened Binary

  /** Size of the buffer that `skip` reads into and discards. */
  const TrashbinSize := 8192

  /** The opened entry: the bytes its decompressor yields, and how many of
      them one `Read(count)` call hands back when `off` bytes have already
      been consumed (a decompressor may return fewer bytes than asked). The
      chunking depends only on the offset, so reopening the entry replays it. */
  datatype Source = Source(data: seq<byte>, chunk: (nat, nat) -> nat)

  function Min(a: int, b: int): int { if a < b then a else b }

  /** One `Read` on the wrapped stream: at least one byte while bytes remain
      and any were asked for, never more than asked or than remain, and zero
      exactly at the end of the entry or for an empty request. */
  function Deliver(src: Source, off: nat, req: int): (k: nat)
    ensures k <= Min(req, |src.data| - off) || k == 0
    ensures k == 0 <==> req <= 0 || off >= |src.data|
  {
    if req <= 0 || off >= |src.data| then 0
    else
      var c := Min(src.chunk(off, req), Min(req, |src.data| - off));
      if c < 1 then 1 else c
  }

  /** The stream: the entry, its declared uncompressed `Length`, how far the
      wrapped stream has read, and the `position` field. */
  datatype Stream = Stream(src: Source, length: int, consumed: nat, position: int)

  /** The field `position` follows exactly the bytes taken from the wrapped
      stream since it was last opened. */
  predicate Valid(s: Stream) {
    s.position == s.consumed && s.consumed <= |s.src.data|
  }

  /** Bytes of the entry still to come. */
  function Left(s: Stream): nat
    requires s.consumed <= |s.src.data|
  {
    |s.src.data| - s.consumed
  }

  datatype Origin = Begin | Current | End

  datatype StreamError = NotSupported

  /** A freshly opened entry. */
  function Open(src: Source, length: int): (s: Stream)
    ensures Valid(s) && s.position == 0 && s.src == src && s.length == length
  {
    Stream(src, length, 0, 0)
  }

  /** `reset`: reopen the entry and start again at position 0. */
  function Reset(s: Stream): (r: Stream)
    ensures Valid(r) && r.position == 0
    ensures r.src == s.src && r.length == s.length
  {
    Stream(s.src, s.length, 0, 0)
  }

  /** `readAsMuchAsPossible`: keep reading until `count` bytes have arrived
      or the wrapped stream reports its end. A negative `count` reads nothing. */
  method ReadAsMuchAsPossible(s: Stream, count: int32) returns (n: int, bytes: seq<byte>, consumed: nat)
    requires s.consumed <= |s.src.data|
    ensures 0 <= n && (count <= 0 ==> n == 0)
    ensures n == Min(count, Left(s)) || (count <= 0 && n == 0)
    ensures consumed == s.consumed + n <= |s.src.data|
    ensures bytes == s.src.data[s.consumed..consumed]
    ensures n < count ==> consumed == |s.src.data|
  {
    var remaining: int := count;
    consumed := s.consumed;
    bytes := [];
    while remaining > 0
      invariant s.consumed <= consumed <= |s.src.data|
      invariant count - remaining == consumed - s.consumed
      invariant count <= 0 ==> remaining == count
      invariant count > 0 ==> 0 <= remaining <= count
      invariant bytes == s.src.data[s.consumed..consumed]
      decreases remaining
    {
      var read := Deliver(s.src, consumed, remaining);
      if read == 0 {
        break;
      }
      bytes := bytes + s.src.data[consumed..consumed + read];
      consumed := consumed + read;
      remaining := remaining - read;
    }
    n := count - remaining;
  }

  /** `Read(buffer, offset, count)`: the bytes read are counted into the
      position. */
  method Read(s: Stream, count: int32) returns (n: int, bytes: seq<byte>, r: Stream)
    requires Valid(s)
    ensures Valid(r) && r.src == s.src && r.length == s.length
    ensures r.position == s.position + n
    ensures n == (if count <= 0 then 0 else Min(count, Left(s)))
    ensures bytes == s.src.data[s.position..r.position]
  {
    var consumed;
    n, bytes, consumed := ReadAsMuchAsPossible(s, count);
    r := Stream(s.src, s.length, consumed, s.position + n);
  }

  /** `skip(count)`: read and discard up to `count` bytes, at most
      `TrashbinSize` at a time, and stop early at the end of the entry. */
  method Skip(s: Stream, count: int) returns (r: Stream)
    requires Valid(s)
    ensures Valid(r) && r.src == s.src && r.length == s.length
    ensures r.position == s.position + (if count <= 0 then 0 else Min(count, Left(s)))
  {
    var left := count;
    r := s;
    while left > 0
      invariant Valid(r) && r.src == s.src && r.length == s.length
      invariant s.position <= r.position
      invariant r.position - s.position == count - left || (count <= 0 && r.position == s.position)
      invariant left > 0 ==> left <= count
      invariant left <= 0 ==> r.position == s.position + (if count <= 0 then 0 else Min(count, Left(s)))
      decreases left
    {
      var req := if left > TrashbinSize then TrashbinSize else left;
      var read := Deliver(r.src, r.consumed, req);
      if read == 0 {
        return;
      }
      r := Stream(r.src, r.length, r.consumed + read, r.position + read);
      left := left - read;
    }
  }

  /** The absolute position a `Seek(offset, origin)` aims at. */
  function Target(s: Stream, offset: int, origin: Origin): int {
    match origin
    case Begin => offset
    case Current => offset + s.position
    case End => offset + s.length
  }

  /** Where the skip of a seek to `target` starts: 0 after a reopen, else the
      current position. */
  function SkipStart(s: Stream, target: int): int {
    if target < s.position then 0 else s.position
  }

  /** Where a seek to `target` ends, read as the code does it: from the
      skip's start, move forward by the distance cast to 32 bits, but no
      further than the entry's end and not at all for a non-positive step. */
  function Landing(s: Stream, target: int): int
    requires Valid(s)
  {
    var from := SkipStart(s, target);
    var step := ToInt32(target - from);
    from + (if target <= from || step <= 0 then 0 else Min(step, |s.src.data| - from))
  }

  /** `Seek(offset, origin)`: go back to the start when the target lies
      behind, then skip forward by the distance cast to a 32-bit `int`; the
      new position is returned. */
  method Seek(s: Stream, offset: int, origin: Origin) returns (pos: int, r: Stream)
    requires Valid(s)
    ensures Valid(r) && r.src == s.src && r.length == s.length && pos == r.position
    ensures pos == Landing(s, Target(s, offset, origin))
  {
    var target := Target(s, offset, origin);
    r := s;
    if target < r.position {
      r := Reset(r);
    }
    if target > r.position {
      r := Skip(r, ToInt32(target - r.position));
    }
    pos := r.position;
  }

  /** Setting `Position` is a seek from the beginning. */
  method SetPosition(s: Stream, value: int) returns (r: Stream)
    requires Valid(s)
    ensures Valid(r) && r.src == s.src && r.length == s.length
    ensures r.position == Landing(s, value)
    ensures value < 0 ==> r.position == 0
    ensures 0 <= value <= |s.src.data| && value - SkipStart(s, value) < 0x8000_0000 ==> r.position == value
  {
    var pos;
    pos, r := Seek(s, value, Begin);
    SeekLands(s, value);
  }

  /** What a `Seek` lands on, stated without the 32-bit cast: a target
      before the start lands on 0; a target the entry holds, within 2^31 - 1
      bytes ahead of where the skip starts, is reached exactly; a target past
      the end of a nearby entry stops at the end. */
  lemma SeekLands(s: Stream, target: int)
    requires Valid(s)
    ensures target < 0 ==> Landing(s, target) == 0
    ensures 0 <= target <= |s.src.data| && target - SkipStart(s, target) < 0x8000_0000 ==> Landing(s, target) == target
    ensures s.position <= target && |s.src.data| < target < 0x8000_0000 ==> Landing(s, target) == |s.src.data|
    ensures 0 <= Landing(s, target) <= |s.src.data|
  {
    var from := SkipStart(s, target);
    if 0 <= target - from < 0x8000_0000 {
      SmallCast(target - from);
    }
  }

  /** The 32-bit cast leaves a non-negative distance below 2^31 alone. */
  lemma SmallCast(x: int)
    requires 0 <= x < 0x8000_0000
    ensures ToInt32(x) == x
  {
  }

  /** As written, a forward seek of exactly 2^32 bytes casts its distance to
      0 and does not move at all. */
  lemma SeekWrapsFarTarget(s: Stream)
    requires Valid(s)
    ensures Landing(s, s.position + 0x1_0000_0000) == s.position
  {
    assert ToInt32(0x1_0000_0000) == 0;
  }

  /** What the stream reports it can do: read and seek, never write. */
  function CanRead(): bool { true }
  function CanSeek(): bool { true }
  function CanWrite(): bool { false }

  /** The read-only stream's answer to every write-side call: a
      `NotSupportedException`, with the stream untouched. */
  function Unsupported(): (r: Result<Stream, StreamError>)
    ensures r.Failure? && r.error == NotSupported
  {
    Failure(NotSupported)
  }

  /** `Write`, `Flush` and `SetLength` are all `Unsupported`. */
  function Write(s: Stream, bytes: seq<byte>): Result<Stream, StreamError> {
    Unsupported()
  }

  function Flush(s: Stream): Result<Stream, StreamError> {
    Unsupported()
  }

  function SetLength(s: Stream, length: int): Result<Stream, StreamError> {
    Unsupported()
  }
}
