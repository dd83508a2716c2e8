/** Bytes, unsigned 16- and 32-bit little-endian fields, and positioned writes
    into a growable byte stream. Shared by the page store and the TOC codec. */
module Bytes {

  type byte = x: int | 0 <= x < 0x100

  /** The range of a C# `uint`, and of an unsigned 16-bit field. */
  type u32 = x: int | 0 <= x < 0x1_0000_0000
  type u16 = x: int | 0 <= x < 0x1_0000

  /** `BitConverter.GetBytes(uint)` on a little-endian machine: the low
      byte first. */
  function LE32(x: u32): (r: seq<byte>)
    ensures |r| == 4
  {
    var q1 := x / 0x100;
    var q2 := q1 / 0x100;
    [x % 0x100, q1 % 0x100, q2 % 0x100, q2 / 0x100]
  }

  /** `BitConverter.ToUInt32(s, pos)`. */
  function ReadLE32(s: seq<byte>, pos: nat): u32
    requires pos + 4 <= |s|
  {
    s[pos] as int + 0x100 * (s[pos + 1] as int + 0x100 * (s[pos + 2] as int + 0x100 * (s[pos + 3] as int)))
  }

  /** `BitConverter.GetBytes(UInt16)`. */
  function LE16(x: u16): (r: seq<byte>)
    ensures |r| == 2
  {
    [(x % 0x100), (x / 0x100)]
  }

  /** `BitConverter.ToUInt16(s, pos)`. */
  function ReadLE16(s: seq<byte>, pos: nat): u16
    requires pos + 2 <= |s|
  {
    s[pos] as int + 0x100 * (s[pos + 1] as int)
  }

  /** `BitConverter.ToInt32(s, pos)`: the same four bytes read as a
      two's-complement signed value. */
  function ReadI32(s: seq<byte>, pos: nat): (r: int)
    requires pos + 4 <= |s|
    ensures -0x8000_0000 <= r < 0x8000_0000
    ensures r >= 0 ==> r == ReadLE32(s, pos)
    ensures r < 0 ==> r + 0x1_0000_0000 == ReadLE32(s, pos)
  {
    var u := ReadLE32(s, pos);
    if u < 0x8000_0000 then u else u - 0x1_0000_0000
  }

  /** Reading back what `LE32` wrote gives the value, wherever the four bytes sit. */
  lemma LE32RoundTrip(x: u32, s: seq<byte>, pos: nat)
    requires pos + 4 <= |s| && s[pos..pos + 4] == LE32(x)
    ensures ReadLE32(s, pos) == x
  {
    var q1 := x / 0x100;
    var q2 := q1 / 0x100;
    assert s[pos] == x % 0x100 && s[pos + 1] == q1 % 0x100 by {
      assert s[pos] == LE32(x)[0] && s[pos + 1] == LE32(x)[1];
    }
    assert s[pos + 2] == q2 % 0x100 && s[pos + 3] == q2 / 0x100 by {
      assert s[pos + 2] == LE32(x)[2] && s[pos + 3] == LE32(x)[3];
    }
    assert q2 == q2 % 0x100 + 0x100 * (q2 / 0x100);
    assert q1 == q1 % 0x100 + 0x100 * q2;
    assert x == x % 0x100 + 0x100 * q1;
  }

  /** Encoding what was read gives the same four bytes back. */
  lemma ReadLE32Encodes(s: seq<byte>, pos: nat)
    requires pos + 4 <= |s|
    ensures LE32(ReadLE32(s, pos)) == s[pos..pos + 4]
  {
    var b0: int, b1: int, b2: int, b3: int := s[pos], s[pos + 1], s[pos + 2], s[pos + 3];
    var x := ReadLE32(s, pos);
    var q2 := b2 + 0x100 * b3;
    var q1 := b1 + 0x100 * q2;
    assert x == b0 + 0x100 * q1;
    assert x % 0x100 == b0 && x / 0x100 == q1;
    assert q1 % 0x100 == b1 && q1 / 0x100 == q2;
    assert q2 % 0x100 == b2 && q2 / 0x100 == b3;
  }

  /** `ReadLE32` sees only its four bytes. */
  lemma ReadLE32Same(a: seq<byte>, i: nat, b: seq<byte>, j: nat)
    requires i + 4 <= |a| && j + 4 <= |b| && a[i..i + 4] == b[j..j + 4]
    ensures ReadLE32(a, i) == ReadLE32(b, j)
  {
    assert a[i] == a[i..i + 4][0] && a[i + 1] == a[i..i + 4][1];
    assert a[i + 2] == a[i..i + 4][2] && a[i + 3] == a[i..i + 4][3];
  }

  /** `LE32` is injective: distinct values never share an encoding. */
  lemma LE32Injective(x: u32, y: u32)
    requires LE32(x) == LE32(y)
    ensures x == y
  {
    LE32RoundTrip(x, LE32(x), 0);
    LE32RoundTrip(y, LE32(y), 0);
  }

  lemma LE16RoundTrip(x: u16, s: seq<byte>, pos: nat)
    requires pos + 2 <= |s| && s[pos..pos + 2] == LE16(x)
    ensures ReadLE16(s, pos) == x
  {
    assert s[pos] == LE16(x)[0] && s[pos + 1] == LE16(x)[1];
  }

  /** `n` zero bytes, as a freshly allocated C# `byte[]` holds. */
  function Zeros(n: nat): (r: seq<byte>)
    ensures |r| == n && forall i :: 0 <= i < n ==> r[i] == 0
  {
    seq(n, _ => 0)
  }

  /** `Stream.Write(b)` at position `pos`: the bytes at [pos, pos + |b|) are
      replaced, a write past the current end extends the stream, and every
      other byte is kept. */
  function Overwrite(s: seq<byte>, pos: nat, b: seq<byte>): (r: seq<byte>)
    requires pos <= |s|
    ensures |r| == if pos + |b| <= |s| then |s| else pos + |b|
    ensures forall i :: 0 <= i < |r| ==> r[i] == if pos <= i < pos + |b| then b[i - pos] else s[i]
  {
    if pos + |b| <= |s| then s[..pos] + b + s[pos + |b|..] else s[..pos] + b
  }

  /** `Stream.Read` of `n` bytes at position `pos` into a zeroed buffer: the
      bytes the stream has there, and zeros for any past its end. */
  function ReadFrom(s: seq<byte>, pos: nat, n: nat): (r: seq<byte>)
    ensures |r| == n
    ensures pos + n <= |s| ==> r == s[pos..pos + n]
  {
    seq(n, i requires 0 <= i < n => if pos + i < |s| then s[pos + i] else 0)
  }
}

/** The two failure-carrying result types the model uses in place of the
    exceptions the store and the TOC codec throw. */
module Results {
  datatype Option<T> = None | Some(value: T)

  datatype Result<T, E> = Ok(value: T) | Err(error: E)
}
