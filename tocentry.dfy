/** One directory record: a file name with its length and the handle of the
    chain that holds it. Names are kept as the bytes of their UTF-8 encoding,
    so the codec is exact on them. */
module TocEntry {
  import opened Bytes
  import opened Results

  datatype TocEntry = TocEntry(name: seq<byte>, length: u32, handle: u32)

  /** What `ToFileInfo` hands to the directory layer's callers. */
  datatype FileInfo = FileInfo(name: seq<byte>, length: u32, handle: u32)

  /** The largest C# `int`: byte counts and array lengths stay below it. */
  const IntMax: int := 0x7FFF_FFFF

  /** The record of `e` has a length a C# `int` can hold. */
  predicate Serializable(e: TocEntry) {
    12 + |e.name| <= IntMax
  }

  /** `new TocEntry()`: empty name, length 0, handle 0. */
  function New(): TocEntry {
    TocEntry([], 0, 0)
  }

  /** `TocEntry.Serialize`: the name's byte count n as four little-endian
      bytes, the name, `Length`, then `Handle`. */
  function Serialize(e: TocEntry): (r: seq<byte>)
    requires Serializable(e)
    ensures |r| == 12 + |e.name|
    ensures r[..4] == LE32(|e.name|) && r[4..4 + |e.name|] == e.name
    ensures r[4 + |e.name|..8 + |e.name|] == LE32(e.length) && r[8 + |e.name|..] == LE32(e.handle)
  {
    LE32(|e.name|) + e.name + LE32(e.length) + LE32(e.handle)
  }

  /** `TocEntry.Create(item)`: n is read as a signed `int` at 0, the name is
      the n bytes at 4, `Length` the `uint` at 4 + n and `Handle` the `uint` at
      8 + n. A buffer shorter than 4 bytes, a negative n, or fewer than 12 + n
      bytes makes one of the `BitConverter`/`GetString` calls throw (`None`);
      bytes after 12 + n are ignored. */
  function Create(item: seq<byte>): (r: Option<TocEntry>)
    ensures r.Some? <==> |item| >= 4 && 0 <= ReadI32(item, 0) && 12 + ReadI32(item, 0) <= |item|
    ensures r.Some? ==> var n := ReadI32(item, 0);
      r.value.name == item[4..4 + n] && r.value.length == ReadLE32(item, 4 + n)
      && r.value.handle == ReadLE32(item, 8 + n)
  {
    if |item| < 4 then None
    else
      var n := ReadI32(item, 0);
      if n < 0 || |item| < 12 + n then None
      else Some(TocEntry(item[4..4 + n], ReadLE32(item, 4 + n), ReadLE32(item, 8 + n)))
  }

  /** `ToFileInfo`: the three fields, copied. */
  function ToFileInfo(e: TocEntry): (f: FileInfo)
    ensures f.name == e.name && f.length == e.length && f.handle == e.handle
  {
    FileInfo(e.name, e.length, e.handle)
  }

  /** Round trip: `Create` recovers the name bytes, `Length` and `Handle` of
      whatever `Serialize` wrote. */
  lemma CreateSerialize(e: TocEntry)
    requires Serializable(e)
    ensures Create(Serialize(e)) == Some(e)
  {
    var r := Serialize(e);
    var n := |e.name|;
    LE32RoundTrip(n, r, 0);
    LE32RoundTrip(e.length, r, 4 + n);
    LE32RoundTrip(e.handle, r, 8 + n);
  }

  /** Bytes after the record do not change what `Create` reads. */
  lemma CreateIgnoresTrailing(item: seq<byte>, extra: seq<byte>)
    requires Create(item).Some?
    ensures Create(item + extra) == Create(item)
  {
    var n := ReadI32(item, 0);
    assert (item + extra)[..12 + n] == item[..12 + n];
    assert (item + extra)[4..4 + n] == item[4..4 + n];
  }

  /** A new entry serializes to twelve zero bytes. */
  lemma NewSerializesToZeros()
    ensures Serializable(New()) && Serialize(New()) == Zeros(12)
  {
    assert LE32(0) == [0, 0, 0, 0];
  }
}
