/** What a reader of the store sees after `Write` and after `Free`: the
    read-side contracts of `ReadAll` and `ReadAt` applied to the chains the
    write side leaves. */
module RoundTrip {
  import opened Bytes
  import opened Results
  import opened Pages
  import opened Chains
  import opened Images
  import opened Reads
  import opened Store

  /** The head of a blob `Write` stored with encryption off is not Free,
      carries the Encrypted bit and records the blob's length: `ReadAt`
      accepts the handle, `ReadAll` refuses it as encrypted. */
  lemma StoredHead(s: seq<byte>, n: nat, c: seq<nat>, d: seq<byte>)
    requires n * PageSize <= |s| && Stored(s, n, c, d)
    ensures InRange(c[0], n) && c[0] != 0
    ensures !HasFlag(HeaderAt(s, c[0])[0], Free)
    ensures HasFlag(HeaderAt(s, c[0])[0], Encrypted)
    ensures HeaderLength(s, c[0]) == |d|
  {
    assert PageWritten(s, c[0], d, 0);
    HeaderOfPage(s, c[0]);
  }

  /** Were the Encrypted gate not there, `ReadAll` on a stored blob would
      assemble exactly the blob: the chain read of the head's length. */
  lemma StoredChainRead(s: seq<byte>, n: nat, c: seq<nat>, d: seq<byte>)
    requires n * PageSize <= |s| && Stored(s, n, c, d)
    ensures ChainRead(s, c[0], HeaderLength(s, c[0])) == d
  {
    ReadAllHolds(s, n, c, d);
  }

  /** `ReadAt` on a stored blob copies the blob's bytes from `srcOffset`
      on, as many as the clamp gives. */
  lemma StoredReadAt(s: seq<byte>, n: nat, c: seq<nat>, d: seq<byte>, srcOffset: u32, count: u32)
    requires n * PageSize <= |s| && Stored(s, n, c, d) && srcOffset <= |d| <= 0xFFFF_FFFF
    ensures ReadAtBytes(s, c[0], srcOffset, ReadAtCount(|d|, srcOffset, count))
            == d[srcOffset..srcOffset + ReadAtCount(|d|, srcOffset, count)]
  {
    ReadAtHolds(s, n, c, d, srcOffset, ReadAtCount(|d|, srcOffset, count));
  }

  /** After `Free`, the chain's head page is Free with length 0: `ReadAll`
      reports it unallocated and `ReadAt` an invalid handle. */
  lemma FreedHead(s0: seq<byte>, s1: seq<byte>, n: nat, c: seq<nat>, ffp: u32)
    requires n * PageSize <= |s0| && n * PageSize <= |s1| && |c| >= 1 && InPages(c, n)
    requires ReleasedUpTo(s0, s1, n, c, |c|, ffp)
    ensures HasFlag(HeaderAt(s1, c[0])[0], Free) && HeaderLength(s1, c[0]) == 0
  {
    assert ReleasedPage(s0, s1, c, 0, ffp);
    ReleasedFields(Page(s0, c[0]), FreedLink(c, 0, ffp));
    HeaderOfPage(s1, c[0]);
  }

  /** An allocated chain's head is a handle `Write`, `Free` and `ReadAll`
      accept: in range and not the header page. */
  lemma AllocatedHead(s: seq<byte>, n: nat, c: seq<nat>)
    requires n * PageSize <= |s| && Allocated(s, n, c)
    ensures InRange(c[0], n) && c[0] != 0
  {
  }

  /** The reads of the round trip: on a stored blob, `ReadAll` refuses the
      head as encrypted and `ReadAt` from offset 0 copies the whole blob. */
  method ReadBack(f: CompoundFile, handle: u32, ghost c: seq<nat>, d: seq<byte>, buffer: array<byte>)
    returns (all: Result<seq<byte>, Error>, r: Result<u32, Error>)
    requires f.PageCount() * PageSize <= |f.stream| && Stored(f.stream, f.PageCount(), c, d)
    requires c[0] == handle && |d| <= buffer.Length && |d| < 0x8000_0000
    modifies buffer
    ensures all == Err(PageEncrypted)
    ensures r == Ok(|d|) && buffer[..|d|] == d
  {
    StoredHead(f.stream, f.PageCount(), c, d);
    StoredReadAt(f.stream, f.PageCount(), c, d, 0, |d| as u32);
    all := f.ReadAll(handle);
    r := f.ReadAt(handle, buffer, 0, |d| as u32);
  }

  /** Writing `data` to an allocated chain and reading it back: the write
      fails only with a full file, and otherwise `ReadAll` refuses the
      handle as encrypted while `ReadAt` returns the data. */
  method WriteReadBack(f: CompoundFile, handle: u32, ghost chain: seq<nat>, data: seq<byte>, buffer: array<byte>)
    returns (r: Result<u32, Error>, all: Result<seq<byte>, Error>)
    requires f.Valid() && Allocated(f.stream, f.PageCount(), chain) && chain[0] == handle
    requires 0 < |data| < 0x8000_0000 && |data| <= buffer.Length
    modifies f, buffer
    ensures f.Valid()
    ensures r.Err? ==> r.error == FileFull
    ensures r.Ok? ==> all == Err(PageEncrypted)
    ensures r.Ok? ==> r.value as int == |data| && buffer[..|data|] == data
  {
    AllocatedHead(f.stream, f.PageCount(), chain);
    ghost var fl, cc := f.freeList, f.chapterCount;
    var w, written := f.Write(handle, data, 0, |data|, chain);
    if w.Err? {
      return Err(w.error), Err(w.error);
    }
    LayoutHead(chain, fl, cc, |data|);
    all, r := ReadBack(f, handle, written, data[0..|data|], buffer);
    assert data[0..|data|] == data;
  }

  /** The store's own single- and two-page round-trip scenario with
      default options: a chain sized for `data` is allocated, `data` is
      written to it and read back. `ReadAll` refuses the handle, because
      `Write` with encryption off sets the Encrypted bit; `ReadAt` returns
      the data. */
  method AllocateWriteRead(f: CompoundFile, data: seq<byte>, buffer: array<byte>)
    returns (r: Result<u32, Error>, all: Result<seq<byte>, Error>)
    requires f.Valid() && 0 < |data| < 0x8000_0000 && |data| <= buffer.Length
    modifies f, buffer
    ensures f.Valid()
    ensures r.Err? ==> r.error == FileFull
    ensures r.Ok? ==> all == Err(PageEncrypted)
    ensures r.Ok? ==> r.value as int == |data| && buffer[..|data|] == data
  {
    var a, chain := f.AllocateSized(|data| as u32);
    if a.Err? {
      return Err(a.error), Err(a.error);
    }
    r, all := WriteReadBack(f, a.value, chain, data, buffer);
  }

  /** Freeing a chain and reading its handle: `ReadAll` reports it
      unallocated, and the next `Allocate` hands the same handle out again,
      since the freed chain now heads the free list. */
  method FreeReadAllocate(f: CompoundFile, handle: u32, ghost c: seq<nat>)
    returns (rd: Result<seq<byte>, Error>, a: Result<u32, Error>)
    requires f.Valid() && Allocated(f.stream, f.PageCount(), c) && c[0] == handle
    modifies f
    ensures f.Valid()
    ensures rd == Err(Unallocated)
    ensures a.Ok? && a.value == handle
  {
    AllocatedHead(f.stream, f.PageCount(), c);
    var fr := f.Free(handle, c);
    FreedHead(old(f.stream), f.stream, f.PageCount(), c, old(f.firstFreePage));
    rd := f.ReadAll(handle);
    a := f.Allocate();
  }

  /** A store created on a file that does not exist yet is one chapter
      whose every page passes `ValidateCrc`. */
  method CreateValidate(f: CompoundFile) returns (r: Result<(), Error>, ok: bool)
    requires f.magic == Zeros(MagicField) && f.version == FileVersion && f.chapterCount == 0
    requires |f.stream| == 0
    modifies f
    ensures r == Ok(()) && f.Valid() && f.PageCount() == ChapterSize && ok
  {
    r := f.Open(false, 0, 0, []);
    ok := f.ValidateCrc();
  }

  /** Persistence: a second store attached to the bytes of a valid store
      opens them as they are, with the same first free page, chapter count
      and free list. */
  method Reopen(f: CompoundFile, g: CompoundFile) returns (r: Result<(), Error>)
    requires f.Valid() && |f.stream| <= 0xFFFF_FFFF
    requires g.magic == Zeros(MagicField) && g.version == FileVersion && g.chapterCount == 0
    requires g.stream == f.stream
    modifies g
    ensures r == Ok(()) && g.Valid() && g.stream == f.stream
    ensures g.firstFreePage == f.firstFreePage && g.chapterCount == f.chapterCount && g.freeList == f.freeList
  {
    assert f != g by {
      assert |f.magic| != |g.magic|;
    }
    r := g.Open(true, f.firstFreePage, f.chapterCount, f.freeList);
  }
}
