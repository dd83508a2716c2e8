/** The compound file: one host stream holding the file header page and
    chapters of 4096 pages, a free list threaded through the Free pages,
    and data blobs stored as chains of linked pages. */
module Store {
  import opened Bytes
  import opened Results
  import opened Pages
  import opened Chains
  import opened Images
  import opened Reads
  import Crc

  /** The exceptions the store throws, one constructor per cause. */
  datatype Error =
    | OutOfRange      // a handle past the stream, a count past the data, an offset past the blob
    | InvalidHandle   // handle 0, or a `ReadAt` on a Free page
    | Unallocated     // `ReadAll` on a Free page
    | PageEncrypted   // `ReadAll` on an Encrypted page with encryption off
    | TooLong         // `ReadAll` on a length field above `int.MaxValue`
    | BufferTooSmall  // `ReadAt` into a buffer shorter than the count
    | FileFull        // `AddChapter` past the page limit
    | CorruptFile     // opening a file whose header does not carry the magic
    | OpenFailed      // opening a file with the magic but a newer version
    | LengthOverflow  // opening a file longer than `uint.MaxValue` bytes

  /** The buffer `AddChapter` builds for chapter `cc`: page j is Free,
      links to page `cc * 4096 + j + 1` and carries its checksum; the last
      page's link is then cut to 0 and its checksum recomputed. */
  method ChapterBuffer(cc: nat) returns (data: seq<byte>)
    requires !StoreFull(cc)
    ensures ChapterImage(data, cc * ChapterSize)
  {
    data := Zeros(ChapterBytes);
    ChapterBuiltStart(cc * ChapterSize);
    for i := 0 to ChapterSize
      invariant ChapterBuilt(data, cc * ChapterSize, i)
    {
      var nextFreePage: u32 := cc * ChapterSize + i + 1;
      data := FreshPage(data, cc * ChapterSize, i, nextFreePage);
    }
    data := CutLastLink(cc, data);
  }

  /** One turn of `AddChapter`'s loop on page `i` of the buffer: the Free
      bit is set, the link written, then the checksum of the first 4092
      bytes. */
  method FreshPage(d: seq<byte>, ghost base: nat, i: nat, nextFreePage: u32) returns (data: seq<byte>)
    requires base + ChapterSize <= MaxPageCount && i < ChapterSize && ChapterBuilt(d, base, i)
    requires nextFreePage == base + i + 1
    ensures data == FreshPageWrite(d, i, nextFreePage)
    ensures ChapterBuilt(data, base, i + 1)
  {
    assert BlankPage(d, i);
    ChapterPageStep(d, FreshPageWrite(d, i, nextFreePage), nextFreePage, i);
    ChapterBuiltKeep(d, FreshPageWrite(d, i, nextFreePage), base, i);
    data := Overwrite(d, PageSize * i, [SetFlag(d[PageSize * i], Free)]);
    data := Overwrite(data, PageSize * i + LinkIndex, LE32(nextFreePage));
    var crc := Crc.GetCrc(data, PageSize * i, PageSize - 4);
    data := Overwrite(data, PageSize * i + CrcIndex, LE32(crc));
  }

  /** The end of `AddChapter`'s buffer: the last page links to nothing. */
  method CutLastLink(cc: nat, built: seq<byte>) returns (data: seq<byte>)
    requires !StoreFull(cc) && ChapterBuilt(built, cc * ChapterSize, ChapterSize)
    ensures ChapterImage(data, cc * ChapterSize)
  {
    data := Overwrite(built, (ChapterSize - 1) * PageSize + LinkIndex, LE32(NoLink));
    var crc := Crc.GetCrc(data, (ChapterSize - 1) * PageSize, PageSize - 4);
    data := Overwrite(data, (ChapterSize - 1) * PageSize + CrcIndex, LE32(crc));
    assert data == RelinkWrite(built, ChapterSize - 1, NoLink);
    ChapterRelinked(built, data, cc * ChapterSize);
  }

  /** The stream `AddChapter` leaves when it adds chapter 0 to a stream
      shorter than two chapters. */
  ghost predicate FirstChapter(s: seq<byte>) {
    NewChapter(s, 0) && ChapterBytes <= |s| < 2 * ChapterBytes
  }

  lemma FirstChapterAdded(s0: seq<byte>, s1: seq<byte>, cc0: nat, cc: nat)
    requires |s0| < 2 * ChapterBytes && cc0 == 0 && cc == cc0 + 1
    requires NewChapter(s1, cc0)
    requires |s1| == if |s0| <= cc * ChapterBytes then cc * ChapterBytes else |s0|
    ensures FirstChapter(s1)
    ensures |s1| == if |s0| <= ChapterBytes then ChapterBytes else |s0|
  {
  }

  /** What `InitializeFile` leaves: the header for first free page 1
      written over page 0 of the first chapter makes a store of one
      chapter, free list pages 1 to 4095, whose every page passes the
      checksum test. */
  lemma InitialStore(s1: seq<byte>, s2: seq<byte>, m: seq<byte>, ffp: u32, cc: nat, fl: seq<nat>)
    requires FirstChapter(s1) && m == MagicString && ffp == 1 && cc == 1 && fl == Range(1, ChapterSize)
    requires s2 == Overwrite(s1, 0, HeaderImage(m, ffp))
    ensures |s2| == |s1|
    ensures StoreImage(s2, ffp, cc, fl)
    ensures forall q :: 0 <= q < cc * ChapterSize ==> PageCrcOk(s2, q)
  {
    OverwritePage(s1, 0, 0, HeaderImage(m, ffp));
    assert Page(s2, 0) == s2[..PageSize];
    FreshStoreImage(s1, s2);
    PagesCrcOk(s2, ChapterSize);
  }

  /** A store image no longer than a `uint` passes every check of
      `TryLoadFileHeader`, which reads back its first free page and, from
      its length, its chapter count. */
  lemma LoadedStore(s: seq<byte>, ffp: u32, cc: nat, fl: seq<nat>)
    requires StoreImage(s, ffp, cc, fl) && |s| <= 0xFFFF_FFFF
    ensures HeaderAccepted(s) && MagicChecked(s) && MagicOf(s) == MagicString
    ensures HeaderFirstFree(s) == ffp && |s| / ChapterBytes == cc
  {
    HeaderImageLoads(s, ffp);
  }

  class CompoundFile {
    /** The host stream. */
    var stream: seq<byte>
    /** The in-memory file header. */
    var magic: seq<byte>
    var version: u16
    var firstFreePage: u32
    var chapterCount: nat
    /** The free list, from `firstFreePage` along the links. */
    ghost var freeList: seq<nat>

    ghost predicate Valid()
      reads this
    {
      magic == MagicString && StoreImage(stream, firstFreePage, chapterCount, freeList)
    }

    function PageCount(): nat
      reads this
    {
      chapterCount * ChapterSize
    }

    /** Opening the stream: the header fields hold `FileHeader`'s defaults,
        a 50-byte zero magic and version 1. */
    constructor Attach(s: seq<byte>)
      ensures stream == s && magic == Zeros(MagicField) && version == FileVersion
      ensures firstFreePage == 0 && chapterCount == 0
    {
      stream := s;
      magic := Zeros(MagicField);
      version := FileVersion;
      firstFreePage := 0;
      chapterCount := 0;
      freeList := [];
    }

    // -------------------------------------------------------------------
    // Page helpers

    /** `ReadPageHeader`: the nine bytes at page `ix`'s position; a read past
        the end of the stream leaves zeros. */
    method ReadPageHeader(ix: nat) returns (h: seq<byte>)
      ensures h == ReadFrom(stream, ix * PageSize, PageHeaderSize)
      ensures (ix + 1) * PageSize <= |stream| ==>
                && h == Page(stream, ix)[..PageHeaderSize]
                && h[0] == Status(stream, ix) && ReadLE32(h, LinkIndex) == Link(stream, ix)
                && ReadLE32(h, LengthIndex) == Length(stream, ix)
    {
      h := ReadFrom(stream, ix * PageSize, PageHeaderSize);
      if (ix + 1) * PageSize <= |stream| {
        assert h == Page(stream, ix)[..PageHeaderSize];
        ReadLE32Same(h, LinkIndex, Page(stream, ix), LinkIndex);
        ReadLE32Same(h, LengthIndex, Page(stream, ix), LengthIndex);
      }
    }

    /** `WritePageHeader`: nine bytes over the start of page `ix`. */
    method WritePageHeader(ix: nat, data: seq<byte>)
      requires |data| == PageHeaderSize && (ix + 1) * PageSize <= |stream|
      modifies this`stream
      ensures stream == Overwrite(old(stream), ix * PageSize, data)
      ensures SamePagesExcept(old(stream), stream, ix)
      ensures Page(stream, ix) == Overwrite(Page(old(stream), ix), 0, data)
    {
      OverwritePage(stream, ix, 0, data);
      stream := Overwrite(stream, ix * PageSize, data);
    }

    /** `WritePageLink`: the link of page `ix` becomes `linkIx`. */
    method WritePageLink(ix: nat, linkIx: u32)
      requires (ix + 1) * PageSize <= |stream|
      modifies this`stream
      ensures stream == Overwrite(old(stream), ix * PageSize + LinkIndex, LE32(linkIx))
      ensures SamePagesExcept(old(stream), stream, ix)
      ensures Page(stream, ix) == Overwrite(Page(old(stream), ix), LinkIndex, LE32(linkIx))
    {
      OverwritePage(stream, ix, LinkIndex, LE32(linkIx));
      stream := Overwrite(stream, ix * PageSize + LinkIndex, LE32(linkIx));
    }

    /** `WritePageCrc`: the checksum of the first 4092 bytes of page `ix`,
        written into its last four. */
    method WritePageCrc(ix: nat)
      requires (ix + 1) * PageSize <= |stream|
      modifies this`stream
      ensures SamePagesExcept(old(stream), stream, ix)
      ensures Page(stream, ix) == Overwrite(Page(old(stream), ix), CrcIndex, CrcBytes(Page(old(stream), ix)))
      ensures CrcValid(Page(stream, ix))
    {
      var data := ReadFrom(stream, ix * PageSize, PageSize);
      assert data == Page(stream, ix);
      var crc := Crc.GetCrc(data, 0, PageSize - 4);
      OverwritePage(stream, ix, CrcIndex, LE32(crc));
      CrcWriteFields(data);
      stream := Overwrite(stream, ix * PageSize + CrcIndex, LE32(crc));
    }

    /** `WriteFileHeader`: page 0 becomes the header image of the in-memory
        magic and first free page. */
    method WriteFileHeader()
      requires |magic| <= MagicField
      modifies this`stream
      ensures stream == Overwrite(old(stream), 0, HeaderImage(magic, firstFreePage))
      ensures PageSize <= |old(stream)| ==> SamePagesExcept(old(stream), stream, 0)
      ensures PageSize <= |stream| && Page(stream, 0) == HeaderImage(magic, firstFreePage)
    {
      var data := Zeros(PageSize);
      var firstFreePageIndex := firstFreePage;
      data := Overwrite(data, 0, magic);
      data := Overwrite(data, VersionIndex, LE16(FileVersion));
      data := Overwrite(data, PageSizeIndex, LE16(PageSize));
      data := Overwrite(data, ChapterSizeIndex, LE16(ChapterSize));
      data := Overwrite(data, FirstFreeIndex, LE32(firstFreePageIndex));
      var crc := Crc.GetCrc(data, 0, PageSize - 4);
      HeaderBuilt(magic, firstFreePageIndex);
      data := Overwrite(data, CrcIndex, LE32(crc));
      assert data == HeaderImage(magic, firstFreePage);
      if PageSize <= |stream| {
        OverwritePage(stream, 0, 0, data);
      }
      stream := Overwrite(stream, 0, data);
      assert Page(stream, 0) == stream[..PageSize];
    }

    /** The middle of `Allocate`: the new head of the free list is the old
        head's link `freepageIx`, or, when that is 0, the first page of a
        chapter added for it. The free list loses its head. */
    method NextFreePage(freepageIx: u32) returns (r: Result<u32, Error>)
      requires FreePool(stream, chapterCount, freeList) && freepageIx == Link(stream, freeList[0])
      modifies this`stream, this`chapterCount, this`freeList
      ensures r.Err? <==> |old(freeList)| == 1 && StoreFull(old(chapterCount))
      ensures r.Err? ==> stream == old(stream) && freeList == old(freeList) && chapterCount == old(chapterCount)
      ensures r.Ok? ==> (freeList, chapterCount) == AfterPop(old(freeList), old(chapterCount))
      ensures r.Ok? ==> r.value == freeList[0] && old(freeList)[0] !in freeList
      ensures r.Ok? ==> FreePool(stream, chapterCount, freeList)
      ensures r.Ok? ==> Unchanged(old(stream), stream, old(PageCount()), {})
    {
      HeadLink(stream, PageCount(), freeList);
      if freepageIx == NoLink {
        ghost var s0, fl0, cc0 := stream, freeList, chapterCount;
        var added := AddChapter();
        if added.Err? {
          return Err(FileFull);
        }
        ChapterRefill(s0, stream, cc0, fl0);
        freeList := ChapterPages(cc0);
        assert (freeList, chapterCount) == AfterPop(fl0, cc0);
        return Ok((chapterCount - 1) * ChapterSize);
      } else {
        FreeListTail(stream, PageCount(), freeList);
        ghost var fl0 := freeList;
        freeList := freeList[1..];
        assert (freeList, chapterCount) == AfterPop(fl0, chapterCount);
        return Ok(freepageIx);
      }
    }

    /** The write of `Allocate` on the page it hands out, given the header
        `h` it read there: the Free bit is flipped and the link cleared; the
        checksum is not recomputed. */
    method ClaimPage(ix: nat, h: seq<byte>)
      requires (ix + 1) * PageSize <= |stream| && h == Page(stream, ix)[..PageHeaderSize]
      modifies this`stream
      ensures SamePagesExcept(old(stream), stream, ix)
      ensures Page(stream, ix) == Claimed(Page(old(stream), ix))
    {
      ClaimedBuilt(Page(stream, ix), h);
      var header := h[0 := ToggleFlag(h[0], Flag.Free)];
      header := Overwrite(header, LinkIndex, LE32(NoLink));
      WritePageHeader(ix, header);
    }

    /** `Allocate()`: hands out the head of the free list. The head's link
        becomes the new head; when it is 0 (the head was the last free page) a
        chapter is added and its first page becomes the new head. The handed
        out page has its Free bit flipped and its link cleared, without a new
        checksum, and the file header is rewritten. A full store throws from
        `AddChapter` before anything is written. */
    method Allocate() returns (r: Result<u32, Error>)
      requires Valid()
      modifies this`stream, this`firstFreePage, this`chapterCount, this`freeList
      ensures Valid()
      ensures r.Err? <==> |old(freeList)| == 1 && StoreFull(old(chapterCount))
      ensures r.Err? ==>
                && r.error == FileFull && stream == old(stream) && freeList == old(freeList)
                && firstFreePage == old(firstFreePage) && chapterCount == old(chapterCount)
      ensures r.Ok? ==> r.value == old(firstFreePage) == old(freeList)[0] && 0 < r.value < old(PageCount())
      ensures r.Ok? ==> (freeList, chapterCount) == AfterPop(old(freeList), old(chapterCount))
      ensures r.Ok? ==> r.value !in freeList
      ensures r.Ok? ==> Page(stream, r.value) == Claimed(Page(old(stream), r.value))
      ensures r.Ok? ==> Unchanged(old(stream), stream, old(PageCount()), {0, r.value})
    {
      var ix := firstFreePage;
      var header := ReadPageHeader(ix);
      var next := NextFreePage(ReadLE32(header, LinkIndex));
      if next.Err? {
        return Err(FileFull);
      }
      ghost var s1, cc1, fl1 := stream, chapterCount, freeList;
      firstFreePage := next.value;
      ClaimPage(ix, header);
      ghost var s2 := stream;
      WriteFileHeader();
      ClaimKeepsImage(old(stream), old(PageCount()), s1, s2, stream, cc1, fl1, next.value, ix);
      return Ok(ix);
    }

    /** The write of `Allocate(size)` after an allocation: `ixa`, the last
        page of the chain `c`, is linked to the page `p` just handed out. */
    method LinkAfter(ixa: u32, p: u32, ghost c: seq<nat>)
      requires Valid() && Allocated(stream, PageCount(), c) && ixa == c[|c| - 1]
      requires 0 < p < PageCount() && p !in c
      requires Link(stream, p) == NoLink && !HasFlag(Status(stream, p), Flag.Free)
      modifies this`stream
      ensures Valid()
      ensures Allocated(stream, PageCount(), c + [p])
      ensures Unchanged(old(stream), stream, PageCount(), {ixa})
      ensures Page(stream, ixa) == Overwrite(Page(old(stream), ixa), LinkIndex, LE32(p))
    {
      ghost var s1 := stream;
      AllocatedDisjoint(stream, PageCount(), c, freeList);
      WritePageLink(ixa, p);
      AllocatedExtend(s1, stream, PageCount(), c, p);
      OtherPageKeepsImage(s1, stream, firstFreePage, chapterCount, freeList, ixa);
    }

    /** One turn of the loop of `Allocate(size)`: a page is allocated and
        `ixa`, the last page of the chain `c` built so far, is linked to it.
        The link is written without a new checksum. */
    method AppendPage(ixa: u32, ghost c: seq<nat>) returns (r: Result<u32, Error>)
      requires Valid() && Allocated(stream, PageCount(), c) && ixa == c[|c| - 1]
      modifies this`stream, this`firstFreePage, this`chapterCount, this`freeList
      ensures Valid()
      ensures r.Err? <==> |old(freeList)| == 1 && StoreFull(old(chapterCount))
      ensures r.Err? ==>
                && r.error == FileFull && stream == old(stream)
                && freeList == old(freeList) && chapterCount == old(chapterCount)
      ensures r.Ok? ==> r.value == old(freeList)[0]
      ensures r.Ok? ==> (freeList, chapterCount) == AfterPop(old(freeList), old(chapterCount))
      ensures r.Ok? ==> Allocated(stream, PageCount(), c + [r.value])
      ensures r.Ok? ==> Unchanged(old(stream), stream, old(PageCount()), {0, r.value, ixa})
      ensures r.Ok? ==> Page(stream, ixa) == Overwrite(Page(old(stream), ixa), LinkIndex, LE32(r.value))
    {
      ghost var s0, n0, fl0 := stream, PageCount(), freeList;
      var ixb := Allocate();
      if ixb.Err? {
        return ixb;
      }
      ghost var s1 := stream;
      ChainSurvivesClaim(s0, s1, n0, PageCount(), c, fl0, ixb.value);
      LinkAfter(ixa, ixb.value, c);
      AppendedKept(s0, s1, stream, n0, PageCount(), ixb.value, ixa);
      return ixb;
    }

    /** The loop of `Allocate(size)`: while bytes remain, one more page is
        allocated and linked after `ixa0`, the last page of the chain `c0`
        built so far, keeping `Grown`. */
    method ExtendChain(rest0: u32, ixa0: u32, ghost c0: seq<nat>, ghost s0: seq<byte>, ghost n0: nat, ghost fl0: seq<nat>, ghost cc0: nat)
      returns (ok: bool, ghost chain: seq<nat>)
      requires Valid() && Grown(s0, n0, fl0, cc0, c0, stream, PageCount(), freeList, chapterCount, c0)
      requires ixa0 == c0[|c0| - 1]
      modifies this`stream, this`firstFreePage, this`chapterCount, this`freeList
      ensures Valid() && Grown(s0, n0, fl0, cc0, c0, stream, PageCount(), freeList, chapterCount, chain)
      ensures ok ==> |chain| == |c0| + (if rest0 > 0 then PagesFor(rest0) else 0)
      ensures !ok ==> |chain| < |c0| + (if rest0 > 0 then PagesFor(rest0) else 0)
      ensures !ok ==> |freeList| == 1 && StoreFull(chapterCount)
    {
      chain := c0;
      var rest := rest0;
      var ixa := ixa0;
      while rest > 0
        invariant Valid() && |chain| >= 1 && ixa == chain[|chain| - 1]
        invariant Grown(s0, n0, fl0, cc0, c0, stream, PageCount(), freeList, chapterCount, chain)
        invariant |chain| + (if rest > 0 then PagesFor(rest) else 0) == |c0| + (if rest0 > 0 then PagesFor(rest0) else 0)
        decreases rest
      {
        ghost var s1, n1, fl1, cc1 := stream, PageCount(), freeList, chapterCount;
        var ixb := AppendPage(ixa, chain);
        if ixb.Err? {
          return false, chain;
        }
        ghost var p: nat := ixb.value;
        GrownStep(s0, n0, fl0, cc0, c0, s1, n1, fl1, cc1, chain, stream, PageCount(), freeList, chapterCount, p, ixa);
        chain := chain + [p];
        ghost var r1 := rest;
        rest := rest - Min(rest, PageDataSize);
        PagesForTake(r1, rest);
        ixa := ixb.value;
      }
      return true, chain;
    }

    /** `Allocate(size)`: a chain of as many pages as `size` bytes need, one
        `Allocate()` per page, each page linked after the previous one (no
        checksum is refreshed). The handle is the first page. When the store
        fills up part way the pages allocated so far stay allocated. */
    method AllocateSized(size: u32) returns (r: Result<u32, Error>, ghost chain: seq<nat>)
      requires Valid()
      modifies this`stream, this`firstFreePage, this`chapterCount, this`freeList
      ensures Valid()
      ensures chain == Pops(old(freeList), old(chapterCount), |chain|)
      ensures (freeList, chapterCount) == AfterPops(old(freeList), old(chapterCount), |chain|)
      ensures r.Ok? ==> |chain| == PagesFor(size) && r.value == chain[0]
      ensures r.Ok? ==> Allocated(stream, PageCount(), chain)
      ensures r.Err? ==>
                && r.error == FileFull && |chain| < PagesFor(size)
                && |freeList| == 1 && StoreFull(chapterCount)
      ensures Unchanged(old(stream), stream, old(PageCount()), {0} + Elems(chain))
    {
      ghost var s0, n0, fl0, cc0 := stream, PageCount(), freeList, chapterCount;
      chain := [];
      var first := Allocate();
      if first.Err? {
        return Err(FileFull), chain;
      }
      var ret := first.value;
      assert HasFlag(Status(s0, fl0[0]), Flag.Free);
      ClaimedAlone(s0, stream, PageCount(), ret);
      chain := [ret];
      assert Elems(chain) == {ret};
      var rest := size - Min(size, PageDataSize);
      PagesForTake(size, rest);
      assert Grown(s0, n0, fl0, cc0, chain, stream, PageCount(), freeList, chapterCount, chain);
      var ok;
      ghost var pages := 1 + (if rest > 0 then PagesFor(rest) else 0);
      ok, chain := ExtendChain(rest, ret, chain, s0, n0, fl0, cc0);
      assert ok ==> |chain| == pages;
      if !ok {
        return Err(FileFull), chain;
      }
      return Ok(ret), chain;
    }

    /** One turn of `Free`'s loop on page `ix`: the status gets the Free
        bit and, through the inverted test, the Encrypted bit; the length
        becomes 0; a link of 0 is replaced by the first free page; the
        header and then the checksum are written. The link read is
        returned. */
    method ReleasePage(ix: nat) returns (next: u32)
      requires (ix + 1) * PageSize <= |stream|
      modifies this`stream
      ensures next == Link(old(stream), ix)
      ensures SamePagesExcept(old(stream), stream, ix)
      ensures Page(stream, ix) == Released(Page(old(stream), ix), if next == NoLink then firstFreePage else next)
    {
      ghost var pg := Page(stream, ix);
      var header := ReadPageHeader(ix);
      var status := SetFlag(header[0], Flag.Free);
      if !HasFlag(status, Encrypted) {
        status := ToggleFlag(status, Encrypted);
      }
      header := header[0 := status];
      header := Overwrite(header, LengthIndex, LE32(0));
      next := ReadLE32(header, LinkIndex);
      ReadLE32Encodes(header, LinkIndex);
      if next == NoLink {
        header := Overwrite(header, LinkIndex, LE32(firstFreePage));
      }
      ghost var link := if next == NoLink then firstFreePage else next;
      assert header[0] == FreedStatus(pg[0]) && header[1..5] == LE32(link) && header[5..] == LE32(0);
      WritePageHeader(ix, header);
      ghost var s1 := stream;
      WritePageCrc(ix);
      ReleasedBuilt(pg, header, link);
    }

    /** `Free`'s loop: from `handle` along the links until a link of 0,
        each page of the allocated chain `c` is released. */
    method ReleaseChain(handle: u32, ghost c: seq<nat>)
      requires PageCount() * PageSize <= |stream|
      requires Allocated(stream, PageCount(), c) && c[0] == handle
      modifies this`stream
      ensures |stream| == |old(stream)|
      ensures Unchanged(old(stream), stream, PageCount(), Elems(c))
      ensures ReleasedUpTo(old(stream), stream, PageCount(), c, |c|, firstFreePage)
    {
      ghost var s0 := stream;
      var h := handle;
      ghost var k := 0;
      assert c[..0] == [];
      while h != NoLink
        invariant k <= |c| && |stream| == |s0|
        invariant h == if k < |c| then c[k] else NoLink
        invariant Unchanged(s0, stream, PageCount(), Elems(c[..k]))
        invariant ReleasedUpTo(s0, stream, PageCount(), c, k, firstFreePage)
        decreases |c| - k
      {
        ghost var s1 := stream;
        h := ReleasePage(h);
        ReleaseStep(s0, s1, stream, PageCount(), c, k, firstFreePage);
        k := k + 1;
      }
      assert c[..k] == c;
    }

    /** `Free(handle)`: a handle past the store's pages or the file header
        is refused; otherwise every page of the handle's chain is released,
        the last one linked to the old first free page, and the chain
        becomes the front of the free list. */
    method Free(handle: u32, ghost c: seq<nat>) returns (r: Result<(), Error>)
      requires Valid()
      requires InRange(handle, PageCount()) && handle != 0 ==> Allocated(stream, PageCount(), c) && c[0] == handle
      modifies this`stream, this`firstFreePage, this`freeList
      ensures Valid()
      ensures r.Err? <==> !InRange(handle, PageCount()) || handle == 0
      ensures r.Err? ==>
                && r.error == (if !InRange(handle, PageCount()) then OutOfRange else InvalidHandle)
                && stream == old(stream) && freeList == old(freeList)
      ensures r.Ok? ==> freeList == c + old(freeList) && firstFreePage == handle
      ensures r.Ok? ==> ReleasedUpTo(old(stream), stream, PageCount(), c, |c|, old(firstFreePage))
      ensures r.Ok? ==> Unchanged(old(stream), stream, PageCount(), {0} + Elems(c))
    {
      if !InRange(handle, PageCount()) {
        return Err(OutOfRange);
      }
      if handle == 0 {
        return Err(InvalidHandle);
      }
      ghost var s0, fl0, ffp0 := stream, freeList, firstFreePage;
      ReleaseChain(handle, c);
      ghost var s1 := stream;
      firstFreePage := handle;
      freeList := c + fl0;
      WriteFileHeader();
      FreedStore(s0, s1, stream, PageCount(), chapterCount, c, fl0, ffp0, handle);
      return Ok(());
    }

    // -------------------------------------------------------------------
    // Write

    /** `WritePageCrc` on a page of an allocated chain: the store image is
        kept, and so are the page's status, link, length and payload; its
        checksum becomes valid. */
    method SealPage(ix: nat)
      requires Valid() && 0 < ix < PageCount() && ix !in freeList
      modifies this`stream
      ensures Valid()
      ensures SamePagesExcept(old(stream), stream, ix)
      ensures Page(stream, ix) == Overwrite(Page(old(stream), ix), CrcIndex, CrcBytes(Page(old(stream), ix)))
      ensures StatusOf(Page(stream, ix)) == StatusOf(Page(old(stream), ix))
      ensures LinkOf(Page(stream, ix)) == LinkOf(Page(old(stream), ix))
      ensures LengthOf(Page(stream, ix)) == LengthOf(Page(old(stream), ix))
      ensures PayloadOf(Page(stream, ix)) == PayloadOf(Page(old(stream), ix))
      ensures CrcValid(Page(stream, ix))
    {
      ghost var s1 := stream;
      CrcWriteFields(Page(stream, ix));
      WritePageCrc(ix);
      OtherPageKeepsImage(s1, stream, firstFreePage, chapterCount, freeList, ix);
    }

    /** The start of one turn of `Write`'s loop on page `ix`, with `count`
        bytes still to write: the header gets `count` as its length and the
        Encrypted bit, and the turn's piece (the next at most 4083 bytes) is
        written at the start of the payload. The page's link, read from the
        header, is returned. No checksum is written yet. */
    method WritePiece(ix: nat, count: u32, piece: seq<byte>, ghost d: seq<byte>, ghost j: nat) returns (link: u32)
      requires Valid() && 0 < ix < PageCount() && ix !in freeList
      requires 0 < count && count == |d| - PageDataSize * j && |piece| == Min(count, PageDataSize)
      requires piece == d[PageDataSize * j..PageDataSize * j + |piece|]
      modifies this`stream
      ensures Valid()
      ensures stream == PieceWrite(old(stream), ix, count, piece)
      ensures link == Link(old(stream), ix)
      ensures SamePagesExcept(old(stream), stream, ix)
      ensures Status(stream, ix) == SetFlag(Status(old(stream), ix), Encrypted)
      ensures Link(stream, ix) == link
      ensures PageHolds(stream, ix, d, j)
    {
      ghost var s1 := stream;
      ghost var pg := Page(stream, ix);
      var header := ReadPageHeader(ix);
      header := Overwrite(header, LengthIndex, LE32(count));
      header := header[0 := SetFlag(header[0], Encrypted)];
      assert header == PieceHeader(pg, count);
      PieceHeaderFields(pg, count);
      link := ReadLE32(header, LinkIndex);
      WritePageHeader(ix, header);
      stream := Overwrite(stream, ix * PageSize + PageHeaderSize, piece);
      PieceKeepsImage(s1, stream, firstFreePage, chapterCount, freeList, ix, count, piece, d, j);
    }

    /** The start of a turn of `Write` on page `cur[j]` with `rest` bytes
        to go: the piece is written and the loop state kept. The page's
        link is returned: 0 exactly when the page is the chain's last. */
    method PieceTurn(h: u32, rest: u32, piece: seq<byte>, ghost s0: seq<byte>, ghost n0: nat, ghost fl0: seq<nat>,
                     ghost cc0: nat, ghost c: seq<nat>, ghost d: seq<byte>, ghost cur: seq<nat>, ghost j: nat)
      returns (link: u32)
      requires Valid() && Writing(s0, n0, fl0, cc0, c, d, stream, PageCount(), freeList, chapterCount, cur, j)
      requires j < |cur| && h == cur[j]
      requires 0 < rest && rest == |d| - PageDataSize * j && |piece| == Min(rest, PageDataSize)
      requires piece == d[PageDataSize * j..PageDataSize * j + |piece|]
      modifies this`stream
      ensures Valid() && Writing(s0, n0, fl0, cc0, c, d, stream, PageCount(), freeList, chapterCount, cur, j)
      ensures PageHolds(stream, h, d, j) && HasFlag(Status(stream, h), Encrypted)
      ensures link == NoLink <==> j == |cur| - 1
      ensures j < |cur| - 1 ==> link == cur[j + 1]
    {
      ghost var s1 := stream;
      AllocatedDisjoint(stream, PageCount(), cur, freeList);
      link := WritePiece(h, rest, piece, d, j);
      LinkAt(s1, PageCount(), cur, j);
      WritingPiece(s0, n0, fl0, cc0, c, d, s1, PageCount(), freeList, chapterCount, cur, j, stream);
    }

    /** The end of a turn of `Write` on `h`, the last page of the chain
        `cur`, when bytes remain: a page is allocated and linked after `h`,
        and `h`'s checksum is written. The loop state moves on to the grown
        chain; a full store leaves everything as it was. */
    method AppendAndSeal(h: u32, ghost s0: seq<byte>, ghost n0: nat, ghost fl0: seq<nat>, ghost cc0: nat,
                         ghost c: seq<nat>, ghost d: seq<byte>, ghost cur: seq<nat>, ghost j: nat)
      returns (r: Result<u32, Error>)
      requires Valid() && Writing(s0, n0, fl0, cc0, c, d, stream, PageCount(), freeList, chapterCount, cur, j)
      requires j == |cur| - 1 && h == cur[j]
      requires PageHolds(stream, h, d, j) && HasFlag(Status(stream, h), Encrypted)
      modifies this`stream, this`firstFreePage, this`chapterCount, this`freeList
      ensures Valid()
      ensures r.Ok? ==> Writing(s0, n0, fl0, cc0, c, d, stream, PageCount(), freeList, chapterCount, cur + [r.value], j + 1)
      ensures r.Err? ==>
                && stream == old(stream) && freeList == old(freeList) && chapterCount == old(chapterCount)
                && |freeList| == 1 && StoreFull(chapterCount)
    {
      ghost var s2, n1, fl1, cc1 := stream, PageCount(), freeList, chapterCount;
      r := AppendPage(h, cur);
      if r.Err? {
        return;
      }
      ghost var s3 := stream;
      AllocatedDisjoint(stream, PageCount(), cur + [r.value], freeList);
      SealPage(h);
      WritingAppend(s0, n0, fl0, cc0, c, d, s2, n1, fl1, cc1, cur, j, s3, PageCount(), freeList, chapterCount, r.value, stream);
    }

    /** The checksum write that ends a turn of `Write` on page `cur[j]`,
        which holds piece `j` with the Encrypted bit set: the loop state
        moves on to `j + 1`. */
    method SealTurn(h: u32, ghost s0: seq<byte>, ghost n0: nat, ghost fl0: seq<nat>, ghost cc0: nat,
                    ghost c: seq<nat>, ghost d: seq<byte>, ghost cur: seq<nat>, ghost j: nat)
      requires Valid() && Writing(s0, n0, fl0, cc0, c, d, stream, PageCount(), freeList, chapterCount, cur, j)
      requires j < |cur| && h == cur[j]
      requires PageHolds(stream, h, d, j) && HasFlag(Status(stream, h), Encrypted)
      modifies this`stream
      ensures Valid()
      ensures Writing(s0, n0, fl0, cc0, c, d, stream, PageCount(), freeList, chapterCount, cur, j + 1)
    {
      ghost var s2 := stream;
      AllocatedDisjoint(stream, PageCount(), cur, freeList);
      SealPage(h);
      WritingSealed(s0, n0, fl0, cc0, c, d, s2, PageCount(), freeList, chapterCount, cur, j, stream);
    }

    /** One turn of `Write`'s loop on page `h`, the `j`th of the chain
        `cur`, with `rest` bytes of the blob `d` to go: `piece` is written
        there and the page sealed; when bytes remain, the page's link leads
        on, or a page is allocated and linked after it when the link is 0.
        `ok` is false only when that allocation finds the store full. */
    method WriteTurn(h: u32, rest: nat, piece: seq<byte>, ghost s0: seq<byte>, ghost n0: nat, ghost fl0: seq<nat>,
                     ghost cc0: nat, ghost c: seq<nat>, ghost d: seq<byte>, ghost cur: seq<nat>, ghost j: nat)
      returns (ok: bool, next: u32, ghost cur2: seq<nat>, ghost j2: nat)
      requires Valid() && Writing(s0, n0, fl0, cc0, c, d, stream, PageCount(), freeList, chapterCount, cur, j)
      requires Progress(|d|, c, rest, j, cur, h) && 0 < rest < 0x8000_0000
      requires |piece| == Min(rest, PageDataSize) && piece == d[PageDataSize * j..PageDataSize * j + |piece|]
      modifies this`stream, this`firstFreePage, this`chapterCount, this`freeList
      ensures Valid() && Writing(s0, n0, fl0, cc0, c, d, stream, PageCount(), freeList, chapterCount, cur2, j2)
      ensures ok ==> Progress(|d|, c, rest - Min(rest, PageDataSize), j2, cur2, next)
      ensures !ok ==> |freeList| == 1 && StoreFull(chapterCount)
    {
      var link := PieceTurn(h, rest, piece, s0, n0, fl0, cc0, c, d, cur, j);
      if rest - |piece| > 0 && link == NoLink {
        ok, next, cur2, j2 := ExtendTurn(h, rest, |piece|, s0, n0, fl0, cc0, c, d, cur, j);
      } else {
        ok, next, cur2, j2 := FollowTurn(h, rest, |piece|, link, s0, n0, fl0, cc0, c, d, cur, j);
      }
    }

    /** The end of a turn of `Write` on `h`, the chain's last page, after a
        piece of `ic` bytes with bytes still to go: the chain grows by one
        page, which the next turn writes. */
    method ExtendTurn(h: u32, rest: nat, ic: nat, ghost s0: seq<byte>, ghost n0: nat, ghost fl0: seq<nat>,
                      ghost cc0: nat, ghost c: seq<nat>, ghost d: seq<byte>, ghost cur: seq<nat>, ghost j: nat)
      returns (ok: bool, next: u32, ghost cur2: seq<nat>, ghost j2: nat)
      requires Valid() && Writing(s0, n0, fl0, cc0, c, d, stream, PageCount(), freeList, chapterCount, cur, j)
      requires Progress(|d|, c, rest, j, cur, h) && 0 < rest && ic == Min(rest, PageDataSize) && rest - ic > 0
      requires j == |cur| - 1 && PageHolds(stream, h, d, j) && HasFlag(Status(stream, h), Encrypted)
      modifies this`stream, this`firstFreePage, this`chapterCount, this`freeList
      ensures Valid() && Writing(s0, n0, fl0, cc0, c, d, stream, PageCount(), freeList, chapterCount, cur2, j2)
      ensures ok ==> Progress(|d|, c, rest - ic, j2, cur2, next)
      ensures !ok ==> |freeList| == 1 && StoreFull(chapterCount)
    {
      var ixb := AppendAndSeal(h, s0, n0, fl0, cc0, c, d, cur, j);
      if ixb.Err? {
        return false, h, cur, j;
      }
      ghost var p: nat := ixb.value;
      ProgressAppend(|d|, c, rest, j, cur, h, ic, p);
      ok, next, cur2, j2 := true, ixb.value, cur + [p], j + 1;
    }

    /** The end of a turn of `Write` on `h` after a piece of `ic` bytes
        when the page's `link` leads on or no bytes remain: the page is
        sealed and the next turn writes the linked page. */
    method FollowTurn(h: u32, rest: nat, ic: nat, link: u32, ghost s0: seq<byte>, ghost n0: nat, ghost fl0: seq<nat>,
                      ghost cc0: nat, ghost c: seq<nat>, ghost d: seq<byte>, ghost cur: seq<nat>, ghost j: nat)
      returns (ok: bool, next: u32, ghost cur2: seq<nat>, ghost j2: nat)
      requires Valid() && Writing(s0, n0, fl0, cc0, c, d, stream, PageCount(), freeList, chapterCount, cur, j)
      requires Progress(|d|, c, rest, j, cur, h) && 0 < rest && ic == Min(rest, PageDataSize)
      requires rest - ic > 0 ==> j < |cur| - 1 && link == cur[j + 1]
      requires PageHolds(stream, h, d, j) && HasFlag(Status(stream, h), Encrypted)
      modifies this`stream
      ensures ok && cur2 == cur && j2 == j + 1
      ensures Valid() && Writing(s0, n0, fl0, cc0, c, d, stream, PageCount(), freeList, chapterCount, cur2, j2)
      ensures Progress(|d|, c, rest - ic, j2, cur2, next)
    {
      ok, cur2, j2 := true, cur, j + 1;
      SealTurn(h, s0, n0, fl0, cc0, c, d, cur, j);
      if rest - ic > 0 {
        ProgressNext(|d|, c, rest, j, cur, h, ic, link);
        next := link;
      } else {
        ProgressLast(|d|, c, rest, j, cur, h, ic);
        next := h;
      }
    }

    /** A turn of `Write`'s loop with `rest` bytes of
        `data[offset..offset + count]` to go from `off`: the next piece is
        cut from `data` and written by `WriteTurn`. */
    method WriteStep(h: u32, data: seq<byte>, offset: nat, count: nat, rest: nat, off: nat,
                     ghost s0: seq<byte>, ghost n0: nat, ghost fl0: seq<nat>, ghost cc0: nat,
                     ghost c: seq<nat>, ghost d: seq<byte>, ghost cur: seq<nat>, ghost j: nat)
      returns (ok: bool, next: u32, ghost cur2: seq<nat>, ghost j2: nat)
      requires offset + count <= |data| && count < 0x8000_0000 && d == data[offset..offset + count]
      requires Valid() && Writing(s0, n0, fl0, cc0, c, d, stream, PageCount(), freeList, chapterCount, cur, j)
      requires 0 < rest && off + rest == offset + count && Progress(|d|, c, rest, j, cur, h)
      modifies this`stream, this`firstFreePage, this`chapterCount, this`freeList
      ensures Valid() && Writing(s0, n0, fl0, cc0, c, d, stream, PageCount(), freeList, chapterCount, cur2, j2)
      ensures ok ==> Progress(|d|, c, rest - Min(rest, PageDataSize), j2, cur2, next)
      ensures !ok ==> |freeList| == 1 && StoreFull(chapterCount)
    {
      var ic := Min(rest, PageDataSize);
      assert rest == count - PageDataSize * j && off == offset + PageDataSize * j;
      var piece := data[off..off + ic];
      PieceOfBlob(data, offset, count, j, off, ic);
      ok, next, cur2, j2 := WriteTurn(h, rest, piece, s0, n0, fl0, cc0, c, d, cur, j);
    }

    /** `Write`'s loop: from `handle`, the first page of the allocated chain
        `c`, each page gets the length still to write and its piece of
        `data[offset..offset + count]`, until the bytes run out or the
        store is full. The loop state is `Writing`; the last page written
        is returned. */
    method WriteChain(handle: u32, data: seq<byte>, offset: nat, count: nat, ghost c: seq<nat>)
      returns (ok: bool, h: u32, ghost cur: seq<nat>, ghost j: nat)
      requires Valid() && offset + count <= |data| && count < 0x8000_0000
      requires Allocated(stream, PageCount(), c) && c[0] == handle
      modifies this`stream, this`firstFreePage, this`chapterCount, this`freeList
      ensures Valid()
      ensures Writing(old(stream), old(PageCount()), old(freeList), old(chapterCount), c, data[offset..offset + count],
                      stream, PageCount(), freeList, chapterCount, cur, j)
      ensures ok ==> Progress(count, c, 0, j, cur, h)
      ensures !ok ==> |freeList| == 1 && StoreFull(chapterCount)
      ensures count == 0 ==> ok && stream == old(stream)
    {
      ghost var s0, n0, fl0, cc0 := stream, PageCount(), freeList, chapterCount;
      ghost var d := data[offset..offset + count];
      WritingStart(stream, PageCount(), freeList, chapterCount, c, d);
      cur, j := c, 0;
      h := handle;
      var rest: nat, off: nat := count, offset;
      assert |d| == count;
      ProgressStart(|d|, c, h);
      while rest > 0
        invariant Valid()
        invariant Writing(s0, n0, fl0, cc0, c, d, stream, PageCount(), freeList, chapterCount, cur, j)
        invariant off + rest == offset + count && Progress(|d|, c, rest, j, cur, h)
        invariant count == 0 ==> stream == s0
        decreases rest
      {
        var ic: nat := Min(rest, PageDataSize);
        assert 0 < ic <= rest;
        ok, h, cur, j := WriteStep(h, data, offset, count, rest, off, s0, n0, fl0, cc0, c, d, cur, j);
        if !ok {
          return;
        }
        off, rest := off + ic, rest - ic;
      }
      ok := true;
    }

    /** The cut at the end of `Write` on `h`, page `e - 1` of the chain
        `cur`, which links on: the header read from `h` gets a link of 0,
        is written back, and the checksum is rewritten. The chain falls
        apart into the kept front and the tail. */
    method CutLink(h: nat, header: seq<byte>, ghost cur: seq<nat>, ghost e: nat)
      requires Valid() && Allocated(stream, PageCount(), cur) && 1 <= e < |cur| && h == cur[e - 1]
      requires header == Page(stream, h)[..PageHeaderSize]
      modifies this`stream
      ensures Valid()
      ensures Allocated(stream, PageCount(), cur[..e]) && Allocated(stream, PageCount(), cur[e..])
      ensures Link(old(stream), h) == cur[e]
      ensures Unchanged(old(stream), stream, PageCount(), {h})
      ensures ContentKept(old(stream), stream, h)
      ensures LinkOf(Page(stream, h)) == NoLink && CrcValid(Page(stream, h))
    {
      ghost var s1, pg := stream, Page(stream, h);
      var cut := Overwrite(header, LinkIndex, LE32(NoLink));
      assert cut == CutHeader(pg);
      AllocatedDisjoint(stream, PageCount(), cur, freeList);
      WritePageHeader(h, cut);
      OtherPageKeepsImage(s1, stream, firstFreePage, chapterCount, freeList, h);
      ghost var s2 := stream;
      SealPage(h);
      CutSealed(s1, s2, stream, PageCount(), cur, e, h);
    }

    /** The end of `Write` on `h`, the last page written, page `e - 1` of
        the chain `cur`: when its link is not 0, the link is cut and the
        pages after it are freed, so they lead the free list. */
    method CutTail(h: nat, ghost cur: seq<nat>, ghost e: nat)
      requires Valid() && Allocated(stream, PageCount(), cur) && 1 <= e <= |cur| && h == cur[e - 1]
      modifies this`stream, this`firstFreePage, this`freeList
      ensures Valid()
      ensures CutDone(old(stream), stream, PageCount(), old(freeList), freeList, cur, e, h)
    {
      var header := ReadPageHeader(h);
      var next := ReadLE32(header, LinkIndex);
      LinkAt(stream, PageCount(), cur, e - 1);
      if next == NoLink {
        assert cur[..e] == cur && cur[e..] == [];
        return;
      }
      CutAndFree(h, header, next, cur, e);
    }

    /** `CutTail` when `h` links on to `next`. */
    method CutAndFree(h: nat, header: seq<byte>, next: u32, ghost cur: seq<nat>, ghost e: nat)
      requires Valid() && Allocated(stream, PageCount(), cur) && 1 <= e < |cur| && h == cur[e - 1]
      requires header == Page(stream, h)[..PageHeaderSize] && next == cur[e]
      modifies this`stream, this`firstFreePage, this`freeList
      ensures Valid() && Allocated(stream, PageCount(), cur[..e])
      ensures freeList == cur[e..] + old(freeList)
      ensures Unchanged(old(stream), stream, PageCount(), {0, h} + Elems(cur[e..]))
      ensures ContentKept(old(stream), stream, h)
      ensures CrcValid(Page(stream, h))
      ensures forall q | q in cur[e..] :: PageFreed(stream, q)
    {
      ghost var s1 := stream;
      CutLink(h, header, cur, e);
      ghost var s2, ffp := stream, firstFreePage;
      var r := Free(next, cur[e..]);
      TailFreed(s1, s2, stream, PageCount(), cur, e, h);
      ReleasedFreed(s2, stream, PageCount(), cur[e..], ffp);
    }

    /** `Write(handle, data, offset, count)`: a count past the data or a
        handle past the store's pages is refused as out of range, handle 0
        as invalid. Otherwise the `count` bytes at `offset` are written over
        the chain `c` that starts at `handle`: page `j` gets piece `j` and
        the length still to go from it; when the chain is too short, pages
        are allocated and linked after it; when it is too long, it is cut
        after the last page written and the rest is freed. An empty blob
        keeps the head page's length and payload. Running out of pages
        mid-write fails with `FileFull`, the pages written so far kept. */
    method Write(handle: u32, data: seq<byte>, offset: nat, count: nat, ghost c: seq<nat>)
      returns (r: Result<(), Error>, ghost chain: seq<nat>)
      requires Valid() && offset + count < 0x8000_0000
      requires offset + count <= |data| && InRange(handle, PageCount()) && handle != 0 ==>
                 Allocated(stream, PageCount(), c) && c[0] == handle
      modifies this`stream, this`firstFreePage, this`chapterCount, this`freeList
      ensures Valid()
      ensures r.Err? && r.error != FileFull <==> |data| < offset + count || !InRange(handle, old(PageCount())) || handle == 0
      ensures r.Err? && r.error != FileFull ==>
                && r.error == (if |data| < offset + count || !InRange(handle, old(PageCount())) then OutOfRange else InvalidHandle)
                && stream == old(stream) && freeList == old(freeList) && chapterCount == old(chapterCount)
      ensures r.Err? && r.error == FileFull ==> |freeList| == 1 && StoreFull(chapterCount)
      ensures r.Ok? ==> (chain, freeList, chapterCount) == WriteLayout(c, old(freeList), old(chapterCount), count)
      ensures r.Ok? ==> Allocated(stream, PageCount(), chain)
      ensures r.Ok? && count > 0 ==> Stored(stream, PageCount(), chain, data[offset..offset + count])
      ensures r.Ok? && count == 0 ==>
                && chain == [handle as nat]
                && ContentKept(old(stream), stream, handle)
      ensures r.Ok? ==> Unchanged(old(stream), stream, old(PageCount()), {0} + Elems(c) + Elems(chain))
      ensures r.Ok? ==> forall q | q in Elems(c) && q !in Elems(chain) :: PageFreed(stream, q)
    {
      if |data| < offset + count || !InRange(handle, PageCount()) {
        return Err(OutOfRange), c;
      }
      if handle == 0 {
        return Err(InvalidHandle), c;
      }
      r, chain := WriteBlob(handle, data, offset, count, c);
    }

    /** `Write` once its arguments passed the checks. */
    method WriteBlob(handle: u32, data: seq<byte>, offset: nat, count: nat, ghost c: seq<nat>)
      returns (r: Result<(), Error>, ghost chain: seq<nat>)
      requires Valid() && offset + count <= |data| && count < 0x8000_0000
      requires Allocated(stream, PageCount(), c) && c[0] == handle
      modifies this`stream, this`firstFreePage, this`chapterCount, this`freeList
      ensures Valid()
      ensures r.Err? ==> r.error == FileFull && |freeList| == 1 && StoreFull(chapterCount)
      ensures r.Ok? ==> (chain, freeList, chapterCount) == WriteLayout(c, old(freeList), old(chapterCount), count)
      ensures r.Ok? ==> Allocated(stream, PageCount(), chain)
      ensures r.Ok? && count > 0 ==> Stored(stream, PageCount(), chain, data[offset..offset + count])
      ensures r.Ok? && count == 0 ==>
                && chain == [handle as nat]
                && ContentKept(old(stream), stream, handle)
      ensures r.Ok? ==> Unchanged(old(stream), stream, old(PageCount()), {0} + Elems(c) + Elems(chain))
      ensures r.Ok? ==> forall q | q in Elems(c) && q !in Elems(chain) :: PageFreed(stream, q)
    {
      ghost var d := data[offset..offset + count];
      var ok, h, cur, j := WriteChain(handle, data, offset, count, c);
      if !ok {
        return Err(FileFull), cur;
      }
      chain := FinishWrite(h, count, old(stream), old(PageCount()), old(freeList), old(chapterCount), c, d, cur, j);
      r := Ok(());
    }

    /** The end of `Write` once its loop wrote all of `d` along `cur`, the
        last page being `h`: the chain is cut after `h`, the first
        `BlobPages(|d|)` pages of `cur`, and its rest freed. */
    method FinishWrite(h: u32, ghost count: nat, ghost s0: seq<byte>, ghost n0: nat, ghost fl0: seq<nat>, ghost cc0: nat,
                       ghost c: seq<nat>, ghost d: seq<byte>, ghost cur: seq<nat>, ghost j: nat)
      returns (ghost chain: seq<nat>)
      requires Valid() && Writing(s0, n0, fl0, cc0, c, d, stream, PageCount(), freeList, chapterCount, cur, j)
      requires |d| == count && Progress(count, c, 0, j, cur, h) && (count == 0 ==> stream == s0)
      modifies this`stream, this`firstFreePage, this`freeList
      ensures Valid()
      ensures |fl0| >= 1 && (chain, freeList, chapterCount) == WriteLayout(c, fl0, cc0, count)
      ensures Allocated(stream, PageCount(), chain)
      ensures count > 0 ==> Stored(stream, PageCount(), chain, d)
      ensures count == 0 ==>
                && chain == [h as nat]
                && ContentKept(s0, stream, h)
      ensures Unchanged(s0, stream, n0, {0} + Elems(c) + Elems(chain))
      ensures forall q | q in Elems(c) && q !in Elems(chain) :: PageFreed(stream, q)
    {
      ghost var s1, n1, fl1, cc1 := stream, PageCount(), freeList, chapterCount;
      CutTail(h, cur, BlobPages(count));
      chain := cur[..BlobPages(count)];
      WriteFinished(s0, n0, fl0, cc0, c, d, s1, n1, fl1, cc1, cur, j, stream, freeList, count, h, chain);
    }

    // -------------------------------------------------------------------
    // Reading

    /** `ReadAll`: a handle past the store, handle 0, a Free head page, an
        Encrypted head page (encryption is off) and a length field above
        `int.MaxValue` are refused, in that order. Otherwise the blob is
        the length field's count of bytes gathered along the links. */
    method ReadAll(handle: u32) returns (r: Result<seq<byte>, Error>)
      ensures !InRange(handle, PageCount()) ==> r == Err(OutOfRange)
      ensures InRange(handle, PageCount()) && handle == 0 ==> r == Err(InvalidHandle)
      ensures InRange(handle, PageCount()) && handle != 0 ==>
                var status, size := HeaderAt(stream, handle)[0], HeaderLength(stream, handle);
                && (HasFlag(status, Flag.Free) ==> r == Err(Unallocated))
                && (!HasFlag(status, Flag.Free) && HasFlag(status, Encrypted) ==> r == Err(PageEncrypted))
                && (!HasFlag(status, Flag.Free) && !HasFlag(status, Encrypted) && size > 0x7FFF_FFFF ==> r == Err(TooLong))
                && (!HasFlag(status, Flag.Free) && !HasFlag(status, Encrypted) && size <= 0x7FFF_FFFF ==>
                      r == Ok(ChainRead(stream, handle, size)))
    {
      if !InRange(handle, PageCount()) {
        return Err(OutOfRange);
      }
      if handle == 0 {
        return Err(InvalidHandle);
      }
      var header := ReadPageHeader(handle);
      if HasFlag(header[0], Flag.Free) {
        return Err(Unallocated);
      }
      if HasFlag(header[0], Encrypted) {
        return Err(PageEncrypted);
      }
      var count := ReadLE32(header, LengthIndex);
      if count > 0x7FFF_FFFF {
        return Err(TooLong);
      }
      var data := ReadChain(handle, count);
      return Ok(data);
    }

    /** `ReadAll`'s loop: `count0` bytes into a zeroed buffer, at most 4083
        from each page's payload, following each page's link while bytes
        remain. */
    method ReadChain(handle: u32, count0: u32) returns (data: seq<byte>)
      ensures data == ChainRead(stream, handle, count0)
    {
      ghost var all := ChainRead(stream, handle, count0);
      data := Zeros(count0);
      var offset: nat, count: nat, h: u32 := 0, count0, handle;
      while count > 0
        invariant offset + count == count0 && |data| == count0
        invariant data[..offset] == all[..offset] && all[offset..] == ChainRead(stream, h, count)
        decreases count
      {
        var ic: nat := if count > PageDataSize then PageDataSize else count;
        var piece := ReadFrom(stream, h * PageSize + PageHeaderSize, ic);
        ghost var link := ReadLE32(ReadFrom(stream, h * PageSize + LinkIndex, 4), 0);
        ghost var rest := if count > ic then ChainRead(stream, link, count - ic) else [];
        ChainReadTurn(stream, h, count, ic, link, rest);
        CopiedStep(all, data, offset, piece, rest);
        data := Overwrite(data, offset, piece);
        offset, count := offset + ic, count - ic;
        if count > 0 {
          var buffer := ReadFrom(stream, h * PageSize + LinkIndex, 4);
          h := ReadLE32(buffer, 0);
        }
      }
      assert data == data[..offset];
    }

    /** `ReadAt`, with the skip loop reducing `srcOffset` by a page's
        payload per page skipped: a Free head page, a buffer shorter than
        `count` and an offset past the blob's length are refused, in that
        order. Otherwise `count` is clamped to the bytes the blob has from
        `srcOffset`, those bytes are copied to the front of `buffer`, the
        rest of it is kept, and their number is returned. */
    method ReadAt(handle: u32, buffer: array<byte>, srcOffset: u32, count: u32) returns (r: Result<u32, Error>)
      modifies buffer
      ensures var status, size := HeaderAt(stream, handle)[0], HeaderLength(stream, handle);
              && (HasFlag(status, Flag.Free) ==> r == Err(InvalidHandle))
              && (!HasFlag(status, Flag.Free) && buffer.Length < count ==> r == Err(BufferTooSmall))
              && (!HasFlag(status, Flag.Free) && buffer.Length >= count && size < srcOffset ==> r == Err(OutOfRange))
              && (!HasFlag(status, Flag.Free) && buffer.Length >= count && srcOffset <= size ==>
                    r == Ok(ReadAtCount(size, srcOffset, count)))
      ensures r.Err? ==> buffer[..] == old(buffer[..])
      ensures r.Ok? ==> r.value <= buffer.Length
                        && buffer[..r.value] == ReadAtBytes(stream, handle, srcOffset, r.value)
                        && buffer[r.value..] == old(buffer[r.value..])
    {
      var header := ReadPageHeader(handle);
      if HasFlag(header[0], Flag.Free) {
        return Err(InvalidHandle);
      }
      if buffer.Length < count {
        return Err(BufferTooSmall);
      }
      var size := ReadLE32(header, LengthIndex);
      if size < srcOffset {
        return Err(OutOfRange);
      }
      var n: u32 := if size < srcOffset + count then size - srcOffset else count;
      var h, o := SkipPages(handle, srcOffset);
      var total := ReadPages(h, o, buffer, n);
      return Ok(total);
    }

    /** `ReadAt`'s skip loop: `srcOffset / 4083` links followed from
        `handle`, taking 4083 off the offset for each. */
    method SkipPages(handle: u32, srcOffset: u32) returns (h: u32, o: u32)
      ensures h == SkipLinks(stream, handle, srcOffset / PageDataSize)
      ensures o == srcOffset % PageDataSize
    {
      h, o := handle, srcOffset;
      var pageCount := srcOffset / PageDataSize;
      while pageCount > 0
        invariant pageCount <= srcOffset / PageDataSize
        invariant h == SkipLinks(stream, handle, srcOffset / PageDataSize - pageCount)
        invariant o == srcOffset - PageDataSize * (srcOffset / PageDataSize - pageCount)
      {
        var header := ReadPageHeader(h);
        h := ReadLE32(header, LinkIndex);
        o := o - PageDataSize;
        pageCount := pageCount - 1;
      }
    }

    /** `ReadAt`'s read loop: `count0` bytes copied to the front of
        `buffer`, from byte `o0` of page `h0`'s payload on, then from the
        start of each following page. */
    method ReadPages(h0: u32, o0: u32, buffer: array<byte>, count0: u32) returns (total: u32)
      requires o0 < PageDataSize && count0 <= buffer.Length
      modifies buffer
      ensures total == count0
      ensures buffer[..count0] == Gather(stream, h0, o0, count0)
      ensures buffer[count0..] == old(buffer[count0..])
    {
      ghost var all := Gather(stream, h0, o0, count0);
      var h: u32, o: u32, count: u32 := h0, o0, count0;
      total := 0;
      while count > 0
        invariant total + count == count0 && o < PageDataSize
        invariant buffer[..total] == all[..total] && all[total..] == Gather(stream, h, o, count)
        invariant buffer[count0..] == old(buffer[count0..])
        decreases count
      {
        var bytesToRead: u32 := if PageDataSize - o > count then count else PageDataSize - o;
        var bytes := ReadFrom(stream, h * PageSize + PageHeaderSize + o, bytesToRead);
        GatherStep(stream, h, o, count, bytesToRead);
        ghost var before := buffer[..];
        forall i | 0 <= i < bytesToRead {
          buffer[total + i] := bytes[i];
        }
        assert buffer[..] == Overwrite(before, total, bytes);
        CopiedStep(all, before, total, bytes, Gather(stream, HeaderLink(stream, h), 0, count - bytesToRead));
        count := count - bytesToRead;
        o := 0;
        var header := ReadPageHeader(h);
        h := ReadLE32(header, LinkIndex);
        total := total + bytesToRead;
      }
    }

    /** `GetLength`: the length field of the page's header, with no check
        of the handle. */
    method GetLength(handle: u32) returns (length: u32)
      ensures length == HeaderLength(stream, handle)
      ensures (handle + 1) * PageSize <= |stream| ==> length == Length(stream, handle)
    {
      var header := ReadPageHeader(handle);
      length := ReadLE32(header, LengthIndex);
    }

    /** `AddChapter`: unless the store is full, 4096 fresh Free pages are
        written after the last chapter, each linking to the next and the
        last linking to 0, and the chapter count goes up by one. The file
        header is not rewritten. */
    method AddChapter() returns (r: Result<(), Error>)
      requires chapterCount * ChapterBytes <= |stream|
      modifies this`stream, this`chapterCount
      ensures r.Err? <==> StoreFull(old(chapterCount))
      ensures r.Err? ==> r.error == FileFull && stream == old(stream) && chapterCount == old(chapterCount)
      ensures r.Ok? ==> chapterCount == old(chapterCount) + 1
      ensures r.Ok? ==> |stream| == if |old(stream)| <= chapterCount * ChapterBytes then chapterCount * ChapterBytes else |old(stream)|
      ensures r.Ok? ==> NewChapter(stream, old(chapterCount))
      ensures r.Ok? ==> Unchanged(old(stream), stream, old(chapterCount) * ChapterSize, {})
    {
      if StoreFull(chapterCount) {
        return Err(FileFull);
      }
      var data := ChapterBuffer(chapterCount);
      ChapterPlaced(stream, chapterCount, data);
      stream := Overwrite(stream, chapterCount * ChapterSize * PageSize, data);
      chapterCount := chapterCount + 1;
      return Ok(());
    }
  
    // -------------------------------------------------------------------
    // Checksums

    /** `ValidatePageCrc`: the four bytes after the first 4092 of page `ix`
        are compared one by one with the little-endian checksum of those
        4092. */
    method ValidatePageCrc(ix: nat) returns (ok: bool)
      ensures ok == PageCrcOk(stream, ix)
      ensures (ix + 1) * PageSize <= |stream| ==> (ok <==> CrcValid(Page(stream, ix)))
    {
      var data := ReadFrom(stream, ix * PageSize, PageSize - 4);
      var pageCrc := ReadFrom(stream, ix * PageSize + CrcIndex, 4);
      var crc := Crc.GetCrc(data, 0, PageSize - 4);
      assert data[0..PageSize - 4] == data;
      var actualCrc := LE32(crc);
      if (ix + 1) * PageSize <= |stream| {
        PageCrcOkValid(stream, ix);
      }
      for i := 0 to 4
        invariant forall k :: 0 <= k < i ==> pageCrc[k] == actualCrc[k]
      {
        if pageCrc[i] != actualCrc[i] {
          return false;
        }
      }
      return true;
    }

    /** `ValidateCrc`: every page of the store passes `ValidatePageCrc`.
        It stops at the first that does not. */
    method ValidateCrc() returns (ok: bool)
      ensures ok <==> forall q :: 0 <= q < PageCount() ==> PageCrcOk(stream, q)
    {
      for ix := 0 to PageCount()
        invariant forall q :: 0 <= q < ix ==> PageCrcOk(stream, q)
      {
        var pageOk := ValidatePageCrc(ix);
        if !pageOk {
          return false;
        }
      }
      return true;
    }

    // -------------------------------------------------------------------
    // Opening a file

    /** `TryLoadFileHeader`'s magic read: bytes one at a time from the start
        of the stream into a 50-byte buffer, stopping after a zero byte;
        the magic is the bytes before it. */
    method ReadMagic() returns (m: seq<byte>)
      requires MagicField <= |stream|
      ensures m == MagicOf(stream)
    {
      var buffer := Zeros(MagicField);
      var magicbytecount := 0;
      while magicbytecount < MagicField
        invariant 0 <= magicbytecount <= MagicField && |buffer| == MagicField
        invariant buffer[..magicbytecount] == stream[..magicbytecount]
        invariant MagicEnd(stream, magicbytecount) == MagicEnd(stream, 0)
      {
        buffer := Overwrite(buffer, magicbytecount, ReadFrom(stream, magicbytecount, 1));
        assert buffer[..magicbytecount + 1] == stream[..magicbytecount + 1];
        if buffer[magicbytecount] == 0 {
          break;
        }
        magicbytecount := magicbytecount + 1;
      }
      m := buffer[..magicbytecount];
    }

    /** `TryLoadFileHeader`: an empty stream, one shorter than a chapter,
        and one whose page 0 fails its checksum are not loaded; then the
        magic is read into the header and must be the store's; then the
        version, which must not be newer than 1; then the first free page,
        and the chapter count as the stream's length over a chapter's
        bytes, which is refused when the length does not fit a `uint`. */
    method TryLoadFileHeader() returns (r: Result<bool, Error>)
      modifies this`magic, this`version, this`firstFreePage, this`chapterCount
      ensures r == if !HeaderAccepted(old(stream)) then Ok(false)
                   else if |stream| > 0xFFFF_FFFF then Err(LengthOverflow)
                   else Ok(true)
      ensures magic == if MagicChecked(stream) then MagicOf(stream) else old(magic)
      ensures version == if MagicChecked(stream) && MagicOf(stream) == MagicString
                         then HeaderVersion(stream) else old(version)
      ensures firstFreePage == if HeaderAccepted(stream) then HeaderFirstFree(stream) else old(firstFreePage)
      ensures chapterCount == if r == Ok(true) then |stream| / ChapterBytes else old(chapterCount)
    {
      if |stream| == 0 {
        return Ok(false);
      }
      if |stream| < ChapterBytes {
        return Ok(false);
      }
      var crcOk := ValidatePageCrc(0);
      if !crcOk {
        return Ok(false);
      }
      magic := ReadMagic();
      if magic != MagicString {
        return Ok(false);
      }
      var buffer := ReadFrom(stream, VersionIndex, 2);
      version := ReadLE16(buffer, 0);
      if version > FileVersion {
        return Ok(false);
      }
      buffer := ReadFrom(stream, FirstFreeIndex, 4);
      firstFreePage := ReadLE32(buffer, 0);
      if |stream| > 0xFFFF_FFFF {
        return Err(LengthOverflow);
      }
      chapterCount := |stream| / ChapterBytes;
      return Ok(true);
    }

    /** `InitializeFileHeader`: the in-memory header of a new file carries
        the store's magic and first free page 1. */
    method InitializeFileHeader()
      modifies this`magic, this`firstFreePage
      ensures magic == MagicString && firstFreePage == 1
    {
      magic := MagicString;
      firstFreePage := 1;
    }

    /** `InitializeFile` on the header just attached: the store's magic and
        first free page 1 go into the header, chapter 0 is added and the
        header page written over its page 0. The result is a store of one
        chapter whose free list is pages 1 to 4095, every page with a valid
        checksum. */
    method InitializeFile()
      requires chapterCount == 0 && |stream| < 2 * ChapterBytes
      modifies this`stream, this`magic, this`firstFreePage, this`chapterCount, this`freeList
      ensures Valid()
      ensures magic == MagicString && firstFreePage == 1 && chapterCount == 1
      ensures freeList == Range(1, ChapterSize)
      ensures |stream| == if |old(stream)| <= ChapterBytes then ChapterBytes else |old(stream)|
      ensures forall q :: 0 <= q < PageCount() ==> PageCrcOk(stream, q)
    {
      ghost var s0, cc0 := stream, chapterCount;
      InitializeFileHeader();
      var added := AddChapter();
      assert added.Ok?;
      FirstChapterAdded(s0, stream, cc0, chapterCount);
      ghost var s1 := stream;
      WriteFileHeader();
      freeList := Range(1, ChapterSize);
      InitialStore(s1, stream, magic, firstFreePage, chapterCount, freeList);
    }

    /** The constructor's body once the stream is attached: the header is
        loaded; when that fails, an existing file is refused (as corrupt
        when its magic is not the store's) and a new one initialised.
        A file that does not exist opens as an empty stream. When the
        stream is a store image, the store opens on it unchanged, with the
        header's first free page and the chapter count its length gives. */
    method Open(fileExists: bool, ghost ffp: u32, ghost cc: nat, ghost fl: seq<nat>) returns (r: Result<(), Error>)
      requires magic == Zeros(MagicField) && version == FileVersion && chapterCount == 0
      requires !fileExists ==> |stream| == 0
      modifies this`stream, this`magic, this`version, this`firstFreePage, this`chapterCount, this`freeList
      ensures !fileExists ==> r == Ok(()) && Valid() && |stream| == ChapterBytes && freeList == Range(1, ChapterSize)
      ensures !fileExists ==> forall q :: 0 <= q < PageCount() ==> PageCrcOk(stream, q)
      ensures fileExists && StoreImage(old(stream), ffp, cc, fl) && |old(stream)| <= 0xFFFF_FFFF ==>
                r == Ok(()) && Valid() && stream == old(stream)
                && firstFreePage == ffp && chapterCount == cc && freeList == fl
      ensures fileExists && HeaderAccepted(old(stream)) && |old(stream)| > 0xFFFF_FFFF ==> r == Err(LengthOverflow)
      ensures fileExists && !HeaderAccepted(old(stream)) ==>
                r == Err(if MagicChecked(old(stream)) && MagicOf(old(stream)) == MagicString then OpenFailed else CorruptFile)
      ensures fileExists ==> stream == old(stream)
    {
      if fileExists && StoreImage(stream, ffp, cc, fl) && |stream| <= 0xFFFF_FFFF {
        LoadedStore(stream, ffp, cc, fl);
      } else if StoreImage(stream, ffp, cc, fl) {
        HeaderImageLoads(stream, ffp);
      }
      freeList := fl;
      var loaded := TryLoadFileHeader();
      if loaded.Err? {
        return Err(loaded.error);
      }
      if !loaded.value {
        if fileExists {
          if magic != MagicString {
            return Err(CorruptFile);
          }
          return Err(OpenFailed);
        }
        InitializeFile();
        return Ok(());
      }
      return Ok(());
    }
  }
}
