/** The well-formed store image and what the store's operations keep of
    it, stated on stream values: the free pool, the pages a loop of
    allocations touches, the pages `Free` releases. */
module Images {
  import opened Bytes
  import opened Pages
  import opened Chains

  /** The chapter count at which one more chapter would pass `uint.MaxValue`
      pages. */
  const MaxChapters: nat := 0xF_FFFF

  /** The intended "file full" test of `AddChapter`: one more chapter would
      take the page count past `uint.MaxValue`. */
  predicate StoreFull(cc: nat) {
    cc * ChapterSize + ChapterSize > MaxPageCount
  }

  lemma StoreFullBound(cc: nat)
    ensures StoreFull(cc) <==> cc >= MaxChapters
  {
  }

  /** The "file full" test as `AddChapter` writes it: `cc * 4096 + 4096`
      is `uint` arithmetic, so the sum wraps instead of passing
      `uint.MaxValue`. */
  predicate FileFullAsWritten(cc: u32) {
    ((cc * ChapterSize) % 0x1_0000_0000 + ChapterSize) % 0x1_0000_0000 > MaxPageCount
  }

  /** The written test never fires, not even on a store whose next chapter
      would hold page 2^32. */
  lemma FileFullAsWrittenNeverFires(cc: u32)
    ensures !FileFullAsWritten(cc)
    ensures StoreFull(MaxChapters) && !FileFullAsWritten(MaxChapters)
  {
    StoreFullBound(MaxChapters);
  }

  /** Where `AddChapter` writes chapter `cc`, as written: the position
      `cc * 4096 * 4096` is `uint` arithmetic too. */
  function ChapterPositionAsWritten(cc: u32): nat {
    ((cc * ChapterSize) % 0x1_0000_0000 * PageSize) % 0x1_0000_0000
  }

  /** From 256 chapters (4 GiB) on the written position wraps: the 257th
      chapter lands on chapter 0 and overwrites the file header page. */
  lemma ChapterPositionAsWrittenWraps()
    ensures ChapterPositionAsWritten(256) == 0 != 256 * ChapterBytes
    ensures !StoreFull(256)
  {
  }

  /** Below 256 chapters the written position is the chapter's position. */
  lemma ChapterPositionAsWrittenSmall(cc: u32)
    requires cc < 256
    ensures ChapterPositionAsWritten(cc) == cc * ChapterSize * PageSize
  {
  }

  /** The pages of a well-formed store: `cc` whole chapters (a shorter tail
      after them is ignored, as the chapter count is the length divided by
      a chapter's size) holding the free list `fl`. */
  ghost predicate FreePool(s: seq<byte>, cc: nat, fl: seq<nat>) {
    && 1 <= cc <= MaxChapters
    && cc * ChapterBytes <= |s| < (cc + 1) * ChapterBytes
    && FreeListOk(s, cc * ChapterSize, fl)
  }

  /** A well-formed store image: its pages hold the free list `fl`, which
      starts at `ffp`, and the header page is as `WriteFileHeader` writes it. */
  ghost predicate StoreImage(s: seq<byte>, ffp: u32, cc: nat, fl: seq<nat>) {
    FreePool(s, cc, fl) && fl[0] == ffp && Page(s, 0) == HeaderImage(MagicString, ffp)
  }

  /** `InitializeFile` on a stream shorter than two chapters: once chapter
      0 is written and page 0 is overwritten with the header image for
      first free page 1, the stream is a store of one chapter whose free
      list is pages 1 to 4095 in order, and every page's checksum is
      valid. */
  lemma FreshStoreImage(s1: seq<byte>, s2: seq<byte>)
    requires NewChapter(s1, 0) && |s1| < 2 * ChapterBytes
    requires SamePagesExcept(s1, s2, 0) && Page(s2, 0) == HeaderImage(MagicString, 1)
    ensures StoreImage(s2, 1, 1, Range(1, ChapterSize))
    ensures forall q :: 0 <= q < ChapterSize ==> CrcValid(Page(s2, q))
  {
    FreshPagesKept(s1, s2);
    ChapterTailFreeList(s2, 0, 1);
    FreshPagesCrc(s2);
  }

  /** A write to page 0 keeps the other pages of a fresh first chapter. */
  lemma FreshPagesKept(s1: seq<byte>, s2: seq<byte>)
    requires NewChapter(s1, 0) && SamePagesExcept(s1, s2, 0)
    ensures forall q :: 1 <= q < ChapterSize ==> FreshChapterPage(s2, 0, q)
  {
    forall q | 1 <= q < ChapterSize
      ensures FreshChapterPage(s2, 0, q)
    {
      assert FreshChapterPage(s1, 0, q);
    }
  }

  /** The header image and fresh free pages all carry valid checksums. */
  lemma FreshPagesCrc(s: seq<byte>)
    requires ChapterBytes <= |s| && Page(s, 0) == HeaderImage(MagicString, 1)
    requires forall q :: 1 <= q < ChapterSize ==> FreshChapterPage(s, 0, q)
    ensures forall q :: 0 <= q < ChapterSize ==> CrcValid(Page(s, q))
  {
    forall q | 0 <= q < ChapterSize
      ensures CrcValid(Page(s, q))
    {
      if q == 0 {
        HeaderFields(MagicString, 1);
      } else {
        assert FreshChapterPage(s, 0, q);
        FreePageFields(ChapterLink(0, q));
      }
    }
  }

  /** `AddChapter` called when the free list is down to its last page: the
      new chapter's pages become the free list, the head page handed out is
      not among them, and the pages before the chapter are kept. */
  lemma ChapterRefill(s0: seq<byte>, s1: seq<byte>, cc: nat, fl: seq<nat>)
    requires FreePool(s0, cc, fl) && |fl| == 1 && !StoreFull(cc)
    requires NewChapter(s1, cc) && Unchanged(s0, s1, cc * ChapterSize, {})
    requires |s1| == if |s0| <= (cc + 1) * ChapterBytes then (cc + 1) * ChapterBytes else |s0|
    ensures FreePool(s1, cc + 1, ChapterPages(cc))
    ensures AfterPop(fl, cc) == (ChapterPages(cc), cc + 1)
    ensures ChapterPages(cc)[0] == cc * ChapterSize && fl[0] !in ChapterPages(cc)
  {
    StoreFullBound(cc);
    NewChapterFreeList(s1, cc);
  }

  /** `Allocate` after its writes: only the page it handed out (`s1` to
      `s2`) and the header page (`s2` to `s3`) changed, so every free page is
      as it was and the store image holds for the new head `ffp`. Measured
      from `s0`, before any chapter was added (`s0` to `s1`), the handed-out
      page is the claimed form of what it was. */
  lemma ClaimKeepsImage(s0: seq<byte>, n0: nat, s1: seq<byte>, s2: seq<byte>, s3: seq<byte>, cc: nat, fl: seq<nat>, ffp: u32, ix: nat)
    requires FreePool(s1, cc, fl) && fl[0] == ffp && ix !in fl
    requires n0 <= cc * ChapterSize && 0 < ix < n0 && Unchanged(s0, s1, n0, {})
    requires SamePagesExcept(s1, s2, ix) && SamePagesExcept(s2, s3, 0)
    requires Page(s2, ix) == Claimed(Page(s1, ix)) && Page(s3, 0) == HeaderImage(MagicString, ffp)
    ensures StoreImage(s3, ffp, cc, fl)
    ensures Page(s3, ix) == Claimed(Page(s0, ix))
    ensures Unchanged(s0, s3, n0, {0, ix})
  {
    var n := cc * ChapterSize;
    SamePagesExceptUnchanged(s1, s2, ix, n);
    SamePagesExceptUnchanged(s2, s3, 0, n);
    UnchangedTrans(s1, s2, s3, n, {ix}, {0});
    assert {ix} + {0} == {0, ix};
    FreeListUnchanged(s1, s3, n, {0, ix}, fl);
    assert Page(s1, ix) == Page(s0, ix);
    UnchangedShrink(s1, s3, n, n0, {0, ix});
    UnchangedTrans(s0, s1, s3, n0, {}, {0, ix});
    assert {} + {0, ix} == {0, ix};
  }

  /** A write to one page that is neither the file header nor a free page
      keeps the store image. */
  lemma OtherPageKeepsImage(s1: seq<byte>, s2: seq<byte>, ffp: u32, cc: nat, fl: seq<nat>, ix: nat)
    requires StoreImage(s1, ffp, cc, fl) && 0 < ix && SamePagesExcept(s1, s2, ix)
    requires forall i :: 0 <= i < |fl| ==> fl[i] != ix
    ensures StoreImage(s2, ffp, cc, fl)
    ensures Unchanged(s1, s2, cc * ChapterSize, {ix})
  {
    SamePagesExceptUnchanged(s1, s2, ix, cc * ChapterSize);
    FreeListUnchanged(s1, s2, cc * ChapterSize, {ix}, fl);
  }

  /** The pages a loop of allocations has touched, one turn on: the file
      header, the chain so far (whose last page `last` is relinked) and the
      new page `p`. */
  lemma TouchedGrow(s0: seq<byte>, s1: seq<byte>, s2: seq<byte>, n0: nat, n1: nat, c: seq<nat>, last: nat, p: nat)
    requires n0 <= n1 && |c| >= 1 && last == c[|c| - 1]
    requires Unchanged(s0, s1, n0, {0} + Elems(c)) && Unchanged(s1, s2, n1, {0, p, last})
    ensures Unchanged(s0, s2, n0, {0} + Elems(c + [p]))
  {
    UnchangedShrink(s1, s2, n1, n0, {0, p, last});
    UnchangedTrans(s0, s1, s2, n0, {0} + Elems(c), {0, p, last});
    ElemsAppend(c, p);
    assert ({0} + Elems(c)) + {0, p, last} == {0} + Elems(c + [p]);
  }

  /** A chain being built by `Allocate(size)`: started as `c0` on the
      store `s0` of `n0` pages with free list `fl0` and `cc0` chapters,
      `chain` is now allocated in `s` (with `n` pages), it holds the pages
      successive allocations return, `fl` and `cc` are what they leave, and
      `s0` keeps every page but the file header and the chain's. */
  ghost predicate Grown(s0: seq<byte>, n0: nat, fl0: seq<nat>, cc0: nat, c0: seq<nat>,
                        s: seq<byte>, n: nat, fl: seq<nat>, cc: nat, chain: seq<nat>)
  {
    && n0 <= n && n * PageSize <= |s| && |fl0| >= 1
    && |c0| >= 1 && |chain| >= |c0| && chain[0] == c0[0]
    && Allocated(s, n, chain)
    && chain == Pops(fl0, cc0, |chain|)
    && (fl, cc) == AfterPops(fl0, cc0, |chain|)
    && Unchanged(s0, s, n0, {0} + Elems(chain))
  }

  /** One turn of `Allocate(size)`'s loop keeps `Grown`: the page
      allocated is the head `p` of the free list, the store's pages other
      than the header, `p` and the relinked last page `ixa` are kept, and
      the chain grows by `p`. */
  lemma GrownStep(s0: seq<byte>, n0: nat, fl0: seq<nat>, cc0: nat, c0: seq<nat>,
                  s1: seq<byte>, n1: nat, fl1: seq<nat>, cc1: nat, chain: seq<nat>,
                  s2: seq<byte>, n2: nat, fl2: seq<nat>, cc2: nat, p: nat, ixa: nat)
    requires Grown(s0, n0, fl0, cc0, c0, s1, n1, fl1, cc1, chain) && ixa == chain[|chain| - 1]
    requires n1 <= n2 && n2 * PageSize <= |s2| && |fl1| >= 1 && p == fl1[0]
    requires (fl2, cc2) == AfterPop(fl1, cc1)
    requires Allocated(s2, n2, chain + [p]) && Unchanged(s1, s2, n1, {0, p, ixa})
    ensures Grown(s0, n0, fl0, cc0, c0, s2, n2, fl2, cc2, chain + [p])
  {
    TouchedGrow(s0, s1, s2, n0, n1, chain, ixa, p);
    PopsNext(fl0, cc0, |chain|);
  }

  // ---------------------------------------------------------------------
  // What `Free` leaves

  /** The link `Free` leaves on page `i` of the chain `c`: the chain's next
      page, and from the last page the old head `ffp` of the free list. */
  function FreedLink(c: seq<nat>, i: nat, ffp: u32): nat
    requires i < |c|
  {
    if i + 1 < |c| then c[i + 1] else ffp
  }

  /** Page `i` of chain `c` in `s1` is page `c[i]` of `s0` as `Free`
      releases it. */
  ghost predicate ReleasedPage(s0: seq<byte>, s1: seq<byte>, c: seq<nat>, i: nat, ffp: u32)
    requires i < |c| && (c[i] + 1) * PageSize <= |s0| && (c[i] + 1) * PageSize <= |s1|
  {
    FreedLink(c, i, ffp) < 0x1_0000_0000 && Page(s1, c[i]) == Released(Page(s0, c[i]), FreedLink(c, i, ffp))
  }

  /** The first `k` pages of chain `c` are released. */
  ghost predicate ReleasedUpTo(s0: seq<byte>, s1: seq<byte>, n: nat, c: seq<nat>, k: nat, ffp: u32)
    requires k <= |c| && InPages(c, n) && n * PageSize <= |s0| && n * PageSize <= |s1|
  {
    forall i :: 0 <= i < k ==> ReleasedPage(s0, s1, c, i, ffp)
  }

  /** Page `q` lies in `s` and is as `Free` leaves it: Free and Encrypted,
      with length 0 and a valid checksum. */
  ghost predicate PageFreed(s: seq<byte>, q: nat) {
    && (q + 1) * PageSize <= |s|
    && HasFlag(Status(s, q), Free) && HasFlag(Status(s, q), Encrypted)
    && Length(s, q) == 0 && CrcValid(Page(s, q))
  }

  /** Every page of a chain `Free` released is Free and Encrypted, has
      length 0 and carries a fresh checksum. */
  lemma ReleasedFreed(s0: seq<byte>, s1: seq<byte>, n: nat, c: seq<nat>, ffp: u32)
    requires InPages(c, n) && n * PageSize <= |s0| && n * PageSize <= |s1|
    requires ReleasedUpTo(s0, s1, n, c, |c|, ffp)
    ensures forall q | q in c :: PageFreed(s1, q)
  {
    forall i | 0 <= i < |c|
      ensures PageFreed(s1, c[i])
    {
      assert ReleasedPage(s0, s1, c, i, ffp);
      ReleasedFields(Page(s0, c[i]), FreedLink(c, i, ffp));
    }
  }

  /** One turn of `Free`'s loop: page `c[k]` is still as it was, so the
      link the loop reads there is the chain's next page (0 after the last
      one), and once that page is released the first `k + 1` pages are. */
  lemma ReleaseStep(s0: seq<byte>, s1: seq<byte>, s2: seq<byte>, n: nat, c: seq<nat>, k: nat, ffp: u32)
    requires n * PageSize <= |s0| && Allocated(s0, n, c) && k < |c|
    requires |s1| == |s0| && Unchanged(s0, s1, n, Elems(c[..k]))
    requires ReleasedUpTo(s0, s1, n, c, k, ffp)
    requires SamePagesExcept(s1, s2, c[k])
    requires var l := Link(s1, c[k]); Page(s2, c[k]) == Released(Page(s1, c[k]), if l == NoLink then ffp else l)
    ensures Link(s1, c[k]) == if k + 1 < |c| then c[k + 1] else NoLink
    ensures |s2| == |s0| && Unchanged(s0, s2, n, Elems(c[..k + 1]))
    ensures ReleasedUpTo(s0, s2, n, c, k + 1, ffp)
  {
    forall j | 0 <= j < k
      ensures c[..k][j] != c[k]
    {
      assert c[j] != c[k];
    }
    assert Page(s1, c[k]) == Page(s0, c[k]);
    assert c[..k + 1] == c[..k] + [c[k]];
    ElemsAppend(c[..k], c[k]);
    SamePagesExceptUnchanged(s1, s2, c[k], n);
    UnchangedTrans(s0, s1, s2, n, Elems(c[..k]), {c[k]});
    forall i | 0 <= i < k
      ensures ReleasedPage(s0, s2, c, i, ffp)
    {
      assert ReleasedPage(s0, s1, c, i, ffp);
      assert c[i] != c[k];
    }
  }

  /** Rewriting the file header keeps the chain's pages released. */
  lemma ReleasedKept(s0: seq<byte>, s1: seq<byte>, s2: seq<byte>, n: nat, c: seq<nat>, ffp: u32)
    requires InPages(c, n) && n * PageSize <= |s0| && n * PageSize <= |s1|
    requires ReleasedUpTo(s0, s1, n, c, |c|, ffp) && SamePagesExcept(s1, s2, 0)
    ensures ReleasedUpTo(s0, s2, n, c, |c|, ffp)
  {
    forall i | 0 <= i < |c|
      ensures ReleasedPage(s0, s2, c, i, ffp)
    {
      assert ReleasedPage(s0, s1, c, i, ffp);
      assert c[i] != 0;
    }
  }

  /** After `Free`'s loop the released chain, put in front of the old free
      list `fl`, is the new free list. */
  lemma FreedFreeList(s0: seq<byte>, s1: seq<byte>, n: nat, c: seq<nat>, fl: seq<nat>)
    requires n * PageSize <= |s0| && |s1| == |s0|
    requires Allocated(s0, n, c) && FreeListOk(s0, n, fl) && fl[0] < 0x1_0000_0000
    requires Unchanged(s0, s1, n, Elems(c)) && ReleasedUpTo(s0, s1, n, c, |c|, fl[0])
    ensures FreeListOk(s1, n, c + fl)
  {
    AllocatedDisjoint(s0, n, c, fl);
    forall j, i | 0 <= j < |fl| && 0 <= i < |c|
      ensures c[i] != fl[j]
    {
      assert c[i] !in fl;
    }
    FreeListUnchanged(s0, s1, n, Elems(c), fl);
    forall i | 0 <= i < |c|
      ensures Link(s1, c[i]) == FreedLink(c, i, fl[0])
      ensures HasFlag(Status(s1, c[i]), Free) && Length(s1, c[i]) == 0
    {
      assert ReleasedPage(s0, s1, c, i, fl[0]);
      ReleasedFields(Page(s0, c[i]), FreedLink(c, i, fl[0]));
    }
    FreeListPrepend(s1, n, c, fl);
  }

  /** `Free` once the chain `c` is released (`s1`) and the header rewritten
      with the chain's head as first free page (`s2`): a store image whose
      free list is the chain followed by the old one, the chain released
      and every other page kept. */
  lemma FreedStore(s0: seq<byte>, s1: seq<byte>, s2: seq<byte>, n: nat, cc: nat, c: seq<nat>, fl0: seq<nat>,
                   ffp0: u32, handle: u32)
    requires StoreImage(s0, ffp0, cc, fl0) && n == cc * ChapterSize
    requires Allocated(s0, n, c) && c[0] == handle
    requires |s1| == |s0| && Unchanged(s0, s1, n, Elems(c)) && ReleasedUpTo(s0, s1, n, c, |c|, ffp0)
    requires SamePagesExcept(s1, s2, 0) && Page(s2, 0) == HeaderImage(MagicString, handle)
    ensures StoreImage(s2, handle, cc, c + fl0)
    ensures ReleasedUpTo(s0, s2, n, c, |c|, ffp0)
    ensures Unchanged(s0, s2, n, {0} + Elems(c))
  {
    FreedFreeList(s0, s1, n, c, fl0);
    SamePagesExceptUnchanged(s1, s2, 0, n);
    ReleasedKept(s0, s1, s2, n, c, ffp0);
    FreeListUnchanged(s1, s2, n, {0}, c + fl0);
    UnchangedTrans(s0, s1, s2, n, Elems(c), {0});
    assert Elems(c) + {0} == {0} + Elems(c);
  }

  // ---------------------------------------------------------------------
  // What `Write` leaves

  /** Page `p` holds piece `j` of the blob `d` as `Write` leaves it: the
      length field and the payload as `PageHolds` says, the Encrypted bit
      set, and a valid checksum. */
  ghost predicate PageWritten(s: seq<byte>, p: nat, d: seq<byte>, j: nat)
    requires (p + 1) * PageSize <= |s|
  {
    PageHolds(s, p, d, j) && HasFlag(Status(s, p), Encrypted) && CrcValid(Page(s, p))
  }

  /** Page `p` lies in both streams and keeps its status, its length and
      its payload from `s0` to `s1`. */
  ghost predicate ContentKept(s0: seq<byte>, s1: seq<byte>, p: nat) {
    && (p + 1) * PageSize <= |s0| && (p + 1) * PageSize <= |s1|
    && StatusOf(Page(s1, p)) == StatusOf(Page(s0, p))
    && LengthOf(Page(s1, p)) == LengthOf(Page(s0, p))
    && PayloadOf(Page(s1, p)) == PayloadOf(Page(s0, p))
  }

  /** The allocated chain `c` holds the blob `d`, every page as `Write`
      leaves it. */
  ghost predicate Stored(s: seq<byte>, n: nat, c: seq<nat>, d: seq<byte>)
    requires n * PageSize <= |s|
  {
    && Allocated(s, n, c) && Holds(s, n, c, d)
    && forall j :: 0 <= j < |c| ==> PageWritten(s, c[j], d, j)
  }

  /** The number of pages `Write` leaves in a chain for a blob of `count`
      bytes: one for an empty blob (the head is kept), else `PagesFor`. */
  function BlobPages(count: nat): (r: nat)
    ensures r >= 1
  {
    if count == 0 then 1 else PagesFor(count)
  }

  /** The chain, free list and chapter count a `Write` of `count` bytes
      along the chain `c` leaves: the pages of `c` it needs, then pages
      popped from the free list `fl` when `c` is too short; the pages of `c`
      it no longer needs go to the front of the free list. */
  function WriteLayout(c: seq<nat>, fl: seq<nat>, cc: nat, count: nat): (seq<nat>, seq<nat>, nat)
    requires |fl| >= 1
  {
    var e := BlobPages(count);
    var m := Min(|c|, e);
    (c[..m] + Pops(fl, cc, e - m), c[m..] + AfterPops(fl, cc, e - m).0, AfterPops(fl, cc, e - m).1)
  }

  /** The chain `WriteLayout` gives starts where `c` does: a write keeps
      the handle. */
  lemma LayoutHead(c: seq<nat>, fl: seq<nat>, cc: nat, count: nat)
    requires |fl| >= 1 && |c| >= 1
    ensures |WriteLayout(c, fl, cc, count).0| >= 1 && WriteLayout(c, fl, cc, count).0[0] == c[0]
  {
  }

  /** Piece `j` of `data[offset..offset + count]`, `ic` bytes long, is the
      slice of `data` at `off`, `offset` plus the piece's start. */
  lemma PieceOfBlob(data: seq<byte>, offset: nat, count: nat, j: nat, off: nat, ic: nat)
    requires offset + count <= |data| && PageDataSize * j + ic <= count && off == offset + PageDataSize * j
    ensures data[off..off + ic] == data[offset..offset + count][PageDataSize * j..PageDataSize * j + ic]
  {
    var a := data[off..off + ic];
    var b := data[offset..offset + count][PageDataSize * j..PageDataSize * j + ic];
    forall k | 0 <= k < ic
      ensures a[k] == b[k]
    {
      assert a[k] == data[off + k];
    }
  }

  /** The writes of one turn of `Write` on page `ix` before its checksum:
      the header with the length `count` and the Encrypted bit, then the
      piece at the start of the payload. */
  function PieceWrite(s: seq<byte>, ix: nat, count: u32, piece: seq<byte>): (r: seq<byte>)
    requires (ix + 1) * PageSize <= |s| && |piece| <= PageDataSize
    ensures |r| == |s|
  {
    OverwritePage(s, ix, 0, PieceHeader(Page(s, ix), count));
    var s2 := Overwrite(s, ix * PageSize, PieceHeader(Page(s, ix), count));
    OverwritePage(s2, ix, PageHeaderSize, piece);
    Overwrite(s2, ix * PageSize + PageHeaderSize, piece)
  }

  /** After `PieceWrite` only page `ix` differs; it has the Encrypted bit,
      its old link, and holds piece `j` of `d`. */
  lemma PieceWriteFields(s: seq<byte>, ix: nat, count: u32, piece: seq<byte>, d: seq<byte>, j: nat)
    requires (ix + 1) * PageSize <= |s| && 0 < count && count == |d| - PageDataSize * j
    requires |piece| == Min(count, PageDataSize) && piece == d[PageDataSize * j..PageDataSize * j + |piece|]
    ensures SamePagesExcept(s, PieceWrite(s, ix, count, piece), ix)
    ensures Status(PieceWrite(s, ix, count, piece), ix) == SetFlag(Status(s, ix), Encrypted)
    ensures Link(PieceWrite(s, ix, count, piece), ix) == Link(s, ix)
    ensures PageHolds(PieceWrite(s, ix, count, piece), ix, d, j)
  {
    var pg := Page(s, ix);
    var s2 := Overwrite(s, ix * PageSize, PieceHeader(pg, count));
    OverwritePage(s, ix, 0, PieceHeader(pg, count));
    PieceHeaderFields(pg, count);
    var pg2 := Page(s2, ix);
    var s3 := Overwrite(s2, ix * PageSize + PageHeaderSize, piece);
    OverwritePage(s2, ix, PageHeaderSize, piece);
    PayloadWriteFields(pg2, piece);
    assert s3 == PieceWrite(s, ix, count, piece);
    PieceHolds(s3, ix, d, j, count, piece);
  }

  /** `PieceWrite` on a page that is neither the file header nor free
      keeps the store image and gives the page the fields
      `PieceWriteFields` states. */
  lemma PieceKeepsImage(s1: seq<byte>, s2: seq<byte>, ffp: u32, cc: nat, fl: seq<nat>,
                        ix: nat, count: u32, piece: seq<byte>, d: seq<byte>, j: nat)
    requires StoreImage(s1, ffp, cc, fl) && 0 < ix && ix !in fl && (ix + 1) * PageSize <= |s1|
    requires 0 < count && count == |d| - PageDataSize * j
    requires |piece| == Min(count, PageDataSize) && piece == d[PageDataSize * j..PageDataSize * j + |piece|]
    requires s2 == PieceWrite(s1, ix, count, piece)
    ensures StoreImage(s2, ffp, cc, fl)
    ensures SamePagesExcept(s1, s2, ix) && Status(s2, ix) == SetFlag(Status(s1, ix), Encrypted)
    ensures Link(s2, ix) == Link(s1, ix) && PageHolds(s2, ix, d, j)
  {
    PieceWriteFields(s1, ix, count, piece, d, j);
    OtherPageKeepsImage(s1, s2, ffp, cc, fl, ix);
  }

  /** Where `Write`'s loop stands with `rest` of `count` bytes left, over
      the chain `cur` grown from `c`: while bytes remain, `h` is page `j`,
      the next to write; once none remain, `j` pages were written and `h`
      is the last of the `BlobPages(count)` pages the blob keeps. */
  ghost predicate Progress(count: nat, c: seq<nat>, rest: nat, j: nat, cur: seq<nat>, h: nat) {
    && rest <= count
    && (rest > 0 ==>
          && rest == count - PageDataSize * j && j < |cur| && h == cur[j]
          && |cur| == if j < |c| then |c| else j + 1)
    && (rest == 0 ==>
          && j == (if count == 0 then 0 else PagesFor(count))
          && 1 <= BlobPages(count) <= |cur| && h == cur[BlobPages(count) - 1]
          && |cur| == if BlobPages(count) <= |c| then |c| else BlobPages(count))
  }

  lemma ProgressStart(count: nat, c: seq<nat>, h: nat)
    requires |c| >= 1 && h == c[0]
    ensures Progress(count, c, count, 0, c, h)
  {
  }

  /** A turn that wrote `ic` bytes on page `j` and follows its link `link`,
      the next page of the chain. */
  lemma ProgressNext(count: nat, c: seq<nat>, rest: nat, j: nat, cur: seq<nat>, h: nat, ic: nat, link: nat)
    requires Progress(count, c, rest, j, cur, h) && rest > 0 && ic == Min(rest, PageDataSize) && rest - ic > 0
    requires j < |cur| - 1 && link == cur[j + 1]
    ensures Progress(count, c, rest - ic, j + 1, cur, link)
  {
  }

  /** A turn that wrote `ic` bytes on page `j`, the chain's last, and
      appended the page `p`. */
  lemma ProgressAppend(count: nat, c: seq<nat>, rest: nat, j: nat, cur: seq<nat>, h: nat, ic: nat, p: nat)
    requires Progress(count, c, rest, j, cur, h) && rest > 0 && ic == Min(rest, PageDataSize) && rest - ic > 0
    requires j == |cur| - 1
    ensures Progress(count, c, rest - ic, j + 1, cur + [p], p)
  {
  }

  /** The turn that wrote the blob's last bytes on page `j`. */
  lemma ProgressLast(count: nat, c: seq<nat>, rest: nat, j: nat, cur: seq<nat>, h: nat, ic: nat)
    requires Progress(count, c, rest, j, cur, h) && rest > 0 && ic == Min(rest, PageDataSize) && rest - ic == 0
    ensures Progress(count, c, 0, j + 1, cur, h)
  {
    PagesForExact(count, j + 1);
  }

  /** The loop's state once every byte is written. */
  lemma ProgressDone(count: nat, c: seq<nat>, j: nat, cur: seq<nat>, h: nat)
    requires Progress(count, c, 0, j, cur, h)
    ensures 1 <= BlobPages(count) <= |cur| && h == cur[BlobPages(count) - 1]
    ensures count > 0 ==> j == BlobPages(count)
  {
  }

  /** A page whose length field is the `count` bytes from piece `j` to
      the end of `d`, and whose payload starts with that piece, holds it. */
  lemma PieceHolds(s: seq<byte>, p: nat, d: seq<byte>, j: nat, count: nat, piece: seq<byte>)
    requires (p + 1) * PageSize <= |s| && 0 < count && count == |d| - PageDataSize * j
    requires |piece| == Min(count, PageDataSize) && piece == d[PageDataSize * j..PageDataSize * j + |piece|]
    requires Length(s, p) == count && PayloadOf(Page(s, p))[..|piece|] == piece
    ensures PageHolds(s, p, d, j)
  {
  }

  /** The loop state of `Write`: the chain `cur` started as `c` on the
      store `s0` (`n0` pages, free list `fl0`, `cc0` chapters) and has
      grown by the pages successive allocations return, `fl` and `cc` are
      what they leave, the first `j` pages hold the first `j` pieces of `d`,
      and `s0` keeps every page but the file header and the chain's. */
  ghost predicate Writing(s0: seq<byte>, n0: nat, fl0: seq<nat>, cc0: nat, c: seq<nat>, d: seq<byte>,
                          s: seq<byte>, n: nat, fl: seq<nat>, cc: nat, cur: seq<nat>, j: nat)
  {
    && n0 <= n && n * PageSize <= |s| && |fl0| >= 1
    && 1 <= |c| <= |cur| && cur[..|c|] == c
    && cur[|c|..] == Pops(fl0, cc0, |cur| - |c|)
    && (fl, cc) == AfterPops(fl0, cc0, |cur| - |c|)
    && Allocated(s, n, cur) && j <= |cur|
    && (forall i :: 0 <= i < j ==> PageWritten(s, cur[i], d, i))
    && Unchanged(s0, s, n0, {0} + Elems(cur))
  }

  lemma WritingStart(s: seq<byte>, n: nat, fl: seq<nat>, cc: nat, c: seq<nat>, d: seq<byte>)
    requires n * PageSize <= |s| && |fl| >= 1 && Allocated(s, n, c)
    ensures Writing(s, n, fl, cc, c, d, s, n, fl, cc, c, 0)
  {
    assert c[..|c|] == c && c[|c|..] == [];
  }

  /** A write to page `h` that keeps its Free bit and its link keeps every
      allocated chain allocated. */
  lemma AllocatedRewritten(s1: seq<byte>, s2: seq<byte>, n: nat, c: seq<nat>, h: nat)
    requires n * PageSize <= |s1| && Allocated(s1, n, c) && SamePagesExcept(s1, s2, h)
    requires (h + 1) * PageSize <= |s1|
    requires HasFlag(Status(s2, h), Free) == HasFlag(Status(s1, h), Free) && Link(s2, h) == Link(s1, h)
    ensures Allocated(s2, n, c)
  {
    forall i | 0 <= i < |c| && c[i] != h
      ensures Page(s2, c[i]) == Page(s1, c[i])
    {
    }
  }

  /** Pages already written stay written while only other pages change. */
  lemma WrittenKept(s1: seq<byte>, s2: seq<byte>, n: nat, cur: seq<nat>, d: seq<byte>, j: nat, touched: set<nat>)
    requires j <= |cur| && InPages(cur, n) && Unchanged(s1, s2, n, touched)
    requires forall i :: 0 <= i < j ==> cur[i] !in touched
    requires forall i :: 0 <= i < j ==> PageWritten(s1, cur[i], d, i)
    ensures forall i :: 0 <= i < j ==> PageWritten(s2, cur[i], d, i)
  {
    forall i | 0 <= i < j
      ensures PageWritten(s2, cur[i], d, i)
    {
      assert Page(s2, cur[i]) == Page(s1, cur[i]);
    }
  }

  /** The pages written before the last one of a chain grown by `p` are
      neither the header, nor `p`, nor the last page. */
  lemma WrittenKeptAppend(s1: seq<byte>, s2: seq<byte>, n: nat, cur: seq<nat>, p: nat, d: seq<byte>, j: nat)
    requires j == |cur| - 1 && InPages(cur, n) && Distinct(cur + [p])
    requires Unchanged(s1, s2, n, {0, p, cur[j]})
    requires forall i :: 0 <= i < j ==> PageWritten(s1, cur[i], d, i)
    requires PageWritten(s2, cur[j], d, j)
    ensures forall i :: 0 <= i < j + 1 ==> PageWritten(s2, (cur + [p])[i], d, i)
  {
    var c2 := cur + [p];
    forall i | 0 <= i < j
      ensures cur[i] !in {0, p, cur[j]}
    {
      assert c2[i] == cur[i] && c2[j] == cur[j] && c2[j + 1] == p;
    }
    WrittenKept(s1, s2, n, cur, d, j, {0, p, cur[j]});
    forall i | 0 <= i < j + 1
      ensures PageWritten(s2, c2[i], d, i)
    {
      assert c2[i] == cur[i];
    }
  }

  /** A chain grown by the page the next allocation returns is still the
      old chain followed by successive allocations. */
  lemma PopsGrow(fl0: seq<nat>, cc0: nat, c: seq<nat>, cur: seq<nat>, fl1: seq<nat>, cc1: nat, p: nat, fl3: seq<nat>, cc3: nat)
    requires |fl0| >= 1 && |c| <= |cur| && cur[..|c|] == c
    requires cur[|c|..] == Pops(fl0, cc0, |cur| - |c|) && (fl1, cc1) == AfterPops(fl0, cc0, |cur| - |c|)
    requires |fl1| >= 1 && p == fl1[0] && (fl3, cc3) == AfterPop(fl1, cc1)
    ensures (cur + [p])[..|c|] == c
    ensures (cur + [p])[|c|..] == Pops(fl0, cc0, |cur| + 1 - |c|)
    ensures (fl3, cc3) == AfterPops(fl0, cc0, |cur| + 1 - |c|)
  {
    var c2 := cur + [p];
    assert c2[..|c|] == cur[..|c|];
    assert c2[|c|..] == cur[|c|..] + [p];
    PopsNext(fl0, cc0, |cur| - |c|);
  }

  /** The written page of a turn past the end of the chain: piece `j`
      with the Encrypted bit (`s2`), then the link to `p` (`s3`) and the
      checksum (`s4`). */
  lemma AppendedHead(s2: seq<byte>, s3: seq<byte>, s4: seq<byte>, h: nat, p: u32, d: seq<byte>, j: nat)
    requires (h + 1) * PageSize <= |s2| && (h + 1) * PageSize <= |s3| && |s4| == |s3|
    requires HasFlag(Status(s2, h), Encrypted) && PageHolds(s2, h, d, j)
    requires Page(s3, h) == Overwrite(Page(s2, h), LinkIndex, LE32(p))
    requires Page(s4, h) == Overwrite(Page(s3, h), CrcIndex, CrcBytes(Page(s3, h)))
    ensures PageWritten(s4, h, d, j)
    ensures Status(s4, h) == Status(s3, h) && Link(s4, h) == Link(s3, h)
  {
    LinkWriteFields(Page(s2, h), p);
    CrcWriteFields(Page(s3, h));
  }

  /** The pages a turn past the end of the chain touches: the header, the
      chain's last page `h` and the new page `p`. */
  lemma TouchedAppend(s0: seq<byte>, s2: seq<byte>, s3: seq<byte>, s4: seq<byte>,
                      n0: nat, n1: nat, cur: seq<nat>, h: nat, p: nat)
    requires n0 <= n1 && h in Elems(cur) && Unchanged(s0, s2, n0, {0} + Elems(cur))
    requires n1 * PageSize <= |s2| && Unchanged(s2, s3, n1, {0, p, h})
    requires n1 * PageSize <= |s3| && SamePagesExcept(s3, s4, h)
    ensures Unchanged(s2, s4, n1, {0, p, h})
    ensures Unchanged(s0, s4, n0, {0} + Elems(cur + [p]))
  {
    SamePagesExceptUnchanged(s3, s4, h, n1);
    UnchangedTrans(s2, s3, s4, n1, {0, p, h}, {h});
    assert {0, p, h} + {h} == {0, p, h};
    UnchangedShrink(s2, s4, n1, n0, {0, p, h});
    UnchangedTrans(s0, s2, s4, n0, {0} + Elems(cur), {0, p, h});
    ElemsAppend(cur, p);
    assert ({0} + Elems(cur)) + {0, p, h} == {0} + Elems(cur + [p]);
  }

  /** The piece write of a turn of `Write` on page `cur[j]` (its status gets
      the Encrypted bit, its link is kept) keeps the loop state: the chain
      is still allocated and the pages before `j` still hold their
      pieces. */
  lemma WritingPiece(s0: seq<byte>, n0: nat, fl0: seq<nat>, cc0: nat, c: seq<nat>, d: seq<byte>,
                     s1: seq<byte>, n: nat, fl: seq<nat>, cc: nat, cur: seq<nat>, j: nat, s2: seq<byte>)
    requires Writing(s0, n0, fl0, cc0, c, d, s1, n, fl, cc, cur, j) && j < |cur|
    requires SamePagesExcept(s1, s2, cur[j])
    requires Status(s2, cur[j]) == SetFlag(Status(s1, cur[j]), Encrypted) && Link(s2, cur[j]) == Link(s1, cur[j])
    ensures Writing(s0, n0, fl0, cc0, c, d, s2, n, fl, cc, cur, j)
    ensures HasFlag(Status(s2, cur[j]), Encrypted)
  {
    var h := cur[j];
    SetFlagBits(Status(s1, h), Encrypted);
    AllocatedRewritten(s1, s2, n, cur, h);
    SamePagesExceptUnchanged(s1, s2, h, n);
    WrittenKept(s1, s2, n, cur, d, j, {h});
    UnchangedShrink(s1, s2, n, n0, {h});
    UnchangedTrans(s0, s1, s2, n0, {0} + Elems(cur), {h});
    assert ({0} + Elems(cur)) + {h} == {0} + Elems(cur);
  }

  /** The checksum write that ends a turn of `Write` on page `cur[j]`,
      which holds piece `j` with the Encrypted bit set: the page is
      written, and the loop moves on to `j + 1`. */
  lemma WritingSealed(s0: seq<byte>, n0: nat, fl0: seq<nat>, cc0: nat, c: seq<nat>, d: seq<byte>,
                      s2: seq<byte>, n: nat, fl: seq<nat>, cc: nat, cur: seq<nat>, j: nat, s4: seq<byte>)
    requires Writing(s0, n0, fl0, cc0, c, d, s2, n, fl, cc, cur, j) && j < |cur|
    requires PageHolds(s2, cur[j], d, j) && HasFlag(Status(s2, cur[j]), Encrypted)
    requires SamePagesExcept(s2, s4, cur[j])
    requires StatusOf(Page(s4, cur[j])) == StatusOf(Page(s2, cur[j])) && LinkOf(Page(s4, cur[j])) == LinkOf(Page(s2, cur[j]))
    requires LengthOf(Page(s4, cur[j])) == LengthOf(Page(s2, cur[j])) && PayloadOf(Page(s4, cur[j])) == PayloadOf(Page(s2, cur[j]))
    requires CrcValid(Page(s4, cur[j]))
    ensures Writing(s0, n0, fl0, cc0, c, d, s4, n, fl, cc, cur, j + 1)
  {
    var h := cur[j];
    AllocatedRewritten(s2, s4, n, cur, h);
    SamePagesExceptUnchanged(s2, s4, h, n);
    WrittenKept(s2, s4, n, cur, d, j, {h});
    assert PageWritten(s4, h, d, j);
    UnchangedShrink(s2, s4, n, n0, {h});
    UnchangedTrans(s0, s2, s4, n0, {0} + Elems(cur), {h});
    assert ({0} + Elems(cur)) + {h} == {0} + Elems(cur);
  }

  /** The rest of a turn of `Write` past the end of the chain, whose last
      page `cur[j]` holds piece `j` with the Encrypted bit (`s2`): a page
      `p` is allocated and linked after it (`s2` to `s3`), and its checksum
      is refreshed (`s3` to `s4`); the chain grows by `p`. */
  lemma WritingAppend(s0: seq<byte>, n0: nat, fl0: seq<nat>, cc0: nat, c: seq<nat>, d: seq<byte>,
                      s2: seq<byte>, n1: nat, fl1: seq<nat>, cc1: nat, cur: seq<nat>, j: nat,
                      s3: seq<byte>, n3: nat, fl3: seq<nat>, cc3: nat, p: u32, s4: seq<byte>)
    requires Writing(s0, n0, fl0, cc0, c, d, s2, n1, fl1, cc1, cur, j) && j == |cur| - 1
    requires HasFlag(Status(s2, cur[j]), Encrypted) && PageHolds(s2, cur[j], d, j)
    requires n1 <= n3 && n3 * PageSize <= |s3| && |fl1| >= 1 && p == fl1[0] && (fl3, cc3) == AfterPop(fl1, cc1)
    requires Allocated(s3, n3, cur + [p]) && Unchanged(s2, s3, n1, {0, p, cur[j]})
    requires Page(s3, cur[j]) == Overwrite(Page(s2, cur[j]), LinkIndex, LE32(p))
    requires SamePagesExcept(s3, s4, cur[j])
    requires Page(s4, cur[j]) == Overwrite(Page(s3, cur[j]), CrcIndex, CrcBytes(Page(s3, cur[j])))
    ensures Writing(s0, n0, fl0, cc0, c, d, s4, n3, fl3, cc3, cur + [p], j + 1)
  {
    var h := cur[j];
    var c2 := cur + [p];
    AppendedHead(s2, s3, s4, h, p, d, j);
    AllocatedRewritten(s3, s4, n3, c2, h);
    TouchedAppend(s0, s2, s3, s4, n0, n1, cur, h, p);
    WrittenKeptAppend(s2, s4, n1, cur, p, d, j);
    PopsGrow(fl0, cc0, c, cur, fl1, cc1, p, fl3, cc3);
  }

  /** The pages of an allocated chain from its `e`-th on are an allocated
      chain themselves. */
  lemma AllocatedSuffix(s: seq<byte>, n: nat, c: seq<nat>, e: nat)
    requires n * PageSize <= |s| && Allocated(s, n, c) && e < |c|
    ensures Allocated(s, n, c[e..])
  {
    var t := c[e..];
    assert forall k :: 0 <= k < |t| ==> t[k] == c[e + k];
    forall k | 0 <= k < |t| - 1
      ensures Link(s, t[k]) == t[k + 1]
    {
      assert Link(s, c[e + k]) == c[e + k + 1];
    }
  }

  /** The first `e` pages of an allocated chain, once the link of page
      `e - 1` is set to 0 and nothing else of the chain changes, are an
      allocated chain. */
  lemma AllocatedPrefix(s1: seq<byte>, s2: seq<byte>, n: nat, c: seq<nat>, e: nat)
    requires n * PageSize <= |s1| && Allocated(s1, n, c) && 1 <= e <= |c|
    requires SamePagesExcept(s1, s2, c[e - 1])
    requires HasFlag(Status(s2, c[e - 1]), Free) == HasFlag(Status(s1, c[e - 1]), Free)
    requires Link(s2, c[e - 1]) == NoLink
    ensures Allocated(s2, n, c[..e])
  {
    var f := c[..e];
    assert forall i :: 0 <= i < |f| ==> f[i] == c[i];
    forall i | 0 <= i < e - 1
      ensures Page(s2, c[i]) == Page(s1, c[i])
    {
      assert c[i] != c[e - 1];
    }
  }

  /** The cut of `CutLink` on `h`, page `e - 1` of `cur`: the header with
      link 0 is written (`s2`), then the checksum (`s3`). The chain falls
      apart into the kept front and the tail, and only `h` changed, its
      content kept. */
  lemma CutSealed(s1: seq<byte>, s2: seq<byte>, s3: seq<byte>, n: nat, cur: seq<nat>, e: nat, h: nat)
    requires n * PageSize <= |s1| && Allocated(s1, n, cur) && 1 <= e < |cur| && h == cur[e - 1]
    requires SamePagesExcept(s1, s2, h) && Page(s2, h) == Overwrite(Page(s1, h), 0, CutHeader(Page(s1, h)))
    requires SamePagesExcept(s2, s3, h)
    requires StatusOf(Page(s3, h)) == StatusOf(Page(s2, h)) && LinkOf(Page(s3, h)) == LinkOf(Page(s2, h))
    requires LengthOf(Page(s3, h)) == LengthOf(Page(s2, h)) && PayloadOf(Page(s3, h)) == PayloadOf(Page(s2, h))
    ensures Allocated(s3, n, cur[..e]) && Allocated(s3, n, cur[e..])
    ensures Link(s1, h) == cur[e]
    ensures Unchanged(s1, s3, n, {h})
    ensures ContentKept(s1, s3, h)
    ensures LinkOf(Page(s3, h)) == NoLink
  {
    CutHeaderFields(Page(s1, h));
    ChainCut(s1, s2, n, cur, e);
    AllocatedRewritten(s2, s3, n, cur[..e], h);
    AllocatedRewritten(s2, s3, n, cur[e..], h);
    SamePagesExceptUnchanged(s1, s2, h, n);
    SamePagesExceptUnchanged(s2, s3, h, n);
    UnchangedTrans(s1, s2, s3, n, {h}, {h});
    assert {h} + {h} == {h};
  }

  /** Cutting the chain after its page `e - 1` (its link set to 0, its
      Free bit kept) leaves two allocated chains, the kept front and the
      tail, which share no page. */
  lemma ChainCut(s1: seq<byte>, s2: seq<byte>, n: nat, cur: seq<nat>, e: nat)
    requires n * PageSize <= |s1| && Allocated(s1, n, cur) && 1 <= e < |cur|
    requires SamePagesExcept(s1, s2, cur[e - 1])
    requires HasFlag(Status(s2, cur[e - 1]), Free) == HasFlag(Status(s1, cur[e - 1]), Free)
    requires Link(s2, cur[e - 1]) == NoLink
    ensures Link(s1, cur[e - 1]) == cur[e]
    ensures Allocated(s2, n, cur[..e]) && Allocated(s2, n, cur[e..])
    ensures forall i :: 0 <= i < e ==> cur[i] !in {0} + Elems(cur[e..])
  {
    var tail := cur[e..];
    AllocatedPrefix(s1, s2, n, cur, e);
    AllocatedSuffix(s1, n, cur, e);
    SamePagesExceptUnchanged(s1, s2, cur[e - 1], n);
    forall k | 0 <= k < |tail|
      ensures tail[k] !in {cur[e - 1]}
    {
      assert tail[k] == cur[e + k];
    }
    AllocatedUnchanged(s1, s2, n, {cur[e - 1]}, tail);
    FrontAvoidsTail(cur, n, e);
  }

  /** Freeing the tail `cur[e..]` after the cut at page `h`, the kept
      front's last, leaves the front allocated and `h` as it was. */
  lemma TailFreed(s1: seq<byte>, s2: seq<byte>, s3: seq<byte>, n: nat, cur: seq<nat>, e: nat, h: nat)
    requires n * PageSize <= |s2| && 1 <= e < |cur| && h == cur[e - 1] && InPages(cur, n) && Distinct(cur)
    requires Allocated(s2, n, cur[..e]) && Unchanged(s1, s2, n, {h}) && Unchanged(s2, s3, n, {0} + Elems(cur[e..]))
    ensures Allocated(s3, n, cur[..e]) && Page(s3, h) == Page(s2, h)
    ensures Unchanged(s1, s3, n, {0, h} + Elems(cur[e..]))
  {
    FrontAvoidsTail(cur, n, e);
    assert forall i :: 0 <= i < e ==> cur[..e][i] == cur[i];
    AllocatedUnchanged(s2, s3, n, {0} + Elems(cur[e..]), cur[..e]);
    UnchangedTrans(s1, s2, s3, n, {h}, {0} + Elems(cur[e..]));
    assert {h} + ({0} + Elems(cur[e..])) == {0, h} + Elems(cur[e..]);
  }

  /** The chain `Write` leaves: the first `e` pages of its loop's chain,
      that is the first pages of the old chain `c`, then (when `c` was
      short) the pages successive allocations returned; the free list is
      the old chain's surplus, freed, in front of what the allocations
      left. */
  lemma WriteShape(fl0: seq<nat>, cc0: nat, c: seq<nat>, cur: seq<nat>, e: nat,
                   fl1: seq<nat>, cc1: nat, fl2: seq<nat>)
    requires |fl0| >= 1 && 1 <= |c| <= |cur| && cur[..|c|] == c && e >= 1
    requires cur[|c|..] == Pops(fl0, cc0, |cur| - |c|) && (fl1, cc1) == AfterPops(fl0, cc0, |cur| - |c|)
    requires |cur| == if e <= |c| then |c| else e
    requires e < |cur| ==> fl2 == cur[e..] + fl1
    requires e == |cur| ==> fl2 == fl1
    ensures cur[..e] == c[..Min(|c|, e)] + Pops(fl0, cc0, e - Min(|c|, e))
    ensures fl2 == c[Min(|c|, e)..] + AfterPops(fl0, cc0, e - Min(|c|, e)).0
    ensures cc1 == AfterPops(fl0, cc0, e - Min(|c|, e)).1
  {
    if e <= |c| {
      assert cur == cur[..|c|];
      assert Pops(fl0, cc0, 0) == [];
      assert cur[..e] == c[..e] + [];
    } else {
      assert cur == cur[..|c|] + cur[|c|..];
      assert cur[..e] == cur;
      assert c[|c|..] == [];
    }
  }

  /** The pages `Write` touched: the header, the old chain and the chain
      it leaves. */
  lemma WriteTouched(s0: seq<byte>, s1: seq<byte>, s2: seq<byte>, n0: nat, n: nat, c: seq<nat>, cur: seq<nat>, e: nat)
    requires n0 <= n && 1 <= |c| <= |cur| && cur[..|c|] == c && 1 <= e <= |cur|
    requires |cur| == if e <= |c| then |c| else e
    requires Unchanged(s0, s1, n0, {0} + Elems(cur)) && Unchanged(s1, s2, n, {0, cur[e - 1]} + Elems(cur[e..]))
    ensures Unchanged(s0, s2, n0, {0} + Elems(c) + Elems(cur[..e]))
  {
    UnchangedShrink(s1, s2, n, n0, {0, cur[e - 1]} + Elems(cur[e..]));
    UnchangedTrans(s0, s1, s2, n0, {0} + Elems(cur), {0, cur[e - 1]} + Elems(cur[e..]));
    forall q | q in ({0} + Elems(cur)) + ({0, cur[e - 1]} + Elems(cur[e..]))
      ensures q in {0} + Elems(c) + Elems(cur[..e])
    {
      if q != 0 && q in Elems(cur[e..]) {
        var k :| 0 <= k < |cur[e..]| && cur[e..][k] == q;
        assert cur[e + k] == q;
      }
      if q != 0 && q in Elems(cur) {
        var i :| 0 <= i < |cur| && cur[i] == q;
        if i < |c| {
          assert c[i] == q;
        } else {
          assert cur[..e][i] == q;
        }
      }
    }
  }

  /** A page whose status, length and payload are kept, and whose
      checksum is valid again, still holds the piece it held. */
  lemma WrittenFieldsKept(s1: seq<byte>, s2: seq<byte>, h: nat, d: seq<byte>, j: nat)
    requires ContentKept(s1, s2, h) && PageWritten(s1, h, d, j) && CrcValid(Page(s2, h))
    ensures PageWritten(s2, h, d, j)
  {
  }

  /** The pages in front of position `e` of a chain are neither the file
      header nor a page from `e` on. */
  lemma FrontAvoidsTail(c: seq<nat>, n: nat, e: nat)
    requires InPages(c, n) && Distinct(c) && e <= |c|
    ensures forall i :: 0 <= i < e ==> c[i] !in {0} + Elems(c[e..])
  {
    forall i | 0 <= i < e
      ensures c[i] !in {0} + Elems(c[e..])
    {
      forall k | 0 <= k < |c[e..]|
        ensures c[e..][k] != c[i]
      {
        assert c[e..][k] == c[e + k];
      }
    }
  }

  /** An allocated chain of the pages a blob needs, each holding its piece,
      stores the blob. */
  lemma StoredOf(s: seq<byte>, n: nat, c: seq<nat>, d: seq<byte>)
    requires n * PageSize <= |s| && Allocated(s, n, c) && |c| == PagesFor(|d|)
    requires forall j :: 0 <= j < |c| ==> PageWritten(s, c[j], d, j)
    ensures Stored(s, n, c, d)
  {
  }

  /** The pages in front of the chain's last kept page are as the loop
      left them, so they still hold their pieces. */
  lemma FrontWritten(s1: seq<byte>, s2: seq<byte>, n: nat, cur: seq<nat>, d: seq<byte>, e: nat)
    requires n * PageSize <= |s1| && Linked(s1, n, cur) && 1 <= e <= |cur|
    requires forall i :: 0 <= i < e ==> PageWritten(s1, cur[i], d, i)
    requires Unchanged(s1, s2, n, {0, cur[e - 1]} + Elems(cur[e..]))
    ensures forall i :: 0 <= i < e - 1 ==> PageWritten(s2, cur[i], d, i)
  {
    FrontAvoidsTail(cur, n, e);
    forall i | 0 <= i < e - 1
      ensures PageWritten(s2, cur[i], d, i)
    {
      assert cur[i] != cur[e - 1];
      assert Page(s2, cur[i]) == Page(s1, cur[i]);
    }
  }

  /** After the tail is cut and freed, every page the chain keeps still
      holds its piece: the front pages are as the loop left them, and the
      last keeps its status, length and payload and has a valid checksum. */
  lemma KeptPagesWritten(s1: seq<byte>, s2: seq<byte>, n: nat, cur: seq<nat>, d: seq<byte>, e: nat)
    requires n * PageSize <= |s1| && Allocated(s1, n, cur) && 1 <= e <= |cur|
    requires forall i :: 0 <= i < e ==> PageWritten(s1, cur[i], d, i)
    requires n * PageSize <= |s2|
    requires Unchanged(s1, s2, n, {0, cur[e - 1]} + Elems(cur[e..]))
    requires ContentKept(s1, s2, cur[e - 1]) && CrcValid(Page(s2, cur[e - 1]))
    ensures forall i :: 0 <= i < e ==> PageWritten(s2, cur[..e][i], d, i)
  {
    var ch := cur[..e];
    var h := cur[e - 1];
    assert 0 < h < n;
    assert PageWritten(s1, h, d, e - 1);
    WrittenFieldsKept(s1, s2, h, d, e - 1);
    FrontWritten(s1, s2, n, cur, d, e);
    forall i | 0 <= i < e
      ensures PageWritten(s2, ch[i], d, i)
    {
      assert ch[i] == cur[i];
    }
  }

  /** ... so the chain `Write` leaves stores the blob `d`. */
  lemma WrittenAfterCut(s1: seq<byte>, s2: seq<byte>, n: nat, cur: seq<nat>, d: seq<byte>, e: nat)
    requires n * PageSize <= |s1| && Allocated(s1, n, cur) && |d| > 0 && e == PagesFor(|d|) && e <= |cur|
    requires forall i :: 0 <= i < e ==> PageWritten(s1, cur[i], d, i)
    requires n * PageSize <= |s2| && Allocated(s2, n, cur[..e])
    requires Unchanged(s1, s2, n, {0, cur[e - 1]} + Elems(cur[e..]))
    requires ContentKept(s1, s2, cur[e - 1]) && CrcValid(Page(s2, cur[e - 1]))
    ensures Stored(s2, n, cur[..e], d)
  {
    KeptPagesWritten(s1, s2, n, cur, d, e);
    StoredOf(s2, n, cur[..e], d);
  }

  /** The end of `Write`: the loop wrote `d` along `cur` from `s0` to `s1`
      and `CutTail` then cut the chain after its `BlobPages(count)`-th page
      from `s1` to `s2`, freeing the rest. The kept chain is made of the old
      chain's first pages and the pages popped from the free list, it is
      allocated and holds `d`, and no page outside the old and the new
      chain and the header changed. */
  lemma CutWritten(s0: seq<byte>, n0: nat, fl0: seq<nat>, cc0: nat, c: seq<nat>, d: seq<byte>,
                      s1: seq<byte>, n: nat, fl1: seq<nat>, cc: nat, cur: seq<nat>, j: nat,
                      s2: seq<byte>, fl2: seq<nat>, count: nat, h: nat)
    requires Writing(s0, n0, fl0, cc0, c, d, s1, n, fl1, cc, cur, j)
    requires |d| == count && Progress(count, c, 0, j, cur, h) && (count == 0 ==> s1 == s0)
    requires var e := BlobPages(count);
             && n * PageSize <= |s2| && Allocated(s2, n, cur[..e])
             && (e == |cur| ==> s2 == s1 && fl2 == fl1)
             && (e < |cur| ==> fl2 == cur[e..] + fl1)
             && Unchanged(s1, s2, n, {0, h} + Elems(cur[e..]))
             && ContentKept(s1, s2, h)
             && (e < |cur| ==> CrcValid(Page(s2, h)))
    ensures var e := BlobPages(count);
            var m := Min(|c|, e);
            && cur[..e] == c[..m] + Pops(fl0, cc0, e - m)
            && fl2 == c[m..] + AfterPops(fl0, cc0, e - m).0
            && cc == AfterPops(fl0, cc0, e - m).1
            && (count > 0 ==> Stored(s2, n, cur[..e], d))
            && (count == 0 ==>
                  && cur[..e] == [h]
                  && ContentKept(s0, s2, h))
            && Unchanged(s0, s2, n0, {0} + Elems(c) + Elems(cur[..e]))
  {
    var e := BlobPages(count);
    WriteShape(fl0, cc0, c, cur, e, fl1, cc, fl2);
    WriteTouched(s0, s1, s2, n0, n, c, cur, e);
    if count > 0 {
      ProgressDone(count, c, j, cur, h);
      assert CrcValid(Page(s2, h)) by {
        if e == |cur| {
          assert PageWritten(s1, cur[e - 1], d, e - 1);
        }
      }
      WrittenAfterCut(s1, s2, n, cur, d, e);
    }
  }

  /** What `Write`'s tail cut leaves: the chain's first `e` pages are
      allocated and end the chain at `h`, any pages after them are on the
      free list, and no page but the header, `h` and the cut pages changes. */
  ghost predicate CutDone(s1: seq<byte>, s2: seq<byte>, n: nat, fl1: seq<nat>, fl2: seq<nat>, cur: seq<nat>, e: nat, h: nat)
  {
    && 1 <= e <= |cur| && n * PageSize <= |s1| && n * PageSize <= |s2| && Allocated(s2, n, cur[..e])
    && (e == |cur| ==> s2 == s1 && fl2 == fl1)
    && (e < |cur| ==> fl2 == cur[e..] + fl1)
    && Unchanged(s1, s2, n, {0, h} + Elems(cur[e..]))
    && ContentKept(s1, s2, h)
    && (e < |cur| ==> CrcValid(Page(s2, h)))
    && (forall q | q in cur[e..] :: PageFreed(s2, q))
  }

  /** `CutWritten` stated on the cut's facts (`CutDone`): the loop wrote
      `d` along `cur`, the cut kept its first `BlobPages(count)` pages, and
      these are laid out as `WriteLayout` says, allocated and holding `d`;
      no page outside the old and the new chain and the header changed. */
  lemma WriteFinished(s0: seq<byte>, n0: nat, fl0: seq<nat>, cc0: nat, c: seq<nat>, d: seq<byte>,
                      s1: seq<byte>, n: nat, fl1: seq<nat>, cc: nat, cur: seq<nat>, j: nat,
                      s2: seq<byte>, fl2: seq<nat>, count: nat, h: nat, chain: seq<nat>)
    requires Writing(s0, n0, fl0, cc0, c, d, s1, n, fl1, cc, cur, j)
    requires |d| == count && Progress(count, c, 0, j, cur, h) && (count == 0 ==> s1 == s0)
    requires CutDone(s1, s2, n, fl1, fl2, cur, BlobPages(count), h) && chain == cur[..BlobPages(count)]
    ensures |fl0| >= 1 && (chain, fl2, cc) == WriteLayout(c, fl0, cc0, count)
    ensures n * PageSize <= |s2| && Allocated(s2, n, chain)
    ensures count > 0 ==> Stored(s2, n, chain, d)
    ensures count == 0 ==> chain == [h] && ContentKept(s0, s2, h)
    ensures Unchanged(s0, s2, n0, {0} + Elems(c) + Elems(chain))
    ensures forall q | q in Elems(c) && q !in Elems(chain) :: PageFreed(s2, q)
  {
    CutWritten(s0, n0, fl0, cc0, c, d, s1, n, fl1, cc, cur, j, s2, fl2, count, h);
    TailPagesFreed(s2, c, cur, BlobPages(count));
  }

  /** The pages of the old chain `c` that the kept front `cur[..e]` leaves
      out are pages of the freed tail `cur[e..]`. */
  lemma TailPagesFreed(s: seq<byte>, c: seq<nat>, cur: seq<nat>, e: nat)
    requires |c| <= |cur| && cur[..|c|] == c && e <= |cur|
    requires forall q | q in cur[e..] :: PageFreed(s, q)
    ensures forall q | q in Elems(c) && q !in Elems(cur[..e]) :: PageFreed(s, q)
  {
    forall q | q in Elems(c) && q !in Elems(cur[..e])
      ensures PageFreed(s, q)
    {
      var i :| 0 <= i < |c| && c[i] == q;
      assert cur[i] == q;
      PrefixElems(cur, e);
      assert cur[e..][i - e] == q;
    }
  }

  lemma PrefixElems(c: seq<nat>, e: nat)
    requires e <= |c|
    ensures forall i :: 0 <= i < e ==> c[i] in Elems(c[..e])
  {
    forall i | 0 <= i < e
      ensures c[i] in Elems(c[..e])
    {
      assert c[..e][i] == c[i];
    }
  }
}

