/** What the reading operations of the store compute, stated on the stream:
    the header and link reads, the page walk of `ReadAt`, the bytes it
    gathers and the count it clamps, and what they give on a chain that
    holds a blob. */
module Reads {
  import opened Bytes
  import opened Pages
  import opened Chains

  /** `ReadPageHeader(ix)`: the nine bytes at page `ix`'s position, zeros
      past the end of the stream. */
  function HeaderAt(s: seq<byte>, ix: nat): (h: seq<byte>)
    ensures |h| == PageHeaderSize
  {
    ReadFrom(s, ix * PageSize, PageHeaderSize)
  }

  /** The link field as `ReadAt` reads it, from the page header. */
  function HeaderLink(s: seq<byte>, ix: nat): u32 {
    ReadLE32(HeaderAt(s, ix), LinkIndex)
  }

  /** The length field as `ReadAll`, `ReadAt` and `GetLength` read it. */
  function HeaderLength(s: seq<byte>, ix: nat): u32 {
    ReadLE32(HeaderAt(s, ix), LengthIndex)
  }

  /** Reading the link from the header is reading its four bytes alone, as
      `ChainRead` does. */
  lemma HeaderLinkSame(s: seq<byte>, ix: nat)
    ensures HeaderLink(s, ix) == ReadLE32(ReadFrom(s, ix * PageSize + LinkIndex, 4), 0)
  {
    var a, b := HeaderAt(s, ix), ReadFrom(s, ix * PageSize + LinkIndex, 4);
    assert a[LinkIndex..LinkIndex + 4] == b[0..4];
    ReadLE32Same(a, LinkIndex, b, 0);
  }

  /** On a page inside the stream the header reads give the page's fields. */
  lemma HeaderOfPage(s: seq<byte>, ix: nat)
    requires (ix + 1) * PageSize <= |s|
    ensures HeaderAt(s, ix) == Page(s, ix)[..PageHeaderSize]
    ensures HeaderAt(s, ix)[0] == Status(s, ix)
    ensures HeaderLink(s, ix) == Link(s, ix) && HeaderLength(s, ix) == Length(s, ix)
  {
    var h := HeaderAt(s, ix);
    assert h == Page(s, ix)[..PageHeaderSize];
    ReadLE32Same(h, LinkIndex, Page(s, ix), LinkIndex);
    ReadLE32Same(h, LengthIndex, Page(s, ix), LengthIndex);
  }

  /** The page reached from `h` by following `k` links. */
  function SkipLinks(s: seq<byte>, h: nat, k: nat): nat
  {
    if k == 0 then h else HeaderLink(s, SkipLinks(s, h, k - 1))
  }

  /** Along a linked chain, `k` links from its head lead to its page `k`. */
  lemma {:induction false} SkipLinksChain(s: seq<byte>, n: nat, c: seq<nat>, k: nat)
    requires n * PageSize <= |s| && Linked(s, n, c) && k < |c|
    ensures SkipLinks(s, c[0], k) == c[k]
  {
    if k > 0 {
      SkipLinksChain(s, n, c, k - 1);
      HeaderOfPage(s, c[k - 1]);
    }
  }

  /** `cnt` bytes of the blob that starts at page `h`, from byte `o` of its
      payload on: what `ChainRead` gathers for `o + cnt` bytes, less the
      first `o`. */
  function Gather(s: seq<byte>, h: nat, o: nat, cnt: nat): (r: seq<byte>)
    ensures |r| == cnt
  {
    ChainRead(s, h, o + cnt)[o..]
  }

  /** Dropping the first `o` bytes of a read is reading from `o` bytes on. */
  lemma ReadFromDrop(s: seq<byte>, pos: nat, n: nat, o: nat)
    requires o <= n
    ensures ReadFrom(s, pos, n)[o..] == ReadFrom(s, pos + o, n - o)
  {
  }

  /** One turn of `ReadAt`'s read loop: from byte `o` of page `h`'s payload
      it takes what is left of that page, at most `cnt` bytes (`b`), and
      goes on at the start of the page `h` links to. */
  lemma GatherStep(s: seq<byte>, h: nat, o: nat, cnt: nat, b: nat)
    requires o < PageDataSize && cnt > 0
    requires b == if PageDataSize - o > cnt then cnt else PageDataSize - o
    ensures Gather(s, h, o, cnt)
              == ReadFrom(s, h * PageSize + PageHeaderSize + o, b) + Gather(s, HeaderLink(s, h), 0, cnt - b)
  {
    var ic := Min(o + cnt, PageDataSize);
    assert ic == o + b;
    var pos := h * PageSize + PageHeaderSize;
    ChainReadUnfold(s, h, o + cnt);
    var rest := ChainRead(s, HeaderLink(s, h), cnt - b);
    ReadFromDrop(s, pos, ic, o);
    GatherSplit(ReadFrom(s, pos, ic), rest, o, ReadFrom(s, pos + o, b));
  }

  /** `ChainRead` of a non-empty count: the page's payload prefix, then the
      rest from the header's link (nothing when the page holds it all). */
  lemma ChainReadUnfold(s: seq<byte>, h: nat, count: nat)
    requires count > 0
    ensures ChainRead(s, h, count)
              == ReadFrom(s, h * PageSize + PageHeaderSize, Min(count, PageDataSize))
                 + ChainRead(s, HeaderLink(s, h), count - Min(count, PageDataSize))
  {
    HeaderLinkSame(s, h);
  }

  lemma GatherSplit(first: seq<byte>, rest: seq<byte>, o: nat, a: seq<byte>)
    requires o <= |first| && first[o..] == a
    ensures (first + rest)[o..] == a + rest[0..]
  {
  }

  /** The count `ReadAt` reads for a blob of `size` bytes from `srcOffset`:
      `count`, clamped to the bytes the blob has from there. */
  function ReadAtCount(size: u32, srcOffset: u32, count: u32): (r: u32)
    requires srcOffset <= size
    ensures r == Min(count, size - srcOffset) && srcOffset + r <= size
  {
    if size < srcOffset + count then size - srcOffset else count
  }

  /** The clamp as `ReadAt` writes it: `srcOffset + count` is `uint`
      arithmetic, so a sum past `uint.MaxValue` wraps and the count is
      kept. */
  function ReadAtCountAsWritten(size: u32, srcOffset: u32, count: u32): u32
    requires srcOffset <= size
  {
    if size < (srcOffset + count) % 0x1_0000_0000 then size - srcOffset else count
  }

  /** A count that reaches past `uint.MaxValue` from the offset is not
      clamped: a two-gibibyte read from near the end of a blob of just over
      two gibibytes asks for bytes the blob does not have. */
  lemma ReadAtCountAsWrittenOverreads()
    ensures var size, srcOffset, count := 0x8000_0040, 0x8000_0039, 0x7FFF_FFC7;
            && ReadAtCountAsWritten(size, srcOffset, count) == count
            && srcOffset + ReadAtCountAsWritten(size, srcOffset, count) > size
            && ReadAtCount(size, srcOffset, count) == 7
  {
  }

  /** The two agree whenever the sum stays within `uint`. */
  lemma ReadAtCountAgrees(size: u32, srcOffset: u32, count: u32)
    requires srcOffset <= size && srcOffset + count <= 0xFFFF_FFFF
    ensures ReadAtCountAsWritten(size, srcOffset, count) == ReadAtCount(size, srcOffset, count)
  {
  }

  /** The bytes `ReadAt(handle, buffer, srcOffset, count)` takes: it walks
      `srcOffset / 4083` links from the head, then gathers the `count`
      bytes from byte `srcOffset % 4083` of that page's payload on. */
  function ReadAtBytes(s: seq<byte>, handle: nat, srcOffset: nat, count: nat): (r: seq<byte>)
    ensures |r| == count
  {
    Gather(s, SkipLinks(s, handle, srcOffset / PageDataSize), srcOffset % PageDataSize, count)
  }

  /** The bytes `ReadAt` takes as the source computes them: its skip loop
      follows `srcOffset / 4083` links but leaves `srcOffset` as it is, so
      the first piece starts at byte `srcOffset` of that page's payload and
      is `4083 - srcOffset` bytes long in `uint` arithmetic, at most
      `count`; the rest is gathered from the start of the page it links to. */
  function ReadAtBytesAsWritten(s: seq<byte>, handle: nat, srcOffset: u32, count: nat): (r: seq<byte>)
    ensures |r| == count
  {
    var h := SkipLinks(s, handle, srcOffset / PageDataSize);
    var room := (PageDataSize - srcOffset) % 0x1_0000_0000;
    var first := if room > count then count else room;
    ReadFrom(s, h * PageSize + PageHeaderSize + srcOffset, first) + Gather(s, HeaderLink(s, h), 0, count - first)
  }

  /** Below 4083 no link is skipped, and the written computation takes the
      bytes `ReadAtBytes` names. */
  lemma ReadAtBytesAsWrittenSmallOffset(s: seq<byte>, handle: nat, srcOffset: u32, count: nat)
    requires srcOffset < PageDataSize
    ensures ReadAtBytesAsWritten(s, handle, srcOffset, count) == ReadAtBytes(s, handle, srcOffset, count)
  {
    assert srcOffset / PageDataSize == 0 && srcOffset % PageDataSize == srcOffset;
    assert (PageDataSize - srcOffset) % 0x1_0000_0000 == PageDataSize - srcOffset;
    if count > 0 {
      var first := if PageDataSize - srcOffset > count then count else PageDataSize - srcOffset;
      GatherStep(s, handle, srcOffset, count, first);
    }
  }

  /** On a two-page chain holding a blob, a read from offset 4083 (the start of the
      second page) should give the blob's bytes there; as written, the
      first piece is empty, the read moves on along the second page's link
      0 and returns bytes of the file header instead, so the two differ
      whenever the blob's byte 4083 differs from the header's byte 9. */
  lemma ReadAtBytesAsWrittenReadsHeader(s: seq<byte>, n: nat, c: seq<nat>, d: seq<byte>, count: nat)
    requires n * PageSize <= |s| && Holds(s, n, c, d) && |c| == 2
    requires 0 < count <= |d| - PageDataSize
    ensures ReadAtBytes(s, c[0], PageDataSize, count) == d[PageDataSize..PageDataSize + count]
    ensures ReadAtBytesAsWritten(s, c[0], PageDataSize, count) == PayloadOf(Page(s, 0))[..count]
    ensures d[PageDataSize] != s[PageHeaderSize] ==>
              ReadAtBytesAsWritten(s, c[0], PageDataSize, count) != ReadAtBytes(s, c[0], PageDataSize, count)
  {
    ReadAtHolds(s, n, c, d, PageDataSize, count);
    SkipLinksChain(s, n, c, 1);
    HeaderOfPage(s, c[1]);
    assert HeaderLink(s, c[1]) == 0;
    ChainReadUnfold(s, 0, count);
    PayloadRead(s, 0, count);
    var w := ReadAtBytesAsWritten(s, c[0], PageDataSize, count);
    assert w == ChainRead(s, 0, count);
    assert w[0] == s[PageHeaderSize];
  }

  /** Byte `t` of the contents of the chain from its page `k` on is byte
      `4083 * k + t` of the contents of the whole chain. */
  lemma ByteAtSuffix(s: seq<byte>, c: seq<nat>, k: nat, t: nat)
    requires Fits(s, c) && k < |c| && t < PageDataSize * (|c| - k)
    ensures Fits(s, c[k..]) && ByteAt(s, c[k..], t) == ByteAt(s, c, PageDataSize * k + t)
  {
    var j, o := t / PageDataSize, t % PageDataSize;
    assert t == PageDataSize * j + o;
    ByteAtPage(s, c[k..], j, o);
    ByteAtPage(s, c, k + j, o);
    assert PageDataSize * k + t == PageDataSize * (k + j) + o;
  }

  /** The pages of a linked chain from its `k`-th on are linked. */
  lemma LinkedSuffix(s: seq<byte>, n: nat, c: seq<nat>, k: nat)
    requires n * PageSize <= |s| && Linked(s, n, c) && k < |c|
    ensures Linked(s, n, c[k..])
  {
    var t := c[k..];
    assert forall i :: 0 <= i < |t| ==> t[i] == c[k + i];
    forall i | 0 <= i < |t| - 1
      ensures Link(s, t[i]) == t[i + 1]
    {
      assert Link(s, c[k + i]) == c[k + i + 1];
    }
  }

  /** The contents of a chain from its page `k` on, less their first `o`
      bytes, are the contents of the whole chain from byte `4083 * k + o`. */
  lemma ContentsSuffix(s: seq<byte>, c: seq<nat>, k: nat, o: nat, count: nat, len: nat, start: nat)
    requires Fits(s, c) && k < |c| && o + count <= PageDataSize * (|c| - k)
    requires start == PageDataSize * k + o && start + count <= len <= PageDataSize * |c|
    ensures Fits(s, c[k..])
    ensures Contents(s, c[k..], o + count)[o..] == Contents(s, c, len)[start..start + count]
  {
    var t := c[k..];
    assert Fits(s, t) by {
      assert forall i :: 0 <= i < |t| ==> t[i] == c[k + i];
    }
    var a := Contents(s, t, o + count)[o..];
    var b := Contents(s, c, len)[PageDataSize * k + o..PageDataSize * k + o + count];
    forall i | 0 <= i < count
      ensures a[i] == b[i]
    {
      ByteAtSuffix(s, c, k, o + i);
    }
  }

  /** Along a linked chain, `ReadAt`'s bytes are the chain's contents from
      the offset on. */
  lemma ReadAtChain(s: seq<byte>, n: nat, c: seq<nat>, len: nat, srcOffset: nat, count: nat)
    requires n * PageSize <= |s| && Linked(s, n, c) && 0 < count
    requires srcOffset + count <= len <= PageDataSize * |c|
    ensures Fits(s, c)
    ensures ReadAtBytes(s, c[0], srcOffset, count) == Contents(s, c, len)[srcOffset..srcOffset + count]
  {
    LinkedFits(s, n, c);
    var k, o := srcOffset / PageDataSize, srcOffset % PageDataSize;
    assert srcOffset == PageDataSize * k + o;
    SkipLinksChain(s, n, c, k);
    assert ReadAtBytes(s, c[0], srcOffset, count) == ChainRead(s, c[k], o + count)[o..];
    TailRead(s, n, c, k, o, count);
    ContentsSuffix(s, c, k, o, count, len, srcOffset);
  }

  /** What `ChainRead` gathers from page `k` of a linked chain on is that
      part's contents. */
  lemma TailRead(s: seq<byte>, n: nat, c: seq<nat>, k: nat, o: nat, count: nat)
    requires n * PageSize <= |s| && Linked(s, n, c) && k < |c| && o + count <= PageDataSize * (|c| - k)
    ensures Fits(s, c[k..]) && ChainRead(s, c[k], o + count) == Contents(s, c[k..], o + count)
  {
    LinkedSuffix(s, n, c, k);
    ChainReadContents(s, n, c[k..], o + count);
  }

  /** On a chain that holds the blob `d`, `ReadAt`'s bytes from any offset
      are the blob's bytes there. */
  lemma ReadAtHolds(s: seq<byte>, n: nat, c: seq<nat>, d: seq<byte>, srcOffset: nat, count: nat)
    requires n * PageSize <= |s| && Holds(s, n, c, d) && srcOffset + count <= |d|
    ensures ReadAtBytes(s, c[0], srcOffset, count) == d[srcOffset..srcOffset + count]
  {
    if count > 0 {
      HoldsContents(s, n, c, d);
      ReadAtChain(s, n, c, |d|, srcOffset, count);
    }
  }

  /** On a chain that holds `d`, `ReadAll`'s gathering gives `d` back. */
  lemma ReadAllHolds(s: seq<byte>, n: nat, c: seq<nat>, d: seq<byte>)
    requires n * PageSize <= |s| && Holds(s, n, c, d)
    ensures ChainRead(s, c[0], |d|) == d && HeaderLength(s, c[0]) == |d|
  {
    HoldsContents(s, n, c, d);
    ChainReadContents(s, n, c, |d|);
    HeaderOfPage(s, c[0]);
  }

  // ---------------------------------------------------------------------
  // The page checksum test

  /** `ValidatePageCrc(ix)`: the four bytes after the first 4092 of the page
      equal the little-endian checksum of those 4092, reading zeros past
      the end of the stream. */
  predicate PageCrcOk(s: seq<byte>, ix: nat) {
    ReadFrom(s, ix * PageSize + CrcIndex, 4) == LE32(Crc.Checksum(ReadFrom(s, ix * PageSize, CrcIndex)))
  }

  /** On a page inside the stream that is the page's `CrcValid`. */
  lemma PageCrcOkValid(s: seq<byte>, ix: nat)
    requires (ix + 1) * PageSize <= |s|
    ensures PageCrcOk(s, ix) <==> CrcValid(Page(s, ix))
  {
    var pg := Page(s, ix);
    assert ReadFrom(s, ix * PageSize + CrcIndex, 4) == pg[CrcIndex..];
    assert ReadFrom(s, ix * PageSize, CrcIndex) == pg[..CrcIndex];
  }

  /** Every page of the first `n` whose checksum is valid passes the test. */
  lemma PagesCrcOk(s: seq<byte>, n: nat)
    requires n * PageSize <= |s| && forall q :: 0 <= q < n ==> CrcValid(Page(s, q))
    ensures forall q :: 0 <= q < n ==> PageCrcOk(s, q)
  {
    forall q | 0 <= q < n
      ensures PageCrcOk(s, q)
    {
      PageCrcOkValid(s, q);
    }
  }

  // ---------------------------------------------------------------------
  // Gathering into a buffer

  /** `ChainRead` from page `h`, in the terms of one turn of `ReadAll`'s
      loop: the `ic` bytes read from the payload, then, when bytes remain,
      the rest gathered from the page the link read names. */
  lemma ChainReadTurn(s: seq<byte>, h: nat, count: nat, ic: nat, link: nat, rest: seq<byte>)
    requires 0 < count && ic == (if count > PageDataSize then PageDataSize else count)
    requires link == ReadLE32(ReadFrom(s, h * PageSize + LinkIndex, 4), 0)
    requires rest == if count > ic then ChainRead(s, link, count - ic) else []
    ensures ChainRead(s, h, count) == ReadFrom(s, h * PageSize + PageHeaderSize, ic) + rest
  {
    assert Min(count, PageDataSize) == ic;
  }

  /** One turn of a loop that copies the gathered bytes `all` into `data`
      piece by piece: after `piece` is written at `offset`, the copied
      prefix has grown by it. */
  lemma CopiedStep(all: seq<byte>, data: seq<byte>, offset: nat, piece: seq<byte>, rest: seq<byte>)
    requires offset + |piece| <= |data| && offset <= |all|
    requires data[..offset] == all[..offset] && all[offset..] == piece + rest
    ensures Overwrite(data, offset, piece)[..offset + |piece|] == all[..offset + |piece|]
    ensures all[offset + |piece|..] == rest
  {
    var d := Overwrite(data, offset, piece);
    forall i | 0 <= i < offset + |piece|
      ensures d[i] == all[i]
    {
      if i >= offset {
        assert all[i] == all[offset..][i - offset];
      } else {
        assert data[i] == data[..offset][i];
      }
    }
    assert all[offset..][|piece|..] == rest;
  }

  // ---------------------------------------------------------------------
  // Loading the file header

  /** Where `TryLoadFileHeader`'s byte-by-byte magic read stops, from byte
      `i` on: at the first zero byte, or after 50 bytes. */
  function MagicEnd(s: seq<byte>, i: nat): (e: nat)
    requires i <= MagicField <= |s|
    ensures i <= e <= MagicField
    ensures forall k :: i <= k < e ==> s[k] != 0
    ensures e < MagicField ==> s[e] == 0
    decreases MagicField - i
  {
    if i == MagicField then MagicField
    else if s[i] == 0 then i
    else MagicEnd(s, i + 1)
  }

  /** The magic as `TryLoadFileHeader` reads it: the bytes before the first
      zero byte, at most 50. */
  function MagicOf(s: seq<byte>): (m: seq<byte>)
    requires MagicField <= |s|
    ensures |m| <= MagicField && m == s[..|m|]
    ensures forall k :: 0 <= k < |m| ==> m[k] != 0
    ensures |m| < MagicField ==> s[|m|] == 0
  {
    s[..MagicEnd(s, 0)]
  }

  /** The stop position is the first zero byte at or after `i`. */
  lemma {:induction false} MagicEndAt(s: seq<byte>, i: nat, e: nat)
    requires i <= e < MagicField <= |s| && s[e] == 0
    requires forall k :: i <= k < e ==> s[k] != 0
    ensures MagicEnd(s, i) == e
    decreases e - i
  {
    if i < e {
      MagicEndAt(s, i + 1, e);
    }
  }

  /** The header checks of `TryLoadFileHeader` that come before the magic:
      the stream holds at least one chapter and page 0's checksum is valid. */
  predicate MagicChecked(s: seq<byte>) {
    ChapterBytes <= |s| && PageCrcOk(s, 0)
  }

  /** The version field as `TryLoadFileHeader` reads it. */
  function HeaderVersion(s: seq<byte>): u16 {
    ReadLE16(ReadFrom(s, VersionIndex, 2), 0)
  }

  /** The first free page field as `TryLoadFileHeader` reads it. */
  function HeaderFirstFree(s: seq<byte>): u32 {
    ReadLE32(ReadFrom(s, FirstFreeIndex, 4), 0)
  }

  /** `TryLoadFileHeader` accepts the header: the earlier checks pass, the
      magic is the store's and the version is not newer than 1. */
  predicate HeaderAccepted(s: seq<byte>) {
    MagicChecked(s) && MagicOf(s) == MagicString && HeaderVersion(s) <= FileVersion
  }

  /** A stream whose page 0 is the header image `WriteFileHeader` writes
      for the store's magic is accepted, and gives back that first free
      page. */
  lemma HeaderImageLoads(s: seq<byte>, ffp: u32)
    requires ChapterBytes <= |s| && Page(s, 0) == HeaderImage(MagicString, ffp)
    ensures HeaderAccepted(s) && MagicOf(s) == MagicString
    ensures HeaderVersion(s) == FileVersion && HeaderFirstFree(s) == ffp
  {
    var pg := HeaderImage(MagicString, ffp);
    HeaderFields(MagicString, ffp);
    PageCrcOkValid(s, 0);
    assert s[..PageSize] == pg;
    assert forall k :: 0 <= k < |MagicString| ==> s[k] == MagicString[k] != 0;
    assert s[|MagicString|] == 0;
    MagicEndAt(s, 0, |MagicString|);
    assert MagicOf(s) == s[..|MagicString|] == pg[..|MagicString|];
    assert ReadFrom(s, VersionIndex, 2) == pg[VersionIndex..VersionIndex + 2];
    assert ReadFrom(s, FirstFreeIndex, 4) == pg[FirstFreeIndex..FirstFreeIndex + 4];
    ReadLE32Same(ReadFrom(s, FirstFreeIndex, 4), 0, pg, FirstFreeIndex);
  }
}
