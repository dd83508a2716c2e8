/** The on-disk layout of a compound file. The host stream is a sequence of
    4096-byte pages; 4096 pages make a chapter. A page is

      byte 0         status flags (Free = 1, Encrypted = 2, ReadOnly = 4)
      bytes 1..5     link: index of the next page of the list, 0 for none
      bytes 5..9     length: the bytes still to come, from this page on
      bytes 9..4092  4083 bytes of payload
      bytes 4092..   the page checksum of bytes 0..4092

    and page 0 holds the file header instead. */
module Pages {
  import opened Bytes
  import Crc

  const PageSize: nat := 4096
  const ChapterSize: nat := 4096
  const ChapterBytes: nat := 0x100_0000
  const PageHeaderSize: nat := 9
  const PageDataSize: nat := 4083
  const LinkIndex: nat := 1
  const LengthIndex: nat := 5
  const CrcIndex: nat := 4092
  const NoLink: u32 := 0

  /** File header fields: the magic from byte 0 (50 bytes reserved), then
      version, page size, chapter size, and the first free page. */
  const MagicField: nat := 50
  const VersionIndex: nat := 50
  const PageSizeIndex: nat := 52
  const ChapterSizeIndex: nat := 54
  const FirstFreeIndex: nat := 60
  const FileVersion: u16 := 1

  /** "UNICORNS 4-LIFE" in ASCII. */
  const MagicString: seq<byte> :=
    [0x55, 0x4E, 0x49, 0x43, 0x4F, 0x52, 0x4E, 0x53, 0x20, 0x34, 0x2D, 0x4C, 0x49, 0x46, 0x45]

  /** The largest page count a `uint` page index allows. */
  const MaxPageCount: nat := 0xFFFF_FFFF

  // ---------------------------------------------------------------------
  // Status flags

  datatype Flag = Free | Encrypted | ReadOnly

  function Mask(f: Flag): byte {
    match f
    case Free => 1
    case Encrypted => 2
    case ReadOnly => 4
  }

  /** Bit `Mask(f)` of a status byte, as 0 or 1. */
  function Bit(status: byte, f: Flag): int {
    match f
    case Free => status % 2
    case Encrypted => status / 2 % 2
    case ReadOnly => status / 4 % 2
  }

  predicate HasFlag(status: byte, f: Flag) {
    Bit(status, f) == 1
  }

  /** `status |= mask`. */
  function SetFlag(status: byte, f: Flag): byte {
    if HasFlag(status, f) then status else status + Mask(f)
  }

  /** `status ^= mask`. */
  function ToggleFlag(status: byte, f: Flag): byte {
    if HasFlag(status, f) then status - Mask(f) else status + Mask(f)
  }

  lemma BitsOf(s: byte)
    ensures s == Bit(s, Free) + 2 * Bit(s, Encrypted) + 4 * Bit(s, ReadOnly) + 8 * (s / 8)
    ensures 0 <= s / 8 < 32
  {
  }

  /** `|=` sets the one bit of its mask and keeps every other bit: it is the
      bitwise or with a single-bit mask. */
  lemma SetFlagBits(s: byte, f: Flag)
    ensures HasFlag(SetFlag(s, f), f)
    ensures forall g: Flag :: g != f ==> Bit(SetFlag(s, f), g) == Bit(s, g)
    ensures SetFlag(s, f) / 8 == s / 8
  {
    BitsOf(s);
    BitsOf(SetFlag(s, f));
  }

  /** `^=` flips the one bit of its mask and keeps every other bit: it is the
      bitwise exclusive or with a single-bit mask. */
  lemma ToggleFlagBits(s: byte, f: Flag)
    ensures HasFlag(ToggleFlag(s, f), f) <==> !HasFlag(s, f)
    ensures forall g: Flag :: g != f ==> Bit(ToggleFlag(s, f), g) == Bit(s, g)
    ensures ToggleFlag(s, f) / 8 == s / 8
  {
    BitsOf(s);
    BitsOf(ToggleFlag(s, f));
  }

  // ---------------------------------------------------------------------
  // The per-page view of the stream

  /** Page `q` of stream `s`: its 4096 bytes. */
  function Page(s: seq<byte>, q: nat): (pg: seq<byte>)
    requires (q + 1) * PageSize <= |s|
    ensures |pg| == PageSize
  {
    s[q * PageSize..q * PageSize + PageSize]
  }

  function StatusOf(pg: seq<byte>): byte
    requires |pg| == PageSize
  {
    pg[0]
  }

  function LinkOf(pg: seq<byte>): u32
    requires |pg| == PageSize
  {
    ReadLE32(pg, LinkIndex)
  }

  function LengthOf(pg: seq<byte>): u32
    requires |pg| == PageSize
  {
    ReadLE32(pg, LengthIndex)
  }

  function PayloadOf(pg: seq<byte>): (d: seq<byte>)
    requires |pg| == PageSize
    ensures |d| == PageDataSize
  {
    pg[PageHeaderSize..CrcIndex]
  }

  /** The four checksum bytes equal the little-endian checksum of the
      other 4092, compared byte by byte. */
  predicate CrcValid(pg: seq<byte>)
    requires |pg| == PageSize
  {
    pg[CrcIndex..] == LE32(Crc.Checksum(pg[..CrcIndex]))
  }

  /** The checksum bytes a page should carry. */
  function CrcBytes(pg: seq<byte>): (r: seq<byte>)
    requires |pg| == PageSize
    ensures |r| == 4
  {
    LE32(Crc.Checksum(pg[..CrcIndex]))
  }

  function Status(s: seq<byte>, q: nat): byte
    requires (q + 1) * PageSize <= |s|
  {
    StatusOf(Page(s, q))
  }

  function Link(s: seq<byte>, q: nat): u32
    requires (q + 1) * PageSize <= |s|
  {
    LinkOf(Page(s, q))
  }

  function Length(s: seq<byte>, q: nat): u32
    requires (q + 1) * PageSize <= |s|
  {
    LengthOf(Page(s, q))
  }

  // ---------------------------------------------------------------------
  // Positioned writes, seen page by page

  /** A write that misses page `q` leaves it as it was. */
  lemma OverwriteOtherPage(s: seq<byte>, pos: nat, b: seq<byte>, q: nat)
    requires pos <= |s| && (q + 1) * PageSize <= |s|
    requires pos + |b| <= q * PageSize || (q + 1) * PageSize <= pos
    ensures (q + 1) * PageSize <= |Overwrite(s, pos, b)|
    ensures Page(Overwrite(s, pos, b), q) == Page(s, q)
  {
    var r := Overwrite(s, pos, b);
    assert forall i :: 0 <= i < PageSize ==> Page(r, q)[i] == r[q * PageSize + i];
  }

  /** A write inside page `q` is the same write on the page's image. */
  lemma OverwriteInPage(s: seq<byte>, q: nat, off: nat, b: seq<byte>)
    requires (q + 1) * PageSize <= |s| && off + |b| <= PageSize
    ensures (q + 1) * PageSize <= |Overwrite(s, q * PageSize + off, b)|
    ensures Page(Overwrite(s, q * PageSize + off, b), q) == Overwrite(Page(s, q), off, b)
  {
    var r := Overwrite(s, q * PageSize + off, b);
    assert forall i :: 0 <= i < PageSize ==> Page(r, q)[i] == r[q * PageSize + i];
  }

  /** Writing a block of whole pages at page `q0` makes page `q0 + j` the
      block's page `j`. */
  lemma OverwriteBlockPage(s: seq<byte>, q0: nat, b: seq<byte>, j: nat)
    requires q0 * PageSize <= |s| && (j + 1) * PageSize <= |b|
    ensures (q0 + j + 1) * PageSize <= |Overwrite(s, q0 * PageSize, b)|
    ensures Page(Overwrite(s, q0 * PageSize, b), q0 + j) == Page(b, j)
  {
    var r := Overwrite(s, q0 * PageSize, b);
    forall i | 0 <= i < PageSize
      ensures Page(r, q0 + j)[i] == Page(b, j)[i]
    {
      assert Page(r, q0 + j)[i] == r[(q0 + j) * PageSize + i];
      assert (q0 + j) * PageSize + i - q0 * PageSize == j * PageSize + i;
    }
  }

  /** `s1` has the length of `s0` and differs from it at most in page `ix`. */
  ghost predicate SamePagesExcept(s0: seq<byte>, s1: seq<byte>, ix: nat) {
    && |s1| == |s0|
    && forall q: nat :: (q + 1) * PageSize <= |s0| && q != ix ==> Page(s1, q) == Page(s0, q)
  }

  /** Every page of a zeroed buffer is a zeroed page. */
  lemma ZerosPage(n: nat, q: nat)
    requires (q + 1) * PageSize <= n
    ensures Page(Zeros(n), q) == Zeros(PageSize)
  {
  }

  /** A write inside page `q` changes that page as the same write on its
      image would, and no other page. */
  lemma OverwritePage(s: seq<byte>, q: nat, off: nat, b: seq<byte>)
    requires (q + 1) * PageSize <= |s| && off + |b| <= PageSize
    ensures SamePagesExcept(s, Overwrite(s, q * PageSize + off, b), q)
    ensures Page(Overwrite(s, q * PageSize + off, b), q) == Overwrite(Page(s, q), off, b)
  {
    OverwriteInPage(s, q, off, b);
    forall p: nat | (p + 1) * PageSize <= |s| && p != q
      ensures Page(Overwrite(s, q * PageSize + off, b), p) == Page(s, p)
    {
      if p < q {
        assert (p + 1) * PageSize <= q * PageSize;
      } else {
        assert (q + 1) * PageSize <= p * PageSize;
      }
      OverwriteOtherPage(s, q * PageSize + off, b, p);
    }
  }

  // ---------------------------------------------------------------------
  // Changing one field of a page image

  /** `WritePageHeader`: the first nine bytes are replaced. */
  lemma HeaderWriteFields(pg: seq<byte>, h: seq<byte>)
    requires |pg| == PageSize && |h| == PageHeaderSize
    ensures |Overwrite(pg, 0, h)| == PageSize
    ensures StatusOf(Overwrite(pg, 0, h)) == h[0]
    ensures LinkOf(Overwrite(pg, 0, h)) == ReadLE32(h, LinkIndex)
    ensures LengthOf(Overwrite(pg, 0, h)) == ReadLE32(h, LengthIndex)
    ensures PayloadOf(Overwrite(pg, 0, h)) == PayloadOf(pg)
    ensures Overwrite(pg, 0, h)[CrcIndex..] == pg[CrcIndex..]
  {
    var r := Overwrite(pg, 0, h);
    assert r[1..5] == h[1..5] && r[5..9] == h[5..9];
  }

  /** `WritePageLink`: only the link changes. */
  lemma LinkWriteFields(pg: seq<byte>, l: u32)
    requires |pg| == PageSize
    ensures |Overwrite(pg, LinkIndex, LE32(l))| == PageSize
    ensures StatusOf(Overwrite(pg, LinkIndex, LE32(l))) == StatusOf(pg)
    ensures LinkOf(Overwrite(pg, LinkIndex, LE32(l))) == l
    ensures LengthOf(Overwrite(pg, LinkIndex, LE32(l))) == LengthOf(pg)
    ensures PayloadOf(Overwrite(pg, LinkIndex, LE32(l))) == PayloadOf(pg)
    ensures Overwrite(pg, LinkIndex, LE32(l))[CrcIndex..] == pg[CrcIndex..]
  {
    var r := Overwrite(pg, LinkIndex, LE32(l));
    assert r[1..5] == LE32(l);
    LE32RoundTrip(l, r, LinkIndex);
  }

  /** `WritePageCrc`: bytes 0..4092 stay and the checksum is now valid. */
  lemma CrcWriteFields(pg: seq<byte>)
    requires |pg| == PageSize
    ensures |Overwrite(pg, CrcIndex, CrcBytes(pg))| == PageSize
    ensures Overwrite(pg, CrcIndex, CrcBytes(pg))[..CrcIndex] == pg[..CrcIndex]
    ensures StatusOf(Overwrite(pg, CrcIndex, CrcBytes(pg))) == StatusOf(pg)
    ensures LinkOf(Overwrite(pg, CrcIndex, CrcBytes(pg))) == LinkOf(pg)
    ensures LengthOf(Overwrite(pg, CrcIndex, CrcBytes(pg))) == LengthOf(pg)
    ensures PayloadOf(Overwrite(pg, CrcIndex, CrcBytes(pg))) == PayloadOf(pg)
    ensures CrcValid(Overwrite(pg, CrcIndex, CrcBytes(pg)))
  {
    var r := Overwrite(pg, CrcIndex, CrcBytes(pg));
    assert r[..CrcIndex] == pg[..CrcIndex];
    assert r[CrcIndex..] == CrcBytes(pg);
  }

  /** The header a turn of `Write` writes back: the header read from the
      page with its length field set to `count` and its Encrypted bit set.
      The link read from it is the page's link. */
  function PieceHeader(pg: seq<byte>, count: u32): (h: seq<byte>)
    requires |pg| == PageSize
    ensures |h| == PageHeaderSize
  {
    Overwrite(pg[..PageHeaderSize], LengthIndex, LE32(count))[0 := SetFlag(pg[0], Encrypted)]
  }

  lemma PieceHeaderFields(pg: seq<byte>, count: u32)
    requires |pg| == PageSize
    ensures ReadLE32(PieceHeader(pg, count), LinkIndex) == LinkOf(pg)
    ensures StatusOf(Overwrite(pg, 0, PieceHeader(pg, count))) == SetFlag(StatusOf(pg), Encrypted)
    ensures LinkOf(Overwrite(pg, 0, PieceHeader(pg, count))) == LinkOf(pg)
    ensures LengthOf(Overwrite(pg, 0, PieceHeader(pg, count))) == count
  {
    var h := PieceHeader(pg, count);
    HeaderWriteFields(pg, h);
    assert h[LinkIndex..LinkIndex + 4] == pg[LinkIndex..LinkIndex + 4];
    ReadLE32Same(h, LinkIndex, pg, LinkIndex);
    assert h[LengthIndex..LengthIndex + 4] == LE32(count);
    LE32RoundTrip(count, h, LengthIndex);
  }

  /** The header the end of `Write` writes back to cut the chain: the
      header read from the page with its link set to 0. */
  function CutHeader(pg: seq<byte>): (h: seq<byte>)
    requires |pg| == PageSize
    ensures |h| == PageHeaderSize
  {
    Overwrite(pg[..PageHeaderSize], LinkIndex, LE32(NoLink))
  }

  lemma CutHeaderFields(pg: seq<byte>)
    requires |pg| == PageSize
    ensures StatusOf(Overwrite(pg, 0, CutHeader(pg))) == StatusOf(pg)
    ensures LinkOf(Overwrite(pg, 0, CutHeader(pg))) == NoLink
    ensures LengthOf(Overwrite(pg, 0, CutHeader(pg))) == LengthOf(pg)
    ensures PayloadOf(Overwrite(pg, 0, CutHeader(pg))) == PayloadOf(pg)
  {
    var h := CutHeader(pg);
    HeaderWriteFields(pg, h);
    assert h[LinkIndex..LinkIndex + 4] == LE32(NoLink);
    LE32RoundTrip(NoLink, h, LinkIndex);
    assert h[LengthIndex..LengthIndex + 4] == pg[LengthIndex..LengthIndex + 4];
    ReadLE32Same(h, LengthIndex, pg, LengthIndex);
  }

  /** The payload write of `Write`: `d` lands at byte 9, the header and the
      checksum bytes stay. */
  lemma PayloadWriteFields(pg: seq<byte>, d: seq<byte>)
    requires |pg| == PageSize && |d| <= PageDataSize
    ensures |Overwrite(pg, PageHeaderSize, d)| == PageSize
    ensures StatusOf(Overwrite(pg, PageHeaderSize, d)) == StatusOf(pg)
    ensures LinkOf(Overwrite(pg, PageHeaderSize, d)) == LinkOf(pg)
    ensures LengthOf(Overwrite(pg, PageHeaderSize, d)) == LengthOf(pg)
    ensures PayloadOf(Overwrite(pg, PageHeaderSize, d))[..|d|] == d
    ensures Overwrite(pg, PageHeaderSize, d)[CrcIndex..] == pg[CrcIndex..]
  {
    var r := Overwrite(pg, PageHeaderSize, d);
    assert r[..PageHeaderSize] == pg[..PageHeaderSize];
    assert r[1..5] == pg[1..5] && r[5..9] == pg[5..9];
    assert PayloadOf(r)[..|d|] == r[PageHeaderSize..PageHeaderSize + |d|];
  }

  // ---------------------------------------------------------------------
  // The pages `AddChapter` and `WriteFileHeader` build

  /** The first 4092 bytes of a fresh free page: status Free, the link, and
      zeros for the length and the payload. */
  function FreePageBody(link: u32): (b: seq<byte>)
    ensures |b| == CrcIndex
  {
    [Mask(Free)] + LE32(link) + Zeros(CrcIndex - 5)
  }

  /** A fresh free page with its checksum. */
  function FreePageImage(link: u32): (pg: seq<byte>)
    ensures |pg| == PageSize
  {
    FreePageBody(link) + LE32(Crc.Checksum(FreePageBody(link)))
  }

  /** A fresh page is Free, not Encrypted, links to `link`, has length 0 and
      a valid checksum. */
  lemma FreePageFields(link: u32)
    ensures HasFlag(StatusOf(FreePageImage(link)), Free)
    ensures !HasFlag(StatusOf(FreePageImage(link)), Encrypted)
    ensures LinkOf(FreePageImage(link)) == link
    ensures LengthOf(FreePageImage(link)) == 0
    ensures CrcValid(FreePageImage(link))
  {
    var pg := FreePageImage(link);
    assert pg[..CrcIndex] == FreePageBody(link);
    assert pg[1..5] == LE32(link);
    LE32RoundTrip(link, pg, LinkIndex);
    assert pg[5..9] == LE32(0);
    LE32RoundTrip(0, pg, LengthIndex);
  }

  /** The first 4092 bytes of the header page: the magic padded with zeros to
      50 bytes, version 1, page size 4096, chapter size 4096, four zero bytes,
      the first free page, and zeros. */
  function HeaderBody(magic: seq<byte>, ffp: u32): (b: seq<byte>)
    requires |magic| <= MagicField
    ensures |b| == CrcIndex
  {
    magic + Zeros(MagicField - |magic|) + LE16(FileVersion) + LE16(PageSize) + LE16(ChapterSize)
      + Zeros(4) + LE32(ffp) + Zeros(CrcIndex - 64)
  }

  /** The header page with its checksum. */
  function HeaderImage(magic: seq<byte>, ffp: u32): (pg: seq<byte>)
    requires |magic| <= MagicField
    ensures |pg| == PageSize
  {
    HeaderBody(magic, ffp) + LE32(Crc.Checksum(HeaderBody(magic, ffp)))
  }

  /** Reading the header fields back gives what was written. */
  lemma HeaderFields(magic: seq<byte>, ffp: u32)
    requires |magic| <= MagicField
    ensures HeaderImage(magic, ffp)[..|magic|] == magic
    ensures forall i :: |magic| <= i < MagicField ==> HeaderImage(magic, ffp)[i] == 0
    ensures ReadLE16(HeaderImage(magic, ffp), VersionIndex) == FileVersion
    ensures ReadLE16(HeaderImage(magic, ffp), PageSizeIndex) == PageSize
    ensures ReadLE16(HeaderImage(magic, ffp), ChapterSizeIndex) == ChapterSize
    ensures ReadLE32(HeaderImage(magic, ffp), FirstFreeIndex) == ffp
    ensures CrcValid(HeaderImage(magic, ffp))
  {
    var pg := HeaderImage(magic, ffp);
    var b := HeaderBody(magic, ffp);
    assert pg[..CrcIndex] == b;
    assert pg[..|magic|] == b[..|magic|] == magic;
    assert forall i :: |magic| <= i < MagicField ==> pg[i] == b[i] == 0;
    assert pg[50..52] == LE16(FileVersion);
    LE16RoundTrip(FileVersion, pg, VersionIndex);
    assert pg[52..54] == LE16(PageSize);
    LE16RoundTrip(PageSize, pg, PageSizeIndex);
    assert pg[54..56] == LE16(ChapterSize);
    LE16RoundTrip(ChapterSize, pg, ChapterSizeIndex);
    assert pg[60..64] == LE32(ffp);
    LE32RoundTrip(ffp, pg, FirstFreeIndex);
  }

  /** The header page as `WriteFileHeader` assembles it on a zeroed buffer:
      the magic at 0, version, page size and chapter size at 50, 52 and 54,
      the first free page at 60, then the checksum of the first 4092 bytes. */
  lemma HeaderBuilt(magic: seq<byte>, ffp: u32)
    requires |magic| <= MagicField
    ensures var d := Overwrite(Overwrite(Overwrite(Overwrite(Overwrite(Zeros(PageSize),
              0, magic), VersionIndex, LE16(FileVersion)), PageSizeIndex, LE16(PageSize)),
              ChapterSizeIndex, LE16(ChapterSize)), FirstFreeIndex, LE32(ffp));
            |d| == PageSize && Overwrite(d, CrcIndex, CrcBytes(d)) == HeaderImage(magic, ffp)
  {
    var d := Overwrite(Overwrite(Overwrite(Overwrite(Overwrite(Zeros(PageSize),
              0, magic), VersionIndex, LE16(FileVersion)), PageSizeIndex, LE16(PageSize)),
              ChapterSizeIndex, LE16(ChapterSize)), FirstFreeIndex, LE32(ffp));
    var b := HeaderBody(magic, ffp);
    forall i | 0 <= i < CrcIndex
      ensures d[i] == b[i]
    {
      if i < |magic| {
        assert b[i] == magic[i];
      } else if i < MagicField {
        assert b[i] == 0;
      } else if i < 56 {
      } else if i < FirstFreeIndex {
        assert b[i] == 0;
      } else if i < 64 {
      } else {
        assert b[i] == 0;
      }
    }
    assert d[..CrcIndex] == b;
  }

  /** Building a fresh free page the way `AddChapter` does, on a zeroed
      page: set the Free bit, write the link, then the checksum. */
  lemma FreePageFromZeros(link: u32)
    ensures var p1 := Overwrite(Zeros(PageSize), 0, [SetFlag(0, Free)]);
            var p2 := Overwrite(p1, LinkIndex, LE32(link));
            Overwrite(p2, CrcIndex, CrcBytes(p2)) == FreePageImage(link)
  {
    var p1 := Overwrite(Zeros(PageSize), 0, [SetFlag(0, Free)]);
    var p2 := Overwrite(p1, LinkIndex, LE32(link));
    assert p2[..CrcIndex] == FreePageBody(link);
  }

  /** Giving a fresh free page another link and a new checksum, as
      `AddChapter` does for the last page of a chapter. */
  lemma FreePageRelinked(link0: u32, link: u32)
    ensures var p2 := Overwrite(FreePageImage(link0), LinkIndex, LE32(link));
            Overwrite(p2, CrcIndex, CrcBytes(p2)) == FreePageImage(link)
  {
    var p2 := Overwrite(FreePageImage(link0), LinkIndex, LE32(link));
    assert FreePageImage(link0)[..CrcIndex] == FreePageBody(link0);
    assert p2[..CrcIndex] == FreePageBody(link);
  }

  // ---------------------------------------------------------------------
  // What `Allocate` and `Free` make of a page

  /** The page `Allocate` hands out: the Free bit flipped and the link set
      to 0; length, payload and checksum bytes are not touched (the checksum
      is not recomputed). */
  function Claimed(pg: seq<byte>): (r: seq<byte>)
    requires |pg| == PageSize
    ensures |r| == PageSize
  {
    [ToggleFlag(pg[0], Free)] + LE32(NoLink) + pg[LengthIndex..]
  }

  /** A Free page comes out unflagged, Encrypted as it was, with link 0 and
      the same length and payload. */
  lemma ClaimedFields(pg: seq<byte>)
    requires |pg| == PageSize && HasFlag(StatusOf(pg), Free)
    ensures !HasFlag(StatusOf(Claimed(pg)), Free)
    ensures Bit(StatusOf(Claimed(pg)), Encrypted) == Bit(StatusOf(pg), Encrypted)
    ensures LinkOf(Claimed(pg)) == NoLink
    ensures LengthOf(Claimed(pg)) == LengthOf(pg)
    ensures PayloadOf(Claimed(pg)) == PayloadOf(pg)
  {
    var r := Claimed(pg);
    ToggleFlagBits(pg[0], Free);
    assert r[1..5] == LE32(NoLink);
    LE32RoundTrip(NoLink, r, LinkIndex);
    assert r[5..9] == pg[5..9];
    assert PayloadOf(r) == PayloadOf(pg);
  }

  /** `Allocate`'s edit of the header it read: `^= Free` on the status, the
      link cleared, written back over the page. */
  lemma ClaimedBuilt(pg: seq<byte>, h: seq<byte>)
    requires |pg| == PageSize && h == pg[..PageHeaderSize]
    ensures Overwrite(pg, 0, Overwrite(h[0 := ToggleFlag(h[0], Free)], LinkIndex, LE32(NoLink))) == Claimed(pg)
  {
    var h2 := Overwrite(h[0 := ToggleFlag(h[0], Free)], LinkIndex, LE32(NoLink));
    assert h2 == [ToggleFlag(pg[0], Free)] + LE32(NoLink) + pg[LengthIndex..PageHeaderSize];
  }

  /** The status `Free` leaves: `|= Free`, then, through the inverted test,
      `^= Encrypted` when Encrypted is clear. */
  function FreedStatus(status: byte): byte {
    var s1 := SetFlag(status, Free);
    if !HasFlag(s1, Encrypted) then ToggleFlag(s1, Encrypted) else s1
  }

  /** Whatever the status was, a freed page is Free and Encrypted, and its
      ReadOnly bit is kept. */
  lemma FreedStatusBits(status: byte)
    ensures HasFlag(FreedStatus(status), Free) && HasFlag(FreedStatus(status), Encrypted)
    ensures Bit(FreedStatus(status), ReadOnly) == Bit(status, ReadOnly)
  {
    var s1 := SetFlag(status, Free);
    SetFlagBits(status, Free);
    ToggleFlagBits(s1, Encrypted);
  }

  function ReleasedBody(pg: seq<byte>, link: u32): (b: seq<byte>)
    requires |pg| == PageSize
    ensures |b| == CrcIndex
  {
    [FreedStatus(pg[0])] + LE32(link) + LE32(0) + PayloadOf(pg)
  }

  /** A page as `Free` leaves it: the freed status, link `link`, length 0,
      the old payload, and a fresh checksum. */
  function Released(pg: seq<byte>, link: u32): (r: seq<byte>)
    requires |pg| == PageSize
    ensures |r| == PageSize
  {
    ReleasedBody(pg, link) + LE32(Crc.Checksum(ReleasedBody(pg, link)))
  }

  lemma ReleasedFields(pg: seq<byte>, link: u32)
    requires |pg| == PageSize
    ensures HasFlag(StatusOf(Released(pg, link)), Free)
    ensures HasFlag(StatusOf(Released(pg, link)), Encrypted)
    ensures LinkOf(Released(pg, link)) == link
    ensures LengthOf(Released(pg, link)) == 0
    ensures PayloadOf(Released(pg, link)) == PayloadOf(pg)
    ensures CrcValid(Released(pg, link))
  {
    var r := Released(pg, link);
    FreedStatusBits(pg[0]);
    assert r[..CrcIndex] == ReleasedBody(pg, link);
    assert r[1..5] == LE32(link);
    LE32RoundTrip(link, r, LinkIndex);
    assert r[5..9] == LE32(0);
    LE32RoundTrip(0, r, LengthIndex);
  }

  /** `Free`'s edit of one page: the header written back, then the
      checksum. */
  lemma ReleasedBuilt(pg: seq<byte>, h: seq<byte>, link: u32)
    requires |pg| == PageSize && |h| == PageHeaderSize
    requires h[0] == FreedStatus(pg[0]) && h[1..5] == LE32(link) && h[5..] == LE32(0)
    ensures var p1 := Overwrite(pg, 0, h);
            Overwrite(p1, CrcIndex, CrcBytes(p1)) == Released(pg, link)
  {
    var p1 := Overwrite(pg, 0, h);
    assert h == [FreedStatus(pg[0])] + LE32(link) + LE32(0);
    assert p1[..CrcIndex] == ReleasedBody(pg, link);
  }

  /** One turn of `AddChapter`'s loop on page `i` of buffer `d`: `|= Free`
      on the status byte, the link `link`, then the page checksum. */
  function FreshPageWrite(d: seq<byte>, i: nat, link: u32): (r: seq<byte>)
    requires (i + 1) * PageSize <= |d|
    ensures |r| == |d|
  {
    var d1 := Overwrite(d, PageSize * i, [SetFlag(d[PageSize * i], Free)]);
    var d2 := Overwrite(d1, PageSize * i + LinkIndex, LE32(link));
    Overwrite(d2, PageSize * i + CrcIndex, LE32(Crc.Checksum(d2[PageSize * i..PageSize * i + CrcIndex])))
  }

  /** The fix-up after the loop on page `i`: the link `link`, then the page
      checksum. */
  function RelinkWrite(d: seq<byte>, i: nat, link: u32): (r: seq<byte>)
    requires (i + 1) * PageSize <= |d|
    ensures |r| == |d|
  {
    var d2 := Overwrite(d, PageSize * i + LinkIndex, LE32(link));
    Overwrite(d2, PageSize * i + CrcIndex, LE32(Crc.Checksum(d2[PageSize * i..PageSize * i + CrcIndex])))
  }

  /** On a page that is still zero, the loop turn makes a fresh free page
      linking to `link`, and no other page changes. */
  lemma ChapterPageBuilt(d: seq<byte>, i: nat, link: u32)
    requires (i + 1) * PageSize <= |d| && Page(d, i) == Zeros(PageSize)
    ensures SamePagesExcept(d, FreshPageWrite(d, i, link), i)
    ensures Page(FreshPageWrite(d, i, link), i) == FreePageImage(link)
  {
    var d1 := Overwrite(d, PageSize * i, [SetFlag(d[PageSize * i], Free)]);
    assert d[PageSize * i] == Page(d, i)[0] == 0;
    OverwritePage(d, i, 0, [SetFlag(0, Free)]);
    var d2 := Overwrite(d1, PageSize * i + LinkIndex, LE32(link));
    OverwritePage(d1, i, LinkIndex, LE32(link));
    assert d2[PageSize * i..PageSize * i + CrcIndex] == Page(d2, i)[..CrcIndex];
    OverwritePage(d2, i, CrcIndex, CrcBytes(Page(d2, i)));
    FreePageFromZeros(link);
  }

  /** On a fresh free page the fix-up gives the fresh free page linking to
      `link`, and no other page changes. */
  lemma ChapterPageRelinked(d: seq<byte>, i: nat, link0: u32, link: u32)
    requires (i + 1) * PageSize <= |d| && Page(d, i) == FreePageImage(link0)
    ensures SamePagesExcept(d, RelinkWrite(d, i, link), i)
    ensures Page(RelinkWrite(d, i, link), i) == FreePageImage(link)
  {
    var d2 := Overwrite(d, PageSize * i + LinkIndex, LE32(link));
    OverwritePage(d, i, LinkIndex, LE32(link));
    assert d2[PageSize * i..PageSize * i + CrcIndex] == Page(d2, i)[..CrcIndex];
    OverwritePage(d2, i, CrcIndex, CrcBytes(Page(d2, i)));
    FreePageRelinked(link0, link);
  }

  /** `AddChapter`'s buffer after `i` turns of its loop: pages below `i`
      are fresh free pages linking to `base + q + 1`, the others still zero. */
  ghost predicate ChapterBuilt(d: seq<byte>, base: nat, i: nat)
    requires base + ChapterSize <= MaxPageCount
  {
    && |d| == ChapterBytes
    && (forall q :: 0 <= q < i && q < ChapterSize ==> BuiltPage(d, base, q))
    && (forall q :: i <= q < ChapterSize ==> BlankPage(d, q))
  }

  /** Page `q` of a chapter buffer is the fresh free page linking to `base + q + 1`. */
  ghost predicate BuiltPage(d: seq<byte>, base: nat, q: nat)
    requires base + ChapterSize <= MaxPageCount && |d| == ChapterBytes && q < ChapterSize
  {
    Page(d, q) == FreePageImage(base + q + 1)
  }

  /** Page `q` of a chapter buffer is still zero. */
  ghost predicate BlankPage(d: seq<byte>, q: nat)
    requires |d| == ChapterBytes && q < ChapterSize
  {
    Page(d, q) == Zeros(PageSize)
  }

  lemma ChapterBuiltStart(base: nat)
    requires base + ChapterSize <= MaxPageCount
    ensures ChapterBuilt(Zeros(ChapterBytes), base, 0)
  {
    forall q | 0 <= q < ChapterSize
      ensures BlankPage(Zeros(ChapterBytes), q)
    {
      ZerosPage(ChapterBytes, q);
    }
  }

  /** A turn that makes page `i` its fresh free page and keeps the others
      moves the buffer on by one page. */
  lemma ChapterBuiltKeep(d: seq<byte>, d3: seq<byte>, base: nat, i: nat)
    requires base + ChapterSize <= MaxPageCount && i < ChapterSize && ChapterBuilt(d, base, i)
    requires SamePagesExcept(d, d3, i) && Page(d3, i) == FreePageImage(base + i + 1)
    ensures ChapterBuilt(d3, base, i + 1)
  {
    forall q | 0 <= q < i + 1
      ensures BuiltPage(d3, base, q)
    {
      if q < i {
        assert BuiltPage(d, base, q);
        assert Page(d3, q) == Page(d, q);
      }
    }
    forall q | i + 1 <= q < ChapterSize
      ensures BlankPage(d3, q)
    {
      assert BlankPage(d, q);
      assert Page(d3, q) == Page(d, q);
    }
  }

  /** One page of a chapter buffer, stated without the chapter's quantifiers. */
  lemma ChapterPageStep(d: seq<byte>, d3: seq<byte>, link: u32, i: nat)
    requires i < ChapterSize && |d| == ChapterBytes && BlankPage(d, i)
    requires d3 == FreshPageWrite(d, i, link)
    ensures SamePagesExcept(d, d3, i) && Page(d3, i) == FreePageImage(link)
  {
    assert (i + 1) * PageSize <= |d|;
    ChapterPageBuilt(d, i, link);
  }

  /** The finished chapter buffer: page j links to the next page of the
      chapter, and the last page ends the list. */
  ghost predicate ChapterImage(d: seq<byte>, base: nat)
    requires base + ChapterSize <= MaxPageCount
  {
    && |d| == ChapterBytes
    && forall j :: 0 <= j < ChapterSize ==> ImagePage(d, base, j)
  }

  /** Page `j` of the finished chapter buffer: a fresh free page linking to
      the next page of the chapter, or to nothing for the last one. */
  ghost predicate ImagePage(d: seq<byte>, base: nat, j: nat)
    requires base + ChapterSize <= MaxPageCount && |d| == ChapterBytes && j < ChapterSize
  {
    Page(d, j) == FreePageImage(if j + 1 < ChapterSize then base + j + 1 else NoLink)
  }

  /** Cutting the last page's link turns the built buffer into the chapter. */
  lemma ChapterRelinked(d: seq<byte>, d3: seq<byte>, base: nat)
    requires base + ChapterSize <= MaxPageCount && ChapterBuilt(d, base, ChapterSize)
    requires d3 == RelinkWrite(d, ChapterSize - 1, NoLink)
    ensures ChapterImage(d3, base)
  {
    var link0: u32 := base + ChapterSize;
    assert BuiltPage(d, base, ChapterSize - 1);
    ChapterLastRelinked(d, d3, link0);
    forall j | 0 <= j < ChapterSize
      ensures ImagePage(d3, base, j)
    {
      if j < ChapterSize - 1 {
        assert BuiltPage(d, base, j);
        assert Page(d3, j) == Page(d, j);
      }
    }
  }

  lemma ChapterLastRelinked(d: seq<byte>, d3: seq<byte>, link0: u32)
    requires |d| == ChapterBytes && Page(d, ChapterSize - 1) == FreePageImage(link0)
    requires d3 == RelinkWrite(d, ChapterSize - 1, NoLink)
    ensures SamePagesExcept(d, d3, ChapterSize - 1) && Page(d3, ChapterSize - 1) == FreePageImage(NoLink)
  {
    ChapterPageRelinked(d, ChapterSize - 1, link0, NoLink);
  }
}
