# TinyFS compound file, page checksum and table of contents

A model in Dafny of the core of TinyFS.Net: the paged allocator and blob
store `CompoundFile`, its page checksum `Crc.GetCrc`, and the table-of-contents
codec `Toc`/`TocEntry`.

**The store.** A compound file is one host stream of 4096-byte pages, grouped
in chapters of 4096 pages. Every page has the same layout:

| offset | field |
|---|---|
| 0 | status byte: Free = 1, Encrypted = 2, ReadOnly = 4 |
| 1 | link, a little-endian `uint` |
| 5 | the length still to read from this page on |
| 9 | 4083 payload bytes |
| 4092 | the page checksum |

Page 0 is the file header. It holds:
- the magic "UNICORNS 4-LIFE" in a 50-byte field;
- the version at byte 50, the page size at 52 and the chapter size at 54;
- the first free page at byte 60.

The Free pages form a list threaded through the links. It starts at the first
free page and ends at the last page of the last chapter. A blob is a chain of
pages linked the same way, and its handle is the chain's first page.

In the model:
- `Store.CompoundFile` is a class whose `stream: seq<byte>` field is rewritten
  by every positioned write (`Bytes.Overwrite`). `firstFreePage` and
  `chapterCount` are its in-memory header fields.
- A ghost `freeList` records the free list. `Valid()` says the stream is a
  store image. That means the free list is linked, Free-flagged, inside the
  chapters, free of repeats and of page 0, and ends at the last page. It also
  means page 0 is the header image of the in-memory fields.
- Each operation is a method proved against functions on the stream. The
  functions are `ChainRead`, `Gather`, `ReadAtBytes`, `WriteLayout`, `Pops` and
  `AfterPops`, plus predicates on page images: `Claimed`, `Released`,
  `FreePageImage` and `HeaderImage`. Lemmas connect the functions to what the
  write side leaves (`Stored`, `Holds`, `ReleasedUpTo`).

The status-bit quirks are kept exactly:
- `Allocate` flips the Free bit by exclusive or and does not recompute the
  checksum.
- `Free` ors in Free and, through its inverted test, sets Encrypted.
- A `Write` with encryption off ors in Encrypted. `ReadAll` therefore refuses
  every handle written with encryption off, while `ReadAt` returns the data
  (`RoundTrip.AllocateWriteRead`). The store's own read-back tests
  (`CompoundFileTest.cs`, lines 115-148) expect `ReadAll` to return the data.
  As the code is written it refuses the handle, and the model keeps that.

**The checksum.** As a specification, `Crc.GetCrc` is the left fold
`Crc.Checksum` of the step `((~c >> 8) & 0x00FFFFFF) ^ tab[(c ^ b) & 0xFF]`,
starting from 0. The table is generated as eight reflected rounds of
polynomial 0xEDB88320 xor 0xD2FD1072. Sixteen lemmas prove it equal, entry by
entry, to the literal table in the source. The result is not the standard
CRC-32, and no standard check value is claimed.

**The table of contents.** `Toc.TocBytes` serializes a list of entries as:
- the magic 01 02 03 04;
- per entry, a four-byte length and `TocEntry.Serialize` of the entry (the
  name's byte count, the name bytes, `Length`, `Handle`);
- four zero bytes.

`Toc.Deserialized` states what `Deserialize` does on any buffer. It returns
`true` or `false`, or throws, and lists the entries it adds before that. Names
are kept as their UTF-8 bytes.

Where the source's own documentation and its code disagree, the model follows
the code:
- The layout comment in `CompoundFile.cs` puts the first free page at byte 56.
  The constant `FILE_HEADER_INDEX_FIRST_FREEPAGE` and every read and write use
  byte 60, and so does the model.
- The comment in `Crc.cs` names polynomial 0xedb88320. The table is that
  polynomial's table xor 0xD2FD1072, and the model uses the table.

The model is in nine files:
- bytes.dfy: bytes and little-endian fields;
- pages.dfy: the page layout and page images;
- chains.dfy: lists of pages and what a chain holds;
- images.dfy: the store image and what each write keeps of it;
- reads.dfy: the read side;
- store.dfy: the `CompoundFile` class;
- roundtrip.dfy: client scenarios;
- crc.dfy;
- toc.dfy and tocentry.dfy.

## Model

| member | source | states |
|---|---|---|
| Bytes.LE32RoundTrip | src/TinyFS/TocEntry.cs:52-58 | four bytes written by `BitConverter.GetBytes(uint)` read back with `ToUInt32` give the value, wherever they sit |
| Bytes.LE32Injective | src/TinyFS/CompoundFile.cs:755-758 | distinct `uint` values never have the same four bytes, so a byte-by-byte compare is a value compare |
| Bytes.Overwrite | src/TinyFS/CompoundFile.cs:719-725 | a positioned stream write replaces exactly the bytes it covers, extends the stream when it runs past the end, and keeps every other byte |
| Bytes.ReadFrom | src/TinyFS/CompoundFile.cs:727-735 | a read into a fresh buffer yields the stream's bytes there, and zeros for any past its end |
| Pages.SetFlagBits | src/TinyFS/CompoundFile.cs:320 | or-ing in a flag's mask sets that flag's bit and keeps the other bits |
| Pages.ToggleFlagBits | src/TinyFS/CompoundFile.cs:213 | `status ^= mask` flips that flag's bit and keeps the other bits |
| Pages.FreedStatusBits | src/TinyFS/CompoundFile.cs:320-324 | whatever the old status, a page `Free` releases is Free and Encrypted, with ReadOnly kept |
| Pages.HeaderWriteFields | src/TinyFS/CompoundFile.cs:719-725 | `WritePageHeader` replaces the nine header bytes and nothing else of the page |
| Pages.LinkWriteFields | src/TinyFS/CompoundFile.cs:703-707 | `WritePageLink` changes the link and keeps the status, length, payload and checksum bytes |
| Pages.CrcWriteFields | src/TinyFS/CompoundFile.cs:709-717 | `WritePageCrc` keeps the first 4092 bytes and leaves a page whose checksum is valid |
| Pages.PieceHeaderFields | src/TinyFS/CompoundFile.cs:356-368 | the header `Write` writes back has the remaining count as its length, the old status with Encrypted or-ed in, and the old link |
| Pages.CutHeaderFields | src/TinyFS/CompoundFile.cs:411-416 | the header written to end a chain has link 0 and keeps the status and length |
| Pages.PayloadWriteFields | src/TinyFS/CompoundFile.cs:384-386 | the piece lands at byte 9 of the page; header and checksum bytes are kept |
| Pages.FreePageFields | src/TinyFS/CompoundFile.cs:847-854 | a fresh chapter page is Free, not Encrypted, has the given link, length 0 and a valid checksum |
| Pages.FreePageFromZeros | src/TinyFS/CompoundFile.cs:849-853 | or-ing in Free, writing the link and then the checksum on a zero page yields that fresh free page |
| Pages.FreePageRelinked | src/TinyFS/CompoundFile.cs:855-858 | relinking a fresh free page and recomputing its checksum yields the fresh free page with the new link |
| Pages.HeaderFields | src/TinyFS/CompoundFile.cs:816-834 | the header image reads back the magic, version 1, page and chapter size 4096 and the first free page at byte 60, and its checksum is valid |
| Pages.HeaderBuilt | src/TinyFS/CompoundFile.cs:821-829 | `WriteFileHeader`'s buffer, filled field by field and then given its checksum, is the header image |
| Pages.ClaimedFields | src/TinyFS/CompoundFile.cs:213-216 | a Free page `Allocate` hands out loses the Free flag, keeps Encrypted, links to 0, keeps its length and payload |
| Pages.ClaimedBuilt | src/TinyFS/CompoundFile.cs:213-216 | `Allocate`'s edit of the header it read, written back, leaves the claimed page image |
| Pages.ReleasedFields | src/TinyFS/CompoundFile.cs:319-332 | a page `Free` releases is Free and Encrypted, has the given link, length 0, its old payload and a valid checksum |
| Pages.ReleasedBuilt | src/TinyFS/CompoundFile.cs:319-332 | `Free`'s header write followed by the checksum write yields the released page image |
| Pages.ChapterPageBuilt | src/TinyFS/CompoundFile.cs:847-854 | one turn of `AddChapter`'s loop makes its page a fresh free page and no other page changes |
| Pages.ChapterRelinked | src/TinyFS/CompoundFile.cs:855-858 | cutting the last page's link turns the built buffer into a chapter whose pages link to the next and whose last page links to 0 |
| Chains.HeadLink | src/TinyFS/CompoundFile.cs:205-211 | the free list's head links to 0 exactly when it is the only free page, and otherwise to the next free page |
| Chains.FreeListTail | src/TinyFS/CompoundFile.cs:203-212 | the free list without its head is still a free list |
| Chains.FreeListPrepend | src/TinyFS/CompoundFile.cs:317-335 | a chain of freed pages whose last page links to the old head, put in front of the free list, is a free list |
| Chains.NewChapterFreeList | src/TinyFS/CompoundFile.cs:847-858 | a new chapter on its own is a free list of its pages in order, ending at the store's new last page |
| Chains.ChapterPlaced | src/TinyFS/CompoundFile.cs:859-861 | the chapter buffer written at the chapter's position makes that chapter new and keeps every page before it; the stream ends at the chapter's end or later |
| Chains.AllocatedDisjoint | src/TinyFS/CompoundFile.cs:309-339 | an allocated chain shares no page with the free list |
| Chains.PopsConsecutive | src/TinyFS.Test/CompoundFileTest.cs:68-80 | on a store whose free pages are `a` to the last page, successive allocations return `a`, `a + 1`, ... and enter each new chapter at its first page |
| Chains.PagesFor | src/TinyFS/CompoundFile.cs:227-236 | the page count `Allocate(size)` reaches: at least one, and the smallest number of 4083-byte payloads that hold `size` bytes |
| Chains.PagesForExact | src/TinyFS/CompoundFile.cs:227-236 | a length in (4083 (k - 1), 4083 k] needs exactly `k` pages |
| Chains.HoldsContents | src/TinyFS/CompoundFile.cs:354-410 | a chain whose page `j` holds piece `j` of `d` has `d` as its contents and `|d|` as its head's length |
| Chains.ChainReadContents | src/TinyFS/CompoundFile.cs:509-541 | reading `len` bytes along the links from a linked chain's head gives the chain's contents |
| Chains.ContentsStep | src/TinyFS/CompoundFile.cs:528-538 | a chain's contents are its first payload's piece followed by the contents of the rest of the chain |
| Chains.RangeCheckAdmitsPastEnd | src/TinyFS/CompoundFile.cs:312 | the written range check lets through the handle one past the last page, which has no page in the stream |
| Chains.InRangePageExists | src/TinyFS/CompoundFile.cs:312 | a handle below the page count names a whole page of the stream and passes the written check too |
| Chains.ReadAtStartAsWrittenSmallOffset | src/TinyFS/CompoundFile.cs:554-570 | below 4083 the position `ReadAt` computes is the position of byte `srcOffset` of the chain |
| Chains.ReadAtStartAsWrittenMisplaced | src/TinyFS/CompoundFile.cs:554-570 | from 4083 on, the position `ReadAt` computes is never the position of byte `srcOffset` |
| Images.StoreFullBound | src/TinyFS/CompoundFile.cs:842 | the intended full test fires exactly from chapter count 2^20 - 1 on |
| Images.FileFullAsWrittenNeverFires | src/TinyFS/CompoundFile.cs:842 | the written `uint` test never fires, not even when the next chapter would need page 2^32 |
| Images.ChapterPositionAsWrittenWraps | src/TinyFS/CompoundFile.cs:860 | the written `uint` position of chapter 256 is 0, the file header, on a store that is not full |
| Images.ChapterPositionAsWrittenSmall | src/TinyFS/CompoundFile.cs:860 | below 256 chapters the written position is the chapter's true position |
| Images.FreshStoreImage | src/TinyFS/CompoundFile.cs:797-806 | chapter 0 with the header for first free page 1 over page 0 is a store image with free list 1 to 4095 and every page's checksum valid |
| Images.FreshPagesCrc | src/TinyFS/CompoundFile.cs:845-858 | every page of a freshly created first chapter, header included, has a valid checksum |
| Images.ChapterRefill | src/TinyFS/CompoundFile.cs:207-211 | when the last free page is taken, a new chapter's pages become the free list and its first page the new head |
| Images.ClaimKeepsImage | src/TinyFS/CompoundFile.cs:203-217 | claiming the head and writing the header with the head's link keeps a store image whose free list has lost its head, and touches only page 0 and the claimed page |
| Images.FreedFreeList | src/TinyFS/CompoundFile.cs:317-334 | after `Free`'s loop, the released chain followed by the old free list is the free list |
| Images.ReleasedFreed | src/TinyFS/CompoundFile.cs:317-332 | every page `Free` releases is Free and Encrypted, has length 0 and a valid checksum |
| Images.FreedStore | src/TinyFS/CompoundFile.cs:317-336 | the released chain, with the header rewritten for the chain's head, is a store image whose free list starts with the chain |
| Images.LayoutHead | src/TinyFS/CompoundFile.cs:341-422 | the chain `Write` leaves starts at the handle it was given |
| Images.WriteShape | src/TinyFS/CompoundFile.cs:392-419 | the chain and free list a write leaves are the old chain cut or extended to the blob's page count, the extension taken from the free list's head, the cut-off tail put in front of it |
| Images.ChainCut | src/TinyFS/CompoundFile.cs:411-417 | linking the last written page to 0 splits an allocated chain into two allocated chains that share no page |
| Images.CutWritten | src/TinyFS/CompoundFile.cs:411-419 | after the cut a non-empty write is stored in the kept chain, with the layout of `WriteLayout` |
| Images.WriteFinished | src/TinyFS/CompoundFile.cs:354-419 | a complete write leaves an allocated chain holding the blob, the free list `WriteLayout` gives, every page of the old chain the new one drops as `Free` leaves it, and every page outside the chains and page 0 unchanged |
| Reads.HeaderOfPage | src/TinyFS/CompoundFile.cs:727-735 | the header read from a page inside the stream is the page's first nine bytes: its status, link and length |
| Reads.SkipLinksChain | src/TinyFS/CompoundFile.cs:554-563 | following `k` links from a linked chain's head reaches its page `k` |
| Reads.GatherStep | src/TinyFS/CompoundFile.cs:565-585 | one turn of `ReadAt`'s copy loop takes the rest of the current payload or the remaining count, whichever is less, then carries on at the linked page |
| Reads.ReadAtCount | src/TinyFS/CompoundFile.cs:553 | the clamped count is the smaller of `count` and the bytes the blob has from `srcOffset` |
| Reads.ReadAtCountAsWrittenOverreads | src/TinyFS/CompoundFile.cs:553 | a `uint` sum that wraps leaves the count unclamped and past the blob's end |
| Reads.ReadAtCountAgrees | src/TinyFS/CompoundFile.cs:553 | without wrap-around the written clamp is the intended one |
| Reads.ReadAtBytes | src/TinyFS/CompoundFile.cs:554-585 | `ReadAt` takes exactly `count` bytes, starting `srcOffset / 4083` links from the head at byte `srcOffset % 4083` of that payload |
| Reads.ReadAtBytesAsWrittenSmallOffset | src/TinyFS/CompoundFile.cs:554-585 | below 4083 the source's skip and first-piece arithmetic take exactly the bytes `ReadAtBytes` names |
| Reads.ReadAtBytesAsWrittenReadsHeader | src/TinyFS/CompoundFile.cs:554-585 | on a two-page chain holding a blob, a read at offset 4083 as written returns the file header's payload bytes where the blob's bytes from 4083 are meant, and the two differ whenever the blob's byte 4083 differs from the header's byte 9 |
| Reads.ReadAtChain | src/TinyFS/CompoundFile.cs:554-585 | on a linked chain those bytes are the chain's contents from `srcOffset` on |
| Reads.ReadAtHolds | src/TinyFS/CompoundFile.cs:554-585 | on a chain holding blob `d`, `ReadAt`'s bytes are `d[srcOffset..srcOffset + count]` |
| Reads.ReadAllHolds | src/TinyFS/CompoundFile.cs:505-541 | on a chain holding `d`, the head's length is `|d|` and reading that many bytes along the links gives `d` |
| Reads.PageCrcOkValid | src/TinyFS/CompoundFile.cs:744-760 | the byte-by-byte checksum comparison succeeds exactly when the page's checksum is valid |
| Reads.PagesCrcOk | src/TinyFS/CompoundFile.cs:625-630 | pages with valid checksums all pass the comparison |
| Reads.MagicEndAt | src/TinyFS/CompoundFile.cs:772-777 | the magic read stops at the first zero byte |
| Reads.HeaderImageLoads | src/TinyFS/CompoundFile.cs:762-795 | a stream whose page 0 is a header image passes every header check and reads back the magic, version 1 and the header's first free page |
| Store.ChapterBuffer | src/TinyFS/CompoundFile.cs:845-858 | the buffer for chapter `cc`: page j is a fresh Free page linking to `cc * 4096 + j + 1`, the last page links to 0, every page has its checksum |
| Store.FreshPage | src/TinyFS/CompoundFile.cs:847-854 | one turn of the chapter loop builds page `i` and keeps the other pages |
| Store.CutLastLink | src/TinyFS/CompoundFile.cs:855-858 | the fix-up after the loop gives the finished chapter image |
| Store.FirstChapterAdded | src/TinyFS/CompoundFile.cs:836-865 | adding chapter 0 to a stream shorter than two chapters leaves the first chapter, with the stream at least one chapter long |
| Store.InitialStore | src/TinyFS/CompoundFile.cs:797-806 | the header written over the first chapter makes a one-chapter store, free list 1 to 4095, every page passing the checksum test |
| Store.LoadedStore | src/TinyFS/CompoundFile.cs:762-795 | a store image no longer than a `uint` passes every check of `TryLoadFileHeader`, which recovers its first free page and, from the length, its chapter count |
| Store.CompoundFile.Attach | src/TinyFS/CompoundFile.cs:925-933 | a store opened on a stream starts with the header defaults: a 50-byte zero magic, version 1 and no chapters |
| Store.CompoundFile.ReadPageHeader | src/TinyFS/CompoundFile.cs:727-735 | the nine bytes at the page's position, zeros past the end of the stream |
| Store.CompoundFile.WritePageHeader | src/TinyFS/CompoundFile.cs:719-725 | nine bytes over the start of the page, the rest of the stream kept |
| Store.CompoundFile.WritePageLink | src/TinyFS/CompoundFile.cs:703-707 | only the page's link changes |
| Store.CompoundFile.WritePageCrc | src/TinyFS/CompoundFile.cs:709-717 | only the page's checksum bytes change, and the page's checksum becomes valid |
| Store.CompoundFile.WriteFileHeader | src/TinyFS/CompoundFile.cs:816-834 | page 0 becomes the header image of the in-memory magic and first free page; other pages are kept |
| Store.CompoundFile.NextFreePage | src/TinyFS/CompoundFile.cs:206-211 | the next head is the old head's link, or the first page of a chapter added when that link is 0; a full store fails with `FileFull` and changes nothing |
| Store.CompoundFile.ClaimPage | src/TinyFS/CompoundFile.cs:213-216 | the handed-out page becomes the claimed image of the page as it was; no other page changes |
| Store.CompoundFile.Allocate | src/TinyFS/CompoundFile.cs:199-221 | returns the old first free page, the head of the free list, and pops it (adding a chapter when it was the last); the page is claimed, the header rewritten, every other page kept, the store stays valid; only a full store on its last free page fails, changing nothing |
| Store.CompoundFile.LinkAfter | src/TinyFS/CompoundFile.cs:234 | linking a freshly allocated page after a chain's last page makes the chain one page longer and keeps the store valid |
| Store.CompoundFile.AppendPage | src/TinyFS/CompoundFile.cs:232-235 | one turn of `Allocate(size)`'s loop: the chain grows by the next free page and the free list is popped once |
| Store.CompoundFile.ExtendChain | src/TinyFS/CompoundFile.cs:230-236 | the loop grows the chain by one popped page per 4083 bytes still wanted, or stops with `FileFull` on a full store |
| Store.CompoundFile.AllocateSized | src/TinyFS/CompoundFile.cs:223-240 | returns the head of an allocated chain of `PagesFor(size)` pages, the first allocations of the free list in order; on `FileFull` the pages taken so far stay taken; pages outside page 0 and the chain are kept |
| Store.CompoundFile.ReleasePage | src/TinyFS/CompoundFile.cs:319-333 | the page becomes its released image, linked to the first free page when its link was 0, and its old link is returned |
| Store.CompoundFile.ReleaseChain | src/TinyFS/CompoundFile.cs:317-334 | every page of the allocated chain is released, the last linked to the first free page; other pages are kept |
| Store.CompoundFile.Free | src/TinyFS/CompoundFile.cs:309-339 | a handle past the pages fails with `OutOfRange` and handle 0 with `InvalidHandle`, changing nothing; otherwise the chain is released, becomes the front of the free list with the handle as first free page, and the store stays valid |
| Store.CompoundFile.SealPage | src/TinyFS/CompoundFile.cs:398 | sealing a page of an allocated chain keeps the store image and the page's fields, and makes its checksum valid |
| Store.CompoundFile.WritePiece | src/TinyFS/CompoundFile.cs:356-386 | the page gets the remaining count as its length, the Encrypted bit and the next piece at byte 9; its link is returned |
| Store.CompoundFile.WriteTurn | src/TinyFS/CompoundFile.cs:354-409 | one turn of `Write`'s loop writes and seals piece `j` and moves to the linked page or to a page allocated after it; it fails only on a full store |
| Store.CompoundFile.WriteChain | src/TinyFS/CompoundFile.cs:354-410 | the loop, from the handle, writes every piece of the blob to successive pages of the chain, extending it when it runs out, or stops with the store full |
| Store.CompoundFile.CutLink | src/TinyFS/CompoundFile.cs:411-417 | the last written page gets link 0 and a valid checksum; the chain splits into the kept front and the tail |
| Store.CompoundFile.CutTail | src/TinyFS/CompoundFile.cs:411-419 | a last written page that links on is cut there; the tail is freed to the front of the free list, each of its pages Free and Encrypted with length 0 and a fresh checksum |
| Store.CompoundFile.Write | src/TinyFS/CompoundFile.cs:341-422 | a count past the data or a handle past the pages fails with `OutOfRange`, handle 0 with `InvalidHandle`, changing nothing; otherwise the chain and free list become `WriteLayout`, the chain is allocated and stores the blob (an empty write keeps the head's length and payload), every page of the old chain the new chain drops is Free and Encrypted with length 0 and a fresh checksum, pages outside page 0 and the chains are kept; only a full store fails mid-write |
| Store.CompoundFile.FinishWrite | src/TinyFS/CompoundFile.cs:411-419 | the end of a complete write leaves the chain `WriteLayout` gives, storing the blob, with the dropped pages of the old chain freed, each with a fresh checksum |
| Store.CompoundFile.ReadAll | src/TinyFS/CompoundFile.cs:496-543 | refuses, in order, a handle past the pages, handle 0, a Free head, an Encrypted head and a length above `int.MaxValue`; otherwise returns the head's length of bytes read along the links |
| Store.CompoundFile.ReadChain | src/TinyFS/CompoundFile.cs:507-541 | the loop's buffer is exactly `ChainRead` of the count from the handle |
| Store.CompoundFile.ReadAt | src/TinyFS/CompoundFile.cs:545-587 | refuses, in order, a Free head, a short buffer and an offset past the length, leaving the buffer alone; otherwise copies exactly the clamped count of bytes from `srcOffset` on to the front of the buffer, keeps the rest, and returns the count |
| Store.CompoundFile.SkipPages | src/TinyFS/CompoundFile.cs:554-563 | the skip loop reaches the page `srcOffset / 4083` links on and leaves the offset into it, `srcOffset % 4083` |
| Store.CompoundFile.ReadPages | src/TinyFS/CompoundFile.cs:564-586 | the copy loop fills the front of the buffer with exactly the `Gather`ed bytes, keeps the rest of it and returns the count |
| Store.CompoundFile.GetLength | src/TinyFS/CompoundFile.cs:589-596 | the head's length field; on a page inside the stream, the page's length |
| Store.CompoundFile.AddChapter | src/TinyFS/CompoundFile.cs:836-865 | fails with `FileFull` exactly when a chapter would pass `uint.MaxValue` pages, changing nothing; otherwise writes the new chapter of fresh Free pages after the last, keeps every earlier page and increments the chapter count |
| Store.CompoundFile.ValidatePageCrc | src/TinyFS/CompoundFile.cs:744-760 | true exactly when the stored four bytes equal the checksum of the first 4092, which for a page inside the stream is `CrcValid` |
| Store.CompoundFile.ValidateCrc | src/TinyFS/CompoundFile.cs:625-630 | true exactly when every page of the store passes `ValidatePageCrc` |
| Store.CompoundFile.ReadMagic | src/TinyFS/CompoundFile.cs:770-779 | the magic is the bytes before the first zero byte, at most 50 |
| Store.CompoundFile.TryLoadFileHeader | src/TinyFS/CompoundFile.cs:762-795 | fails on an empty stream, a stream shorter than a chapter, a bad header checksum, a wrong magic or a version above 1, setting exactly the fields read before the failing check; a stream longer than a `uint` throws; otherwise loads the first free page and length / 16 MiB chapters |
| Store.CompoundFile.InitializeFileHeader | src/TinyFS/CompoundFile.cs:808-814 | the in-memory header gets the magic and first free page 1 |
| Store.CompoundFile.InitializeFile | src/TinyFS/CompoundFile.cs:797-806 | a new file is a valid store of one chapter, free list 1 to 4095, every page passing the checksum test |
| Store.CompoundFile.Open | src/TinyFS/CompoundFile.cs:163-186 | a missing file opens as a new one-chapter store; a store image opens unchanged with its first free page, chapter count and free list; an existing file that does not load fails as corrupt or unreadable, leaving the stream alone |
| RoundTrip.StoredHead | src/TinyFS/CompoundFile.cs:503 | a blob written with encryption off has a head that is in range, not Free, Encrypted, and records the blob's length |
| RoundTrip.StoredChainRead | src/TinyFS/CompoundFile.cs:505-541 | without the Encrypted gate, `ReadAll`'s loop recovers exactly the stored blob |
| RoundTrip.StoredReadAt | src/TinyFS/CompoundFile.cs:545-587 | `ReadAt` on a stored blob returns the blob's bytes from `srcOffset`, as many as the clamp gives |
| RoundTrip.FreedHead | src/TinyFS/CompoundFile.cs:320-325 | after `Free` the head is Free with length 0 |
| RoundTrip.ReadBack | src/TinyFS.Test/CompoundFileTest.cs:232-250 | on a stored blob, `ReadAll` refuses the head as encrypted and `ReadAt` from 0 returns the whole blob |
| RoundTrip.WriteReadBack | src/TinyFS.Test/CompoundFileTest.cs:115-148 | writing to an allocated chain and reading back: only a full store fails, otherwise `ReadAt` returns the data |
| RoundTrip.AllocateWriteRead | src/TinyFS.Test/CompoundFileTest.cs:115-148 | the tests' allocate, write and read-back scenario keeps the store valid and fails only on a full store; `ReadAll` refuses the handle as encrypted (the tests expect the data back), `ReadAt` returns the data |
| RoundTrip.FreeReadAllocate | src/TinyFS/CompoundFile.cs:199-212 | after `Free`, `ReadAll` reports the handle unallocated and the next `Allocate` returns the same handle |
| RoundTrip.CreateValidate | src/TinyFS.Test/CompoundFileTest.cs:197-208 | a store created on a missing file is one chapter and `ValidateCrc` holds |
| RoundTrip.Reopen | src/TinyFS/CompoundFile.cs:762-795 | a second store on the bytes of a valid store opens them unchanged, with the same first free page, chapter count and free list |
| Crc.Index | src/TinyFS/Crc.cs:73 | every table index is below 256, so the lookup is always in bounds |
| Crc.FoldAppend | src/TinyFS/Crc.cs:71-74 | folding `a + b` continues from the register folding `a` left |
| Crc.ChecksumAppend | src/TinyFS/Crc.cs:71-74 | the checksum of `a + b` continues the fold from the checksum of `a` |
| Crc.GetCrc | src/TinyFS/Crc.cs:68-76 | a length of 0 or less gives 0; otherwise the result is the fold from 0 over exactly `buffer[offset..offset + length]`, which the caller must keep inside the buffer |
| Crc.TableRow0 | src/TinyFS/Crc.cs:23-25 | entries 0 to 15 of the generated table equal the literal table entries |
| Crc.TableRow1 | src/TinyFS/Crc.cs:25-28 | entries 16 to 31 of the generated table equal the literal table entries |
| Crc.TableRow2 | src/TinyFS/Crc.cs:28-30 | entries 32 to 47 of the generated table equal the literal table entries |
| Crc.TableRow3 | src/TinyFS/Crc.cs:31-33 | entries 48 to 63 of the generated table equal the literal table entries |
| Crc.TableRow4 | src/TinyFS/Crc.cs:33-36 | entries 64 to 79 of the generated table equal the literal table entries |
| Crc.TableRow5 | src/TinyFS/Crc.cs:36-38 | entries 80 to 95 of the generated table equal the literal table entries |
| Crc.TableRow6 | src/TinyFS/Crc.cs:39-41 | entries 96 to 111 of the generated table equal the literal table entries |
| Crc.TableRow7 | src/TinyFS/Crc.cs:41-44 | entries 112 to 127 of the generated table equal the literal table entries |
| Crc.TableRow8 | src/TinyFS/Crc.cs:44-46 | entries 128 to 143 of the generated table equal the literal table entries |
| Crc.TableRow9 | src/TinyFS/Crc.cs:47-49 | entries 144 to 159 of the generated table equal the literal table entries |
| Crc.TableRow10 | src/TinyFS/Crc.cs:49-52 | entries 160 to 175 of the generated table equal the literal table entries |
| Crc.TableRow11 | src/TinyFS/Crc.cs:52-54 | entries 176 to 191 of the generated table equal the literal table entries |
| Crc.TableRow12 | src/TinyFS/Crc.cs:55-57 | entries 192 to 207 of the generated table equal the literal table entries |
| Crc.TableRow13 | src/TinyFS/Crc.cs:57-60 | entries 208 to 223 of the generated table equal the literal table entries |
| Crc.TableRow14 | src/TinyFS/Crc.cs:60-62 | entries 224 to 239 of the generated table equal the literal table entries |
| Crc.TableRow15 | src/TinyFS/Crc.cs:63-65 | entries 240 to 255 of the generated table equal the literal table entries |
| TocEntry.NewSerializesToZeros | src/TinyFS/TocEntry.cs:26-43 | a new entry, with its empty name, length 0 and handle 0, serializes to twelve zero bytes |
| TocEntry.Serialize | src/TinyFS/TocEntry.cs:33-44 | 12 + n bytes: the name's byte count n, the name, `Length`, `Handle`, each at its offset |
| TocEntry.Create | src/TinyFS/TocEntry.cs:46-60 | succeeds exactly on at least 12 + n bytes with n not negative, reading the name at 4, `Length` at 4 + n and `Handle` at 8 + n |
| TocEntry.CreateIgnoresTrailing | src/TinyFS/TocEntry.cs:46-60 | bytes after the record do not change what `Create` reads |
| TocEntry.CreateSerialize | src/TinyFS/TocEntry.cs:33-60 | `Create` recovers the name bytes, `Length` and `Handle` of what `Serialize` wrote |
| TocEntry.ToFileInfo | src/TinyFS/TocEntry.cs:62-65 | the three fields copied unchanged |
| Toc.Record | src/TinyFS/Toc.cs:66-68 | an entry's record is 16 + n bytes long: its length prefix and its serialization |
| Toc.RecordsAppend | src/TinyFS/Toc.cs:64-69 | appending an entry appends its record |
| Toc.Deserialized | src/TinyFS/Toc.cs:37-40 | a buffer whose first four bytes differ from the magic returns `false` and adds no entry |
| Toc.ParseRecord | src/TinyFS/Toc.cs:45-52 | a length prefix followed by its record adds that entry and carries on after it |
| Toc.ParseTerminator | src/TinyFS/Toc.cs:45-46 | a zero length prefix ends the loop with `true` |
| Toc.ParseRecords | src/TinyFS/Toc.cs:42-54 | reading records followed by the terminator recovers the entries in order and returns `true` |
| Toc.ParseAtStop | src/TinyFS/Toc.cs:45-48 | a zero prefix, or an item that would run past the buffer, stops the loop with `true` |
| Toc.ParseAtThrow | src/TinyFS/Toc.cs:45-51 | a negative prefix, a cursor sum past `int.MaxValue` or an item `Create` cannot read throws |
| Toc.SerializeDeserialize | src/TinyFS/Toc.cs:35-79 | deserializing a serialized list yields its entries, field by field and in order, and returns `true` |
| Toc.EmptyTocBytes | src/TinyFS/Toc.cs:60-74 | an empty list serializes to the eight bytes 01 02 03 04 00 00 00 00 |
| Toc.NextItem | src/TinyFS/Toc.cs:45-52 | one turn of the loop stops exactly as the parse does, or reads the entry the parse adds and moves the cursor past it |
| Toc.Toc.constructor | src/TinyFS/Toc.cs:30-33 | a new table has no entries |
| Toc.Toc.Deserialize | src/TinyFS/Toc.cs:35-55 | appends the entries `Deserialized` lists to the existing ones, without clearing them, and returns or throws as it says |
| Toc.Toc.Serialize | src/TinyFS/Toc.cs:57-79 | the magic, every entry's record in order, then the four-byte zero terminator |

## Left out

- Encryption (`UseEncryption`, `InitializeEncryption`, `Encrypt`, `Decrypt`): it rests on PBKDF2 and Rijndael in the platform library. The model fixes encryption off, which is the default.
- `WriteAt`: not modelled. Its position arithmetic assumes contiguous pages, it can underflow, and it writes a link into page 0.
- `Allocate(index, size)`: not modelled. Its `while(true)` search never terminates, it xors a link byte, and it copies past the page header.
- `VerifyOnRead` has a private setter and is always false, so `ReadAll`'s checksum check is dead and left out.
- The locks of `LockManager` and `lock (_sync)` are no-ops in this sequential model. Concurrency is not modelled.
- `Flush`, `Dispose`, the finalizer, `FlushAtWrite`, `UseWriteCache`, `BufferSize`, the stream factory and `StreamCache` are I/O plumbing and are left out.
- `EmbeddedStorage` and `EmbeddedStorageStream` are not part of this model.
- `File.Exists` becomes the `fileExists` parameter of `Store.CompoundFile.Open`. The stream the factory opens is the `stream` given to `Store.CompoundFile.Attach`.
- Page positions are unbounded integers. `handle * PAGE_SIZE` and the other page positions wrap in `uint` arithmetic from page 2^20 on, and the model does not reproduce that. Handles are checked against the page count instead (see Findings).
- `Store.CompoundFile.Write`: `offset` and `count` are natural numbers with `offset + count` below 2^31. The negative `int` arguments and the `int` overflow of `offset + count` are not modelled.
- `Store.CompoundFile.Write`: the source does not check whether the handle heads an allocated chain. The model requires it, since writing over Free pages corrupts the free list.
- `Store.CompoundFile.Free`: the source does not check whether the handle heads an allocated chain. The model requires it, since a double free makes the free list cyclic.
- `Store.CompoundFile.Write`: when the store fills up mid-write, the contract says only that the store stays valid and the error is `FileFull`. It does not state the partly written chain.
- `Store.CompoundFile.ReadAt`: the branch at lines 573-576 for a `Stream.Read` that returns fewer bytes than asked is left out. On a valid store, with the corrected skip, every byte `ReadAt` reads lies inside the stream, so a full read is always possible. `Bytes.ReadFrom` pads reads past the end with zeros and never returns short. On a real stream, `Stream.Read` at the end returns 0. With the skip as written, a large `srcOffset` reads past the end of the stream, and that branch then repeats forever: `srcOffset` grows by 0 and `count` stays the same.
- `Store.CompoundFile.ReadAt`: the skip loop reduces `srcOffset` by 4083 per page skipped. This is the corrected behaviour, not the code as written (see Findings). The code as written is `Reads.ReadAtBytesAsWritten`, which agrees below offset 4083 and reads the wrong bytes from 4083 on.
- `Store.CompoundFile.SkipPages`: it takes 4083 off the offset for each page skipped, which the source's loop at lines 557-563 never does. This is the corrected skip, as the line above says.
- `Reads.ReadAtBytes`: it names the bytes of the corrected skip, byte `srcOffset % 4083` of the page reached. The source's bytes are `Reads.ReadAtBytesAsWritten`.
- `Reads.ReadAtCount`: it compares `size` with the unbounded sum `srcOffset + count`. The source's `uint` sum at line 553 wraps when `srcOffset + count` reaches 2^32, and then leaves `count` unclamped (see Findings; the source's clamp is `Reads.ReadAtCountAsWritten`).
- `Store.CompoundFile.ReadAt`: it clamps with `Reads.ReadAtCount`, so on inputs with `srcOffset + count` at or above 2^32 it returns fewer bytes than the source, which reads past the blob. `Write` never writes a length that allows such an input.
- `Store.CompoundFile.AddChapter`: it fails on `StoreFull`, the intended test, where the source's test at line 842 can never fire (`Images.FileFullAsWrittenNeverFires`). The difference only shows past chapter 256. There the model's unbounded page positions already part from the source's `uint` positions, which wrap (`Images.ChapterPositionAsWrittenWraps`). The "only a full store fails" clauses of `Allocate`, `AllocateSized`, `Write`, `WriteReadBack` and `AllocateWriteRead` rest on this intended test.
- `Store.CompoundFile.Allocate`: the claimed page keeps its old checksum bytes, as in the source (`Pages.Claimed`). No lemma shows that this checksum then fails `ValidatePageCrc`, because that would need the checksum of a concrete 4092-byte page.
- The magic is compared as bytes where the source compares ASCII-decoded strings. Because "UNICORNS 4-LIFE" is plain ASCII and contains no `?`, the two comparisons agree.
- The "version is not supported" exception of the constructor (line 180) is left out. It is unreachable: a failed `TryLoadFileHeader` leaves the version at its default 1 or at a value above 1.
- `TocEntry` names are the UTF-8 bytes of the name. The UTF-8 encoding and decoding themselves are not modelled.
- `Toc.Toc.Deserialize` requires a buffer no longer than `int.MaxValue`, which every C# array is.

## Findings

| source | as written | input that shows it | evidently intended | confidence | as-written member | corrected member |
|---|---|---|---|---|---|---|
| src/TinyFS/CompoundFile.cs:312 | `Free`, `Write` and `ReadAll` refuse a handle only when `Length < handle * PAGE_SIZE` | on a store of `n` pages whose stream is `n * 4096` bytes long, handle `n` passes, and its header read past the end yields zeros | a handle must name a page of the store, `handle < n` | high, not executed | Chains.RangeCheckAdmitsPastEnd | Chains.InRangePageExists |
| src/TinyFS/CompoundFile.cs:554-570 | `ReadAt`'s skip loop follows `srcOffset / 4083` links but never reduces `srcOffset`, so the read position adds the whole offset | `srcOffset` = 4083 on a two-page blob: `4083 - srcOffset` is 0, so the first pass reads nothing, follows the second page's link 0 and returns bytes of the file header instead of the blob's bytes from 4083 | start at byte `srcOffset % 4083` of the page reached | high, not executed | Reads.ReadAtBytesAsWrittenReadsHeader | Store.CompoundFile.SkipPages |
| src/TinyFS/CompoundFile.cs:553 | the clamp compares `size` with the `uint` sum `srcOffset + count`, which wraps | length field 0x8000_0040, `srcOffset` 0x8000_0039, `count` 0x7FFF_FFC7: the count stays unclamped and runs past the blob. `Write` never writes such a length, so only a foreign or damaged file shows it | clamp to `size - srcOffset` whenever `count` exceeds it | low, not executed | Reads.ReadAtCountAsWrittenOverreads | Reads.ReadAtCountAgrees |
| src/TinyFS/CompoundFile.cs:842 | `ChapterCount * CHAPTER_SIZE + CHAPTER_SIZE > MAX_PAGE_COUNT` is `uint` arithmetic and `MAX_PAGE_COUNT` is `uint.MaxValue`, so the test can never be true | chapter count 2^20 - 1: the next chapter would hold page 2^32 - 1 and beyond, yet no "file full" is thrown | refuse a chapter that takes the page count past `uint.MaxValue` | high, not executed | Images.FileFullAsWrittenNeverFires | Images.StoreFullBound |
| src/TinyFS/CompoundFile.cs:860 | the chapter's position `ChapterCount * CHAPTER_SIZE * PAGE_SIZE` is `uint` arithmetic | chapter count 256: the position wraps to 0, and the new chapter overwrites chapter 0, file header included | write chapter `cc` at byte `cc * 16 MiB` | medium, not executed | Images.ChapterPositionAsWrittenWraps | Store.CompoundFile.AddChapter |
