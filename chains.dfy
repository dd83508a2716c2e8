/** Lists of pages threaded through the link fields: the free list, and the
    chains that hold data. */
module Chains {
  import opened Bytes
  import opened Pages

  /** Pages `a`, `a + 1`, ..., `b - 1`. */
  function Range(a: nat, b: nat): (r: seq<nat>)
    requires a <= b
    ensures |r| == b - a
    ensures forall i :: 0 <= i < |r| ==> r[i] == a + i
  {
    seq(b - a, i => a + i)
  }

  /** The 4096 pages of chapter `cc`. */
  function ChapterPages(cc: nat): (r: seq<nat>)
    ensures |r| == ChapterSize
  {
    Range(cc * ChapterSize, cc * ChapterSize + ChapterSize)
  }

  predicate Distinct(c: seq<nat>) {
    forall i, j :: 0 <= i < j < |c| ==> c[i] != c[j]
  }

  /** No page of `a` is in `b`. */
  predicate Disjoint(a: seq<nat>, b: seq<nat>) {
    forall i :: 0 <= i < |a| ==> a[i] !in b
  }

  /** Every page of `c` is a data page of an `n`-page store: never the file
      header, never past the last chapter. */
  predicate InPages(c: seq<nat>, n: nat) {
    forall i :: 0 <= i < |c| ==> 0 < c[i] < n
  }

  /** Following links from `c[0]` visits exactly `c`, in order, without
      repeating a page, and the last page links to 0. */
  predicate Linked(s: seq<byte>, n: nat, c: seq<nat>)
    requires n * PageSize <= |s|
  {
    && |c| >= 1
    && InPages(c, n)
    && Distinct(c)
    && (forall i :: 0 <= i < |c| - 1 ==> Link(s, c[i]) == c[i + 1])
    && Link(s, c[|c| - 1]) == NoLink
  }

  /** Every page of `c` carries the Free flag and a zero length field. */
  predicate AllFree(s: seq<byte>, n: nat, c: seq<nat>)
    requires n * PageSize <= |s| && InPages(c, n)
  {
    forall i :: 0 <= i < |c| ==> HasFlag(Status(s, c[i]), Free) && Length(s, c[i]) == 0
  }

  /** The free list of an `n`-page store: linked Free pages with zero
      length, ending at the store's last page. */
  predicate FreeListOk(s: seq<byte>, n: nat, fl: seq<nat>)
    requires n * PageSize <= |s|
  {
    Linked(s, n, fl) && AllFree(s, n, fl) && fl[|fl| - 1] == n - 1
  }

  /** A chain of allocated pages: linked, none carrying the Free flag. */
  predicate Allocated(s: seq<byte>, n: nat, c: seq<nat>)
    requires n * PageSize <= |s|
  {
    Linked(s, n, c) && forall i :: 0 <= i < |c| ==> !HasFlag(Status(s, c[i]), Free)
  }

  /** Pages below `n` outside `touched` are the same in `s0` and `s1`. */
  predicate Unchanged(s0: seq<byte>, s1: seq<byte>, n: nat, touched: set<nat>) {
    && n * PageSize <= |s0| && n * PageSize <= |s1|
    && forall q :: 0 <= q < n && q !in touched ==> Page(s1, q) == Page(s0, q)
  }

  lemma UnchangedTrans(s0: seq<byte>, s1: seq<byte>, s2: seq<byte>, n: nat, t1: set<nat>, t2: set<nat>)
    requires Unchanged(s0, s1, n, t1) && Unchanged(s1, s2, n, t2)
    ensures Unchanged(s0, s2, n, t1 + t2)
  {
  }

  /** What `Unchanged` keeps of a list of pages that avoids `touched`. */
  lemma LinkedUnchanged(s0: seq<byte>, s1: seq<byte>, n: nat, touched: set<nat>, c: seq<nat>)
    requires Unchanged(s0, s1, n, touched) && Linked(s0, n, c)
    requires forall i :: 0 <= i < |c| ==> c[i] !in touched
    ensures Linked(s1, n, c)
    ensures forall i :: 0 <= i < |c| ==> Page(s1, c[i]) == Page(s0, c[i])
  {
    assert forall i :: 0 <= i < |c| ==> Page(s1, c[i]) == Page(s0, c[i]);
  }

  lemma FreeListUnchanged(s0: seq<byte>, s1: seq<byte>, n: nat, touched: set<nat>, fl: seq<nat>)
    requires Unchanged(s0, s1, n, touched) && FreeListOk(s0, n, fl)
    requires forall i :: 0 <= i < |fl| ==> fl[i] !in touched
    ensures FreeListOk(s1, n, fl)
  {
    LinkedUnchanged(s0, s1, n, touched, fl);
  }

  lemma AllocatedUnchanged(s0: seq<byte>, s1: seq<byte>, n: nat, touched: set<nat>, c: seq<nat>)
    requires Unchanged(s0, s1, n, touched) && Allocated(s0, n, c)
    requires forall i :: 0 <= i < |c| ==> c[i] !in touched
    ensures Allocated(s1, n, c)
  {
    LinkedUnchanged(s0, s1, n, touched, c);
  }

  /** A store that grows keeps its lists: the same links, flags and lengths
      are read through a larger page count. */
  lemma LinkedGrow(s: seq<byte>, n: nat, m: nat, c: seq<nat>)
    requires n <= m && m * PageSize <= |s| && Linked(s, n, c)
    ensures Linked(s, m, c)
  {
  }

  lemma SamePagesExceptUnchanged(s0: seq<byte>, s1: seq<byte>, ix: nat, n: nat)
    requires SamePagesExcept(s0, s1, ix) && n * PageSize <= |s0|
    ensures Unchanged(s0, s1, n, {ix})
  {
  }

  /** The free list without its head is still a free list. */
  lemma FreeListTail(s: seq<byte>, n: nat, fl: seq<nat>)
    requires n * PageSize <= |s| && FreeListOk(s, n, fl) && |fl| > 1
    ensures FreeListOk(s, n, fl[1..])
  {
  }

  /** The head of the free list links to 0 exactly when it is the only free
      page, and otherwise to the next free page. */
  lemma HeadLink(s: seq<byte>, n: nat, fl: seq<nat>)
    requires n * PageSize <= |s| && FreeListOk(s, n, fl)
    ensures Link(s, fl[0]) == NoLink <==> |fl| == 1
    ensures |fl| > 1 ==> Link(s, fl[0]) == fl[1]
  {
    if |fl| > 1 {
      assert Link(s, fl[0]) == fl[1] && fl[1] > 0;
    }
  }

  /** Along a linked chain, a page links to 0 exactly when it is the last,
      and otherwise to the next page. */
  lemma LinkAt(s: seq<byte>, n: nat, c: seq<nat>, j: nat)
    requires n * PageSize <= |s| && Linked(s, n, c) && j < |c|
    ensures Link(s, c[j]) == NoLink <==> j == |c| - 1
    ensures j < |c| - 1 ==> Link(s, c[j]) == c[j + 1]
  {
    if j < |c| - 1 {
      assert Link(s, c[j]) == c[j + 1] && c[j + 1] > 0;
    }
  }

  /** Putting a chain of freed pages whose last page links to the old head
      in front of the free list gives a free list. */
  lemma FreeListPrepend(s: seq<byte>, n: nat, c: seq<nat>, fl: seq<nat>)
    requires n * PageSize <= |s| && FreeListOk(s, n, fl)
    requires |c| >= 1 && InPages(c, n) && Distinct(c) && Disjoint(c, fl)
    requires forall i :: 0 <= i < |c| - 1 ==> Link(s, c[i]) == c[i + 1]
    requires Link(s, c[|c| - 1]) == fl[0]
    requires AllFree(s, n, c)
    ensures FreeListOk(s, n, c + fl)
  {
    var l := c + fl;
    forall i | 0 <= i < |l| - 1
      ensures Link(s, l[i]) == l[i + 1]
    {
      if i >= |c| {
        assert l[i] == fl[i - |c|] && l[i + 1] == fl[i - |c| + 1];
      }
    }
    forall i, j | 0 <= i < j < |l|
      ensures l[i] != l[j]
    {
      if j < |c| {
      } else if i < |c| {
        assert l[j] == fl[j - |c|];
        assert l[i] !in fl;
      } else {
        assert l[i] == fl[i - |c|] && l[j] == fl[j - |c|];
      }
    }
    assert forall i :: 0 <= i < |l| ==> l[i] == if i < |c| then c[i] else fl[i - |c|];
  }

  /** The link `AddChapter` gives page `q` of chapter `cc`: the next page,
      and 0 from the chapter's last page. */
  function ChapterLink(cc: nat, q: nat): nat {
    if q + 1 < (cc + 1) * ChapterSize then q + 1 else NoLink
  }

  /** Chapter `cc` of `s` is as `AddChapter` writes it: every page a fresh
      free page linking to the next, the last one linking to 0. */
  predicate NewChapter(s: seq<byte>, cc: nat) {
    && (cc + 1) * ChapterBytes <= |s|
    && (cc + 1) * ChapterSize <= MaxPageCount
    && forall q :: cc * ChapterSize <= q < (cc + 1) * ChapterSize ==> FreshChapterPage(s, cc, q)
  }

  /** Page `q` of `s` is the free page `AddChapter` writes there for chapter `cc`. */
  predicate FreshChapterPage(s: seq<byte>, cc: nat, q: nat)
    requires (q + 1) * PageSize <= |s| && (cc + 1) * ChapterSize <= MaxPageCount
  {
    Page(s, q) == FreePageImage(ChapterLink(cc, q))
  }

  /** The pages of chapter `cc` from `a` on, built as `AddChapter` builds
      them, form a free list ending at the chapter's last page. */
  lemma ChapterTailFreeList(s: seq<byte>, cc: nat, a: nat)
    requires 0 < a && cc * ChapterSize <= a < (cc + 1) * ChapterSize
    requires (cc + 1) * ChapterBytes <= |s| && (cc + 1) * ChapterSize <= MaxPageCount
    requires forall q :: a <= q < (cc + 1) * ChapterSize ==> FreshChapterPage(s, cc, q)
    ensures FreeListOk(s, (cc + 1) * ChapterSize, Range(a, (cc + 1) * ChapterSize))
  {
    var fl := Range(a, (cc + 1) * ChapterSize);
    forall i | 0 <= i < |fl|
      ensures HasFlag(Status(s, fl[i]), Free) && Length(s, fl[i]) == 0
      ensures Link(s, fl[i]) == ChapterLink(cc, fl[i])
    {
      assert FreshChapterPage(s, cc, fl[i]);
      FreePageFields(ChapterLink(cc, fl[i]));
    }
  }

  /** A new chapter is a free list on its own: pages `cc * 4096` to the
      store's new last page, in order. */
  lemma NewChapterFreeList(s: seq<byte>, cc: nat)
    requires cc >= 1 && NewChapter(s, cc)
    ensures FreeListOk(s, (cc + 1) * ChapterSize, ChapterPages(cc))
  {
    ChapterTailFreeList(s, cc, cc * ChapterSize);
  }

  /** `AddChapter` after its loop: the finished buffer written at chapter
      `cc`'s position makes chapter `cc` new, keeps
      every page before it, and makes the stream end at the chapter's end
      or beyond. */
  lemma ChapterPlaced(s: seq<byte>, cc: nat, d: seq<byte>)
    requires cc * ChapterBytes <= |s| && (cc + 1) * ChapterSize <= MaxPageCount
    requires ChapterImage(d, cc * ChapterSize)
    ensures var s1 := Overwrite(s, cc * ChapterSize * PageSize, d);
            && |s1| == (if |s| <= (cc + 1) * ChapterBytes then (cc + 1) * ChapterBytes else |s|)
            && NewChapter(s1, cc)
            && Unchanged(s, s1, cc * ChapterSize, {})
  {
    var base := cc * ChapterSize;
    var s1 := Overwrite(s, base * PageSize, d);
    forall q | base <= q < (cc + 1) * ChapterSize
      ensures FreshChapterPage(s1, cc, q)
    {
      var j := q - base;
      OverwriteBlockPage(s, base, d, j);
      assert ImagePage(d, base, j);
    }
    forall q | 0 <= q < base
      ensures Page(s1, q) == Page(s, q)
    {
      OverwriteOtherPage(s, base * PageSize, d, q);
    }
  }

  lemma NewChapterKept(s0: seq<byte>, s1: seq<byte>, cc: nat, ix: nat)
    requires NewChapter(s0, cc) && SamePagesExcept(s0, s1, ix) && ix < cc * ChapterSize
    ensures NewChapter(s1, cc)
  {
    forall q | cc * ChapterSize <= q < (cc + 1) * ChapterSize
      ensures FreshChapterPage(s1, cc, q)
    {
      assert FreshChapterPage(s0, cc, q);
    }
  }

  /** The pages of `c`, as a set. */
  function Elems(c: seq<nat>): (r: set<nat>)
    ensures forall i :: 0 <= i < |c| ==> c[i] in r
    ensures forall q :: q in r ==> exists i :: 0 <= i < |c| && c[i] == q
  {
    set q | q in c
  }

  lemma ElemsAppend(c: seq<nat>, p: nat)
    ensures Elems(c + [p]) == Elems(c) + {p}
  {
    assert forall i :: 0 <= i < |c| ==> (c + [p])[i] == c[i];
    assert (c + [p])[|c|] == p;
  }

  /** No page is both allocated and free: one kind carries the Free flag
      and the other does not. */
  lemma AllocatedDisjoint(s: seq<byte>, n: nat, c: seq<nat>, fl: seq<nat>)
    requires n * PageSize <= |s| && Allocated(s, n, c) && FreeListOk(s, n, fl)
    ensures Disjoint(c, fl)
  {
    forall i, j | 0 <= i < |c| && 0 <= j < |fl|
      ensures c[i] != fl[j]
    {
      assert HasFlag(Status(s, fl[j]), Free) && !HasFlag(Status(s, c[i]), Free);
    }
  }

  /** What holds of the first `n` pages holds of fewer. */
  lemma UnchangedShrink(s0: seq<byte>, s1: seq<byte>, n: nat, m: nat, touched: set<nat>)
    requires m <= n && Unchanged(s0, s1, n, touched)
    ensures Unchanged(s0, s1, m, touched)
  {
  }

  /** The page `Allocate` hands out is an allocated chain of one page. */
  lemma ClaimedAlone(s0: seq<byte>, s1: seq<byte>, n: nat, p: nat)
    requires n * PageSize <= |s1| && 0 < p < n && (p + 1) * PageSize <= |s0|
    requires HasFlag(Status(s0, p), Free) && Page(s1, p) == Claimed(Page(s0, p))
    ensures Allocated(s1, n, [p])
  {
    ClaimedFields(Page(s0, p));
  }

  /** An allocation that hands out `p`, the head of the free list, keeps an
      allocated chain `c` (in the grown store too), and `p` is a page of its
      own, outside `c`, that links to nothing and is not Free. */
  lemma ChainSurvivesClaim(s0: seq<byte>, s1: seq<byte>, n0: nat, n1: nat, c: seq<nat>, fl: seq<nat>, p: nat)
    requires n0 <= n1 && n0 * PageSize <= |s0| && n1 * PageSize <= |s1|
    requires Allocated(s0, n0, c) && FreeListOk(s0, n0, fl) && p == fl[0]
    requires Unchanged(s0, s1, n0, {0, p}) && Page(s1, p) == Claimed(Page(s0, p))
    ensures Allocated(s1, n1, c) && p !in c && 0 < p < n1
    ensures Link(s1, p) == NoLink && !HasFlag(Status(s1, p), Free)
  {
    AllocatedDisjoint(s0, n0, c, fl);
    AllocatedUnchanged(s0, s1, n0, {0, p}, c);
    AllocatedGrow(s1, n0, n1, c);
    ClaimedFields(Page(s0, p));
  }

  /** After `Allocate` touched the header and `p` and a link write touched
      `ixa`, only those three pages differ from the start, and `ixa` only by
      its link. */
  lemma AppendedKept(s0: seq<byte>, s1: seq<byte>, s2: seq<byte>, n0: nat, n: nat, p: u32, ixa: nat)
    requires n0 <= n && Unchanged(s0, s1, n0, {0, p}) && Unchanged(s1, s2, n, {ixa})
    requires 0 < ixa < n0 && ixa != p
    requires Page(s2, ixa) == Overwrite(Page(s1, ixa), LinkIndex, LE32(p))
    ensures Page(s2, ixa) == Overwrite(Page(s0, ixa), LinkIndex, LE32(p))
    ensures Unchanged(s0, s2, n0, {0, p, ixa})
  {
    assert Page(s1, ixa) == Page(s0, ixa);
    UnchangedShrink(s1, s2, n, n0, {ixa});
    UnchangedTrans(s0, s1, s2, n0, {0, p}, {ixa});
    assert {0, p} + {ixa} == {0, p, ixa};
  }

  /** A store that grows keeps its allocated chains. */
  lemma AllocatedGrow(s: seq<byte>, n: nat, m: nat, c: seq<nat>)
    requires n <= m && m * PageSize <= |s| && Allocated(s, n, c)
    ensures Allocated(s, m, c)
  {
  }

  /** Linking a freshly claimed page after the last page of an allocated
      chain extends the chain by that page. */
  lemma AllocatedExtend(s1: seq<byte>, s2: seq<byte>, n: nat, c: seq<nat>, p: u32)
    requires n * PageSize <= |s1| && Allocated(s1, n, c)
    requires 0 < p < n && p !in c
    requires Link(s1, p) == NoLink && !HasFlag(Status(s1, p), Free)
    requires SamePagesExcept(s1, s2, c[|c| - 1])
    requires Page(s2, c[|c| - 1]) == Overwrite(Page(s1, c[|c| - 1]), LinkIndex, LE32(p))
    ensures Allocated(s2, n, c + [p])
  {
    var last := c[|c| - 1];
    LinkWriteFields(Page(s1, last), p);
    var c2 := c + [p];
    forall i | 0 <= i < |c2| - 1
      ensures Link(s2, c2[i]) == c2[i + 1]
    {
      if i < |c| - 1 {
        assert c[i] != last;
      }
    }
    forall i | 0 <= i < |c2|
      ensures !HasFlag(Status(s2, c2[i]), Free)
    {
      if i < |c| - 1 {
        assert c[i] != last;
      }
    }
  }

  /** A blob that needs more than `k - 1` full pages and at most `k` needs
      exactly `k` pages. */
  lemma {:induction false} PagesForExact(len: nat, k: nat)
    requires k >= 1 && PageDataSize * (k - 1) < len <= PageDataSize * k
    ensures PagesFor(len) == k
    decreases k
  {
    if len > PageDataSize {
      PagesForExact(len - PageDataSize, k - 1);
    }
  }

  // ---------------------------------------------------------------------
  // Successive allocations

  /** The free list and chapter count after one `Allocate`: the head leaves
      the list; when it was the last free page, a new chapter supplies the
      list instead. */
  function AfterPop(fl: seq<nat>, cc: nat): (r: (seq<nat>, nat))
    requires |fl| >= 1
    ensures |r.0| >= 1
  {
    if |fl| == 1 then (ChapterPages(cc), cc + 1) else (fl[1..], cc)
  }

  /** The free list and chapter count after `k` successive `Allocate` calls. */
  function AfterPops(fl: seq<nat>, cc: nat, k: nat): (r: (seq<nat>, nat))
    requires |fl| >= 1
    ensures |r.0| >= 1
    decreases k
  {
    if k == 0 then (fl, cc)
    else
      var prev := AfterPops(fl, cc, k - 1);
      AfterPop(prev.0, prev.1)
  }

  /** The pages `k` successive `Allocate` calls return, in order: each is the
      head of the free list the previous calls left. */
  function Pops(fl: seq<nat>, cc: nat, k: nat): (r: seq<nat>)
    requires |fl| >= 1
    ensures |r| == k
    decreases k
  {
    if k == 0 then [] else Pops(fl, cc, k - 1) + [AfterPops(fl, cc, k - 1).0[0]]
  }

  /** One more allocation: the next page is the head of the list the
      earlier ones left, and the list is popped once more. */
  lemma PopsNext(fl: seq<nat>, cc: nat, k: nat)
    requires |fl| >= 1
    ensures var prev := AfterPops(fl, cc, k);
            && AfterPops(fl, cc, k + 1) == AfterPop(prev.0, prev.1)
            && Pops(fl, cc, k + 1) == Pops(fl, cc, k) + [prev.0[0]]
  {
  }

  /** On a store whose free pages are `a` up to the end of chapter `cc - 1`
      (a fresh store is `a` = 1, `cc` = 1), successive allocations return
      `a`, `a + 1`, `a + 2`, ..., moving into each new chapter at its first
      page; the free list stays in that shape. */
  lemma {:induction false} PopsConsecutive(a: nat, cc: nat, k: nat) returns (cck: nat)
    requires a < cc * ChapterSize
    ensures a + k < cck * ChapterSize
    ensures AfterPops(Range(a, cc * ChapterSize), cc, k) == (Range(a + k, cck * ChapterSize), cck)
    ensures Pops(Range(a, cc * ChapterSize), cc, k) == Range(a, a + k)
    decreases k
  {
    var fl := Range(a, cc * ChapterSize);
    if k == 0 {
      cck := cc;
    } else {
      var c := PopsConsecutive(a, cc, k - 1);
      var prev := Range(a + k - 1, c * ChapterSize);
      assert AfterPops(fl, cc, k - 1) == (prev, c);
      if |prev| == 1 {
        cck := c + 1;
        assert ChapterPages(c) == Range(a + k, cck * ChapterSize);
      } else {
        cck := c;
        assert prev[1..] == Range(a + k, c * ChapterSize);
      }
      assert Pops(fl, cc, k) == Range(a, a + k - 1) + [a + k - 1];
    }
  }

  // ---------------------------------------------------------------------
  // What a chain holds

  /** The number of pages a blob of `len` bytes occupies: at least one, then
      one per 4083 bytes or part of that. */
  function PagesFor(len: nat): (r: nat)
    ensures r >= 1 && len <= PageDataSize * r
    ensures r == 1 || PageDataSize * (r - 1) < len
  {
    if len <= PageDataSize then 1 else 1 + PagesFor(len - PageDataSize)
  }

  function Min(a: int, b: int): int {
    if a < b then a else b
  }

  /** Taking one page's worth of bytes off `r1` bytes leaves one page fewer
      to allocate. */
  lemma PagesForTake(r1: nat, r2: nat)
    requires r2 == r1 - Min(r1, PageDataSize)
    ensures r1 > 0 ==> r2 < r1
    ensures (if r2 > 0 then PagesFor(r2) else 0) + 1 == PagesFor(r1)
  {
  }

  /** Every page of `c` lies inside `s`. */
  predicate Fits(s: seq<byte>, c: seq<nat>) {
    forall i :: 0 <= i < |c| ==> (c[i] + 1) * PageSize <= |s|
  }

  lemma LinkedFits(s: seq<byte>, n: nat, c: seq<nat>)
    requires n * PageSize <= |s| && InPages(c, n)
    ensures Fits(s, c)
  {
  }

  /** Byte `t` of the blob chain `c` holds: payload byte `t % 4083` of its
      page `t / 4083`. */
  function ByteAt(s: seq<byte>, c: seq<nat>, t: nat): byte
    requires Fits(s, c) && t < PageDataSize * |c|
  {
    PayloadOf(Page(s, c[t / PageDataSize]))[t % PageDataSize]
  }

  /** The first `len` bytes the chain holds, in order. */
  function Contents(s: seq<byte>, c: seq<nat>, len: nat): (r: seq<byte>)
    requires Fits(s, c) && len <= PageDataSize * |c|
    ensures |r| == len
  {
    seq(len, t requires 0 <= t < len => ByteAt(s, c, t))
  }

  /** Byte `o` of the payload of the chain's page `j` is blob byte
      `4083 * j + o`. */
  lemma ByteAtPage(s: seq<byte>, c: seq<nat>, j: nat, o: nat)
    requires Fits(s, c) && j < |c| && o < PageDataSize
    ensures ByteAt(s, c, PageDataSize * j + o) == PayloadOf(Page(s, c[j]))[o]
  {
    var t := PageDataSize * j + o;
    assert t / PageDataSize == j && t % PageDataSize == o;
  }

  /** Page `p` holds piece `j` of blob `d`: its length field counts the
      bytes from that piece to the end, and its payload starts with the
      piece's (at most 4083) bytes. */
  predicate PageHolds(s: seq<byte>, p: nat, d: seq<byte>, j: nat)
    requires (p + 1) * PageSize <= |s|
  {
    && PageDataSize * j < |d|
    && Length(s, p) == |d| - PageDataSize * j
    && PayloadOf(Page(s, p))[..Min(PageDataSize, |d| - PageDataSize * j)]
       == d[PageDataSize * j..PageDataSize * j + Min(PageDataSize, |d| - PageDataSize * j)]
  }

  /** Chain `c` holds the non-empty blob `d`: it has the pages the blob
      needs and page `j` holds piece `j`. */
  predicate Holds(s: seq<byte>, n: nat, c: seq<nat>, d: seq<byte>)
    requires n * PageSize <= |s|
  {
    && Linked(s, n, c)
    && |c| == PagesFor(|d|)
    && forall j :: 0 <= j < |c| ==> PageHolds(s, c[j], d, j)
  }

  /** A chain that holds `d` gives `d` back, byte for byte, and its head's
      length field is `|d|`. */
  lemma HoldsContents(s: seq<byte>, n: nat, c: seq<nat>, d: seq<byte>)
    requires n * PageSize <= |s| && Holds(s, n, c, d)
    ensures Fits(s, c) && |d| <= PageDataSize * |c|
    ensures Contents(s, c, |d|) == d
    ensures Length(s, c[0]) == |d|
  {
    LinkedFits(s, n, c);
    forall t | 0 <= t < |d|
      ensures Contents(s, c, |d|)[t] == d[t]
    {
      var j, o := t / PageDataSize, t % PageDataSize;
      assert t == PageDataSize * j + o;
      assert j < |c|;
      ByteAtPage(s, c, j, o);
      assert PageHolds(s, c[j], d, j);
      var k := Min(PageDataSize, |d| - PageDataSize * j);
      assert o < k;
      assert PayloadOf(Page(s, c[j]))[..k][o] == d[PageDataSize * j..PageDataSize * j + k][o];
    }
  }

  /** What `ReadAll` gathers from page `h` on for `count` bytes: the next
      (at most 4083) payload bytes, then the rest from the page its link
      names. Reads past the end of the stream give zeros. */
  function ChainRead(s: seq<byte>, h: nat, count: nat): (r: seq<byte>)
    ensures |r| == count
    decreases count
  {
    if count == 0 then []
    else
      var ic := Min(count, PageDataSize);
      ReadFrom(s, h * PageSize + PageHeaderSize, ic)
        + if count > ic then ChainRead(s, ReadLE32(ReadFrom(s, h * PageSize + LinkIndex, 4), 0), count - ic) else []
  }

  /** The payload bytes `ReadAll` reads from a page of the stream are
      that page's payload prefix. */
  lemma PayloadRead(s: seq<byte>, h: nat, ic: nat)
    requires (h + 1) * PageSize <= |s| && ic <= PageDataSize
    ensures ReadFrom(s, h * PageSize + PageHeaderSize, ic) == PayloadOf(Page(s, h))[..ic]
  {
    var pos := h * PageSize;
    var a, b := ReadFrom(s, pos + PageHeaderSize, ic), PayloadOf(Page(s, h))[..ic];
    forall k | 0 <= k < ic
      ensures a[k] == b[k]
    {
      assert a[k] == s[pos + PageHeaderSize + k];
      assert b[k] == Page(s, h)[PageHeaderSize + k];
    }
  }

  /** The link `ReadAll` reads from a page of the stream is that page's
      link field. */
  lemma LinkRead(s: seq<byte>, h: nat)
    requires (h + 1) * PageSize <= |s|
    ensures ReadLE32(ReadFrom(s, h * PageSize + LinkIndex, 4), 0) == Link(s, h)
  {
    var pos := h * PageSize;
    assert ReadFrom(s, pos + LinkIndex, 4) == s[pos + LinkIndex..pos + LinkIndex + 4];
    assert Page(s, h)[LinkIndex..LinkIndex + 4] == s[pos + LinkIndex..pos + LinkIndex + 4];
    ReadLE32Same(ReadFrom(s, pos + LinkIndex, 4), 0, Page(s, h), LinkIndex);
  }

  /** One page of `ChainRead` on a page of the stream: its payload prefix,
      then the rest from its link. */
  lemma ChainReadStep(s: seq<byte>, h: nat, count: nat)
    requires (h + 1) * PageSize <= |s| && count > 0
    ensures ChainRead(s, h, count) ==
      PayloadOf(Page(s, h))[..Min(count, PageDataSize)]
        + if count > PageDataSize then ChainRead(s, Link(s, h), count - PageDataSize) else []
  {
    PayloadRead(s, h, Min(count, PageDataSize));
    LinkRead(s, h);
  }

  /** The contents of a chain are its first page's payload prefix, then the
      contents of the rest of the chain. */
  lemma ContentsStep(s: seq<byte>, c: seq<nat>, len: nat)
    requires Fits(s, c) && |c| >= 1 && len <= PageDataSize * |c|
    ensures len > PageDataSize ==> |c| > 1 && Fits(s, c[1..])
    ensures Contents(s, c, len) ==
      PayloadOf(Page(s, c[0]))[..Min(len, PageDataSize)]
        + if len > PageDataSize then Contents(s, c[1..], len - PageDataSize) else []
  {
    var ic := Min(len, PageDataSize);
    var first := PayloadOf(Page(s, c[0]))[..ic];
    forall t | 0 <= t < ic
      ensures Contents(s, c, len)[t] == first[t]
    {
      ByteAtPage(s, c, 0, t);
    }
    if len > PageDataSize {
      var c1 := c[1..];
      forall t | ic <= t < len
        ensures Contents(s, c, len)[t] == Contents(s, c1, len - ic)[t - ic]
      {
        var u := t - ic;
        var j, o := u / PageDataSize, u % PageDataSize;
        assert t == PageDataSize * (j + 1) + o;
        ByteAtPage(s, c, j + 1, o);
        ByteAtPage(s, c1, j, o);
      }
      assert Contents(s, c, len) == first + Contents(s, c1, len - ic);
    } else {
      assert Contents(s, c, len) == first;
    }
  }

  /** The rest of a linked chain after its first page is linked too. */
  lemma LinkedTail(s: seq<byte>, n: nat, c: seq<nat>)
    requires n * PageSize <= |s| && Linked(s, n, c) && |c| > 1
    ensures Link(s, c[0]) == c[1] && Linked(s, n, c[1..])
  {
    var c1 := c[1..];
    assert forall i :: 0 <= i < |c1| ==> c1[i] == c[i + 1];
  }

  /** Along a linked chain long enough for `len` bytes, `ChainRead` gathers
      exactly the chain's contents. */
  lemma {:induction false} ChainReadContents(s: seq<byte>, n: nat, c: seq<nat>, len: nat)
    requires n * PageSize <= |s| && Linked(s, n, c) && len <= PageDataSize * |c|
    ensures Fits(s, c)
    ensures ChainRead(s, c[0], len) == Contents(s, c, len)
    decreases |c|
  {
    LinkedFits(s, n, c);
    if len > 0 {
      ChainReadStep(s, c[0], len);
      ContentsStep(s, c, len);
      var first := PayloadOf(Page(s, c[0]))[..Min(len, PageDataSize)];
      if len > PageDataSize {
        LinkedTail(s, n, c);
        ChainReadContents(s, n, c[1..], len - PageDataSize);
        assert ChainRead(s, c[0], len) == first + ChainRead(s, c[1], len - PageDataSize);
        assert Contents(s, c, len) == first + Contents(s, c[1..], len - PageDataSize);
      } else {
        assert ChainRead(s, c[0], len) == first + [];
        assert Contents(s, c, len) == first + [];
      }
    }
  }

  // ---------------------------------------------------------------------
  // The range check of `Free`, `Write` and `ReadAll`

  /** The check as the source writes it, without its 32-bit overflow: a
      handle passes unless the stream is shorter than `handle * 4096`. */
  predicate RangeCheckAsWritten(streamLength: nat, handle: nat) {
    !(streamLength < handle * PageSize)
  }

  /** The check the model uses: the handle is a page of the store. */
  predicate InRange(handle: nat, n: nat) {
    handle < n
  }

  /** On a store that ends at its last chapter, the written check lets
      through the handle one past the last page, whose page is not in the
      stream at all. */
  lemma RangeCheckAdmitsPastEnd(s: seq<byte>, n: nat)
    requires |s| == n * PageSize
    ensures RangeCheckAsWritten(|s|, n) && !InRange(n, n)
    ensures !((n + 1) * PageSize <= |s|)
  {
  }

  /** A handle that passes the model's check names a whole page of the
      stream, and passes the written check as well. */
  lemma InRangePageExists(s: seq<byte>, n: nat, handle: nat)
    requires n * PageSize <= |s| && InRange(handle, n)
    ensures (handle + 1) * PageSize <= |s|
    ensures RangeCheckAsWritten(|s|, handle)
  {
  }

  // ---------------------------------------------------------------------
  // Where `ReadAt` starts reading

  /** The stream position of byte `t` of chain `c`. */
  function BytePosition(c: seq<nat>, t: nat): nat
    requires t < PageDataSize * |c|
  {
    c[t / PageDataSize] * PageSize + PageHeaderSize + t % PageDataSize
  }

  lemma BytePositionIsByteAt(s: seq<byte>, c: seq<nat>, t: nat)
    requires Fits(s, c) && t < PageDataSize * |c|
    ensures BytePosition(c, t) < |s| && s[BytePosition(c, t)] == ByteAt(s, c, t)
  {
  }

  /** The stream position of the first byte `ReadAt(handle, buffer,
      srcOffset, count)` takes, as the source computes it: its skip loop
      moves `srcOffset / 4083` pages on without reducing `srcOffset`, and
      its `4083 - srcOffset` is `uint` arithmetic. When that difference is
      0 it reads nothing and moves to the following page (page 0 if there
      is none) at offset 0. */
  function ReadAtStartAsWritten(c: seq<nat>, srcOffset: u32, count: u32): nat
    requires count > 0 && srcOffset / PageDataSize < |c|
  {
    var k := srcOffset / PageDataSize;
    var room := (PageDataSize - srcOffset) % 0x1_0000_0000;
    var first := if room > count then count else room;
    if first == 0 then
      (if k + 1 < |c| then c[k + 1] else 0) * PageSize + PageHeaderSize
    else c[k] * PageSize + PageHeaderSize + srcOffset
  }

  /** Below 4083 the written computation starts at the right byte. */
  lemma ReadAtStartAsWrittenSmallOffset(c: seq<nat>, srcOffset: u32, count: u32)
    requires count > 0 && srcOffset < PageDataSize && srcOffset < PageDataSize * |c|
    ensures ReadAtStartAsWritten(c, srcOffset, count) == BytePosition(c, srcOffset)
  {
  }

  /** From 4083 on it never does: it reads from a page past the one that
      holds byte `srcOffset`, or from beyond the payload of the right page. */
  lemma ReadAtStartAsWrittenMisplaced(c: seq<nat>, srcOffset: u32, count: u32)
    requires count > 0 && srcOffset < PageDataSize * |c| && Distinct(c)
    requires InPages(c, MaxPageCount) && srcOffset >= PageDataSize
    ensures ReadAtStartAsWritten(c, srcOffset, count) != BytePosition(c, srcOffset)
  {
    var k := srcOffset / PageDataSize;
    if srcOffset == PageDataSize {
      assert k == 1;
    } else {
      assert (PageDataSize - srcOffset) % 0x1_0000_0000 == 0x1_0000_0000 + PageDataSize - srcOffset;
    }
  }
}
