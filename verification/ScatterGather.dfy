/**
  From a user buffer to a scatterlist: pinning the buffer's pages and describing, page by page, which
  bytes of them it occupies.
 */
module ScatterGather {
  import opened Arithmetic
  import opened Basics
  import opened Words

  // One scatterlist entry, and one byte of physical memory: a page frame and an offset in it.
  datatype SgEntry = SgEntry(page: nat, offset: nat, length: nat)
  datatype Location = Location(page: nat, offset: nat)

  const ENOMEM := 12

  // Pages touched by count > 0 bytes from start on.
  function PageCount(start: nat, count: nat): (n: nat)
    requires count > 0
    ensures n == (start % PAGE_SIZE + count - 1) / PAGE_SIZE + 1
  {
    (start + count - 1) / PAGE_SIZE - start / PAGE_SIZE + 1
  }

  // Where byte k of the buffer lies, frames being those of its pages in order.
  function BufferByte(start: nat, frames: seq<nat>, k: nat): Location
    requires (start % PAGE_SIZE + k) / PAGE_SIZE < |frames|
  {
    Location(frames[(start % PAGE_SIZE + k) / PAGE_SIZE], (start % PAGE_SIZE + k) % PAGE_SIZE)
  }

  function BufferBytes(start: nat, count: nat, frames: seq<nat>): (r: seq<Location>)
    requires count > 0 && |frames| == PageCount(start, count)
    ensures |r| == count
  {
    seq(count, k requires 0 <= k < count => BufferByte(start, frames, k))
  }

  // The part of the buffer that lies in its i-th page.
  function EntryAt(start: nat, count: nat, frames: seq<nat>, i: nat): SgEntry
    requires count > 0 && i < |frames| == PageCount(start, count)
  {
    var first, last := start % PAGE_SIZE, start % PAGE_SIZE + count;
    var from := if i == 0 then first else i * PAGE_SIZE;
    var to := if last < (i + 1) * PAGE_SIZE then last else (i + 1) * PAGE_SIZE;
    SgEntry(frames[i], from - i * PAGE_SIZE, to - from)
  }

  // The scatterlist of the buffer.
  function Entries(start: nat, count: nat, frames: seq<nat>): (r: seq<SgEntry>)
    requires count > 0 && |frames| == PageCount(start, count)
    ensures |r| == |frames| && forall i :: 0 <= i < |r| ==> r[i] == EntryAt(start, count, frames, i)
  {
    seq(|frames|, i requires 0 <= i < |frames| => EntryAt(start, count, frames, i))
  }

  function EntryBytes(e: SgEntry): seq<Location> {
    seq(e.length, k requires 0 <= k < e.length => Location(e.page, e.offset + k))
  }

  function AllBytes(es: seq<SgEntry>): seq<Location> {
    if es == [] then [] else AllBytes(es[..|es| - 1]) + EntryBytes(es[|es| - 1])
  }

  lemma ByteOfPage(start: nat, frames: seq<nat>, i: nat, k: nat)
    requires i < |frames| && i * PAGE_SIZE <= start % PAGE_SIZE + k < (i + 1) * PAGE_SIZE
    ensures (start % PAGE_SIZE + k) / PAGE_SIZE == i
    ensures BufferByte(start, frames, k) == Location(frames[i], start % PAGE_SIZE + k - i * PAGE_SIZE)
  {
    UniqueRest(PAGE_SIZE, start % PAGE_SIZE + k, i, start % PAGE_SIZE + k - i * PAGE_SIZE);
  }

  lemma EntryInBuffer(start: nat, count: nat, frames: seq<nat>, i: nat)
    requires count > 0 && i < |frames| == PageCount(start, count)
    ensures var e, from := EntryAt(start, count, frames, i), if i == 0 then 0 else i * PAGE_SIZE - start % PAGE_SIZE;
            from + e.length <= count &&
            EntryBytes(e) == BufferBytes(start, count, frames)[from..from + e.length]
  {
    var e, from := EntryAt(start, count, frames, i), if i == 0 then 0 else i * PAGE_SIZE - start % PAGE_SIZE;
    var mine, all := EntryBytes(e), BufferBytes(start, count, frames);
    forall k | 0 <= k < |mine|
      ensures mine[k] == all[from + k]
    {
      ByteOfPage(start, frames, i, from + k);
    }
    assert mine == all[from..from + e.length];
  }

  lemma {:induction false} PrefixCovers(start: nat, count: nat, frames: seq<nat>, es: seq<SgEntry>, n: nat)
    requires count > 0 && |frames| == PageCount(start, count) == |es| && n <= |es|
    requires forall i :: 0 <= i < |es| ==> es[i] == EntryAt(start, count, frames, i)
    ensures var reach := if n == 0 then 0 else if n == |es| then count else n * PAGE_SIZE - start % PAGE_SIZE;
            reach <= count && AllBytes(es[..n]) == BufferBytes(start, count, frames)[..reach]
  {
    if n > 0 {
      PrefixCovers(start, count, frames, es, n - 1);
      assert es[..n][..n - 1] == es[..n - 1];
      var e, off := es[n - 1], start % PAGE_SIZE;
      var from := if n == 1 then 0 else (n - 1) * PAGE_SIZE - off;
      var bytes := BufferBytes(start, count, frames);
      EntryInBuffer(start, count, frames, n - 1);
      assert bytes[..from] + bytes[from..from + e.length] == bytes[..from + e.length];
    }
  }

  /** The entries describe exactly the buffer: byte for byte and in order. */
  lemma EntriesCoverBuffer(start: nat, count: nat, frames: seq<nat>, es: seq<SgEntry>)
    requires count > 0 && |frames| == PageCount(start, count) == |es|
    requires forall i :: 0 <= i < |es| ==> es[i] == EntryAt(start, count, frames, i)
    ensures AllBytes(es) == BufferBytes(start, count, frames)
  {
    PrefixCovers(start, count, frames, es, |es|);
    assert es[..|es|] == es;
  }

  // ---------- The mapper ----------

  const BLANK := SgEntry(0, 0, 0)

  class Mapper {
    var sgl: array<SgEntry>
    var pages: array<nat>
    var maxPages: nat
    var mappedPages: nat
    ghost var pins: multiset<nat>  // page references held

    ghost predicate Valid()
      reads this
    {
      sgl.Length == maxPages == pages.Length && mappedPages <= maxPages
    }

    // sg_create_mapper for a length above 0.
    constructor (maxLen: nat)
      requires maxLen > 0
      ensures Valid() && fresh(sgl) && fresh(pages)
      ensures maxPages == maxLen / PAGE_SIZE + 2 && mappedPages == 0 && pins == multiset{}
    {
      maxPages := maxLen / PAGE_SIZE + 2;
      mappedPages := 0;
      sgl := new SgEntry[maxLen / PAGE_SIZE + 2](_ => BLANK);
      pages := new nat[maxLen / PAGE_SIZE + 2](_ => 0);
      pins := multiset{};
    }

    method PutPage(page: nat)
      requires page in pins
      modifies this`pins
      ensures pins == old(pins) - multiset{page}
    {
      pins := pins - multiset{page};
    }

    // Unpins the mapped pages, one reference each.
    method PutPages()
      requires Valid() && pins == multiset(pages[..mappedPages])
      modifies this
      ensures Valid() && pins == multiset{} && mappedPages == 0
      ensures sgl == old(sgl) && pages == old(pages) && maxPages == old(maxPages)
    {
      var i := 0;
      assert pages[0..mappedPages] == pages[..mappedPages];
      while i < mappedPages
        invariant 0 <= i <= mappedPages == old(mappedPages) && Valid()
        invariant pins == multiset(pages[i..mappedPages])
        invariant sgl == old(sgl) && pages == old(pages) && maxPages == old(maxPages)
      {
        assert pages[i..mappedPages] == [pages[i]] + pages[i + 1..mappedPages];
        PutPage(pages[i]);
        i := i + 1;
      }
      mappedPages := 0;
    }

    /** sgm_get_user_pages.  `got` is what get_user_pages_fast returns and `frames` the pages it pinned.
        Either the scatterlist describes exactly the buffer and every page is pinned once, or nothing
        stays pinned; neither array is overrun and none of the BUG_ONs fires. */
    method GetUserPages(start: nat, count: nat, got: int, frames: seq<nat>) returns (rc: int)
      requires Valid() && count > 0 && PageCount(start, count) <= maxPages
      requires mappedPages == 0 && pins == multiset{}
      requires got <= PageCount(start, count) && |frames| == if got < 0 then 0 else got
      modifies this, sgl, pages
      ensures Valid() && sgl == old(sgl) && pages == old(pages) && maxPages == old(maxPages)
      ensures got < PageCount(start, count) ==> rc == -12 && mappedPages == 0 && pins == multiset{}
      ensures got == PageCount(start, count) ==>
                rc == got == mappedPages && pages[..rc] == frames && pins == multiset(frames) &&
                forall i :: 0 <= i < rc ==> sgl[i] == EntryAt(start, count, frames, i)
    {
      var first := start / PAGE_SIZE;
      var last := (start + count - 1) / PAGE_SIZE;
      var nrPages := last - first + 1;
      var k := 0;
      while k < |frames|
        invariant Valid() && sgl == old(sgl) && pages == old(pages) && maxPages == old(maxPages)
        invariant 0 <= k <= |frames| <= pages.Length
        invariant pages[..k] == frames[..k]
        invariant mappedPages == 0 && pins == multiset{}
      {
        pages[k] := frames[k];
        k := k + 1;
      }
      assert frames[..|frames|] == frames;
      pins := multiset(frames);
      if got < nrPages {
        if got > 0 {
          mappedPages := got;
        }
        PutPages();
        rc := -ENOMEM;
        return;
      }
      mappedPages := got;
      Fill(start, count, nrPages, frames);
      rc := nrPages;
    }

    // The population of the scatterlist: a first, some whole and a last page, or a single one.
    method Fill(start: nat, count: nat, nrPages: nat, frames: seq<nat>)
      requires count > 0 && nrPages == PageCount(start, count) == |frames|
      requires nrPages <= pages.Length == sgl.Length && pages[..nrPages] == frames
      modifies sgl
      ensures forall i :: 0 <= i < nrPages ==> sgl[i] == EntryAt(start, count, frames, i)
    {
      var left := count;
      sgl[0] := SgEntry(pages[0], start % PAGE_SIZE, 0);
      if nrPages > 1 {
        sgl[0] := sgl[0].(length := PAGE_SIZE - sgl[0].offset);
        left := left - sgl[0].length;
        var i := 1;
        while i < nrPages - 1
          invariant 1 <= i <= nrPages - 1
          invariant start % PAGE_SIZE + count == i * PAGE_SIZE + left
          invariant forall k :: 0 <= k < i ==> sgl[k] == EntryAt(start, count, frames, k)
        {
          assert left >= PAGE_SIZE;
          sgl[i] := SgEntry(pages[i], 0, PAGE_SIZE);
          left := left - PAGE_SIZE;
          i := i + 1;
        }
        assert left <= PAGE_SIZE;
        sgl[i] := SgEntry(pages[i], 0, left);
      } else {
        sgl[0] := sgl[0].(length := left);
      }
    }
  }

  /** A mapper made for count bytes always has room, wherever the buffer starts. */
  lemma MapperHasRoom(start: nat, count: nat)
    requires count > 0
    ensures PageCount(start, count) <= count / PAGE_SIZE + 2
  {
  }

  // ---------- Page numbers in C ----------

  const INT_MAX := 0x7FFF_FFFF

  // The value of an int to which an unsigned long is assigned.
  function ToInt(x: nat): int {
    var low := x % UINT32;
    if low <= INT_MAX then low else low - UINT32
  }

  // nr_pages as it is computed, unsigned long being less than `top`.
  function NrPages(top: nat, start: nat, count: nat): int
    requires top > 0
  {
    var first, last := start / PAGE_SIZE, (start + count - 1) % top / PAGE_SIZE;
    ToInt((last - first + 1) % top)
  }

  // sgm->max_pages, likewise an int.
  function MaxPages(maxLen: nat): int { ToInt(maxLen / PAGE_SIZE + 2) }

  // Both are right and the scatterlist has room.
  predicate PagesFit(top: nat, start: nat, count: nat)
    requires top > 0 && count > 0
  {
    NrPages(top, start, count) == PageCount(start, count) <= MaxPages(count)
  }

  lemma PageCountBounds(spacePages: nat, start: nat, count: nat)
    requires 0 < count < spacePages * PAGE_SIZE
    ensures count / PAGE_SIZE <= PageCount(start, count) < spacePages * PAGE_SIZE
  {
    assert (start % PAGE_SIZE + count - 1) / PAGE_SIZE <= (count - 1) / PAGE_SIZE + 1;
  }

  lemma PagesBelow(end: nat, spacePages: nat)
    requires end >= spacePages * PAGE_SIZE
    ensures (end - spacePages * PAGE_SIZE) / PAGE_SIZE == end / PAGE_SIZE - spacePages
  {
  }

  // Off by the pages of the whole address space if the buffer wraps around it.
  lemma WrappedPages(top: nat, spacePages: nat, start: nat, count: nat)
    requires top == spacePages * PAGE_SIZE && start < top && 0 < count < top
    ensures var pages := PageCount(start, count);
            count / PAGE_SIZE <= pages < top &&
            NrPages(top, start, count)
            == if start + count - 1 < top then ToInt(pages) else ToInt((pages - spacePages) % top)
  {
    hide ToInt;
    var end, pages := start + count - 1, PageCount(start, count);
    PageCountBounds(spacePages, start, count);
    if end < top {
      UniqueRest(top, end, 0, end);
      UniqueRest(top, pages, 0, pages);
    } else {
      UniqueRest(top, end, 1, end - top);
      PagesBelow(end, spacePages);
    }
  }

  lemma SameInt(x: nat, y: nat)
    ensures x % UINT32 == y % UINT32 ==> ToInt(x) == ToInt(y)
    ensures ToInt(x) == x <==> x <= INT_MAX
    ensures INT_MAX < x <= INT_MAX + 3 ==> ToInt(x) < 0
  {
  }

  // Taking away the pages of a 64-bit address space does not touch the low 32 bits.
  lemma SpacePagesVanish(pages: nat)
    requires pages < UINT64
    ensures (pages - UINT64 / PAGE_SIZE) % UINT64 % UINT32 == pages % UINT32
  {
    var x := (pages - UINT64 / PAGE_SIZE) % UINT64;
    assert UINT64 / PAGE_SIZE == 0x10_0000 * UINT32;
    if pages >= UINT64 / PAGE_SIZE {
      assert pages == x + 0x10_0000 * UINT32;
    } else {
      assert x == pages + (UINT32 - 0x10_0000) * UINT32;
    }
  }

  /** With 64-bit addresses the pages fit if and only if there are few enough for an int.  Whether the
      buffer wraps around the address space does not matter. */
  lemma PagesFitOn64(start: nat, count: nat)
    requires start < UINT64 && 0 < count < UINT64
    ensures PagesFit(UINT64, start, count) <==> count / 4096 + 2 < 0x8000_0000
  {
    hide ToInt, PageCount, NrPages;
    var pages, max := PageCount(start, count), count / PAGE_SIZE + 2;
    MapperHasRoom(start, count);
    WrappedPages(UINT64, UINT64 / PAGE_SIZE, start, count);
    SpacePagesVanish(pages);
    SameInt((pages - UINT64 / PAGE_SIZE) % UINT64, pages);
    SameInt(pages, pages);
    SameInt(max, max);
  }

  lemma SomePage(start: nat, count: nat)
    requires count > 0
    ensures PageCount(start, count) > 0
  {
  }

  /** With 32-bit addresses they fit if and only if the buffer does not wrap around the address space. */
  lemma PagesFitOn32(start: nat, count: nat)
    requires start < UINT32 && 0 < count < UINT32
    ensures PagesFit(UINT32, start, count) <==> start + count - 1 < UINT32
  {
    hide PageCount, NrPages;
    MapperHasRoom(start, count);
    WrappedPages(UINT32, UINT32 / PAGE_SIZE, start, count);
    if start + count - 1 >= UINT32 {
      SomePage(start, count);
    }
  }
}
