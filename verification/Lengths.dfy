/**
  The lengths of descriptors: when they are the multiples of 4 that the comment on xdma_desc_set asks for.
 */
module Lengths {
  import opened Basics
  import opened ScatterGather
  import opened Transfer
  import opened Words

  function TotalLength(es: seq<SgEntry>): nat {
    if es == [] then 0 else es[0].length + TotalLength(es[1..])
  }

  // Each mapped entry stands for one or more neighbouring entries of the scatterlist.
  ghost predicate Merges(es: seq<SgEntry>, segs: seq<Seg>)
    decreases |segs|
  {
    if segs == [] then es == []
    else exists n :: 0 < n <= |es| && segs[0].len == TotalLength(es[..n]) && Merges(es[n..], segs[1..])
  }

  predicate EntriesAligned(es: seq<SgEntry>) { forall e <- es :: e.length % 4 == 0 }
  predicate SegsAligned(segs: seq<Seg>) { forall s <- segs :: s.len % 4 == 0 }
  predicate BlocksAligned(bs: seq<Block>) { forall b <- bs :: b.len % 4 == 0 }

  // What a caller can check: whole words, and either a single page or a start at a word.
  predicate WholeWords(start: nat, count: nat)
    requires count > 0
  {
    count % 4 == 0 && (PageCount(start, count) == 1 || start % 4 == 0)
  }

  // A single part is the buffer; otherwise the first reaches to the end of its page, the last from the
  // beginning of its page to the end of the buffer, and those between are whole pages.
  lemma PartLength(start: nat, count: nat, frames: seq<nat>, i: nat)
    requires count > 0 && i < |frames| == PageCount(start, count)
    ensures var length := EntryAt(start, count, frames, i).length;
            0 < length <= PAGE_SIZE &&
            if |frames| == 1 then length == count
            else if i == 0 then length == PAGE_SIZE - start % PAGE_SIZE
            else if i == |frames| - 1 then length == start % PAGE_SIZE + count - i * PAGE_SIZE
            else length == PAGE_SIZE
  {
  }

  lemma SameRest(start: nat)
    ensures start % 4 == start % PAGE_SIZE % 4
  {
    assert start == start / PAGE_SIZE * PAGE_SIZE + start % PAGE_SIZE;
  }

  lemma EntriesAlignedExactly(start: nat, count: nat, frames: seq<nat>)
    requires count > 0 && |frames| == PageCount(start, count)
    ensures EntriesAligned(Entries(start, count, frames)) <==> WholeWords(start, count)
  {
    hide EntryAt, PageCount;
    var es, n := Entries(start, count, frames), |frames|;
    SameRest(start);
    SomePage(start, count);
    PartLength(start, count, frames, 0);
    PartLength(start, count, frames, n - 1);
    assert es[0] in es && es[n - 1] in es;
    if WholeWords(start, count) {
      forall i | 0 <= i < n
        ensures es[i].length % 4 == 0
      {
        PartLength(start, count, frames, i);
      }
    }
  }

  lemma {:induction false} TotalAligned(es: seq<SgEntry>)
    requires EntriesAligned(es)
    ensures TotalLength(es) % 4 == 0
  {
    if es != [] {
      TotalAligned(es[1..]);
    }
  }

  lemma {:induction false} MergedAligned(es: seq<SgEntry>, segs: seq<Seg>)
    requires Merges(es, segs) && EntriesAligned(es)
    ensures SegsAligned(segs)
    decreases |segs|
  {
    if segs != [] {
      var n :| 0 < n <= |es| && segs[0].len == TotalLength(es[..n]) && Merges(es[n..], segs[1..]);
      TotalAligned(es[..n]);
      MergedAligned(es[n..], segs[1..]);
      assert segs == [segs[0]] + segs[1..];
    }
  }

  // Joining entries keeps their lengths aligned, even if the length of a block wraps.
  lemma {:induction false} JoinedAligned(segs: seq<Seg>, i: nat, contAddr: u64, contLen: u32, ep: u64,
                                           force: bool, step: bool)
    requires i < |segs| && contLen % 4 == 0 && SegsAligned(segs)
    ensures BlocksAligned(Coalesce(segs, i, contAddr, contLen, ep, force, step))
    decreases |segs| - i
  {
    hide Coalesce, Breaks, Add64;
    CoalesceFrom(segs, i, contAddr, contLen, ep, force, step);
    assert segs[i] in segs;
    var len := Add32(contLen, segs[i].len);
    if i < |segs| - 1 {
      var next := segs[i + 1].addr;
      if Breaks(segs[i].addr, segs[i].len, next, len, force) {
        JoinedAligned(segs, i + 1, next, 0, if step then Add64(ep, len) else ep, force, step);
      } else {
        JoinedAligned(segs, i + 1, contAddr, len, ep, force, step);
      }
    }
  }

  // ---------- A mapping that joins nothing ----------

  function Place(k: nat): (addr: u64)
    ensures addr % 0x2000 == 0
  {
    k % (UINT64 / 0x2000) * 0x2000
  }

  // Every part in a page of its own, with a gap behind it.
  function Apart(es: seq<SgEntry>): (r: seq<Seg>)
    requires forall e <- es :: 0 < e.length && e.offset + e.length <= PAGE_SIZE
    ensures |r| == |es|
    ensures forall k :: 0 <= k < |es| ==> r[k] == Seg(Place(k) + es[k].offset, es[k].length)
  {
    seq(|es|, k requires 0 <= k < |es| => assert es[k] in es; Seg(Place(k) + es[k].offset, es[k].length))
  }

  lemma NextRest(k: nat)
    ensures k % (UINT64 / 0x2000) != (k + 1) % (UINT64 / 0x2000)
  {
  }

  lemma NeverTouching(es: seq<SgEntry>, k: nat)
    requires k + 1 < |es| && forall e <- es :: 0 < e.length && e.offset + e.length <= PAGE_SIZE
    ensures var segs := Apart(es);
            segs[k + 1].addr != Add64(segs[k].addr, segs[k].len)
  {
    assert es[k] in es && es[k + 1] in es;
    var places := UINT64 / 0x2000;
    var here, next := k % places, (k + 1) % places;
    assert here != next by {
      NextRest(k);
    }
    var a, b := es[k].offset + es[k].length, es[k + 1].offset;
    assert here * 0x2000 + a < UINT64;
    assert here * 0x2000 + a != next * 0x2000 + b;
  }

  lemma {:induction false} ApartBlocks(segs: seq<Seg>, i: nat, ep: u64)
    requires i < |segs|
    requires forall k :: 0 <= k < |segs| - 1 ==> segs[k + 1].addr != Add64(segs[k].addr, segs[k].len)
    ensures var bs := Coalesce(segs, i, segs[i].addr, 0, ep, false, true);
            |bs| == |segs| - i && forall k :: 0 <= k < |bs| ==> bs[k].len == segs[i + k].len
    decreases |segs| - i
  {
    hide Coalesce, Add64;
    CoalesceFrom(segs, i, segs[i].addr, 0, ep, false, true);
    if i < |segs| - 1 {
      ApartBlocks(segs, i + 1, Add64(ep, segs[i].len));
    }
  }

  lemma {:induction false} MergesEach(es: seq<SgEntry>, segs: seq<Seg>)
    requires |es| == |segs| && forall k :: 0 <= k < |es| ==> segs[k].len == es[k].length
    ensures Merges(es, segs)
  {
    if segs != [] {
      MergesEach(es[1..], segs[1..]);
      assert es[..1] == [es[0]] && [es[0]][1..] == [];
      assert TotalLength(es[..1]) == es[0].length + TotalLength([]);
    }
  }

  // ---------- The condition ----------

  lemma PartsInPages(start: nat, count: nat, frames: seq<nat>)
    requires count > 0 && |frames| == PageCount(start, count)
    ensures forall e <- Entries(start, count, frames) :: 0 < e.length && e.offset + e.length <= PAGE_SIZE
  {
  }

  // A mapping under which every part gets a descriptor of its own.
  lemma Unmerged(start: nat, count: nat, frames: seq<nat>, ep: u64) returns (segs: seq<Seg>)
    requires count > 0 && |frames| == PageCount(start, count)
    ensures segs != [] && Merges(Entries(start, count, frames), segs)
    ensures var es, bs := Entries(start, count, frames), Blocks(segs, ep, false, true);
            |bs| == |es| && forall k :: 0 <= k < |es| ==> bs[k].len == es[k].length
  {
    hide Coalesce, Merges, Add64;
    var es := Entries(start, count, frames);
    PartsInPages(start, count, frames);
    segs := Apart(es);
    forall k | 0 <= k < |segs| - 1
      ensures segs[k + 1].addr != Add64(segs[k].addr, segs[k].len)
    {
      NeverTouching(es, k);
    }
    MergesEach(es, segs);
    ApartBlocks(segs, 0, ep);
  }

  /** Every descriptor of a buffer has a multiple of 4 as its length, however the kernel maps and merges its
      pages, if and only if the count is one and the buffer lies in one page or starts at a word. */
  lemma AlignedExactly(start: nat, count: nat, frames: seq<nat>, ep: u64)
    requires count > 0 && |frames| == PageCount(start, count)
    ensures (forall segs: seq<Seg> | segs != [] && Merges(Entries(start, count, frames), segs) ::
               BlocksAligned(Blocks(segs, ep, false, true)))
            <==> WholeWords(start, count)
  {
    hide EntryAt, PageCount, Coalesce, Merges, Apart, WholeWords, Add64;
    var es := Entries(start, count, frames);
    EntriesAlignedExactly(start, count, frames);
    if WholeWords(start, count) {
      forall segs: seq<Seg> | segs != [] && Merges(es, segs)
        ensures BlocksAligned(Blocks(segs, ep, false, true))
      {
        MergedAligned(es, segs);
        JoinedAligned(segs, 0, segs[0].addr, 0, ep, false, true);
      }
    } else {
      var segs := Unmerged(start, count, frames, ep);
      var bs := Blocks(segs, ep, false, true);
      var e :| e in es && e.length % 4 != 0;
      var k :| 0 <= k < |es| && es[k] == e;
      assert bs[k] in bs && bs[k].len == e.length;
    }
  }

  // And whatever the mapping, aligned descriptors move a multiple of 4 bytes in all.
  lemma {:induction false} AlignedMoves(bs: seq<Block>)
    requires BlocksAligned(bs)
    ensures |BlockMoves(bs)| % 4 == 0
  {
    if bs != [] {
      var rest := BlockMoves(bs[1..]);
      AlignedMoves(bs[1..]);
      assert bs[0] in bs;
      assert |BlockMoves(bs)| == bs[0].len + |rest|;
      hide Moves, BlockMoves, BlocksAligned;
    }
  }

  /** For instance: a single byte at the start of a page gives one descriptor of length 1, and eight bytes
      across a page boundary may give two of lengths 2 and 6. */
  lemma Unaligned(page: nat, frame: nat, other: nat, addr: u64, ep: u64)
    ensures var es := Entries(page * PAGE_SIZE, 1, [frame]);
            es == [SgEntry(frame, 0, 1)] && Merges(es, [Seg(addr, 1)]) &&
            Blocks([Seg(addr, 1)], ep, false, true) == [Block(addr, 1, ep)]
    ensures var start := page * PAGE_SIZE + 4094;
            var es := Entries(start, 8, [frame, other]);
            es == [SgEntry(frame, 4094, 2), SgEntry(other, 0, 6)] &&
            exists segs :: segs != [] && Merges(es, segs) &&
                           |Blocks(segs, ep, false, true)| == 2 && Blocks(segs, ep, false, true)[0].len == 2
                           && Blocks(segs, ep, false, true)[1].len == 6
  {
    var start := page * PAGE_SIZE + 4094;
    assert PageCount(page * PAGE_SIZE, 1) == 1 && PageCount(start, 8) == 2;
    MergesEach(Entries(page * PAGE_SIZE, 1, [frame]), [Seg(addr, 1)]);
    var segs := Unmerged(start, 8, [frame, other], ep);
    assert Entries(start, 8, [frame, other]) == [SgEntry(frame, 4094, 2), SgEntry(other, 0, 6)];
  }
}
