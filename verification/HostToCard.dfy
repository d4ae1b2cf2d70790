/**
  A write to the card from end to end: a user buffer is pinned, mapped for DMA, described by a chain of
  descriptors and handed to the engine.
 */
module HostToCard {
  import opened Basics
  import opened Descriptors
  import opened Engine
  import opened Lengths
  import opened ScatterGather
  import opened Transfer
  import opened Words

  // ---------- What the descriptors say in the end ----------

  function EngineMoves(vs: seq<View>): seq<Move> {
    if vs == [] then [] else Moves(vs[0].src, vs[0].bytes, vs[0].dst) + EngineMoves(vs[1..])
  }

  predicate Terminated(host: Host, d: Desc, n: nat, i: nat, e: Desc) {
    if i == n - 1 then Ends(ViewOf(host, d), ViewOf(host, e), 0x13) else e == d
  }

  // Descriptor i of n made of d: the block filled in, the last one terminated, and its count of adjacent
  // descriptors set.
  ghost predicate Finished(host: Host, d: Desc, b: Block, n: nat, i: nat, e: Desc)
    requires i < n
  {
    exists t :: Terminated(host, Filled(host, d, b, true), n, i, t) && e == SetAdjacent(host, t, n - i - 1)
  }

  // What the device should see there.
  function Intended(bus: u64, b: Block, n: nat, i: nat): View
    requires i < n && bus + n * DESC_SIZE <= UINT64
  {
    if i == n - 1 then View(Control(0, 0x13), b.len, b.bus, b.ep, 0)
    else
      var next := bus + (i + 1) * DESC_SIZE;
      View(Control(ExtraAdjacent(Low(next), n - i - 1), 0), b.len, b.bus, b.ep, next)
  }

  lemma FieldsOf(v: View, adjacent: nat, flags: byte)
    requires adjacent <= MAX_EXTRA_ADJ && v.control == Control(adjacent, flags)
    ensures v.Magic() == 0xAD4B && v.Adjacent() == adjacent && v.Flags() == flags
  {
    ControlFields(adjacent, flags);
  }

  lemma FinishedAsIntended(host: Host, number: nat, bus: u64, d: Desc, b: Block, n: nat, i: nat, e: Desc)
    requires i < n <= number && bus + number * DESC_SIZE <= UINT64 && Chained(host, number, bus, i, d)
    requires Finished(host, d, b, n, i, e)
    ensures ViewOf(host, e) == Intended(bus, b, n, i)
  {
    hide ViewOf, SetTransfer, SetAdjacent, Control, CpuToLe32, Le32ToCpu, Low, View.Magic, View.Adjacent, View.Flags;
    var filled := Filled(host, d, b, true);
    var t :| Terminated(host, filled, n, i, t) && e == SetAdjacent(host, t, n - i - 1);
    ViewOfTransfer(host, d, b.bus, b.ep, b.len, true);
    var adjacent := if number - i - 2 > MAX_EXTRA_ADJ then MAX_EXTRA_ADJ
                    else if number - i - 2 < 0 then 0 else number - i - 2;
    if i == n - 1 {
      ControlFields(adjacent, 0);
      assert ViewOf(host, filled).Adjacent() == adjacent by {
        FieldsOf(ViewOf(host, filled), adjacent, 0);
      }
      ControlIsFields(ViewOf(host, t), 0, 0x13);
      ViewOfAdjacent(host, t, 0, 0, 0x13);
    } else {
      ViewOfAdjacent(host, filled, n - i - 1, adjacent, 0);
    }
  }

  // The list that the device should see.
  function IntendedList(bus: u64, bs: seq<Block>): (r: seq<View>)
    requires bus + |bs| * DESC_SIZE <= UINT64
    ensures |r| == |bs|
    ensures forall i :: 0 <= i < |bs| ==> r[i] == Intended(bus, bs[i], |bs|, i)
  {
    seq(|bs|, i requires 0 <= i < |bs| => Intended(bus, bs[i], |bs|, i))
  }

  lemma IntendedControl(bus: u64, b: Block, n: nat, i: nat)
    requires i < n && bus + n * DESC_SIZE <= UINT64
    ensures var v := Intended(bus, b, n, i);
            Genuine(v) && (Stops(v) <==> i == n - 1) &&
            (i < n - 1 ==> v.next == bus + (i + 1) * DESC_SIZE && v.Adjacent() == ExtraAdjacent(Low(v.next), n - i - 1))
  {
    hide ExtraAdjacent;
    ControlFields(0, 0x13);
    if i < n - 1 {
      ControlFields(ExtraAdjacent(Low(bus + (i + 1) * DESC_SIZE), n - i - 1), 0);
    }
    hide Control;
  }

  lemma IntendedAt(bus: u64, bs: seq<Block>, i: nat)
    requires i < |bs| && bus % PAGE_SIZE == 0 && bus + |bs| * DESC_SIZE <= UINT64
    ensures var vs := IntendedList(bus, bs);
            Genuine(vs[i]) && (Stops(vs[i]) <==> i == |vs| - 1) &&
            (i < |vs| - 1 ==> vs[i].next == bus + (i + 1) * DESC_SIZE &&
                              BurstAllowed(vs, bus, vs[i].next, vs[i].Adjacent()))
  {
    hide ExtraAdjacent, Control, Intended, SlotAt, Low, Genuine, Stops, View.Adjacent;
    IntendedControl(bus, bs[i], |bs|, i);
    if i < |bs| - 1 {
      var next := bus + (i + 1) * DESC_SIZE;
      assert next % DESC_SIZE == 0;
      SlotAtAddress(bus, i + 1);
      AdjacentCountIsSafe(next, |bs| - i - 1);
    }
  }

  /** The list is linked in memory order, stops the engine at its end only, and never lets it fetch beyond
      its end or across a 4 KiB boundary. */
  lemma IntendedIsReadable(bus: u64, bs: seq<Block>)
    requires |bs| > 0 && bus % PAGE_SIZE == 0 && bus + |bs| * DESC_SIZE <= UINT64
    ensures Linked(IntendedList(bus, bs), bus) && Honourable(IntendedList(bus, bs), bus)
  {
    hide Intended, BurstAllowed, Genuine, Stops, View.Adjacent;
    var vs := IntendedList(bus, bs);
    forall i | 0 <= i < |vs|
      ensures Genuine(vs[i]) && (Stops(vs[i]) <==> i == |vs| - 1)
      ensures i < |vs| - 1 ==> vs[i].next == bus + (i + 1) * DESC_SIZE
      ensures i < |vs| - 1 ==> BurstAllowed(vs, bus, bus + (i + 1) * DESC_SIZE, vs[i].Adjacent())
    {
      IntendedAt(bus, bs, i);
    }
  }

  lemma {:induction false} SameMoves(vs: seq<View>, bs: seq<Block>)
    requires |vs| == |bs|
    requires forall i :: 0 <= i < |bs| ==> vs[i].src == bs[i].bus && vs[i].bytes == bs[i].len && vs[i].dst == bs[i].ep
    ensures EngineMoves(vs) == BlockMoves(bs)
  {
    if bs != [] {
      SameMoves(vs[1..], bs[1..]);
    }
  }

  // ---------- From the buffer's bytes to bus addresses ----------

  function Addresses(addr: u64, len: nat): (r: seq<u64>)
    ensures |r| == len && forall k :: 0 <= k < len ==> r[k] == Add64(addr, k)
  {
    seq(len, k requires 0 <= k => Add64(addr, k))
  }

  // The bus address of every byte of a mapped scatterlist.
  function BusBytes(segs: seq<Seg>, i: nat): seq<u64>
    requires i <= |segs|
    decreases |segs| - i
  {
    if i == |segs| then [] else Addresses(segs[i].addr, segs[i].len) + BusBytes(segs, i + 1)
  }

  // Byte k goes to ep + k.
  function Onto(src: seq<u64>, ep: u64): (r: seq<Move>)
    ensures |r| == |src| && forall k :: 0 <= k < |src| ==> r[k] == Move(src[k], Add64(ep, k))
  {
    seq(|src|, k requires 0 <= k < |src| => Move(src[k], Add64(ep, k)))
  }

  lemma OntoConcat(a: seq<u64>, b: seq<u64>, ep: u64)
    ensures Onto(a + b, ep) == Onto(a, ep) + Onto(b, Add64(ep, |a|))
  {
    hide Add64;
    var whole, tail := Onto(a + b, ep), Onto(b, Add64(ep, |a|));
    forall k | 0 <= k < |b|
      ensures whole[|a| + k] == tail[k]
    {
      AddTwice(ep, |a|, k);
    }
  }

  lemma {:induction false} SegMovesAreOnto(segs: seq<Seg>, i: nat, ep: u64)
    requires i <= |segs|
    ensures SegMoves(segs, i, ep) == Onto(BusBytes(segs, i), ep)
    decreases |segs| - i
  {
    if i < |segs| {
      var s := segs[i];
      var here, rest := Addresses(s.addr, s.len), BusBytes(segs, i + 1);
      SegMovesAreOnto(segs, i + 1, Add64(ep, s.len));
      OntoConcat(here, rest, ep);
      assert Moves(s.addr, s.len, ep) == Onto(here, ep);
    }
  }

  function Translated(bus: Location -> u64, bytes: seq<Location>): (r: seq<u64>)
    ensures |r| == |bytes| && forall k :: 0 <= k < |bytes| ==> r[k] == bus(bytes[k])
  {
    seq(|bytes|, k requires 0 <= k < |bytes| => bus(bytes[k]))
  }

  // ---------- The kernel's services ----------

  // room: is there memory for the mapper; got and frames: the result of get_user_pages_fast and the page
  // frames it pinned; mapped: the scatterlist that pci_map_sg makes of another, empty on failure, bus
  // being where it lets the device find a byte of memory; chain: the bus address that
  // pci_alloc_consistent gives to a number of descriptors.
  datatype Kernel = Kernel(room: bool, got: int, frames: seq<nat>, mapped: seq<SgEntry> -> seq<Seg>,
                           bus: Location -> u64, chain: nat -> Option<u64>)

  predicate PinsPages(k: Kernel, start: nat, count: nat) {
    count > 0 ==> k.got <= PageCount(start, count) && |k.frames| == if k.got < 0 then 0 else k.got
  }

  // Neighbouring entries may be merged, within the bound of Transfer.WrapIsTheExactBound, but every byte is
  // mapped and they keep their order.
  ghost predicate MapsBytes(k: Kernel) {
    forall es: seq<SgEntry> :: |k.mapped(es)| <= |es| &&
      (k.mapped(es) != [] ==> Modest(k.mapped(es)) && BusBytes(k.mapped(es), 0) == Translated(k.bus, AllBytes(es)))
  }

  ghost predicate AllocatesPages(k: Kernel) {
    forall n: nat :: k.chain(n).Some? ==>
      k.chain(n).value % PAGE_SIZE == 0 && k.chain(n).value + n * DESC_SIZE <= UINT64
  }

  // ---------- The write ----------

  // base, memory and seen: what the engine is started with.
  datatype Outcome = Crashed | Returned(written: nat, base: u64, memory: seq<View>, seen: Registers)

  // Whether the kernel serves every request of the write.
  predicate Served(k: Kernel, start: nat, count: nat)
    requires PinsPages(k, start, count)
  {
    count > 0 && k.room && k.got == PageCount(start, count) &&
    var segs := k.mapped(Entries(start, count, k.frames));
    segs != [] && k.chain(|segs|).Some?
  }

  function PageOf(start: nat, n: nat): nat { (start % PAGE_SIZE + n) / PAGE_SIZE }

  /** Transferred: the engine moves byte k of the buffer, wherever its page is, to end point address ep + k. */
  predicate Transferred(k: Kernel, start: nat, count: nat, ep: u64, moves: seq<Move>)
    requires count > 0 && |k.frames| == PageCount(start, count)
  {
    |moves| == count &&
    forall n: nat :: n < count ==>
      PageOf(start, n) < |k.frames| && moves[n] == Move(k.bus(BufferByte(start, k.frames, n)), Add64(ep, n))
  }

  lemma PageInRange(start: nat, count: nat, n: nat)
    requires n < count
    ensures PageOf(start, n) < PageCount(start, count)
  {
  }

  /** The blocks of a mapped buffer move the buffer. */
  lemma MapMovesBuffer(k: Kernel, start: nat, count: nat, ep: u64)
    requires PinsPages(k, start, count) && MapsBytes(k) && Served(k, start, count)
    ensures Transferred(k, start, count, ep,
                        BlockMoves(Blocks(k.mapped(Entries(start, count, k.frames)), ep, false, true)))
  {
    hide Blocks, BlockMoves, SegMoves, Modest, BusBytes, AllBytes, EntryAt, PageCount;
    var es := Entries(start, count, k.frames);
    var segs := k.mapped(es);
    EntriesKeepMoves(segs, ep, false);
    SegMovesAreOnto(segs, 0, ep);
    EntriesCoverBuffer(start, count, k.frames, es);
    forall n: nat | n < count
      ensures PageOf(start, n) < |k.frames|
    {
      PageInRange(start, count, n);
    }
  }

  function Views(host: Host, ds: seq<Desc>): (r: seq<View>)
    ensures |r| == |ds| && forall i :: 0 <= i < |ds| ==> r[i] == ViewOf(host, ds[i])
  {
    seq(|ds|, i requires 0 <= i < |ds| => ViewOf(host, ds[i]))
  }

  lemma FinishedList(host: Host, number: nat, bus: u64, chained: seq<Desc>, bs: seq<Block>, ds: seq<Desc>)
    requires |bs| == |ds| <= |chained| == number && bus + number * DESC_SIZE <= UINT64
    requires forall i :: 0 <= i < number ==> Chained(host, number, bus, i, chained[i])
    requires forall i :: 0 <= i < |bs| ==> Finished(host, chained[i], bs[i], |bs|, i, ds[i])
    ensures Views(host, ds) == IntendedList(bus, bs)
  {
    hide ViewOf, Finished, Intended, Chained;
    forall i | 0 <= i < |bs|
      ensures Views(host, ds)[i] == IntendedList(bus, bs)[i]
    {
      FinishedAsIntended(host, number, bus, chained[i], bs[i], |bs|, i, ds[i]);
    }
  }

  lemma FinishedAll(host: Host, chained: seq<Desc>, bs: seq<Block>, filled: seq<Desc>, ended: seq<Desc>, ds: seq<Desc>)
    requires 0 < |bs| == |ds| <= |chained| && filled == FilledFirst(host, chained, bs, true) && |ended| == |filled|
    requires Ends(ViewOf(host, filled[|bs| - 1]), ViewOf(host, ended[|bs| - 1]), 0x13)
    requires forall k :: 0 <= k < |filled| && k != |bs| - 1 ==> ended[k] == filled[k]
    requires forall i :: 0 <= i < |bs| ==> ds[i] == SetAdjacent(host, ended[i], |bs| - i - 1)
    ensures forall i :: 0 <= i < |bs| ==> Finished(host, chained[i], bs[i], |bs|, i, ds[i])
  {
    hide Filled, SetAdjacent, ViewOf, Ends;
    forall i | 0 <= i < |bs|
      ensures Finished(host, chained[i], bs[i], |bs|, i, ds[i])
    {
      assert filled[i] == Filled(host, chained[i], bs[i], true);
      assert Terminated(host, filled[i], |bs|, i, ended[i]);
    }
  }

  // The last descriptor stops the engine, completes, ends the packet and points nowhere; the others set
  // no flag, and each lets the engine fetch as many descriptors behind the next as the list, the page and
  // the hardware's sixteen allow.
  predicate ControlRight(v: View, n: nat, i: nat) {
    v.Magic() == 0xAD4B &&
    if i + 1 == n then v.control == 0xAD4B_0013 && v.next == 0
    else
      v.Flags() == 0 &&
      (i + 2 + v.Adjacent() == n || v.Adjacent() == 15 || v.next % 4096 + (2 + v.Adjacent()) * 32 > 4096)
  }

  predicate ControlsRight(vs: seq<View>) {
    forall i :: 0 <= i < |vs| ==> ControlRight(vs[i], |vs|, i)
  }

  lemma IntendedControlRight(bus: u64, b: Block, n: nat, i: nat)
    requires i < n && bus % PAGE_SIZE == 0 && bus + n * DESC_SIZE <= UINT64
    ensures ControlRight(Intended(bus, b, n, i), n, i)
  {
    hide ExtraAdjacent, Low;
    if i == n - 1 {
      ControlFields(0, 0x13);
    } else {
      var next := bus + (i + 1) * DESC_SIZE;
      var adjacent := ExtraAdjacent(Low(next), n - i - 1);
      assert next % DESC_SIZE == 0;
      AdjacentCountIsSafe(next, n - i - 1);
      ControlFields(adjacent, 0);
      hide Control;
    }
  }

  lemma IntendedControls(bus: u64, bs: seq<Block>)
    requires bus % PAGE_SIZE == 0 && bus + |bs| * DESC_SIZE <= UINT64
    ensures ControlsRight(IntendedList(bus, bs))
  {
    hide Intended, ControlRight;
    var vs := IntendedList(bus, bs);
    forall i | 0 <= i < |vs|
      ensures ControlRight(vs[i], |vs|, i)
    {
      IntendedControlRight(bus, bs[i], |bs|, i);
    }
  }

  // xpcie_h2c_write from the mapped scatterlist on: the chain, and the registers it is started with.
  method Describe(host: Host, segs: seq<Seg>, bus: u64, epAddr: u64) returns (memory: seq<View>, seen: Registers)
    requires segs != [] && bus % PAGE_SIZE == 0 && bus + |segs| * DESC_SIZE <= UINT64
    ensures memory == IntendedList(bus, Blocks(segs, epAddr, false, true))
    ensures Read(memory, bus, seen) == Some(memory) <==> Startable(host, |memory|, bus)
    ensures StartSeen(host, bus, |memory|, seen)
  {
    hide Filled, Finished, Terminated, Chained, SetAdjacent, ViewOf, Ends, Coalesce, Linked, Honourable, Read,
      Startable, Bswap, Intended;
    var descs := AllocateChain(host, |segs|, bus);
    ghost var chained := descs[..];
    ghost var bs := Blocks(segs, epAddr, false, true);
    var last := BuildTransfer(host, descs, segs, epAddr, true, false, false, true);
    ghost var filled := descs[..];
    Terminate(host, descs, last);
    ghost var ended := descs[..];
    MarkAdjacent(host, descs, last + 1);
    FinishedAll(host, chained, bs, filled, ended, descs[..last + 1]);
    FinishedList(host, |segs|, bus, chained, bs, descs[..last + 1]);
    memory := Views(host, descs[..last + 1]);
    seen := WriteRegisters(host, bus, last + 1);
    IntendedIsReadable(bus, bs);
  }

  lemma WriteIsAligned(start: nat, count: nat, frames: seq<nat>, ep: u64, segs: seq<Seg>, bs: seq<Block>, vs: seq<View>)
    requires count > 0 && |frames| == PageCount(start, count) && segs != [] && bs == Blocks(segs, ep, false, true)
    requires |BlockMoves(bs)| == count
    requires |vs| == |bs| && forall i :: 0 <= i < |bs| ==> vs[i].bytes == bs[i].len
    ensures Merges(Entries(start, count, frames), segs) && WholeWords(start, count) ==>
              forall v <- vs :: v.bytes % 4 == 0
    ensures (forall v <- vs :: v.bytes % 4 == 0) ==> count % 4 == 0
  {
    hide PageCount, Merges, WholeWords, Coalesce;
    if Merges(Entries(start, count, frames), segs) && WholeWords(start, count) {
      AlignedExactly(start, count, frames, ep);
      forall i | 0 <= i < |vs|
        ensures vs[i].bytes % 4 == 0
      {
        assert bs[i] in bs;
      }
    }
    if forall v <- vs :: v.bytes % 4 == 0 {
      forall i | 0 <= i < |bs|
        ensures bs[i].len % 4 == 0
      {
        assert vs[i] in vs;
      }
      AlignedMoves(bs);
    }
  }

  // Neighbouring descriptors are separate only for a gap in memory or because the first has grown enough.
  predicate Unsplit(vs: seq<View>) {
    forall k :: 0 < k < |vs| ==> vs[k].src != Add64(vs[k - 1].src, vs[k - 1].bytes) || vs[k - 1].bytes > 258047
  }

  lemma NeverSplit(segs: seq<Seg>, ep: u64, bus: u64)
    requires segs != [] && Modest(segs) && bus + |segs| * DESC_SIZE <= UINT64
    ensures Unsplit(IntendedList(bus, Blocks(segs, ep, false, true)))
  {
    AddTwice(segs[0].addr, 0, 0);
    CoalescingIsMaximal(segs, 0, segs[0].addr, 0, ep, true);
    hide Coalesce, Add64, ExtraAdjacent, Control;
  }

  lemma MappedModest(k: Kernel, es: seq<SgEntry>)
    requires MapsBytes(k) && k.mapped(es) != []
    ensures Modest(k.mapped(es))
  {
  }

  lemma IntendedMoves(bus: u64, bs: seq<Block>)
    requires bus + |bs| * DESC_SIZE <= UINT64
    ensures var vs := IntendedList(bus, bs);
            EngineMoves(vs) == BlockMoves(bs) && forall i :: 0 <= i < |bs| ==> vs[i].bytes == bs[i].len
  {
    hide ExtraAdjacent, Control;
    SameMoves(IntendedList(bus, bs), bs);
  }

  lemma WriteIsRight(host: Host, k: Kernel, start: nat, count: nat, ep: u64, bus: u64, segs: seq<Seg>)
    requires PinsPages(k, start, count) && MapsBytes(k) && AllocatesPages(k) && Served(k, start, count)
    requires segs == k.mapped(Entries(start, count, k.frames)) && k.chain(|segs|) == Some(bus)
    ensures bus % PAGE_SIZE == 0 && bus + |segs| * DESC_SIZE <= UINT64
    ensures var memory := IntendedList(bus, Blocks(segs, ep, false, true));
            Linked(memory, bus) && Honourable(memory, bus) && ControlsRight(memory) && Unsplit(memory) &&
            Transferred(k, start, count, ep, EngineMoves(memory)) &&
            ((forall e <- segs :: e.len <= PAGE_SIZE) ==> forall v <- memory :: v.bytes <= 262143) &&
            (Merges(Entries(start, count, k.frames), segs) && WholeWords(start, count) ==>
               forall v <- memory :: v.bytes % 4 == 0) &&
            ((forall v <- memory :: v.bytes % 4 == 0) ==> count % 4 == 0)
  {
    hide PageCount, EntryAt, Read, Startable, Linked, Honourable, Coalesce, CpuToLe32, MapsBytes, Control, Intended,
      ControlsRight, Unsplit, Modest;
    var bs := Blocks(segs, ep, false, true);
    var memory := IntendedList(bus, bs);
    IntendedIsReadable(bus, bs);
    IntendedControls(bus, bs);
    MappedModest(k, Entries(start, count, k.frames));
    NeverSplit(segs, ep, bus);
    IntendedMoves(bus, bs);
    MapMovesBuffer(k, start, count, ep);
    if forall e <- segs :: e.len <= PAGE_SIZE {
      DescriptorsFit(segs, 0, segs[0].addr, 0, ep, false, true);
    }
    WriteIsAligned(start, count, k.frames, ep, segs, bs, memory);
  }

  /** xpcie_h2c_write.  It returns exactly when the kernel serves it, in the end no page is left pinned, and
      the engine, started right, moves the whole buffer and nothing else. */
  method Write(host: Host, start: nat, count: nat, epAddr: u64, k: Kernel)
      returns (r: Outcome, ghost pinned: multiset<nat>)
    requires PinsPages(k, start, count) && MapsBytes(k) && AllocatesPages(k)
    ensures r.Returned? <==> Served(k, start, count)
    ensures r.Returned? ==> r.written == count && pinned == multiset{}
    ensures r.Crashed? ==>
              pinned == if count > 0 && k.room && k.got == PageCount(start, count) then multiset(k.frames)
                        else multiset{}
    ensures r.Returned? ==> k.chain(|k.mapped(Entries(start, count, k.frames))|) == Some(r.base)
    ensures r.Returned? ==> StartSeen(host, r.base, |r.memory|, r.seen)
    ensures r.Returned? ==> Linked(r.memory, r.base) && Honourable(r.memory, r.base) && ControlsRight(r.memory)
    ensures r.Returned? ==> Unsplit(r.memory)
    ensures r.Returned? ==> Transferred(k, start, count, epAddr, EngineMoves(r.memory))
    ensures r.Returned? ==> (Read(r.memory, r.base, r.seen) == Some(r.memory) <==> Startable(host, |r.memory|, r.base))
    ensures r.Returned? && (forall e <- k.mapped(Entries(start, count, k.frames)) :: e.len <= PAGE_SIZE) ==>
              forall v <- r.memory :: v.bytes <= 262143
    ensures r.Returned? && WholeWords(start, count)
            && Merges(Entries(start, count, k.frames), k.mapped(Entries(start, count, k.frames))) ==>
              forall v <- r.memory :: v.bytes % 4 == 0
    ensures r.Returned? && (forall v <- r.memory :: v.bytes % 4 == 0) ==> count % 4 == 0
  {
    hide PageCount, EntryAt, Intended, Read, Startable, Linked, Honourable, Coalesce, CpuToLe32, Merges, WholeWords,
      ControlsRight, Unsplit, StartSeen;
    pinned := multiset{};
    if count == 0 || !k.room {
      return Crashed, pinned;
    }
    var sgm := new Mapper(count);
    MapperHasRoom(start, count);
    var rc := sgm.GetUserPages(start, count, k.got, k.frames);
    pinned := sgm.pins;
    if sgm.mappedPages == 0 {
      return Crashed, pinned;
    }
    var entries := sgm.sgl[..sgm.mappedPages];
    assert entries == Entries(start, count, k.frames);
    var segs := k.mapped(entries);
    if |segs| < 1 {
      return Crashed, pinned;
    }
    var bus := k.chain(|segs|);
    if bus == None {
      return Crashed, pinned;
    }
    var memory, seen := Describe(host, segs, bus.value, epAddr);
    WriteIsRight(host, k, start, count, epAddr, bus.value, segs);
    sgm.PutPages();
    pinned := sgm.pins;
    r := Returned(count, bus.value, memory, seen);
  }

  // ---------- A kernel that keeps its contracts ----------

  // Memory as the device finds it without any translation.
  function FlatBus(l: Location): u64 { (l.page * PAGE_SIZE + l.offset) % UINT64 }

  function FlatMap(es: seq<SgEntry>): seq<Seg> {
    if exists e <- es :: e.length >= UINT32 - ROOM then []
    else
      seq(|es|, i requires 0 <= i < |es| =>
        assert es[i] in es; Seg(FlatBus(Location(es[i].page, es[i].offset)), es[i].length))
  }

  lemma {:induction false} AllBytesCons(es: seq<SgEntry>)
    requires es != []
    ensures AllBytes(es) == EntryBytes(es[0]) + AllBytes(es[1..])
  {
    var front := es[..|es| - 1];
    if front != [] {
      AllBytesCons(front);
      assert es[1..][..|es| - 2] == front[1..];
      hide EntryBytes;
    }
  }

  lemma FlatEntry(e: SgEntry, s: Seg)
    requires s.addr == FlatBus(Location(e.page, e.offset)) && s.len == e.length
    ensures Addresses(s.addr, s.len) == Translated(FlatBus, EntryBytes(e))
  {
  }

  lemma {:induction false} FlatBytes(es: seq<SgEntry>, i: nat)
    requires i <= |es| == |FlatMap(es)|
    ensures BusBytes(FlatMap(es), i) == Translated(FlatBus, AllBytes(es[i..]))
    decreases |es| - i
  {
    if i < |es| {
      FlatBytes(es, i + 1);
      AllBytesCons(es[i..]);
      assert es[i..][1..] == es[i + 1..];
      FlatEntry(es[i], FlatMap(es)[i]);
      hide FlatMap, FlatBus, AllBytes, EntryBytes;
    }
  }

  /** Any buffer of a 64-bit size can be served by a kernel that keeps its contracts, so that what Write
      promises is never empty. */
  lemma SomeKernelServes(start: nat, count: nat) returns (k: Kernel)
    requires 0 < count < UINT64
    ensures PinsPages(k, start, count) && MapsBytes(k) && AllocatesPages(k) && Served(k, start, count)
  {
    var n := PageCount(start, count);
    k := Kernel(true, n, seq(n, i => i), FlatMap, FlatBus,
                (d: nat) => if PAGE_SIZE + d * DESC_SIZE <= UINT64 then Some(PAGE_SIZE) else None);
    forall es: seq<SgEntry>
      ensures |FlatMap(es)| <= |es|
      ensures FlatMap(es) != [] ==> Modest(FlatMap(es)) && BusBytes(FlatMap(es), 0) == Translated(FlatBus, AllBytes(es))
    {
      if FlatMap(es) != [] {
        FlatBytes(es, 0);
        assert es[0..] == es;
      }
    }
    var es := Entries(start, count, k.frames);
    PartsInPages(start, count, k.frames);
    MapperHasRoom(start, count);
    assert |FlatMap(es)| == n;
    hide FlatMap;
  }

  /** For instance: from a big-endian host the engine reads nothing of two descriptors for two pages, though
      the list in memory is right; from a little-endian one it reads both. */
  lemma BigEndianStartsNothing()
    ensures var bus, bs := 0x1000, [Block(0, 4096, 0), Block(0x2000, 4096, 4096)];
            var memory := IntendedList(bus, bs);
            Read(memory, bus, Started(BigEndian, bus, 2)) == None &&
            Read(memory, bus, Started(LittleEndian, bus, 2)) == Some(memory)
  {
    hide Read, Started, Linked, Honourable, Intended;
    var bus, bs := 0x1000, [Block(0, 4096, 0), Block(0x2000, 4096, 4096)];
    var memory := IntendedList(bus, bs);
    IntendedIsReadable(bus, bs);
    StartsNothing(memory, bus);
    StartsRight(LittleEndian, memory, bus);
  }
}
