/**
  From a DMA-mapped scatterlist to descriptors: allocation of the chain, coalescing of contiguous
  entries into descriptors, and termination of the chain.
 */
module Transfer {
  import opened Basics
  import opened Descriptors
  import opened Words

  const DESC_MAX_BYTES := 0x3_FFFF

  // A mapped scatterlist entry: bus address and length.
  datatype Seg = Seg(addr: u64, len: u32)

  // A block may grow by another entry while it has at most this many bytes.
  const ROOM := DESC_MAX_BYTES - PAGE_SIZE

  // No entry is so long that adding it to a growing block wraps.
  predicate Modest(segs: seq<Seg>) { forall k :: 0 <= k < |segs| ==> segs[k].len < UINT32 - ROOM }

  // What one descriptor will transfer: bus address, length, end point address.
  datatype Block = Block(bus: u64, len: u32, ep: u64)

  // unsigned int and dma_addr_t additions wrap.
  function Add32(a: u32, b: u32): u32 { (a + b) % UINT32 }
  function Add64(a: u64, b: nat): u64 { (a + b) % UINT64 }

  // ---------- Coalescing ----------

  // Does a descriptor end with the entry (addr, len), the next entry being at `next`?
  predicate Breaks(addr: u64, len: u32, next: u64, contLen: u32, force: bool) {
    next != Add64(addr, len) || contLen > ROOM || force
  }

  // The descriptors made of entry i and those after it, the current block having begun at contAddr with
  // contLen bytes; the end point address advances only if `step`.
  function Coalesce(segs: seq<Seg>, i: nat, contAddr: u64, contLen: u32, ep: u64, force: bool, step: bool)
    : (r: seq<Block>)
    requires i < |segs|
    ensures 1 <= |r| <= |segs| - i
    decreases |segs| - i
  {
    var len := Add32(contLen, segs[i].len);
    if i == |segs| - 1 then [Block(contAddr, len, ep)]
    else
      var next := segs[i + 1].addr;
      if Breaks(segs[i].addr, segs[i].len, next, len, force) then
        [Block(contAddr, len, ep)]
        + Coalesce(segs, i + 1, next, 0, if step then Add64(ep, len) else ep, force, step)
      else
        Coalesce(segs, i + 1, contAddr, len, ep, force, step)
  }

  function Blocks(segs: seq<Seg>, ep: u64, force: bool, step: bool): (r: seq<Block>)
    requires |segs| > 0
    ensures 1 <= |r| <= |segs|
  {
    Coalesce(segs, 0, segs[0].addr, 0, ep, force, step)
  }

  // ---------- What a transfer moves ----------

  datatype Move = Move(src: u64, dst: u64)

  // One byte after the other, addresses wrapping at 64 bits.
  function Moves(src: u64, len: nat, dst: u64): seq<Move> {
    seq(len, k requires 0 <= k => Move(Add64(src, k), Add64(dst, k)))
  }

  function BlockMoves(bs: seq<Block>): seq<Move> {
    if bs == [] then [] else Moves(bs[0].bus, bs[0].len, bs[0].ep) + BlockMoves(bs[1..])
  }

  // The bytes of the scatterlist, entry by entry, to consecutive end point addresses.
  function SegMoves(segs: seq<Seg>, i: nat, ep: u64): seq<Move>
    requires i <= |segs|
    decreases |segs| - i
  {
    if i == |segs| then [] else Moves(segs[i].addr, segs[i].len, ep) + SegMoves(segs, i + 1, Add64(ep, segs[i].len))
  }

  lemma AddTwice(x: u64, a: nat, b: nat)
    ensures Add64(Add64(x, a), b) == Add64(x, a + b) && Add64(x, 0) == x
  {
  }

  lemma MovesSplit(src: u64, a: nat, b: nat, dst: u64)
    ensures Moves(src, a + b, dst) == Moves(src, a, dst) + Moves(Add64(src, a), b, Add64(dst, a))
  {
    var whole, tail := Moves(src, a + b, dst), Moves(Add64(src, a), b, Add64(dst, a));
    forall k | 0 <= k < |tail|
      ensures whole[a + k] == tail[k]
    {
      AddTwice(src, a, k);
      AddTwice(dst, a, k);
    }
  }

  lemma NotBroken(segs: seq<Seg>, i: nat, contAddr: u64, contLen: u32, force: bool)
    requires i < |segs| - 1 && Add64(contAddr, contLen) == segs[i].addr && contLen + segs[i].len < UINT32
    requires !Breaks(segs[i].addr, segs[i].len, segs[i + 1].addr, contLen + segs[i].len, force)
    ensures Add64(contAddr, contLen + segs[i].len) == segs[i + 1].addr && contLen + segs[i].len <= ROOM
  {
    AddTwice(contAddr, contLen, segs[i].len);
  }

  lemma CoalesceFrom(segs: seq<Seg>, i: nat, contAddr: u64, contLen: u32, ep: u64, force: bool, step: bool)
    requires i < |segs|
    ensures var len := Add32(contLen, segs[i].len);
            if i == |segs| - 1 then Coalesce(segs, i, contAddr, contLen, ep, force, step) == [Block(contAddr, len, ep)]
            else if Breaks(segs[i].addr, segs[i].len, segs[i + 1].addr, len, force) then
              Coalesce(segs, i, contAddr, contLen, ep, force, step)
              == [Block(contAddr, len, ep)]
                 + Coalesce(segs, i + 1, segs[i + 1].addr, 0, if step then Add64(ep, len) else ep, force, step)
            else Coalesce(segs, i, contAddr, contLen, ep, force, step)
                 == Coalesce(segs, i + 1, contAddr, len, ep, force, step)
  {
  }

  lemma SegMovesFrom(segs: seq<Seg>, i: nat, ep: u64)
    requires i <= |segs|
    ensures i == |segs| ==> SegMoves(segs, i, ep) == []
    ensures i < |segs| ==> SegMoves(segs, i, ep)
                           == Moves(segs[i].addr, segs[i].len, ep) + SegMoves(segs, i + 1, Add64(ep, segs[i].len))
  {
  }

  lemma NoMoves(src: u64, dst: u64, rest: seq<Move>)
    ensures Moves(src, 0, dst) + rest == rest
    ensures BlockMoves([]) == []
  {
  }

  lemma BlockMovesCons(b: Block, rest: seq<Block>)
    ensures BlockMoves([b] + rest) == Moves(b.bus, b.len, b.ep) + BlockMoves(rest)
    ensures rest == [] ==> BlockMoves([b]) == Moves(b.bus, b.len, b.ep)
  {
    assert ([b] + rest)[1..] == rest;
    if rest == [] {
      assert [b] + rest == [b];
      assert Moves(b.bus, b.len, b.ep) + [] == Moves(b.bus, b.len, b.ep);
    }
  }

  /** Coalescing preserves meaning: descriptor by descriptor the same bytes go to the same end point
      addresses, in the same order, as entry by entry. */
  lemma {:induction false} CoalescingKeepsMoves(segs: seq<Seg>, i: nat, contAddr: u64, contLen: u32, ep: u64,
                                                  force: bool)
    requires i < |segs| && Add64(contAddr, contLen) == segs[i].addr
    requires contLen <= ROOM && Modest(segs)
    ensures BlockMoves(Coalesce(segs, i, contAddr, contLen, ep, force, true))
            == Moves(contAddr, contLen, ep) + SegMoves(segs, i, Add64(ep, contLen))
    decreases |segs| - i
  {
    hide Coalesce, Moves, SegMoves, BlockMoves, Breaks, Add64;
    var len := contLen + segs[i].len;
    var ep1, ep2 := Add64(ep, contLen), Add64(ep, len);
    var bs, rest := Coalesce(segs, i, contAddr, contLen, ep, force, true), SegMoves(segs, i + 1, ep2);
    CoalesceFrom(segs, i, contAddr, contLen, ep, force, true);
    assert BlockMoves(bs) == Moves(contAddr, len, ep) + rest by {
      if i == |segs| - 1 {
        BlockMovesCons(Block(contAddr, len, ep), []);
        SegMovesFrom(segs, i + 1, ep2);
        assert Moves(contAddr, len, ep) + [] == Moves(contAddr, len, ep);
      } else {
        var next := segs[i + 1].addr;
        if Breaks(segs[i].addr, segs[i].len, next, len, force) {
          AddTwice(ep2, 0, 0);
          AddTwice(next, 0, 0);
          CoalescingKeepsMoves(segs, i + 1, next, 0, ep2, force);
          BlockMovesCons(Block(contAddr, len, ep), Coalesce(segs, i + 1, next, 0, ep2, force, true));
          NoMoves(next, ep2, rest);
        } else {
          NotBroken(segs, i, contAddr, contLen, force);
          CoalescingKeepsMoves(segs, i + 1, contAddr, len, ep, force);
        }
      }
    }
    SegMovesFrom(segs, i, ep1);
    MovesSplit(contAddr, contLen, segs[i].len, ep);
    AddTwice(ep, contLen, segs[i].len);
    Associate(Moves(contAddr, contLen, ep), Moves(segs[i].addr, segs[i].len, ep1), rest);
  }

  // ---------- How far coalescing goes ----------

  // Neighbouring descriptors are separate for a reason: memory is not contiguous there, or the earlier
  // one could not have taken another page.
  predicate Maximal(bs: seq<Block>) {
    forall k :: 0 < k < |bs| ==>
      bs[k].bus != Add64(bs[k - 1].bus, bs[k - 1].len) || bs[k - 1].len > 258047
  }

  lemma MaximalCons(b: Block, bs: seq<Block>)
    requires Maximal(bs) && |bs| > 0
    requires bs[0].bus != Add64(b.bus, b.len) || b.len > ROOM
    ensures Maximal([b] + bs)
  {
  }

  /** Coalescing is maximal: unless every entry is forced apart, it never splits what it could join. */
  lemma {:induction false} CoalescingIsMaximal(segs: seq<Seg>, i: nat, contAddr: u64, contLen: u32, ep: u64, step: bool)
    requires i < |segs| && Add64(contAddr, contLen) == segs[i].addr && contLen <= ROOM && Modest(segs)
    ensures Maximal(Coalesce(segs, i, contAddr, contLen, ep, false, step))
    ensures Coalesce(segs, i, contAddr, contLen, ep, false, step)[0].bus == contAddr
    decreases |segs| - i
  {
    hide Coalesce, Add64;
    var len := contLen + segs[i].len;
    CoalesceFrom(segs, i, contAddr, contLen, ep, false, step);
    if i < |segs| - 1 {
      var next := segs[i + 1].addr;
      AddTwice(contAddr, contLen, segs[i].len);
      if Breaks(segs[i].addr, segs[i].len, next, len, false) {
        AddTwice(next, 0, 0);
        var ep' := if step then Add64(ep, len) else ep;
        CoalescingIsMaximal(segs, i + 1, next, 0, ep', step);
        MaximalCons(Block(contAddr, len, ep), Coalesce(segs, i + 1, next, 0, ep', false, step));
      } else {
        CoalescingIsMaximal(segs, i + 1, contAddr, len, ep, step);
      }
    }
  }

  // ---------- The size of descriptors ----------

  /** Entries of at most one page never make a descriptor longer than the hardware takes. */
  lemma {:induction false} DescriptorsFit(segs: seq<Seg>, i: nat, contAddr: u64, contLen: u32, ep: u64,
                                            force: bool, step: bool)
    requires i < |segs| && contLen <= ROOM
    requires forall k :: 0 <= k < |segs| ==> segs[k].len <= PAGE_SIZE
    ensures forall b :: b in Coalesce(segs, i, contAddr, contLen, ep, force, step) ==> b.len <= 262143
    decreases |segs| - i
  {
    hide Coalesce;
    CoalesceFrom(segs, i, contAddr, contLen, ep, force, step);
    var len := contLen + segs[i].len;
    if i < |segs| - 1 {
      var next := segs[i + 1].addr;
      if Breaks(segs[i].addr, segs[i].len, next, len, force) {
        DescriptorsFit(segs, i + 1, next, 0, if step then Add64(ep, len) else ep, force, step);
      } else {
        DescriptorsFit(segs, i + 1, contAddr, len, ep, force, step);
      }
    }
  }

  predicate AlwaysFits(limit: nat, segs: seq<Seg>)
  {
    |segs| > 0 && (forall k :: 0 <= k < |segs| ==> segs[k].len <= limit) ==>
      forall b :: b in Blocks(segs, 0, false, true) ==> b.len <= 262143
  }

  // A buffer at page offset 1: the rest of its first page, whole pages one behind the other, and a last
  // entry of the given length, as if pages had been merged.  Just before that entry the block holds ROOM
  // bytes, the most that lets it grow.
  const WHOLE_PAGES := 62

  function Growing(last: u32): seq<Seg> {
    [Seg(1, PAGE_SIZE - 1)]
    + seq(WHOLE_PAGES, k requires 0 <= k < WHOLE_PAGES => Seg((k + 1) * PAGE_SIZE, PAGE_SIZE))
    + [Seg((WHOLE_PAGES + 1) * PAGE_SIZE, last)]
  }

  lemma GrowingAt(last: u32, i: nat)
    requires i <= WHOLE_PAGES + 1
    ensures |Growing(last)| == WHOLE_PAGES + 2
    ensures Growing(last)[i] == Seg(if i == 0 then 1 else i * PAGE_SIZE,
                                    if i == 0 then PAGE_SIZE - 1 else if i <= WHOLE_PAGES then PAGE_SIZE else last)
  {
  }

  // All of it becomes a single block.
  lemma {:induction false} GrowsToTheLast(last: u32, i: nat)
    requires i <= WHOLE_PAGES + 1
    ensures |Growing(last)| == WHOLE_PAGES + 2
    ensures Coalesce(Growing(last), i, 1, if i == 0 then 0 else i * PAGE_SIZE - 1, 0, false, true)
            == [Block(1, Add32(ROOM, last), 0)]
    decreases WHOLE_PAGES + 1 - i
  {
    hide Growing, Coalesce;
    var segs, len := Growing(last), if i == 0 then 0 else i * PAGE_SIZE - 1;
    GrowingAt(last, i);
    CoalesceFrom(segs, i, 1, len, 0, false, true);
    if i <= WHOLE_PAGES {
      GrowingAt(last, i + 1);
      GrowsToTheLast(last, i + 1);
    }
  }

  lemma GrowingBlocks(last: u32)
    ensures Blocks(Growing(last), 0, false, true) == [Block(1, Add32(ROOM, last), 0)]
    ensures forall k :: 0 <= k < |Growing(last)| ==>
              Growing(last)[k].len <= if last < PAGE_SIZE then PAGE_SIZE else last
  {
    GrowsToTheLast(last, 0);
  }

  /** One page is the exact bound: descriptors fit for every list of entries of at most `limit` bytes if
      and only if `limit` is at most a page. */
  lemma PageIsTheExactBound(limit: nat)
    ensures (forall segs :: AlwaysFits(limit, segs)) <==> limit <= PAGE_SIZE
  {
    if limit <= PAGE_SIZE {
      forall segs: seq<Seg>
        ensures AlwaysFits(limit, segs)
      {
        if |segs| > 0 && forall k :: 0 <= k < |segs| ==> segs[k].len <= limit {
          DescriptorsFit(segs, 0, segs[0].addr, 0, 0, false, true);
        }
      }
    } else {
      GrowingBlocks(PAGE_SIZE + 1);
      hide Blocks, Growing;
      var segs := Growing(PAGE_SIZE + 1);
      assert Block(1, DESC_MAX_BYTES + 1, 0) in Blocks(segs, 0, false, true);
      assert !AlwaysFits(limit, segs);
    }
  }

  predicate AlwaysKeeps(limit: nat, segs: seq<Seg>)
  {
    |segs| > 0 && (forall k :: 0 <= k < |segs| ==> segs[k].len <= limit) ==>
      BlockMoves(Blocks(segs, 0, false, true)) == SegMoves(segs, 0, 0)
  }

  lemma EntriesKeepMoves(segs: seq<Seg>, ep: u64, force: bool)
    requires |segs| > 0 && Modest(segs)
    ensures BlockMoves(Blocks(segs, ep, force, true)) == SegMoves(segs, 0, ep)
  {
    var addr := segs[0].addr;
    AddTwice(addr, 0, 0);
    AddTwice(ep, 0, 0);
    CoalescingKeepsMoves(segs, 0, addr, 0, ep, force);
    NoMoves(addr, ep, SegMoves(segs, 0, ep));
  }

  lemma {:induction false} SegMovesLength(segs: seq<Seg>, i: nat, ep: u64)
    requires i <= |segs|
    ensures |SegMoves(segs, i, ep)| >= if i < |segs| then segs[|segs| - 1].len else 0
    decreases |segs| - i
  {
    if i < |segs| {
      SegMovesLength(segs, i + 1, Add64(ep, segs[i].len));
    }
  }

  /** The 32-bit length is the other bound: descriptors move the bytes of every list of entries of at most
      `limit` bytes if and only if no such entry can make the length of a block wrap. */
  lemma WrapIsTheExactBound(limit: nat)
    ensures (forall segs :: AlwaysKeeps(limit, segs)) <==> limit < 0x1_0000_0000 - 258047
  {
    if limit < UINT32 - ROOM {
      forall segs: seq<Seg>
        ensures AlwaysKeeps(limit, segs)
      {
        if |segs| > 0 && forall k :: 0 <= k < |segs| ==> segs[k].len <= limit {
          EntriesKeepMoves(segs, 0, false);
        }
      }
    } else {
      var last := UINT32 - ROOM;
      var segs := Growing(last);
      GrowsToTheLast(last, 0);
      GrowingBlocks(last);
      hide Blocks, Coalesce, Moves, SegMoves;
      var b := Block(1, 0, 0);
      BlockMovesCons(b, []);
      assert [b] + [] == [b];
      NoMoves(1, 0, []);
      SegMovesLength(segs, 0, 0);
      assert segs[|segs| - 1].len == last;
      assert !AlwaysKeeps(limit, segs);
    }
  }

  // ---------- The other modes ----------

  /** Forced apart, every entry gets a descriptor of its own. */
  lemma {:induction false} ForcedApart(segs: seq<Seg>, i: nat, ep: u64, step: bool)
    requires i < |segs|
    ensures var bs := Coalesce(segs, i, segs[i].addr, 0, ep, true, step);
            |bs| == |segs| - i &&
            forall k :: 0 <= k < |bs| ==> bs[k].bus == segs[i + k].addr && bs[k].len == segs[i + k].len
    decreases |segs| - i
  {
    hide Coalesce, Add64;
    CoalesceFrom(segs, i, segs[i].addr, 0, ep, true, step);
    if i < |segs| - 1 {
      ForcedApart(segs, i + 1, if step then Add64(ep, segs[i].len) else ep, step);
    }
  }

  /** In the non-incrementing mode the descriptors are the same, but all have the one end point address. */
  lemma {:induction false} NonIncrementing(segs: seq<Seg>, i: nat, contAddr: u64, contLen: u32, ep: u64, other: u64,
                                             force: bool)
    requires i < |segs|
    ensures var bs, stepped := Coalesce(segs, i, contAddr, contLen, ep, force, false),
                               Coalesce(segs, i, contAddr, contLen, other, force, true);
            |bs| == |stepped| && forall k :: 0 <= k < |bs| ==> bs[k] == stepped[k].(ep := ep)
    decreases |segs| - i
  {
    hide Coalesce, Add64, Breaks;
    CoalesceFrom(segs, i, contAddr, contLen, ep, force, false);
    CoalesceFrom(segs, i, contAddr, contLen, other, force, true);
    var len := Add32(contLen, segs[i].len);
    if i < |segs| - 1 {
      var next := segs[i + 1].addr;
      if Breaks(segs[i].addr, segs[i].len, next, len, force) {
        NonIncrementing(segs, i + 1, next, 0, ep, Add64(other, len), force);
      } else {
        NonIncrementing(segs, i + 1, contAddr, len, ep, other, force);
      }
    }
  }

  // ---------- The driver's loops ----------

  // Descriptor i of a freshly allocated chain of the given number at the given bus address.
  predicate Chained(host: Host, number: nat, bus: u64, i: nat, d: Desc)
    requires i < number && bus + number * DESC_SIZE <= UINT64
  {
    var v := ViewOf(host, d);
    v.bytes == 0 && v.next == (if i < number - 1 then bus + (i + 1) * DESC_SIZE else 0) &&
    v.control == Control(if number - i - 2 > MAX_EXTRA_ADJ then MAX_EXTRA_ADJ
                         else if number - i - 2 < 0 then 0 else number - i - 2, 0)
  }

  function Link(host: Host, d: Desc, next: u64, control: u32): Desc {
    SetNext(host, d, next).(bytes := CpuToLe32(host, 0), control := CpuToLe32(host, control))
  }

  lemma LinkedView(host: Host, d: Desc, next: u64, control: u32)
    ensures var v := ViewOf(host, Link(host, d, next, control));
            v.bytes == 0 && v.next == next && v.control == control
  {
    ViewOfNext(host, d, next);
    ConvertedIsSeen(host, 0);
    ConvertedIsSeen(host, control);
    hide CpuToLe32, Seen;
  }

  /** xdma_desc_alloc: every descriptor but the last points at the one behind it. */
  method AllocateChain(host: Host, number: nat, bus: u64) returns (descs: array<Desc>)
    requires number >= 1 && bus + number * DESC_SIZE <= UINT64
    ensures fresh(descs) && descs.Length == number
    ensures forall i :: 0 <= i < number ==> Chained(host, number, bus, i, descs[i])
  {
    hide ViewOf, SetNext, CpuToLe32, Le32ToCpu;
    descs := new Desc[number](_ => ZEROED);
    var descBus: int := bus;
    var adj := number - 1;
    var i := 0;
    while i < number - 1
      invariant 0 <= i <= number - 1 && descBus == bus + i * DESC_SIZE && adj == number - 1 - i
      invariant forall k :: 0 <= k < i ==> Chained(host, number, bus, k, descs[k])
    {
      descBus := descBus + DESC_SIZE;
      var extraAdj := 0;
      if adj > 0 {
        extraAdj := adj - 1;
        if extraAdj > MAX_EXTRA_ADJ {
          extraAdj := MAX_EXTRA_ADJ;
        }
        adj := adj - 1;
      }
      LinkedView(host, descs[i], descBus, DESC_MAGIC + extraAdj * 0x100);
      descs[i] := Link(host, descs[i], descBus, DESC_MAGIC + extraAdj * 0x100);
      i := i + 1;
    }
    LinkedView(host, descs[i], 0, DESC_MAGIC);
    descs[i] := Link(host, descs[i], 0, DESC_MAGIC);
  }

  // A descriptor with the details of a block filled in.
  function Filled(host: Host, d: Desc, b: Block, toDevice: bool): Desc {
    SetTransfer(host, d, b.bus, b.ep, b.len, toDevice)
  }

  // The three tests that end a descriptor.
  method EndsBlock(addr: u64, len: u32, next: u64, contLen: u32, force: bool) returns (newDesc: bool)
    ensures newDesc <==> Breaks(addr, len, next, contLen, force)
  {
    newDesc := false;
    if next != Add64(addr, len) {
      newDesc := true;
    } else if contLen > ROOM {
      newDesc := true;
    }
    if force {
      newDesc := true;
    }
  }

  // An array of descriptors with the given blocks filled into the first ones.
  function FilledFirst(host: Host, ds: seq<Desc>, bs: seq<Block>, toDevice: bool): (r: seq<Desc>)
    requires |bs| <= |ds|
    ensures |r| == |ds|
    ensures forall k :: 0 <= k < |ds| ==> r[k] == if k < |bs| then Filled(host, ds[k], bs[k], toDevice) else ds[k]
  {
    seq(|ds|, k requires 0 <= k < |ds| => if k < |bs| then Filled(host, ds[k], bs[k], toDevice) else ds[k])
  }

  lemma FillNext(host: Host, ds: seq<Desc>, bs: seq<Block>, b: Block, toDevice: bool)
    requires |bs| < |ds|
    ensures FilledFirst(host, ds, bs, toDevice)[|bs| := Filled(host, ds[|bs|], b, toDevice)]
            == FilledFirst(host, ds, bs + [b], toDevice)
    ensures FilledFirst(host, ds, bs, toDevice)[|bs|] == ds[|bs|]
  {
  }

  method WriteBlock(host: Host, descs: array<Desc>, j: nat, b: Block, toDevice: bool)
    requires j < descs.Length
    modifies descs
    ensures descs[..] == old(descs[..])[j := Filled(host, old(descs[j]), b, toDevice)]
  {
    descs[j] := Filled(host, descs[j], b, toDevice);
  }

  /** transfer_build: descriptor k gets block k, in place and keeping its links; the result is the index
      of the last one.  There are never more blocks than descriptors. */
  method BuildTransfer(host: Host, descs: array<Desc>, segs: seq<Seg>, epAddr: u64, toDevice: bool,
                       nonIncrAddr: bool, forceNewDesc: bool, userspace: bool) returns (last: nat)
    requires 0 < |segs| <= descs.Length
    modifies descs
    ensures var bs := Blocks(segs, epAddr, forceNewDesc && !userspace, !(userspace && nonIncrAddr));
            last == |bs| - 1 && descs[..] == FilledFirst(host, old(descs[..]), bs, toDevice)
  {
    hide Coalesce, Filled, FilledFirst, Breaks, Add32, Add64;
    ghost var force, step := forceNewDesc && !userspace, !(userspace && nonIncrAddr);
    ghost var bs, done: seq<Block>, before := Blocks(segs, epAddr, force, step), [], descs[..];
    var ep: u64 := epAddr;
    var contAddr, addr := segs[0].addr, segs[0].addr;
    var contLen: u32 := 0;
    var i, j := 0, 0;
    assert before == FilledFirst(host, before, done, toDevice);
    assert bs == done + bs;
    while i < |segs| - 1
      invariant 0 <= i <= |segs| - 1 && j == |done| <= i && addr == segs[i].addr
      invariant bs == done + Coalesce(segs, i, contAddr, contLen, ep, force, step)
      invariant descs[..] == FilledFirst(host, before, done, toDevice)
    {
      CoalesceFrom(segs, i, contAddr, contLen, ep, force, step);
      var next, len := segs[i + 1].addr, segs[i].len;
      contLen := Add32(contLen, len);
      var newDesc := EndsBlock(addr, len, next, contLen, forceNewDesc && !userspace);
      if newDesc {
        FillNext(host, before, done, Block(contAddr, contLen, ep), toDevice);
        WriteBlock(host, descs, j, Block(contAddr, contLen, ep), toDevice);
        ghost var written := [Block(contAddr, contLen, ep)];
        if userspace {
          if !nonIncrAddr {
            ep := Add64(ep, contLen);
          }
        } else {
          ep := Add64(ep, contLen);
        }
        Associate(done, written, Coalesce(segs, i + 1, next, 0, ep, force, step));
        done := done + written;
        contAddr := next;
        contLen := 0;
        j := j + 1;
      }
      addr := next;
      i := i + 1;
    }
    CoalesceFrom(segs, i, contAddr, contLen, ep, force, step);
    contLen := Add32(contLen, segs[i].len);
    FillNext(host, before, done, Block(contAddr, contLen, ep), toDevice);
    WriteBlock(host, descs, j, Block(contAddr, contLen, ep), toDevice);
    last := j;
  }

  // transfer_terminate: the device sees the end of the list there, with all three flags; the transfer of
  // that descriptor and all other descriptors stay as they were.
  method Terminate(host: Host, descs: array<Desc>, last: nat)
    requires last < descs.Length
    modifies descs
    ensures Ends(old(ViewOf(host, descs[last])), ViewOf(host, descs[last]), 0x13)
    ensures forall k :: 0 <= k < descs.Length && k != last ==> descs[k] == old(descs[k])
  {
    ViewOfLast(host, descs[last], STOPPED + EOP + COMPLETED);
    hide *;
    descs[last] := LinkLast(host, descs[last]);
    descs[last] := SetFlags(host, descs[last], STOPPED + EOP + COMPLETED);
  }

  // The loop over xdma_desc_adjacent.
  method MarkAdjacent(host: Host, descs: array<Desc>, number: nat)
    requires number <= descs.Length
    modifies descs
    ensures forall k :: 0 <= k < descs.Length ==>
              descs[k] == if k < number then SetAdjacent(host, old(descs[k]), number - k - 1) else old(descs[k])
  {
    var i := 0;
    while i < number
      invariant 0 <= i <= number
      invariant forall k :: 0 <= k < descs.Length ==>
                  descs[k] == if k < i then SetAdjacent(host, old(descs[k]), number - k - 1) else old(descs[k])
    {
      descs[i] := SetAdjacent(host, descs[i], number - i - 1);
      i := i + 1;
    }
  }
}
