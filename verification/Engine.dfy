/**
  The engine's reading of descriptors in host memory: one by one along the next pointers, or in bursts
  of adjacent descriptors as the device does.  Both give nothing when they meet a descriptor without the
  magic number, leave the memory that holds the list, or find no end to it.
 */
module Engine {
  import opened Arithmetic
  import opened Basics
  import opened Descriptors
  import opened Words

  predicate Genuine(v: View) { v.Magic() == 0xAD4B }
  predicate Stops(v: View) { v.Flags() % 2 == STOPPED }

  function SlotAt(base: nat, addr: nat): Option<nat> {
    if addr < base || (addr - base) % DESC_SIZE != 0 then None else Some((addr - base) / DESC_SIZE)
  }

  function Prepend(vs: seq<View>, rest: Option<seq<View>>): Option<seq<View>> {
    if rest == None then None else Some(vs + rest.value)
  }

  // One descriptor at a time.
  function Walk(mem: seq<View>, base: nat, addr: nat, fuel: nat): Option<seq<View>>
    decreases fuel
  {
    var slot := SlotAt(base, addr);
    if slot == None || slot.value >= |mem| || fuel == 0 || !Genuine(mem[slot.value]) then None
    else
      var v := mem[slot.value];
      if Stops(v) then Some([v]) else Prepend([v], Walk(mem, base, v.next, fuel - 1))
  }

  // What counts of a burst: everything up to the first descriptor that stops the engine.
  function UpToStop(burst: seq<View>): (r: seq<View>)
    ensures burst != [] ==> r != []
  {
    if burst == [] then []
    else if Stops(burst[0]) then [burst[0]]
    else [burst[0]] + UpToStop(burst[1..])
  }

  predicate AllGenuine(vs: seq<View>) { forall v <- vs :: Genuine(v) }

  // 1 + extra descriptors at once; a burst must not cross a 4 KiB boundary.
  predicate BurstAllowed(mem: seq<View>, base: nat, addr: nat, extra: nat) {
    var slot := SlotAt(base, addr);
    slot.Some? && slot.value + extra < |mem| && addr % PAGE_SIZE + (1 + extra) * DESC_SIZE <= PAGE_SIZE
  }

  function FetchWalk(mem: seq<View>, base: nat, addr: nat, extra: nat, fuel: nat): Option<seq<View>>
    decreases fuel
  {
    if fuel == 0 || !BurstAllowed(mem, base, addr, extra) then None
    else
      var s := SlotAt(base, addr).value;
      var got := UpToStop(mem[s..s + extra + 1]);
      var last := got[|got| - 1];
      if !AllGenuine(got) then None
      else if Stops(last) then Some(got)
      else Prepend(got, FetchWalk(mem, base, last.next, last.Adjacent(), fuel - 1))
  }

  // A list in memory order, whatever its adjacent counts.
  predicate Linked(mem: seq<View>, base: nat) {
    |mem| > 0 &&
    forall i :: 0 <= i < |mem| ==>
      Genuine(mem[i]) && (Stops(mem[i]) <==> i == |mem| - 1) &&
      (i < |mem| - 1 ==> mem[i].next == base + (i + 1) * DESC_SIZE)
  }

  // Every adjacent count is one that the engine can honour.
  predicate Honourable(mem: seq<View>, base: nat) {
    forall i :: 0 <= i < |mem| - 1 ==> BurstAllowed(mem, base, base + (i + 1) * DESC_SIZE, mem[i].Adjacent())
  }

  lemma SlotAtAddress(base: nat, s: nat)
    ensures SlotAt(base, base + s * DESC_SIZE) == Some(s)
  {
  }

  lemma {:induction false} LinkedWalk(mem: seq<View>, base: nat, s: nat, fuel: nat)
    requires Linked(mem, base) && s < |mem| && fuel >= |mem| - s
    ensures Walk(mem, base, base + s * DESC_SIZE, fuel) == Some(mem[s..])
    decreases |mem| - s
  {
    hide Genuine, Stops, SlotAt;
    SlotAtAddress(base, s);
    assert mem[s..] == [mem[s]] + mem[s + 1..];
    if s < |mem| - 1 {
      LinkedWalk(mem, base, s + 1, fuel - 1);
      assert !Stops(mem[s]) && mem[s].next == base + (s + 1) * DESC_SIZE;
    } else {
      assert mem[s..] == [mem[s]];
    }
  }

  lemma {:induction false} NoStopInside(mem: seq<View>, base: nat, s: nat, e: nat)
    requires Linked(mem, base) && s < e <= |mem|
    ensures UpToStop(mem[s..e]) == mem[s..e] && AllGenuine(mem[s..e])
    decreases e - s
  {
    hide Genuine, Stops;
    if s + 1 < e {
      NoStopInside(mem, base, s + 1, e);
    }
    assert mem[s..e] == [mem[s]] + mem[s + 1..e] && mem[s..e][1..] == mem[s + 1..e];
    assert UpToStop([]) == [];
  }

  // One burst of the walk, over a linked list.
  lemma FetchOnce(mem: seq<View>, base: nat, s: nat, extra: nat, fuel: nat)
    requires Linked(mem, base) && s < |mem| && fuel > 0
    requires BurstAllowed(mem, base, base + s * DESC_SIZE, extra)
    ensures var e := s + extra + 1;
            e <= |mem| &&
            FetchWalk(mem, base, base + s * DESC_SIZE, extra, fuel)
            == if e == |mem| then Some(mem[s..])
               else Prepend(mem[s..e], FetchWalk(mem, base, base + e * DESC_SIZE, mem[e - 1].Adjacent(), fuel - 1))
  {
    hide Genuine, Stops, UpToStop, AllGenuine, SlotAt, View.Adjacent;
    SlotAtAddress(base, s);
    var e := s + extra + 1;
    NoStopInside(mem, base, s, e);
    var got := mem[s..e];
    assert got[|got| - 1] == mem[e - 1];
    assert mem[s..|mem|] == mem[s..];
  }

  lemma NoBurst(mem: seq<View>, base: nat, addr: nat, extra: nat, fuel: nat)
    requires fuel == 0 || !BurstAllowed(mem, base, addr, extra)
    ensures FetchWalk(mem, base, addr, extra, fuel) == None
  {
  }

  /** Bursts refine links: whatever the adjacent counts say, if reading in bursts gets to the end at all it
      has seen exactly the descriptors that the next pointers lead to. */
  lemma {:induction false} BurstsRefineLinks(mem: seq<View>, base: nat, s: nat, extra: nat, fuel: nat)
    requires Linked(mem, base) && s < |mem|
    ensures var got := FetchWalk(mem, base, base + s * DESC_SIZE, extra, fuel);
            got.Some? ==> got == Walk(mem, base, base + s * DESC_SIZE, |mem|) == Some(mem[s..])
    decreases fuel
  {
    hide Walk, FetchWalk, BurstAllowed, SlotAt, Genuine, Stops, Linked;
    LinkedWalk(mem, base, s, |mem|);
    if fuel == 0 || !BurstAllowed(mem, base, base + s * DESC_SIZE, extra) {
      NoBurst(mem, base, base + s * DESC_SIZE, extra, fuel);
    }
    if fuel > 0 && BurstAllowed(mem, base, base + s * DESC_SIZE, extra) {
      var e := s + extra + 1;
      FetchOnce(mem, base, s, extra, fuel);
      if e < |mem| {
        BurstsRefineLinks(mem, base, e, mem[e - 1].Adjacent(), fuel - 1);
        assert mem[s..] == mem[s..e] + mem[e..];
      }
    }
  }

  /** If all counts can be honoured, the reading ends well exactly when its first burst is allowed. */
  lemma {:induction false} BurstsReachTheEnd(mem: seq<View>, base: nat, s: nat, extra: nat, fuel: nat)
    requires Linked(mem, base) && Honourable(mem, base) && s < |mem| && fuel >= |mem| - s
    ensures FetchWalk(mem, base, base + s * DESC_SIZE, extra, fuel)
            == if BurstAllowed(mem, base, base + s * DESC_SIZE, extra) then Some(mem[s..]) else None
    decreases fuel
  {
    hide FetchWalk, SlotAt, Genuine, Stops, Linked;
    if !BurstAllowed(mem, base, base + s * DESC_SIZE, extra) {
      NoBurst(mem, base, base + s * DESC_SIZE, extra, fuel);
    }
    if BurstAllowed(mem, base, base + s * DESC_SIZE, extra) {
      var e := s + extra + 1;
      FetchOnce(mem, base, s, extra, fuel);
      if e < |mem| {
        BurstsReachTheEnd(mem, base, e, mem[e - 1].Adjacent(), fuel - 1);
        assert mem[s..] == mem[s..e] + mem[e..];
      }
    }
  }

  // ---------- The driver's adjacent counts ----------

  lemma OffsetOfLow(next: u64)
    requires next % DESC_SIZE == 0
    ensures Low(next) % 0x1000 == next % PAGE_SIZE && next % PAGE_SIZE % DESC_SIZE == 0
  {
    var high: nat, low: nat, k: nat, r: nat := High(next), Low(next), next / PAGE_SIZE, next % PAGE_SIZE;
    UniqueRest(0x1000, low, k - high * 0x10_0000, r);
    UniqueRest(DESC_SIZE, r, next / DESC_SIZE - k * 128, 0);
  }

  lemma ExtraIsClamped(nextLo: u32, nextAdjacent: nat, room: nat)
    requires nextAdjacent > 0 && room == (0x1000 - nextLo % 0x1000) / DESC_SIZE && 1 <= room <= 128
    ensures var wanted := if nextAdjacent - 1 > MAX_EXTRA_ADJ then MAX_EXTRA_ADJ else nextAdjacent - 1;
            ExtraAdjacent(nextLo, nextAdjacent) == if wanted > room - 1 then room - 1 else wanted
  {
  }

  lemma RoomInPage(off: nat)
    requires off < 0x1000 && off % DESC_SIZE == 0
    ensures var room := (0x1000 - off) / DESC_SIZE;
            1 <= room <= 128 && off + room * DESC_SIZE == 0x1000 && (room - 1) % UINT32 == room - 1
  {
  }

  /** xdma_desc_adjacent: the count never reaches beyond the list and the burst it allows stays within
      4 KiB, provided that descriptors are aligned to their size. */
  lemma AdjacentCountIsSafe(next: u64, nextAdjacent: nat)
    requires next % DESC_SIZE == 0 && nextAdjacent > 0
    ensures var extra := ExtraAdjacent(Low(next), nextAdjacent);
            extra + 1 <= nextAdjacent && next % PAGE_SIZE + (1 + extra) * DESC_SIZE <= PAGE_SIZE
    ensures var extra := ExtraAdjacent(Low(next), nextAdjacent);
            extra + 1 == nextAdjacent || extra == MAX_EXTRA_ADJ
            || next % PAGE_SIZE + (2 + extra) * DESC_SIZE > PAGE_SIZE
  {
    hide Low, ExtraAdjacent;
    OffsetOfLow(next);
    RoomInPage(next % PAGE_SIZE);
    ExtraIsClamped(Low(next), nextAdjacent, (0x1000 - next % PAGE_SIZE) / DESC_SIZE);
  }

  // The registers that start a transfer, as the device reads them.
  datatype Registers = Registers(firstLo: u32, firstHi: u32, firstAdjacent: u32) {
    function First(): u64 { firstHi * UINT32 + firstLo }
  }

  // The adjacent count of the first descriptor in a list of n.
  function FirstAdjacent(n: nat): nat {
    if n == 0 then 0 else if n - 1 > MAX_EXTRA_ADJ then MAX_EXTRA_ADJ else n - 1
  }

  // What the engine reads once started.
  function Read(mem: seq<View>, base: nat, start: Registers): Option<seq<View>> {
    FetchWalk(mem, base, start.First(), start.firstAdjacent, |mem|)
  }

  // Is a word the same with its bytes reversed?
  predicate Symmetric(x: u32) {
    x % 256 == x / 0x100_0000 && x / 256 % 256 == x / 0x1_0000 % 256
  }

  // Whether the host may be relied upon to start a list of n descriptors at bus address `bus`.
  predicate Startable(host: Host, n: nat, bus: u64) {
    host == LittleEndian || (n == 1 && Symmetric(Low(bus)) && Symmetric(High(bus)))
  }

  lemma WordBytes(x: u32)
    ensures LeBytes(x, 4) == [x % 256, x / 256 % 256, x / 0x1_0000 % 256, x / 0x100_0000]
  {
    hide LeBytes;
    LeBytesAt(x, 4, 0);
    LeBytesAt(x, 4, 1);
    LeBytesAt(x, 4, 2);
    LeBytesAt(x, 4, 3);
    Powers();
    assert Pow256(0) == 1 && Pow256(3) == 256 * Pow256(2);
    hide Pow256;
  }

  lemma ReverseFour(bytes: seq<byte>)
    requires |bytes| == 4
    ensures Reverse(bytes) == [bytes[3], bytes[2], bytes[1], bytes[0]]
  {
    var one, two, three := [bytes[3]], [bytes[2], bytes[3]], [bytes[1], bytes[2], bytes[3]];
    assert one[1..] == [] && two[1..] == one && three[1..] == two && bytes[1..] == three;
    assert Reverse(one) == [bytes[3]] && Reverse(two) == [bytes[3], bytes[2]];
    assert Reverse(three) == [bytes[3], bytes[2], bytes[1]];
  }

  lemma SymmetricBytes(x: u32)
    ensures Symmetric(x) <==> Reverse(LeBytes(x, 4)) == LeBytes(x, 4)
  {
    hide LeBytes, Reverse;
    WordBytes(x);
    ReverseFour(LeBytes(x, 4));
  }

  // A word survives the conversion exactly if the host is little-endian or the word is symmetric.
  lemma ConvertedAlike(host: Host, x: u32)
    ensures CpuToLe32(host, x) == x <==> host == LittleEndian || Symmetric(x)
  {
    hide LeBytes, FromLe, Reverse, Symmetric, Pow256;
    var bytes := LeBytes(x, 4);
    SymmetricBytes(x);
    BytesOfValue(Reverse(bytes));
    ValueOfBytes(x, 4);
    Powers();
  }

  lemma SmallConverted(x: u32)
    requires x <= MAX_EXTRA_ADJ
    ensures CpuToLe32(BigEndian, x) == x * 0x100_0000
  {
    var bytes := LeBytes(x, 4);
    WordBytes(x);
    ReverseFour(bytes);
    var high: seq<byte> := [0, 0, 0] + [x];
    assert Reverse(bytes) == high;
    assert high[1..] == [0, 0, x] && high[1..][1..] == [0, x] && [0, x][1..] == [x] && [x][1..] == [];
    assert FromLe([x]) == x && FromLe([0, x]) == 256 * x && FromLe([0, 0, x]) == 0x1_0000 * x;
    hide LeBytes, Reverse;
  }

  // A register after the host has written v to it with iowrite32, which converts v and stores it.
  function Written(host: Host, v: u32): u32 {
    Seen(host, CpuToLe32(host, v))
  }

  // The registers after transfer_start has written the start of a list of n, each value converted first.
  function Started(host: Host, bus: u64, n: nat): Registers {
    Registers(Written(host, CpuToLe32(host, Low(bus))), Written(host, CpuToLe32(host, High(bus))),
              Written(host, CpuToLe32(host, FirstAdjacent(n))))
  }

  // The write undoes its own conversion, but not the one before it.
  lemma StartedTwiceConverted(host: Host, bus: u64, n: nat)
    ensures Started(host, bus, n)
            == Registers(CpuToLe32(host, Low(bus)), CpuToLe32(host, High(bus)), CpuToLe32(host, FirstAdjacent(n)))
  {
    hide CpuToLe32, Seen;
    ConvertedIsSeen(host, CpuToLe32(host, Low(bus)));
    ConvertedIsSeen(host, CpuToLe32(host, High(bus)));
    ConvertedIsSeen(host, CpuToLe32(host, FirstAdjacent(n)));
  }

  lemma SmallSymmetric(x: u32)
    requires x <= MAX_EXTRA_ADJ
    ensures Symmetric(x) <==> x == 0
  {
  }

  // Reading the whole list takes the address of its first descriptor and a first burst within it.
  lemma ReadsAll(mem: seq<View>, bus: u64, seen: Registers)
    requires Linked(mem, bus) && Honourable(mem, bus) && bus % PAGE_SIZE == 0
    ensures Read(mem, bus, seen) == Some(mem) <==>
            seen.firstLo == Low(bus) && seen.firstHi == High(bus) &&
            seen.firstAdjacent < |mem| && seen.firstAdjacent <= 127
  {
    hide Linked, Honourable, FetchWalk;
    var addr, extra := seen.First(), seen.firstAdjacent;
    assert addr == bus <==> seen.firstLo == Low(bus) && seen.firstHi == High(bus);
    var slot := SlotAt(bus, addr);
    if slot.Some? && slot.value < |mem| {
      var s := slot.value;
      assert addr == bus + s * DESC_SIZE;
      BurstsReachTheEnd(mem, bus, s, extra, |mem|);
      assert |mem[s..]| == |mem| - s;
      assert s == 0 ==> mem[s..] == mem;
    } else {
      NoBurst(mem, bus, addr, extra, |mem|);
      SlotAtAddress(bus, 0);
    }
  }

  lemma NotEmpty(mem: seq<View>, bus: u64)
    requires Linked(mem, bus)
    ensures mem != []
  {
  }

  /** The engine reads the whole list exactly when the registers survived their double conversion: always
      from a little-endian host; from a big-endian one only a single descriptor at a symmetric address. */
  lemma StartsRight(host: Host, mem: seq<View>, bus: u64)
    requires Linked(mem, bus) && Honourable(mem, bus) && bus % PAGE_SIZE == 0
    ensures Read(mem, bus, Started(host, bus, |mem|)) == Some(mem) <==> Startable(host, |mem|, bus)
  {
    hide Linked, Honourable, Read, CpuToLe32, Symmetric, Started;
    var extra, seen := FirstAdjacent(|mem|), Started(host, bus, |mem|);
    StartedTwiceConverted(host, bus, |mem|);
    ConvertedAlike(host, Low(bus));
    ConvertedAlike(host, High(bus));
    ConvertedAlike(host, extra);
    SmallConverted(extra);
    ReadsAll(mem, bus, seen);
    SmallSymmetric(extra);
    assert mem != [] by {
      NotEmpty(mem, bus);
    }
    assert extra == 0 <==> |mem| == 1;
  }

  /** Started by a big-endian host, the engine reads nothing at all of two or more descriptors, whatever
      they say: the adjacent count that it sees is beyond any page. */
  lemma StartsNothing(mem: seq<View>, bus: u64)
    requires |mem| >= 2
    ensures Read(mem, bus, Started(BigEndian, bus, |mem|)) == None
  {
    hide CpuToLe32, Started;
    var seen := Started(BigEndian, bus, |mem|);
    StartedTwiceConverted(BigEndian, bus, |mem|);
    SmallConverted(FirstAdjacent(|mem|));
    NoBurst(mem, bus, seen.First(), seen.firstAdjacent, |mem|);
  }

  // write_register: one conversion on the way to the device, so that it reads what is written.
  method WriteRegister(host: Host, value: u32) returns (seen: u32)
    ensures seen == value
  {
    hide CpuToLe32, Seen;
    ConvertedIsSeen(host, value);
    var stored := CpuToLe32(host, value);
    seen := Seen(host, stored);
  }

  // Where the device finds the list, and what tells it so.
  predicate StartSeen(host: Host, bus: u64, n: nat, seen: Registers) {
    if host == LittleEndian then
      seen.First() == bus && 1 + seen.firstAdjacent == if n == 0 then 1 else if n < 16 then n else 16
    else
      seen.firstLo == Bswap(Low(bus), 4) && seen.firstHi == Bswap(High(bus), 4) && (seen.firstAdjacent == 0 <==> n <= 1)
  }

  /** transfer_start up to the start: from a little-endian host the device gets the list's address and up
      to sixteen descriptors for its first burst, from a big-endian one the same words with their bytes
      reversed; so it reads the whole list exactly if it is startable. */
  method WriteRegisters(host: Host, bus: u64, descAdjacent: nat) returns (seen: Registers)
    ensures StartSeen(host, bus, descAdjacent, seen)
    ensures forall mem | bus % PAGE_SIZE == 0 && Linked(mem, bus) && Honourable(mem, bus) && |mem| == descAdjacent ::
              Read(mem, bus, seen) == Some(mem) <==> Startable(host, |mem|, bus)
  {
    hide Seen, Startable, Linked, Honourable, Read, Bswap;
    var extraAdj := 0;
    if descAdjacent > 0 {
      extraAdj := descAdjacent - 1;
      if extraAdj > MAX_EXTRA_ADJ {
        extraAdj := MAX_EXTRA_ADJ;
      }
    }
    SmallConverted(extraAdj);
    var adjacent := WriteRegister(host, CpuToLe32(host, extraAdj));
    var lo := WriteRegister(host, CpuToLe32(host, Low(bus)));
    var hi := WriteRegister(host, CpuToLe32(host, High(bus)));
    seen := Registers(lo, hi, adjacent);
    StartedTwiceConverted(host, bus, descAdjacent);
    forall mem | bus % PAGE_SIZE == 0 && Linked(mem, bus) && Honourable(mem, bus) && |mem| == descAdjacent
      ensures Read(mem, bus, seen) == Some(mem) <==> Startable(host, |mem|, bus)
    {
      StartsRight(host, mem, bus);
    }
  }
}
