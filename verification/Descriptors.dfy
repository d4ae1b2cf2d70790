/**
  DMA descriptors: how the driver fills the words of a descriptor in place, and what a device that reads
  them as little-endian words sees.  Masks over disjoint bit fields are written as arithmetic.
 */
module Descriptors {
  import opened Basics
  import opened Words

  const DESC_SIZE := 32
  const DESC_MAGIC := 0xAD4B_0000
  const MAX_EXTRA_ADJ := 15
  const STOPPED := 1
  const COMPLETED := 2
  const EOP := 16

  // The words as the host stores them.
  datatype Desc = Desc(
    control: u32, bytes: u32, srcLo: u32, srcHi: u32, dstLo: u32, dstHi: u32, nextLo: u32, nextHi: u32)

  const ZEROED := Desc(0, 0, 0, 0, 0, 0, 0, 0)

  // PCI_DMA_L and PCI_DMA_H
  function Low(addr: u64): u32 { addr % UINT32 }
  function High(addr: u64): u32 { addr / UINT32 }

  function SetNext(host: Host, d: Desc, next: u64): Desc {
    d.(nextLo := CpuToLe32(host, Low(next)), nextHi := CpuToLe32(host, High(next)))
  }

  // xdma_desc_set
  function SetTransfer(host: Host, d: Desc, rc: u64, ep: u64, len: u32, toDevice: bool): Desc {
    var src, dst := if toDevice then rc else ep, if toDevice then ep else rc;
    d.(bytes := CpuToLe32(host, len),
       srcLo := CpuToLe32(host, Low(src)), srcHi := CpuToLe32(host, High(src)),
       dstLo := CpuToLe32(host, Low(dst)), dstHi := CpuToLe32(host, High(dst)))
  }

  // control & 0xf0ff
  function WithoutMagicAndAdjacent(control: u32): (r: nat)
    ensures r <= 0xF0FF
  {
    control % 0x100 + control / 0x1000 % 0x10 * 0x1000
  }

  // xdma_desc_link without a second descriptor
  function LinkLast(host: Host, d: Desc): Desc {
    d.(nextLo := 0, nextHi := 0,
       control := CpuToLe32(host, WithoutMagicAndAdjacent(Le32ToCpu(host, d.control)) + DESC_MAGIC))
  }

  // xdma_desc_control
  function SetFlags(host: Host, d: Desc, flags: byte): Desc {
    d.(control := CpuToLe32(host, Le32ToCpu(host, d.control) / 0x100 * 0x100 + flags))
  }

  // How many descriptors beyond the next one are adjacent to it, as far as the hardware may fetch.
  function ExtraAdjacent(nextLo: u32, nextAdjacent: nat): (extra: nat)
    ensures extra <= MAX_EXTRA_ADJ
  {
    if nextAdjacent == 0 then 0
    else
      var extra := if nextAdjacent - 1 > MAX_EXTRA_ADJ then MAX_EXTRA_ADJ else nextAdjacent - 1;
      var max4k := ((0x1000 - nextLo % 0x1000) / DESC_SIZE - 1) % UINT32;
      if extra > max4k then max4k else extra
  }

  // xdma_desc_adjacent
  function SetAdjacent(host: Host, d: Desc, nextAdjacent: nat): Desc {
    var extra := ExtraAdjacent(Le32ToCpu(host, d.nextLo), nextAdjacent);
    d.(control := CpuToLe32(host, WithoutMagicAndAdjacent(Le32ToCpu(host, d.control)) + DESC_MAGIC + extra * 0x100))
  }

  // ---------- What the device sees ----------

  // The control word is magic, number of adjacent descriptors and flags, its other bits being zero.
  datatype View = View(control: u32, bytes: u32, src: u64, dst: u64, next: u64) {
    function Magic(): nat { control / 0x1_0000 }
    function Adjacent(): nat { control / 0x100 % 0x100 }
    function Flags(): nat { control % 0x100 }
  }

  function ViewOf(host: Host, d: Desc): View {
    View(Seen(host, d.control), Seen(host, d.bytes),
         Seen(host, d.srcHi) * UINT32 + Seen(host, d.srcLo),
         Seen(host, d.dstHi) * UINT32 + Seen(host, d.dstLo),
         Seen(host, d.nextHi) * UINT32 + Seen(host, d.nextLo))
  }

  function Control(adjacent: nat, flags: byte): u32
    requires adjacent <= MAX_EXTRA_ADJ
  {
    DESC_MAGIC + adjacent * 0x100 + flags
  }

  lemma ControlFields(adjacent: nat, flags: byte)
    requires adjacent <= MAX_EXTRA_ADJ
    ensures var c := Control(adjacent, flags);
            c / 0x1_0000 == 0xAD4B && c / 0x100 % 0x100 == adjacent && c % 0x100 == flags &&
            WithoutMagicAndAdjacent(c) == flags && c / 0x100 * 0x100 == Control(adjacent, 0)
  {
    var c := Control(adjacent, flags);
    assert c / 0x100 == 0xAD4B00 + adjacent;
    assert c / 0x1000 == 0xAD4B0;
  }

  lemma ViewOfNext(host: Host, d: Desc, next: u64)
    ensures ViewOf(host, SetNext(host, d, next)) == ViewOf(host, d).(next := next)
  {
    ConvertedIsSeen(host, Low(next));
    ConvertedIsSeen(host, High(next));
    hide CpuToLe32, Seen;
  }

  lemma ViewOfControl(host: Host, d: Desc, control: u32)
    ensures ViewOf(host, d.(control := CpuToLe32(host, control))) == ViewOf(host, d).(control := control)
  {
    ConvertedIsSeen(host, control);
    hide CpuToLe32, Seen;
  }

  lemma ViewOfTransfer(host: Host, d: Desc, rc: u64, ep: u64, len: u32, toDevice: bool)
    ensures ViewOf(host, SetTransfer(host, d, rc, ep, len, toDevice))
            == ViewOf(host, d).(bytes := len, src := if toDevice then rc else ep, dst := if toDevice then ep else rc)
  {
    ConvertedIsSeen(host, len);
    ConvertedIsSeen(host, Low(rc));
    ConvertedIsSeen(host, High(rc));
    ConvertedIsSeen(host, Low(ep));
    ConvertedIsSeen(host, High(ep));
    hide CpuToLe32, Seen;
  }

  lemma LowOfNext(host: Host, d: Desc)
    ensures Low(ViewOf(host, d).next) == Le32ToCpu(host, d.nextLo)
  {
    hide Seen, Le32ToCpu;
    SeenAsConverted(host, d.nextLo);
  }

  // xdma_desc_adjacent replaces the adjacent count and keeps the flags.
  lemma ViewOfAdjacent(host: Host, d: Desc, nextAdjacent: nat, adjacent: nat, flags: byte)
    requires adjacent <= MAX_EXTRA_ADJ && ViewOf(host, d).control == Control(adjacent, flags)
    ensures ViewOf(host, SetAdjacent(host, d, nextAdjacent))
            == ViewOf(host, d).(control := Control(ExtraAdjacent(Low(ViewOf(host, d).next), nextAdjacent), flags))
  {
    hide CpuToLe32, Le32ToCpu, Seen, ExtraAdjacent, WithoutMagicAndAdjacent, Low;
    LowOfNext(host, d);
    SeenAsConverted(host, d.control);
    ControlFields(adjacent, flags);
    ViewOfControl(host, d, Control(ExtraAdjacent(Le32ToCpu(host, d.nextLo), nextAdjacent), flags));
  }

  // The descriptor ends the list: a genuine one with no next, none adjacent and just the given flags, its
  // reserved bits and its transfer being the same as before.
  predicate Ends(was: View, v: View, flags: byte) {
    v == was.(control := v.control, next := 0) &&
    v.Magic() == 0xAD4B && v.Flags() == flags && v.Adjacent() == was.Adjacent() / 16 * 16
  }

  lemma ReservedBits(was: u32)
    ensures was / 0x100 % 0x100 / 16 == was / 0x1000 % 0x10
  {
    var x := was / 0x100;
    var q, y := x / 0x100, x % 0x100;
    assert was / 0x1000 == x / 16;
    assert x == 0x100 * q + y;
    assert x / 16 == 16 * q + y / 16 && 0 <= y / 16 < 16;
  }

  lemma KeptBits(high: nat, low: byte, flags: byte)
    requires high < 16
    ensures var c := (low + high * 0x1000 + DESC_MAGIC) / 0x100 * 0x100 + flags;
            c / 0x1_0000 == 0xAD4B && c / 0x100 % 0x100 == high * 16 && c % 0x100 == flags
  {
    assert (low + high * 0x1000 + DESC_MAGIC) / 0x100 == high * 16 + 0xAD4B00;
    var c := (high * 16 + 0xAD4B00) * 0x100 + flags;
    assert c / 0x100 == high * 16 + 0xAD4B00;
  }

  lemma LastControl(was: u32, flags: byte)
    ensures var c := (WithoutMagicAndAdjacent(was) + DESC_MAGIC) / 0x100 * 0x100 + flags;
            c / 0x1_0000 == 0xAD4B && c / 0x100 % 0x100 == was / 0x100 % 0x100 / 16 * 16 && c % 0x100 == flags
  {
    var high, low := was / 0x1000 % 0x10, was % 0x100;
    assert WithoutMagicAndAdjacent(was) == low + high * 0x1000;
    hide WithoutMagicAndAdjacent;
    ReservedBits(was);
    KeptBits(high, low, flags);
  }

  lemma NothingSeen(host: Host)
    ensures Seen(host, 0) == 0
  {
    assert LeBytes(0, 4) == [0, 0, 0, 0] by {
      assert LeBytes(0, 1) == [0] && LeBytes(0, 2) == [0] + LeBytes(0, 1) && LeBytes(0, 3) == [0] + LeBytes(0, 2)
          && LeBytes(0, 4) == [0] + LeBytes(0, 3);
    }
    ValueOfBytes(0, 4);
    Powers();
    assert Reverse([0, 0, 0, 0]) == [0, 0, 0, 0] by {
      var z: seq<byte> := [0];
      assert [0, 0, 0, 0][1..] == [0, 0, 0] && [0, 0, 0][1..] == [0, 0] && [0, 0][1..] == z && z[1..] == [];
      assert Reverse(z) == z && Reverse([0, 0]) == [0, 0] && Reverse([0, 0, 0]) == [0, 0, 0];
    }
  }

  // transfer_terminate, whatever the descriptor's control word was.
  lemma ViewOfLast(host: Host, d: Desc, flags: byte)
    ensures Ends(ViewOf(host, d), ViewOf(host, SetFlags(host, LinkLast(host, d), flags)), flags)
  {
    hide CpuToLe32, Le32ToCpu, Seen, WithoutMagicAndAdjacent;
    var linked, was := LinkLast(host, d), Le32ToCpu(host, d.control);
    var control := WithoutMagicAndAdjacent(was) + DESC_MAGIC;
    SeenAsConverted(host, d.control);
    SeenAsConverted(host, linked.control);
    ConvertedIsSeen(host, control);
    NothingSeen(host);
    LastControl(was, flags);
    ViewOfControl(host, linked, control / 0x100 * 0x100 + flags);
  }

  // The three fields make up the control word.
  lemma ControlIsFields(v: View, adjacent: nat, flags: byte)
    requires adjacent <= MAX_EXTRA_ADJ
    requires v.Magic() == 0xAD4B && v.Adjacent() == adjacent && v.Flags() == flags
    ensures v.control == Control(adjacent, flags)
  {
  }
}
