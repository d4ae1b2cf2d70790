/**
  Words as bytes: little-endian values, what a little- or big-endian host loads and stores, and the
  byte swaps that make up for it.
 */
module Words {
  import opened Arithmetic
  import opened Basics

  datatype Host = LittleEndian | BigEndian

  // The n low bytes of x, least significant first.
  function LeBytes(x: nat, n: nat): (r: seq<byte>)
    ensures |r| == n
  {
    if n == 0 then [] else [x % 256] + LeBytes(x / 256, n - 1)
  }

  function FromLe(bytes: seq<byte>): nat {
    if bytes == [] then 0 else bytes[0] + 256 * FromLe(bytes[1..])
  }

  function Pow256(n: nat): (r: nat)
    ensures r >= 1
  {
    if n == 0 then 1 else 256 * Pow256(n - 1)
  }

  function Reverse(bytes: seq<byte>): (r: seq<byte>)
    ensures |r| == |bytes|
  {
    if bytes == [] then [] else Reverse(bytes[1..]) + [bytes[0]]
  }

  // An n-byte load or store through a pointer; a store keeps the n low bytes.
  function HostLoad(host: Host, bytes: seq<byte>): nat {
    FromLe(if host == LittleEndian then bytes else Reverse(bytes))
  }

  function HostStore(host: Host, x: nat, n: nat): seq<byte> {
    if host == LittleEndian then LeBytes(x, n) else Reverse(LeBytes(x, n))
  }

  // __bswap_16 and __bswap_32, the argument being cut to n bytes.
  function Bswap(x: nat, n: nat): nat {
    FromLe(Reverse(LeBytes(x, n)))
  }

  // The macros ltohs/ltohl and htols/htoll, n being 2 or 4.
  function LittleToHost(host: Host, x: nat, n: nat): nat {
    if host == LittleEndian then x else Bswap(x, n)
  }

  function HostToLittle(host: Host, x: nat, n: nat): nat {
    if host == LittleEndian then x else Bswap(x, n)
  }

  lemma {:induction false} BytesOfValue(bytes: seq<byte>)
    ensures LeBytes(FromLe(bytes), |bytes|) == bytes
  {
    if bytes != [] {
      BytesOfValue(bytes[1..]);
      UniqueRest(256, FromLe(bytes), FromLe(bytes[1..]), bytes[0]);
      assert bytes == [bytes[0]] + bytes[1..];
    }
  }

  lemma {:induction false} ValueOfBytes(x: nat, n: nat)
    ensures FromLe(LeBytes(x, n)) == x % Pow256(n)
    ensures FromLe(LeBytes(x, n)) < Pow256(n)
  {
    if n > 0 {
      ValueOfBytes(x / 256, n - 1);
      DivideTwice(x, Pow256(n - 1));
      assert LeBytes(x, n)[1..] == LeBytes(x / 256, n - 1);
    }
  }

  lemma {:induction false} ReverseAppend(a: seq<byte>, b: byte)
    ensures Reverse(a + [b]) == [b] + Reverse(a)
  {
    if a == [] {
      assert a + [b] == [b] && [b][1..] == [];
    } else {
      ReverseAppend(a[1..], b);
      assert (a + [b])[1..] == a[1..] + [b];
    }
  }

  lemma {:induction false} ReverseTwice(bytes: seq<byte>)
    ensures Reverse(Reverse(bytes)) == bytes
  {
    if bytes != [] {
      ReverseTwice(bytes[1..]);
      ReverseAppend(Reverse(bytes[1..]), bytes[0]);
      assert bytes == [bytes[0]] + bytes[1..];
    }
  }

  /** On either host, loading n bytes and converting gives their little-endian value. */
  lemma LoadIsLittleEndian(host: Host, bytes: seq<byte>)
    ensures LittleToHost(host, HostLoad(host, bytes), |bytes|) == FromLe(bytes)
  {
    BytesOfValue(Reverse(bytes));
    ReverseTwice(bytes);
  }

  /** On either host, converting and storing leaves the n low bytes of the value in little-endian order. */
  lemma StoreIsLittleEndian(host: Host, x: nat, n: nat)
    ensures HostStore(host, HostToLittle(host, x, n), n) == LeBytes(x, n)
  {
    BytesOfValue(Reverse(LeBytes(x, n)));
    ReverseTwice(LeBytes(x, n));
  }

  lemma {:induction false} LeBytesAt(x: nat, n: nat, k: nat)
    requires k < n
    ensures LeBytes(x, n)[k] == x / Pow256(k) % 256
  {
    if k > 0 {
      LeBytesAt(x / 256, n - 1, k - 1);
      DivideTwice(x, Pow256(k - 1));
    }
  }

  lemma {:induction false} FromLeConcat(a: seq<byte>, b: seq<byte>)
    ensures FromLe(a + b) == FromLe(a) + Pow256(|a|) * FromLe(b)
  {
    if a == [] {
      assert a + b == b;
    } else {
      FromLeConcat(a[1..], b);
      assert (a + b)[1..] == a[1..] + b;
      Exchange(256, Pow256(|a| - 1), FromLe(b));
    }
  }

  // ---------- 32-bit words ----------

  const UINT32 := 0x1_0000_0000
  const UINT64 := 0x1_0000_0000_0000_0000

  lemma Powers()
    ensures Pow256(1) == 256 && Pow256(2) == 256 * 256 && Pow256(4) == UINT32
  {
    assert Pow256(2) == 256 * Pow256(1) && Pow256(3) == 256 * Pow256(2) && Pow256(4) == 256 * Pow256(3);
  }

  lemma ValueFits(bytes: seq<byte>)
    requires |bytes| <= 4
    ensures FromLe(bytes) < UINT32
  {
    BytesOfValue(bytes);
    ValueOfBytes(FromLe(bytes), |bytes|);
    assert Pow256(0) == 1 && Pow256(1) == 256 && Pow256(2) == 256 * Pow256(1) && Pow256(3) == 256 * Pow256(2)
        && Pow256(4) == 256 * Pow256(3);
  }

  type u32 = x: int | 0 <= x < UINT32
  type u64 = x: int | 0 <= x < UINT64

  function CpuToLe32(host: Host, x: u32): u32 {
    ValueFits(Reverse(LeBytes(x, 4)));
    HostToLittle(host, x, 4)
  }

  function Le32ToCpu(host: Host, x: u32): u32 {
    ValueFits(Reverse(LeBytes(x, 4)));
    LittleToHost(host, x, 4)
  }

  // What a device that reads little-endian words finds where the host has stored x.
  function Seen(host: Host, x: u32): u32 {
    ValueFits(HostStore(host, x, 4));
    FromLe(HostStore(host, x, 4))
  }

  // le32_to_cpu computes just that.
  lemma SeenAsConverted(host: Host, x: u32)
    ensures Seen(host, x) == Le32ToCpu(host, x)
  {
    hide LeBytes, FromLe, Reverse, Pow256;
    ValueOfBytes(x, 4);
    Powers();
  }

  // A word that was converted with cpu_to_le32 is seen as it was, on either host.
  lemma ConvertedIsSeen(host: Host, x: u32)
    ensures Seen(host, CpuToLe32(host, x)) == x
  {
    hide HostStore, LeBytes, FromLe, Pow256;
    StoreIsLittleEndian(host, x, 4);
    ValueOfBytes(x, 4);
    Powers();
  }
}
