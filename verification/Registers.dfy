/**
  The register access of reg_rw: byte, halfword and word accesses to a mapped window, converted from
  and to the host's byte order, against one abstract little-endian memory.
 */
module Registers {
  import opened Arithmetic
  import opened Basics
  import opened Words

  // The arguments after the device: address, optional access type, optional data (which needs a type).
  datatype Request = Request(target: nat, kind: Option<char>, data: Option<nat>)

  function ToLower(c: char): char {
    if 'A' <= c <= 'Z' then (c as int + 32) as char else c
  }

  // 'b' is one byte, 'h' two; everything else falls back to the four-byte 'w'.
  function Width(kind: Option<char>): (w: nat)
    ensures w == 1 || w == 2 || w == 4
  {
    if kind == None then 4
    else
      match ToLower(kind.value)
      case 'b' => 1
      case 'h' => 2
      case _ => 4
  }

  // Not checked by the program: its callers keep accesses inside the window.
  predicate InWindow(size: nat, r: Request) {
    (r.data.Some? ==> r.kind.Some?) && r.target + Width(r.kind) <= size
  }

  // ---------- The abstract memory ----------

  function Peek(mem: seq<byte>, at: nat, n: nat): nat
    requires at + n <= |mem|
  {
    FromLe(mem[at..at + n])
  }

  function Poke(mem: seq<byte>, at: nat, n: nat, v: nat): (r: seq<byte>)
    requires at + n <= |mem|
    ensures |r| == |mem|
  {
    mem[..at] + LeBytes(v, n) + mem[at + n..]
  }

  // Without data the access is a read.
  function AbstractAccess(mem: seq<byte>, r: Request): (o: (seq<byte>, Option<nat>))
    requires InWindow(|mem|, r)
    ensures |o.0| == |mem|
  {
    match r.data
    case None => (mem, Some(Peek(mem, r.target, Width(r.kind))))
    case Some(v) => (Poke(mem, r.target, Width(r.kind), v), None)
  }

  // ---------- The program ----------

  // One access on a machine of the given byte order, as a function of the window's bytes.
  function HostAccess(host: Host, mem: seq<byte>, r: Request): (o: (seq<byte>, Option<nat>))
    requires InWindow(|mem|, r)
  {
    var n, at := Width(r.kind), r.target;
    match r.data
    case None =>
      var v := HostLoad(host, mem[at..at + n]);
      (mem, Some(if n == 1 then v else LittleToHost(host, v, n)))
    case Some(data) =>
      var v := data % UINT32;
      (mem[..at] + HostStore(host, if n == 1 then v else HostToLittle(host, v, n), n) + mem[at + n..], None)
  }

  lemma SingleByte(host: Host, bytes: seq<byte>)
    ensures |bytes| == 1 ==> HostLoad(host, bytes) == FromLe(bytes)
  {
    if |bytes| == 1 {
      assert bytes[1..] == [] && Reverse(bytes) == bytes;
    }
  }

  lemma SingleByteStore(host: Host, v: nat)
    ensures HostStore(host, v, 1) == LeBytes(v, 1)
  {
    assert LeBytes(v, 1) == [v % 256];
    assert [v % 256][1..] == [];
    assert Reverse([v % 256]) == [v % 256];
  }

  lemma {:induction false} LowBytes(w: nat, q: nat, n: nat)
    ensures LeBytes(w + Pow256(n) * q, n) == LeBytes(w, n)
  {
    if n > 0 {
      var p := Pow256(n - 1) * q;
      Exchange(256, Pow256(n - 1), q);
      assert (w + 256 * p) % 256 == w % 256 && (w + 256 * p) / 256 == w / 256 + p;
      LowBytes(w / 256, q, n - 1);
    }
  }

  // Cutting the number given on the command line to 32 bits does not touch the bytes stored.
  lemma CutValue(v: nat, n: nat)
    requires n == 1 || n == 2 || n == 4
    ensures LeBytes(v % UINT32, n) == LeBytes(v, n)
  {
    var q := v / UINT32;
    Powers();
    LowBytes(v % UINT32, if n == 1 then 256 * 256 * 256 * q else if n == 2 then 256 * 256 * q else q, n);
  }

  lemma HostAccessIsAbstract(host: Host, mem: seq<byte>, r: Request)
    requires InWindow(|mem|, r)
    ensures HostAccess(host, mem, r) == AbstractAccess(mem, r)
  {
    var n, bytes := Width(r.kind), mem[r.target..r.target + Width(r.kind)];
    LoadIsLittleEndian(host, bytes);
    SingleByte(host, bytes);
    if r.data.Some? {
      CutValue(r.data.value, n);
      StoreIsLittleEndian(host, r.data.value % UINT32, n);
      SingleByteStore(host, r.data.value % UINT32);
    }
  }

  class Window {
    const host: Host
    const mem: array<byte>  // what map_base points to

    constructor (host: Host, contents: array<byte>)
      ensures this.host == host && this.mem == contents
    {
      this.host := host;
      this.mem := contents;
    }

    // *(uintN_t *) virt_addr
    method Load(at: nat, n: nat) returns (v: nat)
      requires at + n <= mem.Length
      ensures v == HostLoad(host, mem[at..at + n])
    {
      v := HostLoad(host, mem[at..at + n]);
    }

    // *(uintN_t *) virt_addr = v
    method Store(at: nat, n: nat, v: nat)
      requires at + n <= mem.Length
      modifies mem
      ensures mem[..] == old(mem[..at]) + HostStore(host, v, n) + old(mem[at + n..])
    {
      hide HostStore;
      var bytes := HostStore(host, v, n);
      BytesStored(v, n);
      ghost var before := mem[..];
      var k := 0;
      while k < n
        invariant 0 <= k <= n == |bytes|
        invariant mem[..] == Overlaid(before, at, bytes[..k])
      {
        OverlaidNext(before, at, bytes, k);
        mem[at + k] := bytes[k];
        k := k + 1;
      }
      assert bytes[..k] == bytes;
    }

    ghost function Overlaid(before: seq<byte>, at: nat, bytes: seq<byte>): seq<byte>
      requires at + |bytes| <= |before|
    {
      before[..at] + bytes + before[at + |bytes|..]
    }

    lemma OverlaidNext(before: seq<byte>, at: nat, bytes: seq<byte>, k: nat)
      requires k < |bytes| && at + |bytes| <= |before|
      ensures Overlaid(before, at, bytes[..k])[at + k := bytes[k]] == Overlaid(before, at, bytes[..k + 1])
    {
    }

    lemma BytesStored(v: nat, n: nat)
      ensures |HostStore(host, v, n)| == n
    {
    }

    /** One run of the program's main: whatever the byte order of the host, the window and the value read
        are those of the abstract memory. */
    method Access(r: Request) returns (result: Option<nat>)
      requires InWindow(mem.Length, r)
      modifies mem
      ensures (mem[..], result) == HostAccess(host, old(mem[..]), r)
      ensures (mem[..], result) == AbstractAccess(old(mem[..]), r)
      ensures result.Some? ==> result.value < UINT32
    {
      var width := 'w';
      if r.kind.Some? {
        width := ToLower(r.kind.value);
      }
      if width != 'b' && width != 'h' {
        width := 'w';
      }
      result := None;
      ghost var bytes := mem[r.target..r.target + Width(r.kind)];
      assert bytes == mem[..][r.target..r.target + Width(r.kind)];
      HostAccessIsAbstract(host, mem[..], r);
      ValueFits(bytes);
      if r.data == None {
        var readResult: nat;
        if width == 'b' {
          readResult := Load(r.target, 1);
        } else if width == 'h' {
          readResult := Load(r.target, 2);
          readResult := LittleToHost(host, readResult, 2);
        } else {
          readResult := Load(r.target, 4);
          readResult := LittleToHost(host, readResult, 4);
        }
        result := Some(readResult);
      } else {
        var writeval := r.data.value % UINT32;
        if width == 'b' {
          Store(r.target, 1, writeval);
        } else if width == 'h' {
          writeval := HostToLittle(host, writeval, 2);
          Store(r.target, 2, writeval);
        } else {
          writeval := HostToLittle(host, writeval, 4);
          Store(r.target, 4, writeval);
        }
      }
    }
  }

  // ---------- Runs ----------

  predicate AllInWindow(size: nat, rs: seq<Request>) {
    forall k :: 0 <= k < |rs| ==> InWindow(size, rs[k])
  }

  function HostRun(host: Host, mem: seq<byte>, rs: seq<Request>): (o: (seq<byte>, seq<Option<nat>>))
    requires AllInWindow(|mem|, rs)
    ensures |o.0| == |mem|
    decreases |rs|
  {
    if rs == [] then (mem, [])
    else
      HostAccessIsAbstract(host, mem, rs[0]);
      var (mem1, v) := HostAccess(host, mem, rs[0]);
      var (mem2, vs) := HostRun(host, mem1, rs[1..]);
      (mem2, [v] + vs)
  }

  function AbstractRun(mem: seq<byte>, rs: seq<Request>): (o: (seq<byte>, seq<Option<nat>>))
    requires AllInWindow(|mem|, rs)
    ensures |o.0| == |mem|
    decreases |rs|
  {
    if rs == [] then (mem, [])
    else
      var (mem1, v) := AbstractAccess(mem, rs[0]);
      var (mem2, vs) := AbstractRun(mem1, rs[1..]);
      (mem2, [v] + vs)
  }

  /** Mixed-width refinement: any run of accesses leaves the same window bytes and reads the same values
      on both kinds of host, namely those of the abstract little-endian memory. */
  lemma {:induction false} RunsRefine(host: Host, mem: seq<byte>, rs: seq<Request>)
    requires AllInWindow(|mem|, rs)
    ensures HostRun(host, mem, rs) == AbstractRun(mem, rs)
    decreases |rs|
  {
    if rs != [] {
      HostAccessIsAbstract(host, mem, rs[0]);
      RunsRefine(host, AbstractAccess(mem, rs[0]).0, rs[1..]);
    }
  }

  // ---------- Overlapping accesses ----------

  predicate Writes(r: Request, i: nat) {
    r.data.Some? && r.target <= i < r.target + Width(r.kind)
  }

  // The byte at i after a run: that of the last write covering it, else the initial one.
  function LastWritten(mem: seq<byte>, rs: seq<Request>, i: nat): nat
    requires i < |mem|
  {
    if rs == [] then mem[i]
    else
      var last := rs[|rs| - 1];
      if Writes(last, i) then last.data.value / Pow256(i - last.target) % 256
      else LastWritten(mem, rs[..|rs| - 1], i)
  }

  lemma PokedByte(mem: seq<byte>, at: nat, n: nat, v: nat, i: nat)
    requires at + n <= |mem| && i < |mem|
    ensures Poke(mem, at, n, v)[i] == if at <= i < at + n then v / Pow256(i - at) % 256 else mem[i]
  {
    if at <= i < at + n {
      LeBytesAt(v, n, i - at);
    }
  }

  lemma {:induction false} RunAppend(mem: seq<byte>, rs: seq<Request>, r: Request)
    requires AllInWindow(|mem|, rs + [r])
    ensures AllInWindow(|mem|, rs) && InWindow(|mem|, r)
    ensures AbstractRun(mem, rs + [r]).0 == AbstractAccess(AbstractRun(mem, rs).0, r).0
    decreases |rs|
  {
    assert forall k :: 0 <= k < |rs| ==> (rs + [r])[k] == rs[k];
    assert (rs + [r])[|rs|] == r;
    if rs == [] {
      assert (rs + [r])[1..] == [];
    } else {
      assert (rs + [r])[1..] == rs[1..] + [r];
      RunAppend(AbstractAccess(mem, rs[0]).0, rs[1..], r);
    }
  }

  /** Overlapping accesses compose: after any run on any host, each byte of the window is the one its last
      covering write put there, whatever the widths, and the initial one where nothing was written. */
  lemma {:induction false} LastWriteWins(host: Host, mem: seq<byte>, rs: seq<Request>, i: nat)
    requires AllInWindow(|mem|, rs) && i < |mem|
    ensures HostRun(host, mem, rs).0[i] == LastWritten(mem, rs, i)
    decreases |rs|
  {
    RunsRefine(host, mem, rs);
    if rs != [] {
      var front, last := rs[..|rs| - 1], rs[|rs| - 1];
      assert rs == front + [last];
      RunAppend(mem, front, last);
      LastWriteWins(host, mem, front, i);
      RunsRefine(host, mem, front);
      if last.data.Some? {
        PokedByte(AbstractRun(mem, front).0, last.target, Width(last.kind), last.data.value, i);
      }
    }
  }

  // What the tool reads, with the given access type, after a run on the given host.
  function ReadAfter(host: Host, mem: seq<byte>, rs: seq<Request>, at: nat, kind: char): nat
    requires AllInWindow(|mem|, rs) && InWindow(|mem|, Request(at, Some(kind), None))
  {
    HostAccess(host, HostRun(host, mem, rs).0, Request(at, Some(kind), None)).1.value
  }

  lemma ReadIsPeek(host: Host, mem: seq<byte>, rs: seq<Request>, at: nat, kind: char)
    requires AllInWindow(|mem|, rs) && InWindow(|mem|, Request(at, Some(kind), None))
    ensures ReadAfter(host, mem, rs, at, kind) == Peek(HostRun(host, mem, rs).0, at, Width(Some(kind)))
  {
    HostAccessIsAbstract(host, HostRun(host, mem, rs).0, Request(at, Some(kind), None));
    hide HostAccess, HostRun;
  }

  lemma PeekSplit(mem: seq<byte>, at: nat, n: nat, k: nat)
    requires at + n + k <= |mem|
    ensures Peek(mem, at, n + k) == Peek(mem, at, n) + Pow256(n) * Peek(mem, at + n, k)
  {
    hide FromLe, Pow256;
    FromLeConcat(mem[at..at + n], mem[at + n..at + n + k]);
    assert mem[at..at + n + k] == mem[at..at + n] + mem[at + n..at + n + k];
  }

  /** Wide reads combine narrow ones: after any run on either host, a word read has the value of the two
      halfword reads in it, and a halfword read that of the two byte reads in it, low address first. */
  lemma WideReadCombines(host: Host, mem: seq<byte>, rs: seq<Request>, at: nat)
    requires AllInWindow(|mem|, rs)
    ensures at + 2 <= |mem| ==>
              ReadAfter(host, mem, rs, at, 'h')
              == ReadAfter(host, mem, rs, at, 'b') + 256 * ReadAfter(host, mem, rs, at + 1, 'b')
    ensures at + 4 <= |mem| ==>
              ReadAfter(host, mem, rs, at, 'w')
              == ReadAfter(host, mem, rs, at, 'h') + 256 * 256 * ReadAfter(host, mem, rs, at + 2, 'h')
  {
    hide ReadAfter, Peek, HostRun, AllInWindow, Pow256;
    var after := HostRun(host, mem, rs).0;
    Powers();
    if at + 2 <= |mem| {
      ReadIsPeek(host, mem, rs, at, 'h');
      ReadIsPeek(host, mem, rs, at, 'b');
      ReadIsPeek(host, mem, rs, at + 1, 'b');
      PeekSplit(after, at, 1, 1);
    }
    if at + 4 <= |mem| {
      ReadIsPeek(host, mem, rs, at, 'w');
      ReadIsPeek(host, mem, rs, at + 2, 'h');
      PeekSplit(after, at, 2, 2);
    }
  }

  lemma OneByte(b: byte)
    ensures FromLe([b]) == b
  {
    var bytes := [b];
    assert bytes[1..] == [];
  }

  /** A narrow read slices a wide write: a byte read right after a write has the byte of the written value
      at its place, and any other byte is as it was before the write. */
  lemma NarrowReadSlices(host: Host, mem: seq<byte>, rs: seq<Request>, w: Request, at: nat)
    requires AllInWindow(|mem|, rs + [w]) && w.data.Some? && at < |mem|
    ensures AllInWindow(|mem|, rs)
    ensures ReadAfter(host, mem, rs + [w], at, 'b')
            == if Writes(w, at) then w.data.value / Pow256(at - w.target) % 256 else ReadAfter(host, mem, rs, at, 'b')
  {
    hide ReadAfter, HostRun, AbstractRun, AbstractAccess, FromLe, Pow256;
    RunAppend(mem, rs, w);
    LastWriteWins(host, mem, rs + [w], at);
    LastWriteWins(host, mem, rs, at);
    assert (rs + [w])[..|rs|] == rs;
    var before, after := HostRun(host, mem, rs).0, HostRun(host, mem, rs + [w]).0;
    ReadIsPeek(host, mem, rs, at, 'b');
    ReadIsPeek(host, mem, rs + [w], at, 'b');
    OneByte(before[at]);
    OneByte(after[at]);
    assert before[at..at + 1] == [before[at]] && after[at..at + 1] == [after[at]];
  }

  // ---------- Access types ----------

  // The bytes at `at` as a word, low address first.
  function WordAt(mem: seq<byte>, at: nat): nat
    requires at + 4 <= |mem|
  {
    var b0: nat, b1: nat, b2: nat, b3: nat := mem[at], mem[at + 1], mem[at + 2], mem[at + 3];
    b0 + 0x100 * b1 + 0x1_0000 * b2 + 0x100_0000 * b3
  }

  lemma FromLeFour(bytes: seq<byte>)
    requires |bytes| == 4
    ensures FromLe(bytes) == WordAt(bytes, 0)
  {
    assert bytes[1..][1..] == bytes[2..] && bytes[2..][1..] == bytes[3..] && bytes[3..][1..] == [];
    assert FromLe(bytes[3..]) == bytes[3];
    assert FromLe(bytes[2..]) == bytes[2] as nat + 0x100 * bytes[3] as nat;
  }

  lemma TwoBytes(bytes: seq<byte>)
    requires |bytes| == 2
    ensures FromLe(bytes) == bytes[0] as nat + 0x100 * bytes[1] as nat
  {
    assert bytes[1..] == [bytes[1]] && bytes[1..][1..] == [];
    assert FromLe(bytes[1..]) == bytes[1];
  }

  /** Without a type the tool reads a word and changes nothing; so it does with any type but b and h, in
      lower or upper case. */
  lemma OtherTypesReadWords(host: Host, mem: seq<byte>, at: nat, kind: Option<char>)
    requires at + 4 <= |mem|
    requires kind.Some? ==> kind.value !in {'b', 'B', 'h', 'H'}
    ensures HostAccess(host, mem, Request(at, kind, None)) == (mem, Some(WordAt(mem, at)))
  {
    HostAccessIsAbstract(host, mem, Request(at, kind, None));
    FromLeFour(mem[at..at + 4]);
    hide HostAccess, FromLe;
  }

  /** With b or B it reads the byte, with h or H the halfword. */
  lemma NarrowTypes(host: Host, mem: seq<byte>, at: nat, kind: char)
    requires at < |mem|
    ensures kind in {'b', 'B'} ==> HostAccess(host, mem, Request(at, Some(kind), None)) == (mem, Some(mem[at]))
    ensures kind in {'h', 'H'} && at + 2 <= |mem| ==>
              HostAccess(host, mem, Request(at, Some(kind), None))
              == (mem, Some(mem[at] as nat + 0x100 * mem[at + 1] as nat))
  {
    if kind in {'b', 'B'} || (kind in {'h', 'H'} && at + 2 <= |mem|) {
      HostAccessIsAbstract(host, mem, Request(at, Some(kind), None));
    }
    OneByte(mem[at]);
    assert mem[at..at + 1] == [mem[at]];
    if at + 2 <= |mem| {
      TwoBytes(mem[at..at + 2]);
    }
    hide HostAccess, FromLe;
  }

  /** A write with any type keeps as many low bytes of the value: one for b and B, two for h and H, four
      otherwise; they go to increasing addresses, and the other bytes stay. */
  lemma TypedWrite(host: Host, mem: seq<byte>, at: nat, kind: char, data: nat, i: nat)
    requires InWindow(|mem|, Request(at, Some(kind), Some(data))) && i < |mem|
    ensures var n := if kind in {'b', 'B'} then 1 else if kind in {'h', 'H'} then 2 else 4;
            var (after, reply) := HostAccess(host, mem, Request(at, Some(kind), Some(data)));
            reply == None && |after| == |mem| &&
            after[i] == if i == at then data % 0x100
                        else if i == at + 1 && n > 1 then data / 0x100 % 0x100
                        else if i == at + 2 && n > 2 then data / 0x1_0000 % 0x100
                        else if i == at + 3 && n > 3 then data / 0x100_0000 % 0x100
                        else mem[i]
  {
    HostAccessIsAbstract(host, mem, Request(at, Some(kind), Some(data)));
    hide HostAccess, Poke;
    Powers();
    assert Pow256(0) == 1 && Pow256(3) == 256 * Pow256(2);
    PokedByte(mem, at, Width(Some(kind)), data, i);
  }
}
