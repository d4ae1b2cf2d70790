/**
  hex_dump: the printed lines, the printer itself, and what run suppression keeps.
  Everything about lines holds for any width w >= 1; the printer uses WIDE.
 */
module HexDump {
  import opened Basics
  import opened Printf

  // One printed line: address, whether it carries '*', and its (at most w) bytes.
  datatype Line = Line(addr: nat, star: bool, bytes: seq<byte>)

  function LineAt(data: seq<byte>, w: nat, i: nat): (r: seq<byte>)
    requires i <= |data|
  {
    data[i..if i + w <= |data| then i + w else |data|]
  }

  // The test that drops a line: it looks backward and asks for a complete line.
  predicate SameAsPrevious(data: seq<byte>, w: nat, i: nat)
    requires i <= |data|
  {
    |data| - i >= w && i >= w && data[i..i + w] == data[i - w..i]
  }

  // The test that marks a line: it looks forward and asks for two complete lines.
  predicate SameAsNext(data: seq<byte>, w: nat, i: nat)
    requires i <= |data|
  {
    |data| - i >= 2 * w && data[i..i + w] == data[i + w..i + 2 * w]
  }

  // The lines the loop still prints from index i on.
  function Lines(data: seq<byte>, w: nat, full: bool, i: nat): seq<Line>
    requires w > 0
    decreases |data| - i
  {
    if i >= |data| then []
    else if !full && SameAsPrevious(data, w, i) then Lines(data, w, full, i + w)
    else [Line(i, !full && SameAsNext(data, w, i), LineAt(data, w, i))] + Lines(data, w, full, i + w)
  }

  // ---------- The printed text ----------

  const WIDTH_MAX := 0x3FFF_FFFF  // twice the width still is an int

  function Safe(c: byte): char {
    if ' ' as int <= c <= '~' as int then c as char else '.'
  }

  // The hexadecimal columns from column j on.
  function HexColumns(bytes: seq<byte>, w: nat, j: nat): string
    decreases w - j
  {
    if j >= w then ""
    else (if j < |bytes| then " " + Hex(bytes[j], 2) else " --") + HexColumns(bytes, w, j + 1)
  }

  // The characters on the right from column j on.
  function AsciiColumns(bytes: seq<byte>, w: nat, j: nat): string
    decreases w - j
  {
    if j >= w then ""
    else (if j < |bytes| then [Safe(bytes[j])] else "") + AsciiColumns(bytes, w, j + 1)
  }

  function Mark(star: bool): string {
    if star then "*" else ":"
  }

  function Columns(bytes: seq<byte>, w: nat): string {
    HexColumns(bytes, w, 0) + "  " + AsciiColumns(bytes, w, 0)
  }

  // A printed line without its newline.
  function Body(l: Line, w: nat): string {
    Hex(l.addr, 8) + Mark(l.star) + Columns(l.bytes, w)
  }

  function Text(ls: seq<Line>, w: nat): string {
    if ls == [] then "" else Body(ls[0], w) + "\n" + Text(ls[1..], w)
  }

  const LONG_MAX: int := 0x7FFF_FFFF_FFFF_FFFF
  newtype long = x: int | -LONG_MAX - 1 <= x <= LONG_MAX
  const WIDE: long := 16
  const FULL := false
  const MTIME := 0  // static and never assigned

  // %lX prints the 64-bit pattern of its argument as an unsigned number.
  function Unsigned(x: long): nat {
    if x < 0 then x as int + 2 * (LONG_MAX + 1) else x as int
  }

  // The closing line without its newline.
  function TrailerBody(size: long): string {
    Hex(Unsigned(size), 8) + ": end (" + Decimal(size as int) + " bytes) mtime " + Decimal(MTIME)
  }

  // A negative size prints no line at all.
  function Length(size: long): nat { if size < 0 then 0 else size as int }

  function DumpText(data: seq<byte>, w: nat, size: long, full: bool): string
    requires w > 0
  {
    Text(Lines(data, w, full, 0), w) + (TrailerBody(size) + "\n")
  }

  // ---------- The printer ----------

  // memcmp(&buf[a], &buf[b], w) == 0; the preconditions say that both windows lie in [0, size).
  method SameBytes(buf: seq<byte>, a: long, b: long, w: long, size: long) returns (same: bool)
    requires w >= 0 && 0 <= size as int <= |buf|
    requires 0 <= a && a as int + w as int <= size as int
    requires 0 <= b && b as int + w as int <= size as int
    ensures same <==> buf[a as int..a as int + w as int] == buf[b as int..b as int + w as int]
  {
    same := buf[a as int..a as int + w as int] == buf[b as int..b as int + w as int];
  }

  // Parts (2) and (3) of the loop body: the columns of the line at i, n bytes of the buffer being left.
  method PrintColumns(buf: seq<byte>, i: long, n: long, w: long, size: long) returns (out: string)
    requires w > 0 && 0 <= i < size && n == size - i && size as int <= |buf|
    ensures out == Columns(LineAt(buf[..size as int], w as int, i as int), w as int) + "\n"
  {
    hide Hex, Safe;
    ghost var bytes, width := LineAt(buf[..size as int], w as int, i as int), w as int;
    ghost var hex, ascii := HexColumns(bytes, width, 0), AsciiColumns(bytes, width, 0);
    assert forall k: nat :: k < |bytes| ==> bytes[k] == buf[i as int + k];
    out := "";
    var j: long := 0;
    while j < w
      invariant 0 <= j <= w
      invariant out + HexColumns(bytes, width, j as int) == hex
    {
      var column := " --";
      if j < n {
        column := " " + Hex(buf[i as int + j as int], 2);
      }
      Associate(out, column, HexColumns(bytes, width, j as int + 1));
      out := out + column;
      j := j + 1;
    }
    assert out == hex;
    out := out + "  ";
    ghost var start := out;
    j := 0;
    while j < w
      invariant 0 <= j <= w
      invariant out + AsciiColumns(bytes, width, j as int) == start + ascii
    {
      var column := "";
      if j < n {
        column := [Safe(buf[i as int + j as int])];
      }
      Associate(out, column, AsciiColumns(bytes, width, j as int + 1));
      out := out + column;
      j := j + 1;
    }
    assert out == start + ascii;
    out := out + "\n";
  }

  // Part (1) of the loop body, when not in full mode: is the line at i dropped, and if not, is it marked?
  method Classify(buf: seq<byte>, i: long, n: long, w: long, size: long) returns (skip: bool, star: bool)
    requires w > 0 && 0 <= i < size && n == size - i && size as int <= |buf|
    requires w as int <= WIDTH_MAX
    ensures skip <==> SameAsPrevious(buf[..size as int], w as int, i as int)
    ensures !skip ==> (star <==> SameAsNext(buf[..size as int], w as int, i as int))
  {
    ghost var data := buf[..size as int];
    assert forall a: nat, b: nat :: a <= b <= |data| ==> data[a..b] == buf[a..b];
    skip, star := false, false;
    if n >= w && i >= w {
      skip := SameBytes(buf, i, i - w, w, size);
      if skip {
        return;
      }
    }
    if n >= 2 * w {
      star := SameBytes(buf, i, i + w, w, size);
    }
  }

  method PrintTrailer(size: long) returns (out: string)
    ensures out == TrailerBody(size) + "\n"
  {
    out := Hex(Unsigned(size), 8) + ": end (" + Decimal(size as int) + " bytes) mtime " + Decimal(MTIME) + "\n";
  }

  // What one round of the loop prints: nothing for a dropped line.
  function LineText(data: seq<byte>, w: nat, full: bool, i: nat): string
    requires i <= |data|
  {
    if !full && SameAsPrevious(data, w, i) then ""
    else Body(Line(i, !full && SameAsNext(data, w, i), LineAt(data, w, i)), w) + "\n"
  }

  // Printing one line moves it from what is left to what is out.
  lemma LinePrinted(data: seq<byte>, w: nat, full: bool, i: nat, out: string, text: string)
    requires w > 0 && i < |data| && text == LineText(data, w, full, i)
    ensures out + Text(Lines(data, w, full, i), w) == out + text + Text(Lines(data, w, full, i + w), w)
  {
    hide Body, SameAsNext, SameAsPrevious, LineAt;
    var ls := Lines(data, w, full, i);
    if full || !SameAsPrevious(data, w, i) {
      assert ls[1..] == Lines(data, w, full, i + w);
    }
    Associate(out, text, Text(Lines(data, w, full, i + w), w));
  }

  // One round of the loop; returning early is the source's `continue`.  Together with what later
  // rounds will print, the output stays what it was going to be.
  method PrintLine(before: string, buf: seq<byte>, i: long, w: long, size: long, full: bool) returns (out: string)
    requires 0 < w as int <= WIDTH_MAX && 0 <= i < size && size as int <= |buf|
    ensures out + Text(Lines(buf[..Length(size)], w as int, full, i as int + w as int), w as int)
            == before + Text(Lines(buf[..Length(size)], w as int, full, i as int), w as int)
  {
    var n := size - i;
    var star := false;
    if !full {
      var skip;
      skip, star := Classify(buf, i, n, w, size);
      if skip {
        LinePrinted(buf[..Length(size)], w as int, full, i as int, before, "");
        return before;
      }
    }
    var columns := PrintColumns(buf, i, n, w, size);
    var text := Hex(i as int, 8) + Mark(star) + columns;
    Associate(Hex(i as int, 8) + Mark(star), Columns(LineAt(buf[..size as int], w as int, i as int), w as int), "\n");
    LinePrinted(buf[..Length(size)], w as int, full, i as int, before, text);
    out := before + text;
  }

  // w * k, by repeated addition as the loop index does.
  function Multiple(w: nat, k: nat): (r: nat)
    ensures r == w * k
  {
    if k == 0 then 0 else Multiple(w, k - 1) + w
  }

  lemma NothingLeft(data: seq<byte>, w: nat, full: bool, i: nat)
    requires w > 0 && i >= |data|
    ensures Text(Lines(data, w, full, i), w) == ""
  {
  }

  /** The printer.  `out` is what has been printed; `rounds` counts loop iterations.  That it verifies
      also says that every byte read lies in [0, size) and that `i` and `n` never overflow. */
  method Dump(buf: seq<byte>, size: long, wide: long, full: bool) returns (out: string, ghost rounds: nat)
    requires 0 < wide as int <= WIDTH_MAX
    requires size as int <= |buf|
    requires size as int <= LONG_MAX - (wide as int - 1)
    ensures out == DumpText(buf[..Length(size)], wide as int, size, full)
    ensures Length(size) <= Multiple(wide as int, rounds) < Length(size) + wide as int  // ceil(size / wide) rounds
  {
    hide Lines, Text;
    ghost var data, w := buf[..Length(size)], wide as int;
    var i: long := 0;
    out, rounds := "", 0;
    ghost var at: nat, whole := 0, Text(Lines(data, w, full, 0), w);
    while i < size
      invariant 0 <= i as int == at == Multiple(w, rounds) < Length(size) + w
      invariant whole == out + Text(Lines(data, w, full, at), w)
      decreases size as int - i as int
    {
      rounds := rounds + 1;
      out := PrintLine(out, buf, i, wide, size, full);
      i, at := i + wide, at + w;
    }
    NothingLeft(data, w, full, at);
    assert out + "" == out;
    var closing := PrintTrailer(size);
    out := out + closing;
  }

  // hex_dump with the width and the mode it is compiled with.
  method HexDump(buf: seq<byte>, size: long) returns (out: string)
    requires size as int <= |buf| && size as int <= LONG_MAX - 15
    ensures out == DumpText(buf[..Length(size)], 16, size, false)
  {
    ghost var rounds;
    out, rounds := Dump(buf, size, WIDE, FULL);
  }
}
