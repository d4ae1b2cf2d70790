/**
  Reading a printed dump back: a decoder for the text, written as specification, the round trip, and
  how the text splits into lines.
 */
module DumpDecoder {
  import opened Basics
  import opened Printf
  import opened HexDump
  import opened Suppression

  // ---------- The decoder ----------

  // Reads w columns of the form " XX" or " --"; no byte follows padding.
  function ReadColumns(s: string, w: nat): (r: Option<(seq<byte>, string)>)
    ensures r.Some? ==> |r.value.1| <= |s|
  {
    if w == 0 then Some(([], s))
    else if |s| < 3 || s[0] != ' ' then None
    else
      var hi, lo := DigitValue(s[1]), DigitValue(s[2]);
      match ReadColumns(s[3..], w - 1)
      case None => None
      case Some((bytes, rest)) =>
        if s[1] == '-' && s[2] == '-' && bytes == [] then Some(([], rest))
        else if hi < 16 && lo < 16 then Some(([16 * hi + lo] + bytes, rest))
        else None
  }

  // Address, mark, hexadecimal columns; as many characters as bytes are skipped before the newline.
  function ReadLine(s: string, w: nat): (r: Option<(Line, string)>)
    ensures r.Some? ==> |r.value.1| < |s|
  {
    var (addr, marked) := ReadDigits(16, s, 0);
    if marked == "" || (marked[0] != ':' && marked[0] != '*') then None
    else
      match ReadColumns(marked[1..], w)
      case None => None
      case Some((bytes, right)) =>
        if |right| < |bytes| + 3 || right[..2] != "  " || right[|bytes| + 2] != '\n' then None
        else Some((Line(addr, marked[0] == '*', bytes), right[|bytes| + 3..]))
  }

  const CLOSING := " bytes) mtime 0\n"

  function ReadTrailer(s: string): Option<int> {
    var (_, marked) := ReadDigits(16, s, 0);
    if |marked| < 7 || marked[..7] != ": end (" then None
    else
      var (size, rest) := ReadDecimal(marked[7..]);
      if rest == CLOSING then Some(size) else None
  }

  function ReadDump(s: string, w: nat): Option<(seq<Line>, int)>
    decreases |s|
  {
    match ReadTrailer(s)
    case Some(size) => Some(([], size))
    case None =>
      match ReadLine(s, w)
      case None => None
      case Some((line, rest)) =>
        match ReadDump(rest, w)
        case None => None
        case Some((lines, size)) => Some(([line] + lines, size))
  }

  // The bytes and the size that a printed dump tells of.
  function Decode(s: string, w: nat): Option<(seq<byte>, int)>
    requires w > 0
  {
    match ReadDump(s, w)
    case None => None
    case Some((lines, size)) => Some((AllBytes(Expand(lines, w, if size < 0 then 0 else size)), size))
  }

  // ---------- The round trip ----------

  predicate Readable(ls: seq<Line>, w: nat) {
    forall l :: l in ls ==> 1 <= |l.bytes| <= w
  }

  lemma {:induction false} LinesAreReadable(data: seq<byte>, w: nat, full: bool, i: nat)
    requires w > 0
    ensures Readable(Lines(data, w, full, i), w)
    decreases |data| - i
  {
    LinesFrom(data, w, full, i);
    if i < |data| {
      LinesAreReadable(data, w, full, i + w);
      assert 1 <= |LineAt(data, w, i)| <= w;
      hide Lines, SameAsNext, SameAsPrevious, LineAt;
    }
  }

  // After its address, a data line goes on with its mark and columns.
  lemma AddressRead(l: Line, w: nat, rest: string)
    ensures ReadDigits(16, Body(l, w) + "\n" + rest, 0) == (l.addr, Mark(l.star) + (Columns(l.bytes, w) + "\n" + rest))
  {
    var right := Mark(l.star) + (Columns(l.bytes, w) + "\n" + rest);
    assert Body(l, w) + "\n" + rest == Hex(l.addr, 8) + right;
    DigitsRead(16, l.addr, 8, right);
    NoMoreDigits(16, right, l.addr);
  }

  lemma LineReadParts(s: string, l: Line, marked: string, right: string, tail: string, rest: string, w: nat)
    requires ReadDigits(16, s, 0) == (l.addr, marked)
    requires |right| >= 2 && right[1] != 'e'
    requires marked != "" && marked[1..] == right && marked[0] == if l.star then '*' else ':'
    requires ReadColumns(right, w) == Some((l.bytes, tail))
    requires |tail| >= |l.bytes| + 3 && tail[..2] == "  "
    requires tail[|l.bytes| + 2] == '\n' && tail[|l.bytes| + 3..] == rest
    ensures ReadTrailer(s) == None
    ensures ReadLine(s, w) == Some((l, rest))
  {
    hide ReadColumns, ReadDigits, ReadDecimal;
    assert marked[2] == right[1];
    if |marked| >= 7 {
      assert marked[..7][2] == marked[2] && ": end ("[2] == 'e';
    }
  }

  lemma MarkedRead(star: bool, right: string)
    requires |right| >= 2
    ensures var marked := Mark(star) + right;
            marked[0] == (if star then '*' else ':') && marked[1..] == right && marked[2] == right[1]
  {
  }

  lemma ColumnsThenTail(bytes: seq<byte>, w: nat, rest: string)
    ensures Columns(bytes, w) + "\n" + rest
            == HexColumns(bytes, w, 0) + ("  " + AsciiColumns(bytes, w, 0) + "\n" + rest)
  {
  }

  lemma RightPart(ascii: string, rest: string)
    ensures var tail := "  " + ascii + "\n" + rest;
            tail[..2] == "  " && tail[|ascii| + 2] == '\n' && tail[|ascii| + 3..] == rest
  {
  }

  lemma HexByte(b: byte)
    ensures Hex(b, 2) == [DigitChar(b / 16), DigitChar(b % 16)]
  {
    assert Digits(16, b / 16, 1) == [DigitChar(b / 16)];
  }

  // The first column of a data line cannot be taken for the trailer's "end".
  lemma FirstColumn(bytes: seq<byte>, w: nat, rest: string)
    requires 1 <= |bytes| && 1 <= w
    ensures var s := HexColumns(bytes, w, 0) + rest;
            |s| >= 3 && s[0] == ' ' && s[1] != 'e'
  {
    HexByte(bytes[0]);
  }

  lemma HexColumnsFrom(bytes: seq<byte>, w: nat, j: nat, rest: string)
    ensures j == w ==> ReadColumns(HexColumns(bytes, w, j) + rest, 0) == Some(([], rest))
    ensures j < w ==> HexColumns(bytes, w, j) + rest
                      == (if j < |bytes| then " " + Hex(bytes[j], 2) else " --") + (HexColumns(bytes, w, j + 1) + rest)
  {
    if j == w {
      assert "" + rest == rest;
    }
  }

  lemma ByteColumnRead(b: byte, right: string, w: nat)
    requires ReadColumns(right, w).Some?
    ensures ReadColumns(" " + Hex(b, 2) + right, w + 1)
            == Some(([b] + ReadColumns(right, w).value.0, ReadColumns(right, w).value.1))
  {
    HexByte(b);
    hide Hex;
    var s := " " + Hex(b, 2) + right;
    assert s[3..] == right;
    assert DigitValue(s[1]) == b / 16 && DigitValue(s[2]) == b % 16;
  }

  lemma PaddingRead(right: string, w: nat)
    requires ReadColumns(right, w).Some? && ReadColumns(right, w).value.0 == []
    ensures ReadColumns(" --" + right, w + 1) == ReadColumns(right, w)
  {
    assert (" --" + right)[3..] == right;
  }

  lemma {:induction false} ColumnsRead(bytes: seq<byte>, w: nat, j: nat, rest: string)
    requires j <= w && |bytes| <= w
    ensures ReadColumns(HexColumns(bytes, w, j) + rest, w - j) == Some((if j <= |bytes| then bytes[j..] else [], rest))
    decreases w - j
  {
    HexColumnsFrom(bytes, w, j, rest);
    hide HexColumns, ReadColumns, Hex;
    assert bytes[|bytes|..] == [];
    if j < w {
      ColumnsRead(bytes, w, j + 1, rest);
      var right := HexColumns(bytes, w, j + 1) + rest;
      if j < |bytes| {
        ByteColumnRead(bytes[j], right, w - j - 1);
        assert bytes[j..] == [bytes[j]] + bytes[j + 1..];
      } else {
        PaddingRead(right, w - j - 1);
      }
    }
  }

  lemma {:induction false} AsciiLength(bytes: seq<byte>, w: nat, j: nat)
    requires j <= w && |bytes| <= w
    ensures |AsciiColumns(bytes, w, j)| == if j <= |bytes| then |bytes| - j else 0
    decreases w - j
  {
    if j < w {
      AsciiLength(bytes, w, j + 1);
    }
  }

  lemma LineRead(l: Line, w: nat, rest: string)
    requires 1 <= |l.bytes| <= w
    ensures ReadTrailer(Body(l, w) + "\n" + rest) == None
    ensures ReadLine(Body(l, w) + "\n" + rest, w) == Some((l, rest))
  {
    var tail := "  " + AsciiColumns(l.bytes, w, 0) + "\n" + rest;
    var right := HexColumns(l.bytes, w, 0) + tail;
    AddressRead(l, w, rest);
    ColumnsThenTail(l.bytes, w, rest);
    FirstColumn(l.bytes, w, tail);
    MarkedRead(l.star, right);
    ColumnsRead(l.bytes, w, 0, tail);
    assert l.bytes[0..] == l.bytes;
    AsciiLength(l.bytes, w, 0);
    RightPart(AsciiColumns(l.bytes, w, 0), rest);
    hide *;
    LineReadParts(Body(l, w) + "\n" + rest, l, Mark(l.star) + right, right, tail, rest, w);
  }

  lemma TrailerParts(size: long)
    ensures TrailerBody(size) + "\n" == Hex(Unsigned(size), 8) + (": end (" + (Decimal(size as int) + CLOSING))
  {
    assert Decimal(MTIME) == "0";
    hide Digits;
  }

  lemma TrailerRead(size: long)
    ensures ReadTrailer(TrailerBody(size) + "\n") == Some(size as int)
  {
    var digits, right := Hex(Unsigned(size), 8), ": end (" + (Decimal(size as int) + CLOSING);
    TrailerParts(size);
    DigitsRead(16, Unsigned(size), 8, right);
    NoMoreDigits(16, right, Unsigned(size));
    DecimalRead(size as int, CLOSING);
    hide Digits, Decimal, ReadDigits, ReadDecimal, TrailerBody;
    assert right[..7] == ": end (" && right[7..] == Decimal(size as int) + CLOSING;
  }

  lemma {:induction false} TextRead(ls: seq<Line>, w: nat, size: long)
    requires Readable(ls, w)
    ensures ReadDump(Text(ls, w) + (TrailerBody(size) + "\n"), w) == Some((ls, size as int))
  {
    var trailer := TrailerBody(size) + "\n";
    TrailerRead(size);
    hide TrailerBody, ReadTrailer, ReadLine, Body;
    if ls == [] {
      assert Text(ls, w) + trailer == trailer;
    } else {
      var rest := Text(ls[1..], w) + trailer;
      var s := Body(ls[0], w) + "\n" + rest;
      assert Text(ls, w) + trailer == s by {
        Associate(Body(ls[0], w) + "\n", Text(ls[1..], w), trailer);
      }
      TextRead(ls[1..], w, size);
      LineRead(ls[0], w, rest);
      assert ls == [ls[0]] + ls[1..];
    }
  }

  /** Whatever the buffer, the size, the width and the mode: decoding the printed text gives back exactly
      the bytes and the size. */
  lemma DecodeDump(data: seq<byte>, w: nat, size: long, full: bool)
    requires w > 0 && |data| == Length(size)
    ensures Decode(DumpText(data, w, size, full), w) == Some((data, size as int))
  {
    LinesAreReadable(data, w, full, 0);
    TextRead(Lines(data, w, full, 0), w, size);
    ExpansionRestores(data, w, full);
  }

  /** So no two different buffers print the same text, not even one in each mode. */
  lemma DumpInjective(data: seq<byte>, size: long, full: bool, data': seq<byte>, size': long, full': bool, w: nat)
    requires w > 0 && |data| == Length(size) && |data'| == Length(size')
    requires DumpText(data, w, size, full) == DumpText(data', w, size', full')
    ensures data == data' && size == size'
  {
    DecodeDump(data, w, size, full);
    DecodeDump(data', w, size', full');
  }

  // ---------- How the text splits into lines ----------

  function LineEnd(s: string): (r: nat)
    ensures r <= |s|
  {
    if s == "" || s[0] == '\n' then 0 else 1 + LineEnd(s[1..])
  }

  function SplitLines(s: string): seq<string> {
    if s == "" then []
    else if LineEnd(s) == |s| then [s]
    else [s[..LineEnd(s)]] + SplitLines(s[LineEnd(s) + 1..])
  }

  function Bodies(ls: seq<Line>, w: nat): seq<string> {
    if ls == [] then [] else [Body(ls[0], w)] + Bodies(ls[1..], w)
  }

  lemma {:induction false} OnlyTheLastIsShort(data: seq<byte>, w: nat, full: bool, i: nat)
    requires w > 0
    ensures forall l :: l in Lines(data, w, full, i) ==> (|l.bytes| < w <==> l.addr + w > |data|)
    decreases |data| - i
  {
    LinesFrom(data, w, full, i);
    if i < |data| {
      OnlyTheLastIsShort(data, w, full, i + w);
      assert |LineAt(data, w, i)| < w <==> i + w > |data|;
      hide Lines, SameAsNext, SameAsPrevious, LineAt;
    }
  }

  lemma ColumnCharacters(bytes: seq<byte>, j: nat)
    ensures var column := if j < |bytes| then " " + Hex(bytes[j], 2) else " --";
            ('-' in column <==> j >= |bytes|) && '\n' !in column
  {
    if j < |bytes| {
      HexByte(bytes[j]);
      hide Hex;
    } else {
      assert " --"[1] == '-';
    }
  }

  lemma {:induction false} PaddingShows(bytes: seq<byte>, w: nat, j: nat)
    requires j <= w && |bytes| <= w
    ensures '-' in HexColumns(bytes, w, j) <==> |bytes| < w && j < w
    ensures '\n' !in HexColumns(bytes, w, j)
    decreases w - j
  {
    if j < w {
      PaddingShows(bytes, w, j + 1);
      ColumnCharacters(bytes, j);
      HexColumnsFrom(bytes, w, j, "");
      hide Hex;
    }
  }

  lemma {:induction false} EndOfLine(line: string, rest: string)
    requires '\n' !in line
    ensures LineEnd(line + "\n" + rest) == |line|
  {
    if line == "" {
      assert line + "\n" + rest == "\n" + rest;
    } else {
      EndOfLine(line[1..], rest);
      assert (line + "\n" + rest)[1..] == line[1..] + "\n" + rest;
      assert (line + "\n" + rest)[0] == line[0];
    }
  }

  lemma SplitOne(line: string, rest: string)
    requires '\n' !in line
    ensures SplitLines(line + "\n" + rest) == [line] + SplitLines(rest)
  {
    var s := line + "\n" + rest;
    EndOfLine(line, rest);
    assert s[..|line|] == line && s[|line| + 1..] == rest;
  }

  lemma DigitsHaveNoNewline(b: nat, n: nat, precision: nat)
    requires IsBase(b)
    ensures '\n' !in Digits(b, n, precision)
  {
    DigitsShape(b, n, precision);
  }

  // No byte's rendering on the right is a newline.
  lemma {:induction false} AsciiHasNoNewline(bytes: seq<byte>, w: nat, j: nat)
    ensures '\n' !in AsciiColumns(bytes, w, j)
    decreases w - j
  {
    if j < w {
      AsciiHasNoNewline(bytes, w, j + 1);
    }
  }

  lemma BodyHasNoNewline(l: Line, w: nat)
    requires |l.bytes| <= w
    ensures '\n' !in Body(l, w)
  {
    DigitsHaveNoNewline(16, l.addr, 8);
    PaddingShows(l.bytes, w, 0);
    AsciiHasNoNewline(l.bytes, w, 0);
    hide Digits, HexColumns, AsciiColumns;
  }

  lemma DecimalHasNoNewline(n: int)
    ensures '\n' !in Decimal(n)
  {
    DigitsHaveNoNewline(10, if n < 0 then -n else n, 1);
    hide Digits;
  }

  lemma TrailerHasNoNewline(size: long)
    ensures '\n' !in TrailerBody(size)
  {
    DigitsHaveNoNewline(16, Unsigned(size), 8);
    DecimalHasNoNewline(size as int);
    DecimalHasNoNewline(MTIME);
    hide Digits, Decimal;
  }

  lemma {:induction false} TextSplit(ls: seq<Line>, w: nat, size: long)
    requires Readable(ls, w)
    ensures SplitLines(Text(ls, w) + (TrailerBody(size) + "\n")) == Bodies(ls, w) + [TrailerBody(size)]
  {
    var trailer := TrailerBody(size) + "\n";
    if ls == [] {
      TrailerHasNoNewline(size);
      hide TrailerBody;
      assert Text(ls, w) + trailer == TrailerBody(size) + "\n" + "";
      SplitOne(TrailerBody(size), "");
    } else {
      var rest := Text(ls[1..], w) + trailer;
      TextSplit(ls[1..], w, size);
      BodyHasNoNewline(ls[0], w);
      hide TrailerBody, Body;
      assert Text(ls, w) + trailer == Body(ls[0], w) + "\n" + rest by {
        Associate(Body(ls[0], w) + "\n", Text(ls[1..], w), trailer);
      }
      SplitOne(Body(ls[0], w), rest);
    }
  }

  /** Framing is unambiguous: splitting the text at newlines gives the printed lines and then the
      trailer, one each; no data line reads as a trailer; and padding shows exactly in the line that
      reaches past the end of the buffer. */
  lemma Framing(data: seq<byte>, w: nat, size: long, full: bool)
    requires w > 0 && |data| == Length(size)
    ensures var ls := Lines(data, w, full, 0);
            SplitLines(DumpText(data, w, size, full)) == Bodies(ls, w) + [TrailerBody(size)]
    ensures forall l :: l in Lines(data, w, full, 0) ==> ReadTrailer(Body(l, w) + "\n") == None
    ensures forall l :: l in Lines(data, w, full, 0) ==>
              ('-' in HexColumns(l.bytes, w, 0) <==> l.addr + w > |data|)
    ensures ReadTrailer(TrailerBody(size) + "\n") == Some(size as int)
  {
    var ls := Lines(data, w, full, 0);
    LinesAreReadable(data, w, full, 0);
    OnlyTheLastIsShort(data, w, full, 0);
    TextSplit(ls, w, size);
    TrailerRead(size);
    hide ReadTrailer, Body, HexColumns, Lines;
    forall l | l in ls
      ensures ReadTrailer(Body(l, w) + "\n") == None
      ensures '-' in HexColumns(l.bytes, w, 0) <==> l.addr + w > |data|
    {
      LineRead(l, w, "");
      assert Body(l, w) + "\n" + "" == Body(l, w) + "\n";
      PaddingShows(l.bytes, w, 0);
    }
  }
}
