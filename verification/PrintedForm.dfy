/**
  The printed text character by character: what every column of a data line and of the closing line
  shows, without reference to the functions that print it.
 */
module PrintedForm {
  import opened Basics
  import opened HexDump
  import opened Printf

  const HEX_DIGITS := "0123456789ABCDEF"

  // s is n in hexadecimal digits, at least `width` of them and none to spare.
  predicate ShowsHex(s: string, n: nat, width: nat) {
    ReadDigits(16, s, 0) == (n, "") && |s| >= width && (|s| > width ==> s[0] != '0')
  }

  // Column k of s, three characters wide, shows byte from + k or padding.
  predicate ShowsColumn(s: string, k: nat, bytes: seq<byte>, from: nat) {
    3 * k + 3 <= |s| &&
    s[3 * k..3 * k + 3]
    == if from + k < |bytes| then [' ', HEX_DIGITS[bytes[from + k] / 16], HEX_DIGITS[bytes[from + k] % 16]] else " --"
  }

  predicate ShowsCharacter(c: char, b: byte) {
    if 32 <= b <= 126 then c as int == b else c == '.'
  }

  predicate ShowsBytes(hex: string, bytes: seq<byte>, w: nat) {
    |hex| == 3 * w && forall k :: 0 <= k < w ==> ShowsColumn(hex, k, bytes, 0)
  }

  predicate ShowsCharacters(ascii: string, bytes: seq<byte>) {
    |ascii| == |bytes| && forall k :: 0 <= k < |bytes| ==> ShowsCharacter(ascii[k], bytes[k])
  }

  // s is n in decimal digits with an optional minus sign and no zero in front.
  predicate ShowsDecimal(s: string, n: int) {
    ReadDecimal(s) == (n, "") && s != "" && (s[0] == '0' ==> s == "0") && (s[0] == '-' <==> n < 0) &&
    (s[0] == '-' ==> |s| > 1 && s[1] != '0')
  }

  lemma HexShown(n: nat, width: nat)
    requires width >= 1
    ensures ShowsHex(Hex(n, width), n, width)
  {
    hide Digits, ReadDigits;
    var s := Hex(n, width);
    DigitsRead(16, n, width, "");
    NoMoreDigits(16, "", n);
    DigitsShape(16, n, width);
    assert s + "" == s;
  }

  lemma ZeroAlone()
    ensures Digits(10, 0, 1) == "0"
  {
  }

  lemma NoMinus(b: nat, n: nat, precision: nat)
    requires IsBase(b)
    ensures Digits(b, n, precision) != "" && Digits(b, n, precision)[0] != '-'
  {
    hide Digits;
    DigitsShape(b, n, precision);
    assert DigitValue(Digits(b, n, precision)[0]) < b;
  }

  lemma OneDigit(m: nat)
    requires m > 0
    ensures Digits(10, m, 1)[0] == '0' ==> |Digits(10, m, 1)| > 1
  {
  }

  lemma DecimalShown(n: int)
    ensures ShowsDecimal(Decimal(n), n)
  {
    hide Digits, ReadDecimal;
    var m := if n < 0 then -n else n;
    var s := Digits(10, m, 1);
    DecimalRead(n, "");
    assert Decimal(n) + "" == Decimal(n);
    DigitsShape(10, m, 1);
    NoMinus(10, m, 1);
    if n == 0 {
      ZeroAlone();
    } else if |s| == 1 {
      OneDigit(m);
    }
  }

  lemma DigitShown(d: nat)
    requires d < 16
    ensures DigitChar(d) == HEX_DIGITS[d]
  {
  }

  lemma ByteShown(b: byte)
    ensures " " + Hex(b, 2) == [' ', HEX_DIGITS[b / 16], HEX_DIGITS[b % 16]]
  {
    DigitShown(b / 16);
    DigitShown(b % 16);
    assert Digits(16, b / 16, 1) == [DigitChar(b / 16)];
  }

  lemma FirstShown(first: string, rest: string, bytes: seq<byte>, j: nat)
    requires first == if j < |bytes| then [' ', HEX_DIGITS[bytes[j] / 16], HEX_DIGITS[bytes[j] % 16]] else " --"
    ensures ShowsColumn(first + rest, 0, bytes, j)
  {
    assert (first + rest)[0..3] == first;
  }

  lemma LaterShown(first: string, rest: string, k: nat, bytes: seq<byte>, j: nat)
    requires |first| == 3 && ShowsColumn(rest, k, bytes, j + 1)
    ensures ShowsColumn(first + rest, k + 1, bytes, j)
  {
    assert (first + rest)[3 * k + 3..3 * k + 6] == rest[3 * k..3 * k + 3];
  }

  lemma ColumnsFrom(bytes: seq<byte>, w: nat, j: nat)
    requires j <= w
    ensures j == w ==> HexColumns(bytes, w, j) == ""
    ensures j < w ==>
              var whole, rest := HexColumns(bytes, w, j), HexColumns(bytes, w, j + 1);
              |whole| == 3 + |rest| && whole == whole[..3] + rest &&
              whole[..3] == if j < |bytes| then [' ', HEX_DIGITS[bytes[j] / 16], HEX_DIGITS[bytes[j] % 16]] else " --"
  {
    if j < w {
      var first := if j < |bytes| then " " + Hex(bytes[j], 2) else " --";
      if j < |bytes| {
        ByteShown(bytes[j]);
      }
      assert HexColumns(bytes, w, j) == first + HexColumns(bytes, w, j + 1);
      hide HexColumns, Hex;
    }
  }

  lemma {:induction false} ColumnsShown(bytes: seq<byte>, w: nat, j: nat)
    requires j <= w
    ensures |HexColumns(bytes, w, j)| == 3 * (w - j)
    ensures forall k :: 0 <= k < w - j ==> ShowsColumn(HexColumns(bytes, w, j), k, bytes, j)
    decreases w - j
  {
    hide HexColumns, Hex, ShowsColumn;
    ColumnsFrom(bytes, w, j);
    if j < w {
      ColumnsShown(bytes, w, j + 1);
      var whole, rest := HexColumns(bytes, w, j), HexColumns(bytes, w, j + 1);
      forall k | 0 <= k < w - j
        ensures ShowsColumn(whole, k, bytes, j)
      {
        if k == 0 {
          FirstShown(whole[..3], rest, bytes, j);
        } else {
          LaterShown(whole[..3], rest, k - 1, bytes, j);
        }
      }
    }
  }

  lemma {:induction false} NoCharacters(bytes: seq<byte>, w: nat, j: nat)
    requires |bytes| <= j
    ensures AsciiColumns(bytes, w, j) == ""
    decreases w - j
  {
    if j < w {
      NoCharacters(bytes, w, j + 1);
    }
  }

  lemma {:induction false} CharactersShown(bytes: seq<byte>, w: nat, j: nat)
    requires j <= |bytes| <= w
    ensures |AsciiColumns(bytes, w, j)| == |bytes| - j
    ensures forall k :: j <= k < |bytes| ==> ShowsCharacter(AsciiColumns(bytes, w, j)[k - j], bytes[k])
    decreases w - j
  {
    if j < |bytes| {
      CharactersShown(bytes, w, j + 1);
    } else {
      NoCharacters(bytes, w, j);
    }
  }

  /** A printed line shows, in this order, its address in at least eight digits, its mark, every byte in
      two digits or padding, and every byte again as itself if printable and as a dot if not. */
  lemma LineShown(l: Line, w: nat) returns (addr: string, hex: string, ascii: string)
    requires |l.bytes| <= w
    ensures Body(l, w) == addr + (if l.star then "*" else ":") + hex + "  " + ascii
    ensures ShowsHex(addr, l.addr, 8) && ShowsBytes(hex, l.bytes, w) && ShowsCharacters(ascii, l.bytes)
  {
    addr, hex, ascii := Hex(l.addr, 8), HexColumns(l.bytes, w, 0), AsciiColumns(l.bytes, w, 0);
    HexShown(l.addr, 8);
    ColumnsShown(l.bytes, w, 0);
    CharactersShown(l.bytes, w, 0);
    hide Hex, HexColumns, AsciiColumns, ShowsHex, ShowsCharacter, ShowsColumn;
    Associate(addr + Mark(l.star), hex + "  ", ascii);
    Associate(addr + Mark(l.star), hex, "  ");
  }

  /** The closing line shows the size twice: in hexadecimal, a negative one as its 64-bit pattern, and in
      decimal. */
  lemma TrailerShown(size: long) returns (hex: string, decimal: string)
    ensures TrailerBody(size) == hex + ": end (" + decimal + " bytes) mtime 0"
    ensures ShowsHex(hex, if size < 0 then size as int + 0x1_0000_0000_0000_0000 else size as int, 8)
    ensures ShowsDecimal(decimal, size as int)
  {
    hex, decimal := Hex(Unsigned(size), 8), Decimal(size as int);
    HexShown(Unsigned(size), 8);
    DecimalShown(size as int);
    assert Decimal(MTIME) == "0" by {
      ZeroAlone();
    }
    hide Hex, Decimal, ShowsHex, ShowsDecimal;
  }
}
