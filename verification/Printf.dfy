/**
  The conversions of fprintf that the dump uses (section 7.19.6.1 of ISO C99):
  %.<precision>lX and %ld.  A reader for digit strings is the specification partner.
 */
module Printf {
  // The two bases in use.
  predicate IsBase(b: int) { b == 10 || b == 16 }

  function DigitChar(d: nat): char
    requires d < 16
  {
    if d < 10 then (48 + d) as char else (55 + d) as char
  }

  // 16 stands for "not a digit"; lower-case letters are not digits.
  function DigitValue(c: char): (d: nat)
    ensures d <= 16
  {
    if '0' <= c <= '9' then c as int - 48
    else if 'A' <= c <= 'F' then c as int - 55
    else 16
  }

  // An unsigned conversion: at least `precision` digits, most significant first.
  function Digits(b: nat, n: nat, precision: nat): string
    requires IsBase(b)
    decreases n, precision
  {
    (if n < b && precision <= 1 then "" else Digits(b, n / b, if precision == 0 then 0 else precision - 1))
    + [DigitChar(n % b)]
  }

  // %.<precision>lX
  function Hex(n: nat, precision: nat): string { Digits(16, n, precision) }

  // %ld
  function Decimal(n: int): string {
    if n < 0 then "-" + Digits(10, -n, 1) else Digits(10, n, 1)
  }

  // Reads the longest prefix of base-b digits, most significant first.
  function ReadDigits(b: nat, s: string, acc: nat): (r: (nat, string))
    requires IsBase(b)
    ensures |r.1| <= |s|
  {
    if s != "" && DigitValue(s[0]) < b then ReadDigits(b, s[1..], acc * b + DigitValue(s[0]))
    else (acc, s)
  }

  // Reading a printed number gives the number back, whatever its precision and whatever follows:
  // it is as if the reader had already accumulated n in front of the rest.
  lemma {:induction false} DigitsRead(b: nat, n: nat, precision: nat, rest: string)
    requires IsBase(b)
    ensures ReadDigits(b, Digits(b, n, precision) + rest, 0) == ReadDigits(b, rest, n)
    decreases n, precision
  {
    var last := [DigitChar(n % b)];
    assert ReadDigits(b, last + rest, n / b) == ReadDigits(b, rest, n) by {
      assert (last + rest)[1..] == rest;
      assert DigitValue(last[0]) == n % b;
    }
    if n < b && precision <= 1 {
      assert n / b == 0;
      assert Digits(b, n, precision) == last;
    } else {
      var front := Digits(b, n / b, if precision == 0 then 0 else precision - 1);
      assert Digits(b, n, precision) + rest == front + (last + rest);
      DigitsRead(b, n / b, if precision == 0 then 0 else precision - 1, last + rest);
    }
  }

  // There are as many digits as asked for and more only if needed, so no zero is in front of them.
  lemma {:induction false} DigitsShape(b: nat, n: nat, precision: nat)
    requires IsBase(b)
    ensures var s := Digits(b, n, precision);
            |s| >= 1 && |s| >= precision &&
            (n == 0 ==> |s| == if precision == 0 then 1 else precision) &&
            (n > 0 && |s| > precision ==> s[0] != '0')
    ensures forall k :: 0 <= k < |Digits(b, n, precision)| ==> DigitValue(Digits(b, n, precision)[k]) < b
    decreases n, precision
  {
    if !(n < b && precision <= 1) {
      DigitsShape(b, n / b, if precision == 0 then 0 else precision - 1);
    }
  }

  // Reads an optional minus sign and a run of decimal digits.
  function ReadDecimal(s: string): (r: (int, string))
    ensures |r.1| <= |s|
  {
    var negative := s != "" && s[0] == '-';
    var (digits, rest) := ReadDigits(10, if negative then s[1..] else s, 0);
    var n: int := digits;
    (if negative then -n else n, rest)
  }

  lemma ReadSigned(s: string)
    ensures ReadDecimal("-" + s) == (-(ReadDigits(10, s, 0).0 as int), ReadDigits(10, s, 0).1)
  {
    hide ReadDigits;
    assert ("-" + s)[1..] == s;
  }

  lemma ReadUnsigned(s: string)
    requires s != "" && DigitValue(s[0]) < 10
    ensures ReadDecimal(s) == (ReadDigits(10, s, 0).0 as int, ReadDigits(10, s, 0).1)
  {
    hide ReadDigits;
  }

  lemma NoMoreDigits(b: nat, rest: string, n: nat)
    requires IsBase(b) && (rest == "" || DigitValue(rest[0]) >= b)
    ensures ReadDigits(b, rest, n) == (n, rest)
  {
  }

  lemma DecimalRead(n: int, rest: string)
    requires rest == "" || DigitValue(rest[0]) >= 10
    ensures ReadDecimal(Decimal(n) + rest) == (n, rest)
  {
    hide Digits, ReadDigits;
    var m := if n < 0 then -n else n;
    var s := Digits(10, m, 1) + rest;
    DigitsRead(10, m, 1, rest);
    NoMoreDigits(10, rest, m);
    if n < 0 {
      assert Decimal(n) + rest == "-" + s;
      ReadSigned(s);
    } else {
      DigitsShape(10, m, 1);
      ReadUnsigned(s);
    }
  }
}
