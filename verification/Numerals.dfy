/** The numeral reader behind strtoul and g_ascii_strtoull, and the numeral printers it undoes. */
module Numerals {
  import opened Ascii

  const U64_MAX: nat := 0xFFFF_FFFF_FFFF_FFFF
  const TWO_64: nat := 0x1_0000_0000_0000_0000
  const TWO_32: nat := 0x1_0000_0000
  const TWO_31: nat := 0x8000_0000

  /** The value of c as a digit in a base up to 36; 36 or more when it is not a digit. */
  function DigitValue(c: char): nat {
    if IsDigit(c) then c as int - '0' as int
    else if 'a' <= c <= 'z' then c as int - 'a' as int + 10
    else if 'A' <= c <= 'Z' then c as int - 'A' as int + 10
    else 36
  }

  /** The value read after acc from the longest digit prefix of s, and that prefix's length. */
  function ReadDigits(s: string, base: nat, acc: nat): (r: (nat, nat))
    ensures r.1 <= |s|
  {
    if s == "" || DigitValue(s[0]) >= base then (acc, 0)
    else
      var (v, n) := ReadDigits(s[1..], base, acc * base + DigitValue(s[0]));
      (v, n + 1)
  }

  /**
   * strtoull on an unsigned numeral: a prefix chosen by the base (0x for 16, 0 for octal), then
   * digits. The value saturates. The second component is the number of characters used, with 1
   * for the 0 of a lone 0x, and 0 if nothing was converted.
   */
  function ReadUnsigned(s: string, base: nat): (r: (nat, nat))
    ensures r.0 <= U64_MAX && r.1 <= |s|
  {
    var hex := (base == 0 || base == 16) && |s| >= 2 && s[0] == '0' && (s[1] == 'x' || s[1] == 'X');
    if hex then
      var (v, n) := ReadDigits(s[2..], 16, 0);
      if n == 0 then (0, 1) else (Saturate(v), n + 2)
    else
      var b := if base != 0 then base else if s != "" && s[0] == '0' then 8 else 10;
      var (v, n) := ReadDigits(s, b, 0);
      (if n == 0 then 0 else Saturate(v), n)
  }

  function Saturate(v: nat): nat {
    if v > U64_MAX then U64_MAX else v
  }

  /**
   * strtoull: skip spaces and an optional sign before the numeral. A minus sign negates the value
   * modulo 2^64.
   */
  function Strtoull(word: string, base: nat): (r: (nat, nat))
    ensures r.0 <= U64_MAX && r.1 <= |word|
  {
    var i := Run(word, IsCSpace);
    var signed := i < |word| && (word[i] == '-' || word[i] == '+');
    var j := if signed then i + 1 else i;
    var (v, n) := ReadUnsigned(word[j..], base);
    if n == 0 then (0, 0)
    else (if signed && word[i] == '-' && v != 0 then TWO_64 - v else v, j + n)
  }

  lemma {:induction false} StrtoullUnsigned(word: string, base: nat)
    requires word != "" && IsAlnum(word[0])
    ensures Strtoull(word, base) == ReadUnsigned(word, base)
  {
  }

  /** The characters for digit values below 16, in lower case. */
  function DigitChar(d: nat): (c: char)
    requires d < 16
    ensures DigitValue(c) == d && IsAlnum(c) && c != 'x'
    ensures d < 10 ==> IsDigit(c)
  {
    if d < 10 then (d + '0' as int) as char else (d - 10 + 'a' as int) as char
  }

  /** printf("%u") */
  function Decimal(n: nat): (s: string)
    ensures s != ""
    ensures forall i :: 0 <= i < |s| ==> IsDigit(s[i])
    ensures s[0] == '0' ==> n == 0 && |s| == 1
  {
    if n < 10 then [DigitChar(n)] else Decimal(n / 10) + [DigitChar(n % 10)]
  }

  /** The k low hexadecimal digits of n: printf("%0<k>x") when n < 16^k */
  function Hex(n: nat, k: nat): (s: string)
    ensures |s| == k
    ensures forall i :: 0 <= i < |s| ==> IsAlnum(s[i]) && DigitValue(s[i]) < 16 && s[i] != 'x' && s[i] != 'X'
  {
    if k == 0 then "" else Hex(n / 16, k - 1) + [DigitChar(n % 16)]
  }

  function Pow16(k: nat): (p: nat)
    ensures p > 0
  {
    if k == 0 then 1 else 16 * Pow16(k - 1)
  }

  /** The value of a digit string read after acc. */
  function DigitsValue(s: string, base: nat, acc: nat): nat {
    if s == "" then acc else DigitsValue(s[1..], base, acc * base + DigitValue(s[0]))
  }

  lemma {:induction false} DigitsValueSnoc(s: string, c: char, base: nat, acc: nat)
    ensures DigitsValue(s + [c], base, acc) == DigitsValue(s, base, acc) * base + DigitValue(c)
  {
    if s == "" {
      assert (s + [c])[1..] == "";
    } else {
      assert (s + [c])[1..] == s[1..] + [c];
      DigitsValueSnoc(s[1..], c, base, acc * base + DigitValue(s[0]));
    }
  }

  /** A digit string is read up to its end and no further. */
  lemma {:induction false} ReadDigitsAll(s: string, rest: string, base: nat, acc: nat)
    requires forall i :: 0 <= i < |s| ==> DigitValue(s[i]) < base
    requires rest != "" ==> DigitValue(rest[0]) >= base
    ensures ReadDigits(s + rest, base, acc) == (DigitsValue(s, base, acc), |s|)
  {
    if s == "" {
      assert s + rest == rest;
    } else {
      assert (s + rest)[1..] == s[1..] + rest;
      ReadDigitsAll(s[1..], rest, base, acc * base + DigitValue(s[0]));
    }
  }

  /** Only digits of the base are read. */
  lemma {:induction false} ReadDigitsOnly(s: string, base: nat, acc: nat)
    ensures forall i :: 0 <= i < ReadDigits(s, base, acc).1 ==> DigitValue(s[i]) < base
  {
    if s != "" && DigitValue(s[0]) < base {
      ReadDigitsOnly(s[1..], base, acc * base + DigitValue(s[0]));
    }
  }

  /** In base 0 a leading zero makes a number octal, */
  lemma {:induction false} OctalForm(s: string)
    requires forall i :: 0 <= i < |s| ==> DigitValue(s[i]) < 8
    ensures Strtoull("0" + s, 0) == (Saturate(DigitsValue(s, 8, 0)), |s| + 1)
  {
    var w := "0" + s;
    StrtoullUnsigned(w, 0);
    ReadDigitsAll(w, "", 8, 0);
    assert w + "" == w && w[1..] == s;
    assert s != "" ==> w[1] == s[0];
  }

  /** 0x makes it hexadecimal, */
  lemma {:induction false} HexForm(s: string)
    requires s != "" && forall i :: 0 <= i < |s| ==> DigitValue(s[i]) < 16
    ensures Strtoull("0x" + s, 0) == (Saturate(DigitsValue(s, 16, 0)), |s| + 2)
  {
    StrtoullUnsigned("0x" + s, 0);
    ReadDigitsAll(s, "", 16, 0);
    assert ("0x" + s)[2..] == s && s + "" == s;
  }

  /** and any other number is decimal. */
  lemma {:induction false} DecimalForm(s: string)
    requires s != "" && s[0] != '0' && forall i :: 0 <= i < |s| ==> DigitValue(s[i]) < 10
    ensures Strtoull(s, 0) == (Saturate(DigitsValue(s, 10, 0)), |s|)
  {
    StrtoullUnsigned(s, 0);
    ReadDigitsAll(s, "", 10, 0);
    assert s + "" == s;
  }

  lemma {:induction false} DecimalValue(n: nat)
    ensures DigitsValue(Decimal(n), 10, 0) == n
  {
    if n >= 10 {
      DecimalValue(n / 10);
      DigitsValueSnoc(Decimal(n / 10), DigitChar(n % 10), 10, 0);
    }
  }

  lemma {:induction false} HexValue(n: nat, k: nat)
    requires n < Pow16(k)
    ensures DigitsValue(Hex(n, k), 16, 0) == n
  {
    if k > 0 {
      HexValue(n / 16, k - 1);
      DigitsValueSnoc(Hex(n / 16, k - 1), DigitChar(n % 16), 16, 0);
    }
  }

  /** Base 0 reads a number printed in decimal back, whole. */
  lemma {:induction false} ReadDecimal(n: nat)
    requires n <= U64_MAX
    ensures Strtoull(Decimal(n), 0) == (n, |Decimal(n)|)
  {
    var s := Decimal(n);
    assert IsDigit(s[0]);
    StrtoullUnsigned(s, 0);
    assert s + "" == s;
    if s[0] == '0' {
      assert ReadDigits(s, 8, 0) == (0, 1);
    } else {
      assert |s| >= 2 ==> IsDigit(s[1]);
      ReadDigitsAll(s, "", 10, 0);
      DecimalValue(n);
    }
  }

  lemma {:induction false} Pow16Of16()
    ensures Pow16(16) == TWO_64
  {
    assert Pow16(4) == 0x1_0000;
    assert Pow16(8) == TWO_32;
    assert Pow16(12) == 0x1_0000_0000_0000;
  }

  /** Base 16 reads a zero-padded 16-digit hexadecimal number back, whole. */
  lemma {:induction false} ReadHex(n: nat)
    requires n <= U64_MAX
    ensures Strtoull(Hex(n, 16), 16) == (n, 16)
  {
    var s := Hex(n, 16);
    assert IsAlnum(s[0]) && s[1] != 'x' && s[1] != 'X';
    StrtoullUnsigned(s, 16);
    assert s + "" == s;
    ReadDigitsAll(s, "", 16, 0);
    Pow16Of16();
    HexValue(n, 16);
  }
}
