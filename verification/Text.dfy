/** Output streams and the two hexadecimal conversions of the dump printers. */
module Text {
  import opened Bytes

  /** A FILE the printers append to. */
  class Stream {
    var text: string

    constructor ()
      ensures text == ""
    {
      text := "";
    }

    method Print(s: string)
      modifies this
      ensures text == old(text) + s
    {
      text := text + s;
    }
  }

  const DIGITS: string := "0123456789abcdef"

  function Digit(v: nat): char
    requires v < 16
  {
    DIGITS[v]
  }

  predicate IsDigit(c: char) { '0' <= c <= '9' || 'a' <= c <= 'f' }

  function DigitValue(c: char): nat
    requires IsDigit(c)
  {
    if c <= '9' then (c - '0') as nat else (c - 'a') as nat + 10
  }

  lemma DigitInverse(v: nat)
    requires v < 16
    ensures IsDigit(Digit(v)) && DigitValue(Digit(v)) == v
  {
    assert DIGITS[v] == if v < 10 then '0' + v as char else 'a' + (v - 10) as char;
  }

  /** `%02x` of a byte. */
  function Hex2(b: Byte): (s: string)
    ensures |s| == 2
  {
    [Digit(b / 16), Digit(b % 16)]
  }

  /** `%zx`. */
  function Hex(n: nat): (s: string)
    ensures |s| >= 1
  {
    if n < 16 then [Digit(n)] else Hex(n / 16) + [Digit(n % 16)]
  }

  /** `%04zx`: at least four digits. */
  function Hex04(n: nat): string {
    var s := Hex(n);
    if |s| >= 4 then s else seq(4 - |s|, _ => '0') + s
  }

  predicate AllDigits(s: string) {
    forall i :: 0 <= i < |s| ==> IsDigit(s[i])
  }

  function HexValue(s: string): nat
    requires AllDigits(s)
  {
    if s == "" then 0 else 16 * HexValue(s[..|s| - 1]) + DigitValue(s[|s| - 1])
  }

  lemma HexValueAppend(s: string, c: char)
    requires AllDigits(s) && IsDigit(c)
    ensures AllDigits(s + [c]) && HexValue(s + [c]) == 16 * HexValue(s) + DigitValue(c)
  {
    assert (s + [c])[..|s|] == s;
  }

  lemma {:induction false} HexInverse(n: nat)
    ensures AllDigits(Hex(n)) && HexValue(Hex(n)) == n
    decreases n
  {
    if n < 16 {
      DigitInverse(n);
      HexValueAppend("", Digit(n));
      assert "" + [Digit(n)] == [Digit(n)];
    } else {
      HexInverse(n / 16);
      DigitInverse(n % 16);
      HexValueAppend(Hex(n / 16), Digit(n % 16));
    }
  }

  lemma {:induction false} ZerosValue(k: nat, s: string)
    requires AllDigits(s)
    ensures var z := seq(k, _ => '0'); AllDigits(z + s) && HexValue(z + s) == HexValue(s)
    decreases |s|
  {
    var z := seq(k, _ => '0');
    if s == "" {
      assert z + s == z;
      ZeroValue(k);
    } else {
      ZerosValue(k, s[..|s| - 1]);
      assert z + s == (z + s[..|s| - 1]) + [s[|s| - 1]];
      HexValueAppend(z + s[..|s| - 1], s[|s| - 1]);
    }
  }

  lemma {:induction false} ZeroValue(k: nat)
    ensures var z := seq(k, _ => '0'); AllDigits(z) && HexValue(z) == 0
  {
    if k == 0 {
    } else {
      ZeroValue(k - 1);
      assert seq(k, _ => '0')[..k - 1] == seq(k - 1, _ => '0');
    }
  }

  /** The offset column reads back as the offset, however wide it is. */
  lemma Hex04Inverse(n: nat)
    ensures AllDigits(Hex04(n)) && HexValue(Hex04(n)) == n
  {
    HexInverse(n);
    if |Hex(n)| < 4 {
      ZerosValue(4 - |Hex(n)|, Hex(n));
    }
  }

  lemma {:induction false} NoLeadingZero(n: nat)
    requires n > 0
    ensures Hex(n)[0] != '0'
    decreases n
  {
    if n < 16 {
      DigitInverse(n);
    } else {
      NoLeadingZero(n / 16);
    }
  }

  /** It takes four digits, and more only if the offset needs them. */
  lemma Hex04Width(n: nat)
    ensures |Hex04(n)| >= 4 && (|Hex04(n)| > 4 ==> Hex04(n)[0] != '0')
  {
    if n > 0 {
      NoLeadingZero(n);
    }
  }

  lemma Hex2Inverse(b: Byte)
    ensures AllDigits(Hex2(b)) && HexValue(Hex2(b)) == b
  {
    DigitInverse(b / 16);
    DigitInverse(b % 16);
    HexValueAppend("", Digit(b / 16));
    HexValueAppend("" + [Digit(b / 16)], Digit(b % 16));
    assert "" + [Digit(b / 16)] + [Digit(b % 16)] == Hex2(b);
  }

  function ReadByte(s: string): Byte
    requires |s| == 2 && IsDigit(s[0]) && IsDigit(s[1])
  {
    16 * DigitValue(s[0]) + DigitValue(s[1])
  }

  lemma Hex2Reads(b: Byte)
    ensures IsDigit(Hex2(b)[0]) && IsDigit(Hex2(b)[1]) && ReadByte(Hex2(b)) == b
  {
    DigitInverse(b / 16);
    DigitInverse(b % 16);
  }

  /** A byte as the character column shows it. */
  function Shown(b: Byte): char {
    if 0x20 <= b <= 0x7e then b as char else '.'
  }

  function Blank(n: nat): (s: string)
    ensures |s| == n && forall i :: 0 <= i < n ==> s[i] == ' '
  {
    seq(n, _ => ' ')
  }

  /** The blanks that stand for the missing cells of a short row. */
  method PrintPad(fp: Stream, from: nat, to: nat, width: nat)
    requires from <= to
    modifies fp
    ensures fp.text == old(fp.text) + Blank(width * (to - from))
  {
    for i := from to to
      invariant fp.text == old(fp.text) + Blank(width * (i - from))
    {
      fp.Print(Blank(width));
      assert width * (i + 1 - from) == width * (i - from) + width;
      assert Blank(width * (i - from)) + Blank(width) == Blank(width * (i - from) + width);
    }
  }
}
