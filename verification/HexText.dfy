/** Numbers as printf writes them, and reading them back. */
module HexText {
  import opened Word64

  const LOWER: string := "0123456789abcdef"
  const UPPER: string := "0123456789ABCDEF"

  /** The value of a hexadecimal digit of either case; 16 for any other character. */
  function DigitValue(c: char): nat {
    if '0' <= c <= '9' then c as int - '0' as int
    else if 'a' <= c <= 'f' then c as int - 'a' as int + 10
    else if 'A' <= c <= 'F' then c as int - 'A' as int + 10
    else 16
  }

  lemma DigitsRead(d: nat)
    requires d < 16
    ensures DigitValue(LOWER[d]) == DigitValue(UPPER[d]) == d
  {
  }

  predicate IsDecimalDigit(c: char) {
    '0' <= c <= '9'
  }

  lemma DigitCases(d: nat)
    requires d < 16
    ensures IsDecimalDigit(LOWER[d]) || 'a' <= LOWER[d] <= 'f'
    ensures IsDecimalDigit(UPPER[d]) || 'A' <= UPPER[d] <= 'F'
    ensures LOWER[d] == '0' ==> d == 0
  {
  }

  /** "%02x" of a byte. */
  function Hex2(b: u8): (s: string)
    ensures |s| == 2
  {
    [LOWER[b / 16], LOWER[b % 16]]
  }

  /** "%02x" gives two digits of the lower case, the higher one first. */
  lemma Hex2Digits(b: u8)
    ensures forall i :: 0 <= i < 2 ==> IsDecimalDigit(Hex2(b)[i]) || 'a' <= Hex2(b)[i] <= 'f'
    ensures 16 * DigitValue(Hex2(b)[0]) + DigitValue(Hex2(b)[1]) == b
  {
    DigitCases(b / 16);
    DigitCases(b % 16);
    DigitsRead(b / 16);
    DigitsRead(b % 16);
  }

  function Pow16(n: nat): nat {
    if n == 0 then 1 else 16 * Pow16(n - 1)
  }

  /** The last `width` digits of "%0*X". */
  function HexUpper(v: nat, width: nat): (s: string)
    ensures |s| == width
    decreases width
  {
    if width == 0 then "" else HexUpper(v / 16, width - 1) + [UPPER[v % 16]]
  }

  function ReadHex(s: string): nat {
    if s == "" then 0 else 16 * ReadHex(s[..|s| - 1]) + DigitValue(s[|s| - 1])
  }

  lemma {:induction false} HexReads(v: nat, width: nat)
    requires v < Pow16(width)
    ensures ReadHex(HexUpper(v, width)) == v
    decreases width
  {
    if width > 0 {
      HexReads(v / 16, width - 1);
      DigitsRead(v % 16);
      var s := HexUpper(v, width);
      assert s[..|s| - 1] == HexUpper(v / 16, width - 1);
    }
  }

  /** "%0*X" gives digits of the upper case. */
  lemma {:induction false} HexUpperDigits(v: nat, width: nat)
    ensures forall i :: 0 <= i < width ==>
              var c := HexUpper(v, width)[i]; DigitValue(c) < 16 && (IsDecimalDigit(c) || 'A' <= c <= 'F')
    decreases width
  {
    if width > 0 {
      HexUpperDigits(v / 16, width - 1);
      DigitsRead(v % 16);
      DigitCases(v % 16);
    }
  }

  /** "%x" */
  function HexLower(v: nat): (s: string)
    ensures s != ""
    decreases v
  {
    if v < 16 then [LOWER[v]] else HexLower(v / 16) + [LOWER[v % 16]]
  }

  lemma {:induction false} HexLowerReads(v: nat)
    ensures ReadHex(HexLower(v)) == v
    ensures forall i :: 0 <= i < |HexLower(v)| ==> DigitValue(HexLower(v)[i]) < 16
    decreases v
  {
    var s := HexLower(v);
    DigitsRead(v % 16);
    if v < 16 {
      assert s[..0] == "" && ReadHex("") == 0;
    } else {
      HexLowerReads(v / 16);
      assert s[..|s| - 1] == HexLower(v / 16);
    }
  }

  /** "%x" gives digits of the lower case, and no zero in front of others. */
  lemma {:induction false} HexLowerDigits(v: nat)
    ensures forall i :: 0 <= i < |HexLower(v)| ==> IsDecimalDigit(HexLower(v)[i]) || 'a' <= HexLower(v)[i] <= 'f'
    ensures HexLower(v)[0] == '0' ==> v == 0
    decreases v
  {
    DigitCases(v % 16);
    if v >= 16 { HexLowerDigits(v / 16); }
  }

  /** A decimal digit. */
  function Digit(d: nat): (c: char)
    requires d < 10
    ensures '0' <= c <= '9' && c as int - '0' as int == d
  {
    ('0' as int + d) as char
  }

  /** "%zu" */
  function Decimal(v: nat): (s: string)
    decreases v
  {
    if v < 10 then [Digit(v)] else Decimal(v / 10) + [Digit(v % 10)]
  }

  /** The number at the front of a text. */
  function ReadDecimal(s: string, acc: nat): nat
    decreases |s|
  {
    if s == "" || !('0' <= s[0] <= '9') then acc
    else ReadDecimal(s[1..], 10 * acc + (s[0] as int - '0' as int))
  }

  lemma ReadDigit(d: nat, tail: string, acc: nat)
    requires d < 10
    ensures ReadDecimal([Digit(d)] + tail, acc) == ReadDecimal(tail, 10 * acc + d)
  {
    assert ([Digit(d)] + tail)[1..] == tail;
  }

  lemma {:induction false} DecimalReads(v: nat, tail: string)
    ensures ReadDecimal(Decimal(v) + tail, 0) == ReadDecimal(tail, v)
    decreases v
  {
    if v < 10 {
      ReadDigit(v, tail, 0);
    } else {
      DecimalReads(v / 10, [Digit(v % 10)] + tail);
      ReadDigit(v % 10, tail, v / 10);
      assert Decimal(v) + tail == Decimal(v / 10) + ([Digit(v % 10)] + tail);
    }
  }
}
