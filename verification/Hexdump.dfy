/** panwrap_log_hexdump and panwrap_log_hexdump_trimmed, and reading their output back. */
module Hexdump {
  import opened Word64
  import opened HexText

  const ROW_LEN: nat := 16

  /**
   * The log as records: panwrap_log starts one, panwrap_log_cont extends the last one. The prefix
   * printed in front of a record is not part of it.
   */
  class Log {
    var records: seq<string>

    constructor ()
      ensures records == []
    {
      records := [];
    }

    method Start(text: string)
      modifies this
      ensures records == old(records) + [text]
    {
      records := records + [text];
    }

    method Cont(text: string, ghost front: seq<string>, ghost row: string)
      requires records == front + [row]
      modifies this
      ensures records == front + [row + text]
    {
      var n := |records| - 1;
      records := records[..n] + [records[n] + text];
    }
  }

  /** `isprint(b) && b < 0xA0`, as a table of the bytes the C locale calls printable. */
  predicate Printable(isprint: u8 -> bool, b: u8) {
    isprint(b) && b < 0xA0
  }

  /** The character of a byte in the right-hand column. */
  function Cell(isprint: u8 -> bool, b: u8): char {
    if Printable(isprint, b) then b as char else '.'
  }

  function Alpha(isprint: u8 -> bool, row: seq<u8>): (s: string)
    ensures |s| == |row|
  {
    seq(|row|, i requires 0 <= i < |row| => Cell(isprint, row[i]))
  }

  /** A row while it is being printed: its offset, then the bytes, with an extra space before every fourth. */
  function RowFront(offset: nat, row: seq<u8>): (s: string)
    ensures |s| >= 8
  {
    if row == [] then HexUpper(offset, 8) else
    var n := |row| - 1;
    var s := RowFront(offset, row[..n]);
    (if n % 4 == 0 then s + " " else s) + (" " + Hex2(row[n]))
  }

  function Blanks(n: nat): (s: string)
    ensures |s| == 3 * n
    ensures forall i :: 0 <= i < |s| ==> s[i] == ' '
  {
    if n == 0 then "" else "   " + Blanks(n - 1)
  }

  function Dots(n: nat): (s: string)
    ensures |s| == n
  {
    seq(n, _ => '.')
  }

  /** A row: offset, bytes, blanks for the missing ones, and the 16 characters of the column. */
  function RowText(isprint: u8 -> bool, row: seq<u8>, offset: nat): string
    requires |row| <= ROW_LEN
  {
    RowFront(offset, row) + Blanks(ROW_LEN - |row|)
    + ("  |" + (Alpha(isprint, row) + Dots(ROW_LEN - |row|)) + "|\n")
  }

  /** The first `k` rows, all of them full. */
  function FullRows(isprint: u8 -> bool, data: seq<u8>, k: nat): (rows: seq<string>)
    requires 16 * k <= |data|
    ensures |rows| == k
  {
    if k == 0 then []
    else FullRows(isprint, data, k - 1) + [RowText(isprint, data[16 * k - 16..16 * k], 16 * k - 16)]
  }

  /** Everything panwrap_log_hexdump prints. */
  function Dump(isprint: u8 -> bool, data: seq<u8>): seq<string> {
    var k := |data| / 16;
    FullRows(isprint, data, k)
    + if |data| % 16 == 0 then [] else [RowText(isprint, data[16 * k..], 16 * k)]
  }

  /** The characters up to the terminator, as "%s" prints them. */
  function CString(s: seq<char>): string {
    if s == [] || s[0] == '\0' then "" else [s[0]] + CString(s[1..])
  }

  lemma {:induction false} CStringStops(s: seq<char>, n: nat)
    requires n < |s| && s[n] == '\0' && forall i :: 0 <= i < n ==> s[i] != '\0'
    ensures CString(s) == s[..n]
    decreases n
  {
    if n > 0 {
      CStringStops(s[1..], n - 1);
      assert s[..n] == [s[0]] + s[1..][..n - 1];
    }
  }

  lemma RowFrontGrows(offset: nat, row: seq<u8>, b: u8)
    ensures RowFront(offset, row + [b])
            == (if |row| % 4 == 0 then RowFront(offset, row) + " " else RowFront(offset, row)) + (" " + Hex2(b))
  {
    assert (row + [b])[..|row|] == row;
  }

  lemma Columns(i: nat, k: nat, j: nat)
    requires i == 16 * k + j && j < 16
    ensures i / 16 == k && i % 16 == j && i % 4 == j % 4
  {
    Rows(i, k, j);
    Groups(j, j / 4, j % 4);
    Groups(i, 4 * k + j / 4, j % 4);
  }

  lemma Rows(i: nat, k: nat, j: nat)
    requires i == 16 * k + j && j < 16
    ensures i / 16 == k && i % 16 == j
  {
  }

  lemma Groups(i: nat, k: nat, j: nat)
    requires i == 4 * k + j && j < 4
    ensures i / 4 == k && i % 4 == j
  {
  }

  /** The printing of byte `i` in the loop of panwrap_log_hexdump; `row` are the bytes before it in row `k`. */
  method LogByte(log: Log, b: u8, i: nat, ghost k: nat, ghost row: seq<u8>, ghost front: seq<string>)
    requires i == 16 * k + |row| && |row| < ROW_LEN
    requires log.records == if row == [] then front else front + [RowFront(16 * k, row)]
    modifies log
    ensures log.records == front + [RowFront(16 * k, row + [b])]
  {
    Columns(i, k, |row|);
    RowFrontGrows(16 * k, row, b);
    if i % 16 == 0 { log.Start(HexUpper(i, 8)); }
    ghost var text := RowFront(16 * k, row);
    assert log.records == front + [text];
    if i % 4 == 0 {
      log.Cont(" ", front, text);
      log.Cont(" " + Hex2(b), front, text + " ");
    } else {
      log.Cont(" " + Hex2(b), front, text);
    }
  }

  /** The front of the column buffer shows the bytes of `row`. */
  ghost predicate Filled(alpha: array<char>, isprint: u8 -> bool, row: seq<u8>)
    reads alpha
  {
    |row| <= alpha.Length && forall q :: 0 <= q < |row| ==> alpha[q] == Cell(isprint, row[q])
  }

  /** The write of byte `i` to the column buffer. */
  method FillCell(alpha: array<char>, isprint: u8 -> bool, b: u8, i: nat, ghost k: nat, ghost row: seq<u8>)
    requires i == 16 * k + |row| && |row| < ROW_LEN && alpha.Length == ROW_LEN + 1
    requires Filled(alpha, isprint, row)
    modifies alpha
    ensures Filled(alpha, isprint, row + [b])
  {
    Columns(i, k, |row|);
    if isprint(b) && b < 0xA0 {
      alpha[i % 16] := b as char;
    } else {
      alpha[i % 16] := '.';
    }
  }

  /** The terminator and the print of the column buffer. */
  method LogColumn(log: Log, alpha: array<char>, ghost front: seq<string>, ghost row: string)
    requires log.records == front + [row] && alpha.Length == ROW_LEN + 1
    requires forall i :: 0 <= i < ROW_LEN ==> alpha[i] != '\0'
    modifies log, alpha
    ensures log.records == front + [row + ("  |" + old(alpha[..ROW_LEN]) + "|\n")]
  {
    alpha[ROW_LEN] := '\0';
    CStringStops(alpha[..], ROW_LEN);
    assert alpha[..][..ROW_LEN] == old(alpha[..ROW_LEN]);
    log.Cont("  |" + CString(alpha[..]) + "|\n", front, row);
  }

  lemma BlanksSnoc(n: nat)
    ensures Blanks(n + 1) == Blanks(n) + "   "
  {
    if n > 0 { BlanksSnoc(n - 1); }
  }

  /** The second loop of panwrap_log_hexdump: fills up a short last row of `n` bytes. */
  method LogPadding(log: Log, alpha: array<char>, n: nat, ghost front: seq<string>, ghost row: string)
    requires log.records == front + [row] && alpha.Length == ROW_LEN + 1 && 0 < n < ROW_LEN
    requires forall q :: 0 <= q < n ==> alpha[q] != '\0'
    modifies log, alpha
    ensures log.records == front + [row + Blanks(ROW_LEN - n) + ("  |" + (old(alpha[..n]) + Dots(ROW_LEN - n)) + "|\n")]
  {
    var i := n;
    ghost var column := alpha[..n];
    assert row + Blanks(0) == row && column + Dots(0) == column;
    while i < ROW_LEN
      invariant n <= i <= ROW_LEN
      invariant i < ROW_LEN ==> log.records == front + [row + Blanks(i - n)] && alpha[..i] == column + Dots(i - n)
      invariant i == ROW_LEN ==> log.records == front + [row + Blanks(ROW_LEN - n)
                                                             + ("  |" + (column + Dots(ROW_LEN - n)) + "|\n")]
    {
      BlanksSnoc(i - n);
      log.Cont("   ", front, row + Blanks(i - n));
      assert row + Blanks(i - n) + "   " == row + Blanks(i + 1 - n);
      alpha[i] := '.';
      assert alpha[..i + 1] == column + Dots(i + 1 - n);
      if i == ROW_LEN - 1 {
        assert forall q :: 0 <= q < ROW_LEN ==> alpha[q] == alpha[..ROW_LEN][q];
        LogColumn(log, alpha, front, row + Blanks(ROW_LEN - n));
      }
      i := i + 1;
    }
  }

  /** After `i` bytes: `k` rows are complete and `row` is the part of the next one printed so far. */
  ghost predicate Printed(records: seq<string>, base: seq<string>, isprint: u8 -> bool, data: seq<u8>,
                          i: nat, k: nat, row: seq<u8>)
  {
    && i == 16 * k + |row| <= |data| && |row| < ROW_LEN && row == data[16 * k..i]
    && records == base + FullRows(isprint, data, k) + if row == [] then [] else [RowFront(16 * k, row)]
  }

  /** One round of the loop of panwrap_log_hexdump. */
  method LogRound(log: Log, isprint: u8 -> bool, data: seq<u8>, alpha: array<char>, i: nat,
                  ghost base: seq<string>, ghost k: nat, ghost row: seq<u8>)
    returns (ghost k': nat, ghost row': seq<u8>)
    requires i < |data| && alpha.Length == ROW_LEN + 1 && !isprint(0)
    requires Printed(log.records, base, isprint, data, i, k, row) && Filled(alpha, isprint, row)
    modifies log, alpha
    ensures Printed(log.records, base, isprint, data, i + 1, k', row') && Filled(alpha, isprint, row')
  {
    hide RowText, RowFront, FullRows;
    ghost var front := base + FullRows(isprint, data, k);
    assert row == [] ==> log.records == front;
    LogByte(log, data[i], i, k, row, front);
    FillCell(alpha, isprint, data[i], i, k, row);
    SliceGrows(data, 16 * k, i);
    k', row' := k, row + [data[i]];
    if i % 16 == 15 {
      Columns(i, k, |row|);
      LogFullRow(log, isprint, alpha, 16 * k, row', front);
      FullRowsGrow(isprint, data, k, base, row');
      k', row' := k + 1, [];
      assert data[16 * k'..i + 1] == [];
    } else {
      Columns(i, k, |row|);
    }
  }

  /**
   * panwrap_log_hexdump, for any printability test that rejects the zero byte. The 16-character
   * column buffer starts with arbitrary contents and is used for all rows; what is printed
   * depends on the data alone.
   */
  method LogHexdump(log: Log, isprint: u8 -> bool, data: seq<u8>)
    requires |data| < 0x8000_0000 && !isprint(0)
    modifies log
    ensures log.records == old(log.records) + Dump(isprint, data)
  {
    hide RowText, RowFront;
    var alpha := new char[ROW_LEN + 1];
    ghost var base := log.records;
    ghost var k, row: seq<u8> := 0, [];
    var i := 0;
    while i < |data|
      invariant Printed(log.records, base, isprint, data, i, k, row)
      invariant Filled(alpha, isprint, row)
    {
      k, row := LogRound(log, isprint, data, alpha, i, base, k, row);
      i := i + 1;
    }
    Columns(i, k, |row|);
    if i % 16 != 0 {
      LogShortRow(log, isprint, alpha, i % 16, 16 * k, row, base + FullRows(isprint, data, k));
    }
    DumpIs(isprint, data, k, row);
  }

  lemma SliceGrows<T>(s: seq<T>, from: nat, i: nat)
    requires from <= i < |s|
    ensures s[from..i + 1] == s[from..i] + [s[i]]
  {
  }

  lemma FullRowsGrow(isprint: u8 -> bool, data: seq<u8>, k: nat, base: seq<string>, row: seq<u8>)
    requires 16 * k + 16 <= |data| && row == data[16 * k..16 * k + 16]
    ensures base + FullRows(isprint, data, k) + [RowText(isprint, row, 16 * k)] == base + FullRows(isprint, data, k + 1)
  {
  }

  lemma DumpIs(isprint: u8 -> bool, data: seq<u8>, k: nat, row: seq<u8>)
    requires |data| == 16 * k + |row| && |row| < ROW_LEN && row == data[16 * k..]
    ensures Dump(isprint, data) == FullRows(isprint, data, k) + if row == [] then [] else [RowText(isprint, row, 16 * k)]
  {
    Columns(|data|, k, |row|);
  }

  /** The end of a row of 16 bytes. */
  method LogFullRow(log: Log, isprint: u8 -> bool, alpha: array<char>, ghost offset: nat,
                    ghost row: seq<u8>, ghost front: seq<string>)
    requires alpha.Length == ROW_LEN + 1 && |row| == ROW_LEN && !isprint(0)
    requires Filled(alpha, isprint, row)
    requires log.records == front + [RowFront(offset, row)]
    modifies log, alpha
    ensures log.records == front + [RowText(isprint, row, offset)]
  {
    assert Blanks(0) == "" && Dots(0) == "";
    assert alpha[..ROW_LEN] == Alpha(isprint, row) + Dots(0);
    assert RowFront(offset, row) + Blanks(0) == RowFront(offset, row);
    LogColumn(log, alpha, front, RowFront(offset, row));
  }

  /** The end of a shorter last row. */
  method LogShortRow(log: Log, isprint: u8 -> bool, alpha: array<char>, n: nat, ghost offset: nat,
                     ghost row: seq<u8>, ghost front: seq<string>)
    requires alpha.Length == ROW_LEN + 1 && 0 < |row| == n < ROW_LEN && !isprint(0)
    requires Filled(alpha, isprint, row)
    requires log.records == front + [RowFront(offset, row)]
    modifies log, alpha
    ensures log.records == front + [RowText(isprint, row, offset)]
  {
    assert alpha[..|row|] == Alpha(isprint, row);
    LogPadding(log, alpha, n, front, RowFront(offset, row));
  }

  /** Reading the bytes of a row: hexadecimal pairs and blanks, up to the first bar. */
  function ParseBytes(s: string): seq<u8>
    decreases |s|
  {
    if s == "" || s[0] == '|' then []
    else if s[0] == ' ' || |s| < 2 then ParseBytes(s[1..])
    else [(16 * DigitValue(s[0]) + DigitValue(s[1])) % 256] + ParseBytes(s[2..])
  }

  function ParseRow(record: string): seq<u8> {
    if |record| < 8 then [] else ParseBytes(record[8..])
  }

  function ParseDump(records: seq<string>): seq<u8> {
    if records == [] then []
    else ParseDump(records[..|records| - 1]) + ParseRow(records[|records| - 1])
  }

  lemma ParseBlank(tail: string)
    ensures ParseBytes(" " + tail) == ParseBytes(tail)
  {
    assert (" " + tail)[1..] == tail;
  }

  lemma ParseHex2(b: u8, tail: string)
    ensures ParseBytes(Hex2(b) + tail) == [b] + ParseBytes(tail)
  {
    hide ParseBytes;
    DigitsRead(b / 16);
    DigitsRead(b % 16);
    HexDigitsAreNoMarks(b / 16);
    ParsePair(LOWER[b / 16], LOWER[b % 16], tail);
  }

  lemma ParsePair(c: char, d: char, tail: string)
    requires c != ' ' && c != '|'
    ensures ParseBytes([c, d] + tail) == [(16 * DigitValue(c) + DigitValue(d)) % 256] + ParseBytes(tail)
  {
    assert ([c, d] + tail)[2..] == tail;
  }

  lemma HexDigitsAreNoMarks(d: nat)
    requires d < 16
    ensures LOWER[d] != ' ' && LOWER[d] != '|'
  {
    DigitsRead(d);
  }

  /** The text of byte `b` in column `n`. */
  function CellText(n: nat, b: u8): string {
    (if n % 4 == 0 then " " else "") + (" " + Hex2(b))
  }

  lemma RowFrontSteps(offset: nat, row: seq<u8>, tail: string)
    requires row != []
    ensures var n := |row| - 1;
            RowFront(offset, row) + tail == RowFront(offset, row[..n]) + (CellText(n, row[n]) + tail)
  {
    hide Hex2;
  }

  lemma {:induction false} RowFrontParses(offset: nat, row: seq<u8>, tail: string)
    ensures ParseBytes((RowFront(offset, row) + tail)[8..]) == row + ParseBytes(tail)
    decreases |row|
  {
    hide ParseBytes, CellText;
    if row == [] {
      assert (HexUpper(offset, 8) + tail)[8..] == tail;
    } else {
      hide RowFront;
      var n := |row| - 1;
      RowFrontSteps(offset, row, tail);
      RowFrontParses(offset, row[..n], CellText(n, row[n]) + tail);
      ParseCell(n, row[n], tail);
      SplitLast(row, ParseBytes(tail));
    }
  }

  lemma SplitLast<T>(s: seq<T>, tail: seq<T>)
    requires s != []
    ensures s[..|s| - 1] + ([s[|s| - 1]] + tail) == s + tail
  {
  }

  lemma ParseCell(n: nat, b: u8, tail: string)
    ensures ParseBytes(CellText(n, b) + tail) == [b] + ParseBytes(tail)
  {
    hide ParseBytes, Hex2;
    ParseHex2(b, tail);
    ParseBlank(Hex2(b) + tail);
    assert " " + Hex2(b) + tail == " " + (Hex2(b) + tail);
    if n % 4 == 0 {
      ParseBlank(" " + Hex2(b) + tail);
      assert CellText(n, b) + tail == " " + (" " + Hex2(b) + tail);
    } else {
      assert CellText(n, b) + tail == " " + Hex2(b) + tail;
    }
  }

  lemma {:induction false} ParsePadding(n: nat, rest: string)
    ensures ParseBytes(Blanks(n) + ("  |" + rest)) == []
  {
    if n == 0 {
      ParseBlank(" |" + rest);
      ParseBlank("|" + rest);
      assert Blanks(0) + ("  |" + rest) == " " + (" |" + rest);
      assert " |" + rest == " " + ("|" + rest);
    } else {
      var t := Blanks(n - 1) + ("  |" + rest);
      ParsePadding(n - 1, rest);
      ParseBlank(t);
      ParseBlank(" " + t);
      ParseBlank(" " + (" " + t));
      assert Blanks(n) + ("  |" + rest) == " " + (" " + (" " + t));
    }
  }

  /** A row reads back as its bytes, whatever the characters in its right-hand column. */
  lemma RowParses(isprint: u8 -> bool, row: seq<u8>, offset: nat)
    requires |row| <= ROW_LEN
    ensures ParseRow(RowText(isprint, row, offset)) == row
  {
    var n := ROW_LEN - |row|;
    var rest := (Alpha(isprint, row) + Dots(n)) + "|\n";
    var tail := Blanks(n) + ("  |" + rest);
    RowFrontParses(offset, row, tail);
    ParsePadding(n, rest);
    assert RowText(isprint, row, offset) == RowFront(offset, row) + tail;
    assert row + [] == row;
  }

  lemma {:induction false} RowFrontOffset(offset: nat, row: seq<u8>)
    ensures RowFront(offset, row)[..8] == HexUpper(offset, 8)
    decreases |row|
  {
    if row != [] { RowFrontOffset(offset, row[..|row| - 1]); }
  }

  /** The bytes of row `k` of a dump. */
  function Row(data: seq<u8>, k: nat): (r: seq<u8>)
    requires 16 * k < |data|
    ensures |r| <= ROW_LEN
  {
    data[16 * k .. if 16 * k + 16 <= |data| then 16 * k + 16 else |data|]
  }

  lemma {:induction false} FullRowIs(isprint: u8 -> bool, data: seq<u8>, n: nat, k: nat)
    requires 16 * n <= |data| && k < n
    ensures FullRows(isprint, data, n)[k] == RowText(isprint, Row(data, k), 16 * k)
    decreases n
  {
    if k < n - 1 { FullRowIs(isprint, data, n - 1, k); }
  }

  /** A dump has one row for every 16 bytes begun, and row `k` shows the bytes from 16k on. */
  lemma DumpRow(isprint: u8 -> bool, data: seq<u8>, k: nat)
    ensures |Dump(isprint, data)| == (|data| + 15) / 16
    ensures 16 * k < |data| ==>
              k < |Dump(isprint, data)| && Dump(isprint, data)[k] == RowText(isprint, Row(data, k), 16 * k)
  {
    hide FullRows, RowText;
    var n := |data| / 16;
    Columns(|data|, n, |data| % 16);
    if k < n { FullRowIs(isprint, data, n, k); }
    if k == n && 16 * n < |data| { assert data[16 * n..] == data[16 * n..|data|] == Row(data, n); }
  }

  /** Row `k` of a dump carries the offset 16k, in eight upper-case digits. */
  lemma RowOffset(isprint: u8 -> bool, data: seq<u8>, k: nat)
    requires k < |Dump(isprint, data)| && |data| < 0x8000_0000
    ensures |Dump(isprint, data)[k]| >= 8
    ensures var offset := Dump(isprint, data)[k][..8];
            ReadHex(offset) == 16 * k && forall i :: 0 <= i < 8 ==> IsDecimalDigit(offset[i]) || 'A' <= offset[i] <= 'F'
  {
    hide Dump, RowText;
    DumpRow(isprint, data, k);
    RowTextOffset(isprint, Row(data, k), k);
    HexUpperDigits(16 * k, 8);
  }

  lemma RowTextOffset(isprint: u8 -> bool, row: seq<u8>, k: nat)
    requires |row| <= ROW_LEN && 16 * k < 0x8000_0000
    ensures |RowText(isprint, row, 16 * k)| >= 8
    ensures var offset := RowText(isprint, row, 16 * k)[..8]; offset == HexUpper(16 * k, 8) && ReadHex(offset) == 16 * k
  {
    RowFrontOffset(16 * k, row);
    assert RowText(isprint, row, 16 * k)[..8] == RowFront(16 * k, row)[..8];
    assert Pow16(8) == 0x1_0000_0000 by { assert Pow16(4) == 0x1_0000; }
    HexReads(16 * k, 8);
  }

  // The layout of a row, character by character.

  /** Where the text of byte `j` begins: every byte takes three characters, and every fourth one more. */
  function ByteAt(j: nat): nat {
    8 + 3 * j + j / 4 + 1
  }

  lemma {:induction false} RowFrontLength(offset: nat, row: seq<u8>)
    ensures |RowFront(offset, row)| == 8 + 3 * |row| + (|row| + 3) / 4
    decreases |row|
  {
    if row != [] { RowFrontLength(offset, row[..|row| - 1]); }
  }

  /** Byte `j` of a row stands at its place in the text, behind one space or two. */
  predicate ShowsByte(s: string, j: nat, b: u8) {
    && |s| >= ByteAt(j) + 3 && (j % 4 == 0 ==> s[ByteAt(j) - 1] == ' ')
    && s[ByteAt(j)] == ' ' && s[ByteAt(j) + 1..ByteAt(j) + 3] == Hex2(b)
  }

  lemma LastByteShown(s: string, n: nat, b: u8)
    requires |s| == 8 + 3 * n + (n + 3) / 4
    ensures var t := (if n % 4 == 0 then s + " " else s) + (" " + Hex2(b));
            s <= t && ShowsByte(t, n, b)
  {
    hide Hex2;
  }

  lemma StillShown(s: string, t: string, j: nat, b: u8)
    requires s <= t && ShowsByte(s, j, b)
    ensures ShowsByte(t, j, b)
  {
    hide Hex2;
    var i := ByteAt(j);
    assert t[..|s|] == s;
    assert forall q :: 0 <= q < |s| ==> t[..|s|][q] == t[q];
    assert t[i + 1..i + 3] == s[i + 1..i + 3];
  }

  lemma {:induction false} RowFrontLayout(offset: nat, row: seq<u8>, j: nat)
    requires j < |row|
    ensures ShowsByte(RowFront(offset, row), j, row[j])
    decreases |row|
  {
    hide Hex2, ShowsByte;
    var n := |row| - 1;
    RowFrontLength(offset, row[..n]);
    LastByteShown(RowFront(offset, row[..n]), n, row[n]);
    if j < n {
      RowFrontLayout(offset, row[..n], j);
      StillShown(RowFront(offset, row[..n]), RowFront(offset, row), j, row[j]);
    }
  }

  /** The positions of the bars: before and after the column. */
  function FirstBar(s: string): (i: nat)
    ensures i <= |s|
    ensures forall q :: 0 <= q < i ==> s[q] != '|'
    ensures i < |s| ==> s[i] == '|'
  {
    if s == "" || s[0] == '|' then 0 else 1 + FirstBar(s[1..])
  }

  function LastBar(s: string): (i: int)
    ensures -1 <= i < |s|
    ensures forall q :: i < q < |s| ==> s[q] != '|'
    ensures i >= 0 ==> s[i] == '|'
  {
    if s == "" || s[|s| - 1] == '|' then |s| - 1 else LastBar(s[..|s| - 1])
  }

  lemma {:induction false} RowFrontHasNoBar(offset: nat, row: seq<u8>)
    ensures forall q :: 0 <= q < |RowFront(offset, row)| ==> RowFront(offset, row)[q] != '|'
    decreases |row|
  {
    hide Hex2;
    if row == [] {
      HexUpperDigits(offset, 8);
    } else {
      RowFrontHasNoBar(offset, row[..|row| - 1]);
      Hex2Digits(row[|row| - 1]);
    }
  }

  /** Where the first bar of a row of `n` bytes stands. */
  function BarAt(n: nat): nat {
    58 + (n + 3) / 4
  }

  lemma Sections(front: string, blanks: string, column: string)
    requires |column| == ROW_LEN && forall q :: 0 <= q < |blanks| ==> blanks[q] == ' '
    ensures var s, h := front + blanks + ("  |" + column + "|\n"), |front| + |blanks| + 2;
            && |s| == h + 19 && s[h] == '|' && s[h + 17] == '|' && s[h + 18] == '\n' && front <= s
            && (forall q :: |front| <= q < h ==> s[q] == ' ')
            && s[h + 1..h + 17] == column
  {
  }

  lemma RowSections(isprint: u8 -> bool, row: seq<u8>, offset: nat)
    requires |row| <= ROW_LEN
    ensures var s, h, front := RowText(isprint, row, offset), BarAt(|row|), RowFront(offset, row);
            && |s| == h + 19 && s[h] == '|' && s[h + 17] == '|' && s[h + 18] == '\n' && front <= s
            && |front| <= h && (forall q :: |front| <= q < h ==> s[q] == ' ')
            && s[h + 1..h + 17] == Alpha(isprint, row) + Dots(ROW_LEN - |row|)
  {
    hide RowFront, Cell;
    RowFrontLength(offset, row);
    var n := ROW_LEN - |row|;
    Sections(RowFront(offset, row), Blanks(n), Alpha(isprint, row) + Dots(n));
  }

  lemma BarsAt(s: string, first: nat, last: nat)
    requires first <= last < |s| && s[first] == s[last] == '|'
    requires forall q :: 0 <= q < first || last < q < |s| ==> s[q] != '|'
    ensures FirstBar(s) == first && LastBar(s) == last
  {
  }

  /**
   * The right-hand column, read between the first bar and the last one of row `k`: 16 characters,
   * each the byte itself if it is printable and below 0xA0, and a dot if it is not or not there.
   */
  lemma ColumnReads(isprint: u8 -> bool, data: seq<u8>, k: nat)
    requires k < |Dump(isprint, data)|
    ensures var s := Dump(isprint, data)[k];
            var first, last := FirstBar(s), LastBar(s);
            && last == first + 17 && s[last + 1..] == "\n"
            && var column := s[first + 1..last];
               forall j :: 0 <= j < 16 ==>
                 column[j] == if 16 * k + j < |data| && isprint(data[16 * k + j]) && data[16 * k + j] < 0xA0
                              then data[16 * k + j] as char else '.'
  {
    hide Dump, RowText, RowFront;
    DumpRow(isprint, data, k);
    var s, row := Dump(isprint, data)[k], Row(data, k);
    var h := BarAt(|row|);
    RowSections(isprint, row, 16 * k);
    RowFrontHasNoBar(16 * k, row);
    SamePrefixHasNoBar(RowFront(16 * k, row), s);
    BarsAt(s, h, h + 17);
    assert s[h + 18..] == "\n";
    var column := s[h + 1..h + 17];
    forall j | 0 <= j < 16
      ensures column[j] == if 16 * k + j < |data| && isprint(data[16 * k + j]) && data[16 * k + j] < 0xA0
                           then data[16 * k + j] as char else '.' {
      assert column[j] == if j < |row| then Alpha(isprint, row)[j] else '.';
      RowByte(data, k, j);
      if j < |row| { CellIs(isprint, row[j]); }
    }
  }

  lemma RowByte(data: seq<u8>, k: nat, j: nat)
    requires 16 * k < |data| && j < 16
    ensures 16 * k + j < |data| <==> j < |Row(data, k)|
    ensures j < |Row(data, k)| ==> Row(data, k)[j] == data[16 * k + j]
  {
  }

  lemma CellIs(isprint: u8 -> bool, b: u8)
    ensures Cell(isprint, b) == if isprint(b) && b < 0xA0 then b as char else '.'
  {
  }

  lemma SamePrefixHasNoBar(s: string, t: string)
    requires s <= t && forall q :: 0 <= q < |s| ==> s[q] != '|'
    ensures forall q :: 0 <= q < |s| ==> t[q] != '|'
  {
    assert t[..|s|] == s;
    assert forall q :: 0 <= q < |s| ==> t[..|s|][q] == t[q];
  }

  /**
   * The left-hand side of row `k`, character by character: byte `j` of the row as two lower-case
   * digits behind a space, with one more space before every fourth byte; from the last byte to
   * the first bar there is nothing but blanks, as many as full cells and two more would take.
   */
  lemma BytesShown(isprint: u8 -> bool, data: seq<u8>, k: nat, j: nat)
    requires j < 16 && 16 * k + j < |data|
    ensures k < |Dump(isprint, data)|
    ensures var s, p := Dump(isprint, data)[k], 9 + 3 * j + j / 4;
            && |s| > p + 2 && (j % 4 == 0 ==> s[p - 1] == ' ') && s[p] == ' '
            && (var hex := s[p + 1..p + 3];
                && 16 * DigitValue(hex[0]) + DigitValue(hex[1]) == data[16 * k + j]
                && forall i :: 0 <= i < 2 ==> IsDecimalDigit(hex[i]) || 'a' <= hex[i] <= 'f')
            && (j == 15 || 16 * k + j == |data| - 1 ==>
                  FirstBar(s) == 58 + (j + 4) / 4 && forall q :: p + 3 <= q < FirstBar(s) ==> s[q] == ' ')
  {
    hide Dump, RowText, RowFront, Hex2, Cell;
    DumpRow(isprint, data, k);
    var s, row := Dump(isprint, data)[k], Row(data, k);
    RowSections(isprint, row, 16 * k);
    RowFrontLayout(16 * k, row, j);
    StillShown(RowFront(16 * k, row), s, j, row[j]);
    Hex2Digits(row[j]);
    var p := ByteAt(j);
    if j == |row| - 1 {
      RowFrontLength(16 * k, row);
      RowFrontHasNoBar(16 * k, row);
      SamePrefixHasNoBar(RowFront(16 * k, row), s);
      BarsAt(s, BarAt(|row|), BarAt(|row|) + 17);
    }
  }

  lemma ParseDumpSnoc(records: seq<string>, r: string)
    ensures ParseDump(records + [r]) == ParseDump(records) + ParseRow(r)
  {
    assert (records + [r])[..|records|] == records;
  }

  lemma {:induction false} FullRowsParse(isprint: u8 -> bool, data: seq<u8>, k: nat)
    requires 16 * k <= |data|
    ensures ParseDump(FullRows(isprint, data, k)) == data[..16 * k]
    decreases k
  {
    hide RowText, ParseRow;
    if k > 0 {
      var row := data[16 * k - 16..16 * k];
      FullRowsParse(isprint, data, k - 1);
      RowParses(isprint, row, 16 * k - 16);
      ParseDumpSnoc(FullRows(isprint, data, k - 1), RowText(isprint, row, 16 * k - 16));
      SliceJoins(data, 16 * k - 16, 16 * k);
    }
  }

  lemma SliceJoins<T>(s: seq<T>, i: nat, j: nat)
    requires i <= j <= |s|
    ensures s[..j] == s[..i] + s[i..j]
  {
  }

  /** Reading a dump back gives the bytes dumped. */
  lemma DumpParses(isprint: u8 -> bool, data: seq<u8>)
    ensures ParseDump(Dump(isprint, data)) == data
  {
    hide RowText, ParseRow, ParseDump, FullRows;
    var k := |data| / 16;
    FullRowsParse(isprint, data, k);
    if |data| % 16 == 0 {
      assert data[..16 * k] == data && Dump(isprint, data) == FullRows(isprint, data, k);
    } else {
      var row := data[16 * k..];
      RowParses(isprint, row, 16 * k);
      ParseDumpSnoc(FullRows(isprint, data, k), RowText(isprint, row, 16 * k));
      SliceJoins(data, 16 * k, |data|);
      assert data[16 * k..|data|] == row && data[..|data|] == data;
    }
  }

  /** The number of bytes up to and including the last one that is not zero. */
  function TrimLength(data: seq<u8>): (t: nat)
    ensures t <= |data|
    ensures t > 0 ==> data[t - 1] != 0
    ensures forall i :: t <= i < |data| ==> data[i] == 0
  {
    if data == [] then 0
    else if data[|data| - 1] != 0 then |data|
    else TrimLength(data[..|data| - 1])
  }

  lemma TrimLengthIs(data: seq<u8>, t: nat)
    requires t <= |data| && (t > 0 ==> data[t - 1] != 0) && forall i :: t <= i < |data| ==> data[i] == 0
    ensures TrimLength(data) == t
  {
  }

  const TRAILER: string := "<0 repeating "

  function Trailer(zeros: nat): (s: string)
    ensures s == "<0 repeating " + (Decimal(zeros) + " times>\n")
  {
    TRAILER + (Decimal(zeros) + " times>\n")
  }

  /** How many bytes the trimmed dump prints. */
  function DumpedLength(data: seq<u8>, enabled: bool): (n: nat)
    ensures n <= |data|
  {
    if enabled && TrimLength(data) > 0 then TrimLength(data) else |data|
  }

  /** Everything panwrap_log_hexdump_trimmed prints. */
  function TrimmedDump(isprint: u8 -> bool, data: seq<u8>, enabled: bool): seq<string> {
    var t := TrimLength(data);
    if enabled && t > 0 then Dump(isprint, data[..t]) + [Trailer(|data| - t)] else Dump(isprint, data)
  }

  /** panwrap_log_hexdump_trimmed: the search from the end, then the dump, and a trailer if anything was kept. */
  method LogHexdumpTrimmed(log: Log, isprint: u8 -> bool, data: seq<u8>, enabled: bool)
    requires DumpedLength(data, enabled) < 0x8000_0000 && !isprint(0)
    modifies log
    ensures log.records == old(log.records) + TrimmedDump(isprint, data, enabled)
  {
    var trimSize := |data|;
    var trimming := false;
    if enabled {
      var trimOffset := |data| - 1;
      while trimOffset != -1
        invariant -1 <= trimOffset < |data|
        invariant forall i :: trimOffset < i < |data| ==> data[i] == 0
        decreases trimOffset + 1
      {
        if data[trimOffset] != 0 { break; }
        trimOffset := trimOffset - 1;
      }
      TrimLengthIs(data, trimOffset + 1);
      if trimOffset >= 0 {
        trimming := true;
        trimSize := trimOffset + 1;
      }
    }
    assert data[..|data|] == data;
    LogHexdump(log, isprint, data[..trimSize]);
    if trimming { log.Start(TRAILER + (Decimal(|data| - trimSize) + " times>\n")); }
  }

  function Zeros(n: nat): (z: seq<u8>)
    ensures |z| == n && forall i :: 0 <= i < n ==> z[i] == 0
  {
    seq(n, _ => 0)
  }

  /** Reading a trimmed dump back: the rows, then as many zeros as the trailer states. */
  function ParseTrimmed(records: seq<string>): seq<u8> {
    var n := |records| - 1;
    if n >= 0 && |records[n]| > |TRAILER| && records[n][0] == '<'
    then ParseDump(records[..n]) + Zeros(ReadDecimal(records[n][|TRAILER|..], 0))
    else ParseDump(records)
  }

  lemma TrailerReads(zeros: nat)
    ensures |Trailer(zeros)| > |TRAILER| && Trailer(zeros)[0] == '<'
    ensures ReadDecimal(Trailer(zeros)[|TRAILER|..], 0) == zeros
  {
    assert Trailer(zeros)[|TRAILER|..] == Decimal(zeros) + " times>\n";
    DecimalReads(zeros, " times>\n");
  }

  lemma {:induction false} NoTrailerInDump(isprint: u8 -> bool, data: seq<u8>)
    ensures var d := Dump(isprint, data); d != [] ==> |d[|d| - 1]| > 0 && d[|d| - 1][0] != '<'
  {
    var k := |data| / 16;
    if |data| % 16 != 0 { RowStartsWithDigit(isprint, data[16 * k..], 16 * k); }
    else if k > 0 { RowStartsWithDigit(isprint, data[16 * k - 16..16 * k], 16 * k - 16); }
  }

  lemma RowStartsWithDigit(isprint: u8 -> bool, row: seq<u8>, offset: nat)
    requires |row| <= ROW_LEN
    ensures var s := RowText(isprint, row, offset); |s| > 0 && s[0] != '<'
  {
    RowFrontOffset(offset, row);
    var s := RowText(isprint, row, offset);
    assert s[0] == RowFront(offset, row)[..8][0] == HexUpper(offset, 8)[0];
    HexUpperDigits(offset, 8);
  }

  /**
   * A trimmed dump loses nothing: rows and trailer read back as the buffer, with trimming on or
   * off. A trailer is printed exactly when trimming is on and some byte is not zero, and then the
   * last byte dumped is not zero; an empty or all-zero buffer is dumped in full.
   */
  lemma TrimmedDumpParses(isprint: u8 -> bool, data: seq<u8>, enabled: bool)
    ensures ParseTrimmed(TrimmedDump(isprint, data, enabled)) == data
    ensures if enabled && exists i :: 0 <= i < |data| && data[i] != 0
            then exists t :: && 0 < t <= |data| && data[t - 1] != 0
                             && TrimmedDump(isprint, data, enabled) == Dump(isprint, data[..t]) + [Trailer(|data| - t)]
            else TrimmedDump(isprint, data, enabled) == Dump(isprint, data)
  {
    hide Dump, Trailer, ParseDump, ReadDecimal;
    var t := TrimLength(data);
    if enabled && t > 0 {
      TrailerParses(isprint, data, t);
      assert data[t - 1] != 0;
    } else {
      FullDumpParses(isprint, data);
    }
  }

  lemma FullDumpParses(isprint: u8 -> bool, data: seq<u8>)
    ensures ParseTrimmed(Dump(isprint, data)) == data
  {
    hide Dump, ParseDump, ReadDecimal;
    DumpParses(isprint, data);
    NoTrailerInDump(isprint, data);
  }

  lemma TrailerParses(isprint: u8 -> bool, data: seq<u8>, t: nat)
    requires t <= |data| && forall i :: t <= i < |data| ==> data[i] == 0
    ensures ParseTrimmed(Dump(isprint, data[..t]) + [Trailer(|data| - t)]) == data
  {
    hide Dump, ParseDump, Trailer, ReadDecimal;
    var dump, trailer := Dump(isprint, data[..t]), Trailer(|data| - t);
    DumpParses(isprint, data[..t]);
    TrailerReads(|data| - t);
    assert (dump + [trailer])[..|dump|] == dump && (dump + [trailer])[|dump|] == trailer;
    assert data == data[..t] + Zeros(|data| - t);
  }
}
