/** The frame dump printed in promiscuous mode (`HandleLinkPcapReceive`). */
module HexDump {
  import opened Base
  import opened Numbers

  const WIDTH: nat := 83
  const PER_ROW: nat := 16

  // ---------- What a row shows ----------

  function UpperDigit(d: nat): (c: char)
    requires d < 16
    ensures Digit(c, Hex) == Some(d) && c != '.' && ('0' <= c <= '9' || 'A' <= c <= 'F')
  {
    if d < 10 then ('0' as int + d) as char else ('A' as int + d - 10) as char
  }

  /** The two characters for byte `k` of the frame, or dots past its end. */
  function HexCell(frame: seq<Byte>, k: nat): (cell: string)
    ensures |cell| == 2
  {
    if k < |frame| then [UpperDigit(frame[k] / 16), UpperDigit(frame[k] % 16)] else ".."
  }

  function Glyph(frame: seq<Byte>, k: nat): char {
    if k >= |frame| then '.'
    else if 31 < frame[k] < 127 then frame[k] as char
    else '?'
  }

  /** A row that shows the 16 bytes from `first` on, both in hexadecimal and as characters. */
  ghost predicate IsRow(row: string, frame: seq<Byte>, first: nat) {
    && |row| == WIDTH
    && row[0] == '|' && row[49] == '|' && row[82] == '|'
    && (forall j :: 0 <= j < PER_ROW ==> CellAt(row, j) == " " + HexCell(frame, first + j))
    && (forall j :: 0 <= j < PER_ROW ==> GlyphAt(row, j) == " " + [Glyph(frame, first + j)])
  }

  function CellAt(row: string, j: nat): string
    requires |row| == WIDTH && j < PER_ROW
  {
    row[1 + 3 * j..4 + 3 * j]
  }

  function GlyphAt(row: string, j: nat): string
    requires |row| == WIDTH && j < PER_ROW
  {
    row[50 + 2 * j..52 + 2 * j]
  }

  // ---------- Reading a dump ----------

  /** Reads the hexadecimal cells of a row from column `j` on, up to the first padding. */
  function ReadCells(row: string, j: nat): seq<Byte>
    requires |row| == WIDTH && j <= PER_ROW
    decreases PER_ROW - j
  {
    if j == PER_ROW then []
    else
      var cell := CellAt(row, j);
      var high, low := Digit(cell[1], Hex), Digit(cell[2], Hex);
      if high.None? || low.None? then [] else [high.value * 16 + low.value] + ReadCells(row, j + 1)
  }

  ghost function ReadRows(rows: seq<string>): seq<Byte>
    requires AllWide(rows)
  {
    if rows == [] then [] else ReadCells(rows[0], 0) + ReadRows(rows[1..])
  }

  function Min(a: nat, b: nat): nat {
    if a < b then a else b
  }

  lemma RowWidth(row: string, frame: seq<Byte>, first: nat)
    requires IsRow(row, frame, first)
    ensures |row| == WIDTH
  {
  }

  lemma CellDigits(row: string, frame: seq<Byte>, first: nat, j: nat)
    requires IsRow(row, frame, first) && j < PER_ROW
    ensures |CellAt(row, j)| == 3
    ensures first + j < |frame| ==>
        Digit(CellAt(row, j)[1], Hex) == Some(frame[first + j] / 16) &&
        Digit(CellAt(row, j)[2], Hex) == Some(frame[first + j] % 16)
    ensures first + j >= |frame| ==> Digit(CellAt(row, j)[1], Hex).None?
  {
    assert CellAt(row, j) == " " + HexCell(frame, first + j);
  }

  lemma ByteDigits(b: Byte)
    ensures b / 16 * 16 + b % 16 == b
  {
  }

  lemma ReadsOneCell(row: string, frame: seq<Byte>, first: nat, j: nat)
    requires IsRow(row, frame, first) && j < PER_ROW
    ensures |row| == WIDTH
    ensures ReadCells(row, j) == if first + j < |frame| then [frame[first + j]] + ReadCells(row, j + 1) else []
  {
    hide IsRow, Digit, HexCell, CellAt;
    RowWidth(row, frame, first);
    CellDigits(row, frame, first, j);
    if first + j < |frame| {
      ByteDigits(frame[first + j]);
    }
  }

  lemma FirstOfSlice(frame: seq<Byte>, start: nat, end: nat)
    requires start < end <= |frame|
    ensures frame[start..end] == [frame[start]] + frame[start + 1..end]
  {
  }

  lemma {:induction false} RowReadsBack(row: string, frame: seq<Byte>, first: nat, j: nat)
    requires IsRow(row, frame, first) && j <= PER_ROW && first <= |frame|
    ensures |row| == WIDTH
    ensures ReadCells(row, j) == frame[Min(first + j, |frame|)..Min(first + PER_ROW, |frame|)]
    decreases PER_ROW - j
  {
    hide IsRow, ReadCells;
    RowWidth(row, frame, first);
    var end := Min(first + PER_ROW, |frame|);
    if j == PER_ROW {
      NoMoreCells(row);
      assert frame[end..end] == [];
    } else {
      ReadsOneCell(row, frame, first, j);
      if first + j < |frame| {
        RowReadsBack(row, frame, first, j + 1);
        FirstOfSlice(frame, first + j, end);
      } else {
        assert frame[|frame|..|frame|] == [];
      }
    }
  }

  lemma NoMoreCells(row: string)
    requires |row| == WIDTH
    ensures ReadCells(row, PER_ROW) == []
  {
  }

  ghost predicate AllWide(rows: seq<string>) {
    forall k :: 0 <= k < |rows| ==> |rows[k]| == WIDTH
  }

  ghost predicate AreRows(rows: seq<string>, frame: seq<Byte>, first: nat) {
    AllWide(rows) && forall k :: 0 <= k < |rows| ==> IsRow(rows[k], frame, first + PER_ROW * k)
  }

  lemma TailRows(rows: seq<string>, frame: seq<Byte>, first: nat)
    requires rows != [] && AreRows(rows, frame, first)
    ensures IsRow(rows[0], frame, first) && AreRows(rows[1..], frame, first + PER_ROW)
  {
    hide IsRow;
    assert IsRow(rows[0], frame, first + PER_ROW * 0);
    forall k | 0 <= k < |rows[1..]| ensures IsRow(rows[1..][k], frame, first + PER_ROW + PER_ROW * k) {
      assert rows[1..][k] == rows[k + 1];
      assert first + PER_ROW * (k + 1) == first + PER_ROW + PER_ROW * k;
    }
  }

  /** Reading the cells of all rows in order gives the frame. */
  lemma {:induction false} RowsReadBack(rows: seq<string>, frame: seq<Byte>, first: nat)
    requires AreRows(rows, frame, first) && first <= |frame|
    requires first + PER_ROW * |rows| >= |frame| && (rows == [] || first + PER_ROW * (|rows| - 1) < |frame|)
    ensures ReadRows(rows) == frame[first..]
    decreases |rows|
  {
    hide IsRow, ReadCells;
    if rows == [] {
      assert frame[first..] == [];
    } else {
      TailRows(rows, frame, first);
      RowReadsBack(rows[0], frame, first, 0);
      var next := Min(first + PER_ROW, |frame|);
      assert frame[first..] == frame[first..next] + frame[next..];
      if |rows| > 1 {
        RowsReadBack(rows[1..], frame, first + PER_ROW);
      } else {
        assert rows[1..] == [] && ReadRows(rows[1..]) == [];
      }
    }
  }

  /** Padding appears exactly past the end of the frame, hence only at the end of the last row. */
  lemma PaddingIsSuffix(row: string, frame: seq<Byte>, first: nat, j: nat)
    requires IsRow(row, frame, first) && j < PER_ROW
    ensures CellAt(row, j) == " .." <==> first + j >= |frame|
  {
    var cell := CellAt(row, j);
    assert cell == " " + HexCell(frame, first + j);
    if first + j < |frame| {
      assert cell[1] == UpperDigit(frame[first + j] / 16);
    }
  }

  /** The other column: a printable character stands for its own code, `?` for any other byte, `.` for none. */
  lemma GlyphsShowBytes(row: string, frame: seq<Byte>, first: nat, j: nat)
    requires IsRow(row, frame, first) && j < PER_ROW
    ensures |GlyphAt(row, j)| == 2 && GlyphAt(row, j)[0] == ' '
    ensures var c := GlyphAt(row, j)[1];
            && (first + j >= |frame| ==> c == '.')
            && (first + j < |frame| && 32 <= frame[first + j] <= 126 ==> c as int == frame[first + j])
            && (first + j < |frame| && !(32 <= frame[first + j] <= 126) ==> c == '?')
  {
    assert GlyphAt(row, j) == " " + [Glyph(frame, first + j)];
  }

  // ---------- Printing a dump ----------

  function Repeat(c: char, n: nat): (s: string)
    ensures |s| == n
  {
    seq(n, _ => c)
  }

  /** The format `%3u`. */
  function Width3(n: nat): string {
    var text := Text(n, Decimal);
    if |text| < 3 then Repeat(' ', 3 - |text|) + text else text
  }

  function Title(length: nat): string {
    Repeat('=', 44) + "[len = " + Width3(length) + "]" + Repeat('=', 28)
  }

  /** The title line is as wide as the rows exactly for the lengths that three digits can show. */
  lemma TitleWidth(length: nat)
    ensures |Title(length)| == WIDTH <==> length <= 999
  {
    assert Power(Decimal, 3) == 1000;
    if length <= 999 {
      TextLength(length, Decimal, 3);
    } else {
      assert |Text(length / 10 / 10 / 10, Decimal)| >= 1;
      assert |Text(length / 10 / 10, Decimal)| >= 2;
      assert |Text(length / 10, Decimal)| >= 3;
      assert |Text(length, Decimal)| >= 4;
    }
  }

  function Unpadded(text: string): string {
    if text == "" || text[0] != ' ' then text else Unpadded(text[1..])
  }

  lemma {:induction false} UnpaddedText(n: nat, text: string)
    requires text != "" && text[0] != ' '
    ensures Unpadded(Repeat(' ', n) + text) == text
  {
    if n == 0 {
      assert Repeat(' ', n) + text == text;
    } else {
      assert (Repeat(' ', n) + text)[1..] == Repeat(' ', n - 1) + text;
      UnpaddedText(n - 1, text);
    }
  }

  /** The title shows the length of the frame, right-aligned before the closing bracket. */
  lemma TitleShowsLength(length: nat)
    ensures var title := Title(length);
            && |title| >= 83 && title[44..51] == "[len = " && title[|title| - 29] == ']'
            && Value(Unpadded(title[51..|title| - 29]), Decimal) == Some(length)
  {
    var text, title := Text(length, Decimal), Title(length);
    assert title[51..|title| - 29] == Width3(length);
    TextDigits(length, Decimal, 0);
    ValueOfText(length, Decimal);
    hide Value, Text, Unpadded;
    if |text| < 3 {
      UnpaddedText(3 - |text|, text);
    } else {
      NotPadded(text);
    }
  }

  lemma NotPadded(text: string)
    requires text != "" && text[0] != ' '
    ensures Unpadded(text) == text
  {
  }

  method RepeatedOutput(c: char, n: nat) returns (out: string)
    ensures out == Repeat(c, n)
  {
    out := "";
    for i := 0 to n
      invariant out == Repeat(c, i)
    {
      out := out + [c];
    }
  }

  /** `out` shows the first `n` cells of a row. */
  ghost predicate ShowsCells(out: string, frame: seq<Byte>, first: nat, n: nat) {
    |out| == 3 * n && forall j :: 0 <= j < n ==> out[3 * j..3 * j + 3] == " " + HexCell(frame, first + j)
  }

  lemma OneMoreCell(out: string, frame: seq<Byte>, first: nat, n: nat)
    requires ShowsCells(out, frame, first, n)
    ensures ShowsCells(out + (" " + HexCell(frame, first + n)), frame, first, n + 1)
  {
    hide HexCell;
    var more := out + (" " + HexCell(frame, first + n));
    forall j | 0 <= j < n ensures more[3 * j..3 * j + 3] == " " + HexCell(frame, first + j) {
      assert more[3 * j..3 * j + 3] == out[3 * j..3 * j + 3];
    }
    assert more[3 * n..3 * n + 3] == " " + HexCell(frame, first + n);
  }

  method HexColumn(frame: seq<Byte>, first: nat) returns (out: string)
    ensures ShowsCells(out, frame, first, PER_ROW)
  {
    out := "";
    assert ShowsCells(out, frame, first, 0);
    hide ShowsCells;
    for j := 0 to PER_ROW
      invariant ShowsCells(out, frame, first, j)
    {
      OneMoreCell(out, frame, first, j);
      if first + j < |frame| {
        out := out + (" " + [UpperDigit(frame[first + j] / 16), UpperDigit(frame[first + j] % 16)]);
      } else {
        out := out + (" " + "..");
      }
    }
  }

  method GlyphColumn(frame: seq<Byte>, first: nat) returns (out: string)
    ensures |out| == 2 * PER_ROW
    ensures forall j :: 0 <= j < PER_ROW ==> out[2 * j..2 * j + 2] == " " + [Glyph(frame, first + j)]
  {
    out := "";
    for j := 0 to PER_ROW
      invariant |out| == 2 * j
      invariant forall k :: 0 <= k < j ==> out[2 * k..2 * k + 2] == " " + [Glyph(frame, first + k)]
    {
      ghost var before := out;
      if first + j < |frame| {
        if 31 < frame[first + j] < 127 {
          out := out + " " + [frame[first + j] as char];
        } else {
          out := out + " ?";
        }
      } else {
        out := out + " .";
      }
      assert out[2 * j..2 * j + 2] == " " + [Glyph(frame, first + j)];
      assert forall k :: 0 <= k < j ==> out[2 * k..2 * k + 2] == before[2 * k..2 * k + 2];
    }
  }

  method OutputRow(frame: seq<Byte>, first: nat) returns (row: string)
    ensures IsRow(row, frame, first)
  {
    var cells := HexColumn(frame, first);
    var glyphs := GlyphColumn(frame, first);
    row := "|" + cells + "|" + glyphs + "|";
    forall j | 0 <= j < PER_ROW ensures CellAt(row, j) == " " + HexCell(frame, first + j) {
      assert CellAt(row, j) == cells[3 * j..3 * j + 3];
    }
    forall j | 0 <= j < PER_ROW ensures GlyphAt(row, j) == " " + [Glyph(frame, first + j)] {
      assert GlyphAt(row, j) == glyphs[2 * j..2 * j + 2];
    }
  }

  /** The lines of a dump: an empty line, the title, one row for every 16 bytes begun, and a rule. */
  method HandleLinkPcapReceive(frame: seq<Byte>) returns (lines: seq<string>)
    requires |frame| <= 0xffff
    ensures var rows := (|frame| + 15) / 16;
            && |lines| == rows + 3
            && lines[0] == "" && lines[1] == Title(|frame|) && lines[rows + 2] == Repeat('-', WIDTH)
            && AllWide(lines[2..rows + 2]) && AreRows(lines[2..rows + 2], frame, 0)
            && ReadRows(lines[2..rows + 2]) == frame
  {
    hide IsRow, ReadRows;
    var left := RepeatedOutput('=', 44);
    var right := RepeatedOutput('=', 28);
    var title := left + "[len = " + Width3(|frame|) + "]" + right;
    var rows: seq<string> := [];
    var i: nat := 0;
    while i < |frame|
      invariant i == PER_ROW * |rows| && (rows == [] || i - PER_ROW < |frame|)
      invariant AreRows(rows, frame, 0)
    {
      var row := OutputRow(frame, i);
      RowWidth(row, frame, i);
      rows := rows + [row];
      i := i + 16;
    }
    RowsReadBack(rows, frame, 0);
    assert frame[0..] == frame;
    var rule := RepeatedOutput('-', 83);
    lines := ["", title] + rows + [rule];
    assert lines[2..|rows| + 2] == rows;
  }
}
