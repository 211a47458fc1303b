/** `hexdump`: rows of sixteen bytes in hexadecimal and as characters, and a reader that gets them back. */
module Hexdump {
  import opened Bytes
  import opened Sequences
  import opened Text

  const ROW: nat := 16

  /** The hexadecimal column from byte `i` on; a wider gap precedes byte 8. */
  function Cells(row: seq<Byte>, i: nat): string
    decreases |row| - i
  {
    if i >= |row| then "" else (if i == 8 then " " else "") + " " + Hex2(row[i]) + Cells(row, i + 1)
  }

  /** The character column from byte `i` on. */
  function Chars(row: seq<Byte>, i: nat): string
    decreases |row| - i
  {
    if i >= |row| then "" else (if i == 8 then "  " else "") + [Shown(row[i])] + Chars(row, i + 1)
  }

  function RowText(offset: nat, row: seq<Byte>): string
    requires |row| <= ROW
  {
    Hex04(offset) + ":   " + Cells(row, 0) + Blank(3 * (ROW - |row|)) + "   " + Chars(row, 0) + "\n"
  }

  function DumpText(data: seq<Byte>, offset: nat): string
    decreases |data|
  {
    if data == [] then ""
    else
      var n := Min(ROW, |data|);
      RowText(offset, data[..n]) + DumpText(data[n..], offset + n)
  }

  // ------------------------------------------------------------ the program

  method PrintCells(fp: Stream, row: seq<Byte>)
    modifies fp
    ensures fp.text == old(fp.text) + Cells(row, 0)
  {
    for i := 0 to |row|
      invariant fp.text + Cells(row, i) == old(fp.text) + Cells(row, 0)
    {
      ghost var t, gap := fp.text, if i == 8 then " " else "";
      if i == 8 { fp.Print(" "); }
      assert fp.text == t + gap;
      fp.Print(" " + Hex2(row[i]));
      Pieces(t, gap, " ", Hex2(row[i]), Cells(row, i + 1));
    }
  }

  lemma Pieces(t: string, a: string, b: string, c: string, d: string)
    ensures t + a + (b + c) + d == t + (a + b + c + d)
  {
    Assoc(a, b, c);
    Assoc(t, a, b + c);
    Assoc(t, a + (b + c), d);
  }

  method PrintChars(fp: Stream, row: seq<Byte>)
    modifies fp
    ensures fp.text == old(fp.text) + Chars(row, 0)
  {
    for i := 0 to |row|
      invariant fp.text + Chars(row, i) == old(fp.text) + Chars(row, 0)
    {
      ghost var before, c := fp.text, Chars(row, i);
      if i == 8 { fp.Print("  "); }
      fp.Print([Shown(row[i])]);
      assert before + c == fp.text + Chars(row, i + 1);
    }
  }

  method PrintRow(fp: Stream, row: nat, cells: seq<Byte>)
    requires |cells| <= ROW
    modifies fp
    ensures fp.text == old(fp.text) + RowText(row, cells)
  {
    ghost var t, h, c, b, k := fp.text, Hex04(row), Cells(cells, 0), Blank(3 * (ROW - |cells|)), Chars(cells, 0);
    fp.Print(Hex04(row) + ":   ");
    PrintCells(fp, cells);
    PrintPad(fp, |cells|, ROW, 3);
    fp.Print("   ");
    PrintChars(fp, cells);
    fp.Print("\n");
    Assoc6(t, h + ":   ", c, b, "   ", k, "\n");
    Assoc6(h, ":   ", c, b, "   ", k, "\n");
    Assoc(h, ":   ", c + (b + ("   " + (k + "\n"))));
  }

  lemma DumpRow(data: seq<Byte>, offset: nat)
    requires data != []
    ensures var n := Min(ROW, |data|);
      DumpText(data, offset) == RowText(offset, data[..n]) + DumpText(data[n..], offset + n)
  {
  }

  method PrintHexdump(fp: Stream, buffer: seq<Byte>)
    modifies fp
    ensures fp.text == old(fp.text) + DumpText(buffer, 0)
  {
    var bufferlen, data, row := |buffer|, 0, 0;
    while bufferlen > 0
      invariant 0 <= data && 0 <= bufferlen && data + bufferlen == |buffer| && row == data
      invariant fp.text + DumpText(buffer[data..], row) == old(fp.text) + DumpText(buffer, 0)
      decreases bufferlen
    {
      ghost var before, rest := fp.text, buffer[data..];
      var n := if bufferlen < 16 then bufferlen else 16;
      assert rest[..n] == buffer[data..data + n] && rest[n..] == buffer[data + n..];
      PrintRow(fp, row, buffer[data..data + n]);
      DumpRow(rest, row);
      Assoc(before, RowText(row, rest[..n]), DumpText(rest[n..], row + n));
      bufferlen := bufferlen - n;
      data := data + n;
      row := row + n;
    }
    assert buffer[data..] == [];
  }

  // -------------------------------------------------------------- the reader

  datatype Line = Line(offset: nat, bytes: seq<Byte>)

  /** The hexadecimal digits a text starts with. */
  function Digits(s: string): string {
    if s == "" || !IsDigit(s[0]) then "" else [s[0]] + Digits(s[1..])
  }

  /** Reads up to sixteen cells; the gap before the ninth is skipped only if a cell follows it. */
  function ReadCells(s: string, i: nat): seq<Byte>
    decreases |s|
  {
    if i >= ROW then []
    else
      var t := if i == 8 && |s| >= 3 && s[0] == ' ' && s[1] == ' ' && IsDigit(s[2]) then s[1..] else s;
      if |t| >= 3 && t[0] == ' ' && IsDigit(t[1]) && IsDigit(t[2])
      then [ReadByte(t[1..3])] + ReadCells(t[3..], i + 1) else []
  }

  /** What follows the next line break. */
  function NextLine(s: string): string {
    if s == "" then "" else if s[0] == '\n' then s[1..] else NextLine(s[1..])
  }

  lemma NextLineShorter(s: string)
    requires s != ""
    ensures |NextLine(s)| < |s|
  {
    if s[0] == '\n' || s[1..] == "" {
    } else {
      NextLineShorter(s[1..]);
    }
  }

  function ReadLine(s: string): Option<Line> {
    var d := Digits(s);
    if AllDigits(d) && d != "" && |s| >= |d| + 4 && s[|d|..|d| + 4] == ":   "
    then Some(Line(HexValue(d), ReadCells(s[|d| + 4..], 0)))
    else None
  }

  function ReadDump(s: string): Option<seq<Line>>
    decreases |s|
  {
    if s == "" then Some([])
    else
      NextLineShorter(s);
      match (ReadLine(s), ReadDump(NextLine(s)))
      case (Some(line), Some(lines)) => Some([line] + lines)
      case _ => None
  }

  // ---------------------------------------------------------- the round trip

  function Lines(data: seq<Byte>, offset: nat): seq<Line>
    decreases |data|
  {
    if data == [] then []
    else
      var n := Min(ROW, |data|);
      [Line(offset, data[..n])] + Lines(data[n..], offset + n)
  }

  function Contents(lines: seq<Line>): seq<Byte> {
    if lines == [] then [] else lines[0].bytes + Contents(lines[1..])
  }

  /** The rows in order are the data, each at its offset. */
  lemma {:induction false} LinesCover(data: seq<Byte>, offset: nat)
    ensures Contents(Lines(data, offset)) == data
    ensures forall i :: 0 <= i < |Lines(data, offset)| ==> Lines(data, offset)[i].offset == offset + ROW * i
    decreases |data|
  {
    if data == [] {
    } else {
      var n := Min(ROW, |data|);
      LinesCover(data[n..], offset + n);
      var lines, tail := Lines(data, offset), Lines(data[n..], offset + n);
      assert lines[1..] == tail;
      assert data == data[..n] + data[n..];
      forall i | 0 <= i < |lines| ensures lines[i].offset == offset + ROW * i {
        if i > 0 {
          assert lines[i] == tail[i - 1];
          assert tail != [] ==> n == ROW;
        }
      }
    }
  }

  lemma {:induction false} DigitsStop(d: string, rest: string)
    requires AllDigits(d) && (rest == "" || !IsDigit(rest[0]))
    ensures Digits(d + rest) == d
    decreases |d|
  {
    if d == "" {
      assert d + rest == rest;
    } else {
      assert (d + rest)[1..] == d[1..] + rest;
      DigitsStop(d[1..], rest);
    }
  }

  /** What may follow the last cell of a row: nothing is read from it. */
  predicate Ends(row: seq<Byte>, tail: string) {
    |row| == ROW || (|tail| >= 3 && tail[1] == ' ' && tail[2] == ' ')
  }

  lemma ReadOneCell(b: Byte, rest: string, i: nat)
    requires i < ROW
    ensures ReadCells((if i == 8 then " " else "") + " " + Hex2(b) + rest, i) == [b] + ReadCells(rest, i + 1)
  {
    Hex2Reads(b);
    var t := " " + Hex2(b) + rest;
    var s := (if i == 8 then " " else "") + " " + Hex2(b) + rest;
    assert t[1..3] == Hex2(b) && t[3..] == rest;
    assert i == 8 ==> s[1..] == t;
    assert i != 8 ==> s == t;
  }

  lemma CellsStep(row: seq<Byte>, i: nat, tail: string)
    requires i < |row|
    ensures Cells(row, i) + tail
         == (if i == 8 then " " else "") + " " + Hex2(row[i]) + (Cells(row, i + 1) + tail)
  {
    Assoc((if i == 8 then " " else "") + " " + Hex2(row[i]), Cells(row, i + 1), tail);
  }

  lemma CellsStop(row: seq<Byte>, tail: string)
    requires |row| <= ROW && Ends(row, tail)
    ensures ReadCells(Cells(row, |row|) + tail, |row|) == []
  {
    assert Cells(row, |row|) + tail == tail;
  }

  lemma {:induction false} CellsRead(row: seq<Byte>, i: nat, tail: string)
    requires i <= |row| <= ROW && Ends(row, tail)
    ensures ReadCells(Cells(row, i) + tail, i) == row[i..]
    decreases |row| - i
  {
    hide ReadCells, Hex2;
    if i == |row| {
      CellsStop(row, tail);
    } else {
      CellsRead(row, i + 1, tail);
      CellsStep(row, i, tail);
      ReadOneCell(row[i], Cells(row, i + 1) + tail, i);
    }
  }

  lemma {:induction false} NextLineSkips(a: string, rest: string)
    requires '\n' !in a
    ensures NextLine(a + "\n" + rest) == rest
    decreases |a|
  {
    var s := a + "\n" + rest;
    if a == "" {
      assert s[1..] == rest;
    } else {
      assert s[1..] == a[1..] + "\n" + rest;
      NextLineSkips(a[1..], rest);
    }
  }

  lemma {:induction false} ColumnsHaveNoBreak(row: seq<Byte>, i: nat)
    ensures '\n' !in Cells(row, i) && '\n' !in Chars(row, i)
    decreases |row| - i
  {
    if i >= |row| {
    } else {
      ColumnsHaveNoBreak(row, i + 1);
      Hex2Reads(row[i]);
    }
  }

  /** The parts of a row text. */
  function Behind(row: seq<Byte>, rest: string): string
    requires |row| <= ROW
  {
    Blank(3 * (ROW - |row|)) + ("   " + (Chars(row, 0) + ("\n" + rest)))
  }

  lemma RowParts(offset: nat, row: seq<Byte>, rest: string)
    requires |row| <= ROW
    ensures RowText(offset, row) + rest == Hex04(offset) + (":   " + (Cells(row, 0) + Behind(row, rest)))
  {
    var h, c, b, k := Hex04(offset), Cells(row, 0), Blank(3 * (ROW - |row|)), Chars(row, 0);
    Assoc(h + ":   " + c + b + "   " + k, "\n", rest);
    Assoc(h + ":   " + c + b + "   ", k, "\n" + rest);
    Assoc(h + ":   " + c + b, "   ", k + ("\n" + rest));
    Assoc(h + ":   " + c, b, "   " + (k + ("\n" + rest)));
    Assoc(h + ":   ", c, Behind(row, rest));
    Assoc(h, ":   ", c + Behind(row, rest));
  }

  lemma RowLine(offset: nat, row: seq<Byte>, rest: string)
    requires |row| <= ROW
    ensures ReadLine(RowText(offset, row) + rest) == Some(Line(offset, row))
  {
    RowParts(offset, row, rest);
    Hex04Inverse(offset);
    CellsRead(row, 0, Behind(row, rest));
    LineOf(Hex04(offset), Cells(row, 0) + Behind(row, rest));
  }

  lemma LineOf(d: string, tail: string)
    requires AllDigits(d) && d != ""
    ensures ReadLine(d + (":   " + tail)) == Some(Line(HexValue(d), ReadCells(tail, 0)))
  {
    var s := d + (":   " + tail);
    DigitsStop(d, ":   " + tail);
    assert s[|d|..|d| + 4] == ":   " && s[|d| + 4..] == tail;
  }

  lemma RowNext(offset: nat, row: seq<Byte>, rest: string)
    requires |row| <= ROW
    ensures NextLine(RowText(offset, row) + rest) == rest
  {
    Hex04Inverse(offset);
    ColumnsHaveNoBreak(row, 0);
    var d := Hex04(offset);
    assert '\n' !in d by { assert !IsDigit('\n'); }
    NextLineSkips(d + ":   " + Cells(row, 0) + Blank(3 * (ROW - |row|)) + "   " + Chars(row, 0), rest);
  }

  /** Reading a dump recovers every row with its offset: for every buffer, across the gap at column 8, short
      rows and offsets of more than four digits. */
  lemma {:induction false} ReadsBack(data: seq<Byte>, offset: nat)
    ensures ReadDump(DumpText(data, offset)) == Some(Lines(data, offset))
    decreases |data|
  {
    if data == [] {
    } else {
      var n := Min(ROW, |data|);
      ReadsBack(data[n..], offset + n);
      RowLine(offset, data[..n], DumpText(data[n..], offset + n));
      RowNext(offset, data[..n], DumpText(data[n..], offset + n));
    }
  }

  /** Two buffers with the same dump are the same. */
  lemma DumpInjective(a: seq<Byte>, b: seq<Byte>)
    ensures DumpText(a, 0) == DumpText(b, 0) <==> a == b
  {
    ReadsBack(a, 0);
    ReadsBack(b, 0);
    LinesCover(a, 0);
    LinesCover(b, 0);
  }

  // ------------------------------------------------------------ by position

  /** One blank more before byte 8 in the left column, two in the right. */
  function Gap(n: nat, from: nat): nat { if from <= 8 < n then 1 else 0 }

  lemma {:induction false} CellsLength(row: seq<Byte>, from: nat)
    requires from <= |row|
    ensures |Cells(row, from)| == 3 * (|row| - from) + Gap(|row|, from)
    decreases |row| - from
  {
    if from == |row| {
    } else {
      CellsLength(row, from + 1);
    }
  }

  /** Byte `i` in the left column. */
  lemma {:induction false} CellAt(row: seq<Byte>, from: nat, i: nat)
    requires from <= i < |row|
    ensures StandsAt(Cells(row, from), 3 * (i - from) + Gap(i + 1, from), " " + Hex2(row[i]))
    decreases i - from
  {
    hide StandsAt, Hex2;
    var gap, cell, rest := if from == 8 then " " else "", " " + Hex2(row[from]), Cells(row, from + 1);
    assert Cells(row, from) == gap + cell + rest by { Assoc(gap, " ", Hex2(row[from])); }
    if i == from {
      StandsHere(gap, cell, rest);
    } else {
      CellAt(row, from + 1, i);
      StandsFurther(gap + cell, rest, 3 * (i - from - 1) + Gap(i + 1, from + 1), " " + Hex2(row[i]));
    }
  }

  /** The blank before byte 8. */
  lemma {:induction false} CellGap(row: seq<Byte>, from: nat)
    requires from <= 8 < |row|
    ensures StandsAt(Cells(row, from), 3 * (8 - from), " ")
    decreases 8 - from
  {
    hide StandsAt, Hex2;
    var cell, rest := " " + Hex2(row[from]), Cells(row, from + 1);
    if from == 8 {
      assert Cells(row, from) == "" + " " + (cell + rest) by {
        Assoc(" ", " ", Hex2(row[from]));
        Assoc(" ", cell, rest);
        assert "" + " " == " ";
      }
      StandsHere("", " ", cell + rest);
    } else {
      assert Cells(row, from) == cell + rest by {
        assert "" + " " == " ";
      }
      CellGap(row, from + 1);
      StandsFurther(cell, rest, 3 * (8 - from - 1), " ");
    }
  }

  lemma {:induction false} CharsLength(row: seq<Byte>, from: nat)
    requires from <= |row|
    ensures |Chars(row, from)| == |row| - from + 2 * Gap(|row|, from)
    decreases |row| - from
  {
    if from == |row| {
    } else {
      CharsLength(row, from + 1);
    }
  }

  /** Byte `i` in the right column. */
  lemma {:induction false} CharAt(row: seq<Byte>, from: nat, i: nat)
    requires from <= i < |row|
    ensures StandsAt(Chars(row, from), i - from + 2 * Gap(i + 1, from),
                     [if 0x20 <= row[i] <= 0x7e then row[i] as char else '.'])
    decreases i - from
  {
    hide StandsAt;
    var gap, rest := if from == 8 then "  " else "", Chars(row, from + 1);
    var c := [if 0x20 <= row[from] <= 0x7e then row[from] as char else '.'];
    assert Chars(row, from) == gap + c + rest;
    if i == from {
      StandsHere(gap, c, rest);
    } else {
      CharAt(row, from + 1, i);
      StandsFurther(gap + c, rest, i - from - 1 + 2 * Gap(i + 1, from + 1),
                    [if 0x20 <= row[i] <= 0x7e then row[i] as char else '.']);
    }
  }

  /** The two blanks before byte 8. */
  lemma {:induction false} CharGap(row: seq<Byte>, from: nat)
    requires from <= 8 < |row|
    ensures StandsAt(Chars(row, from), 8 - from, "  ")
    decreases 8 - from
  {
    hide StandsAt;
    var c, rest := [Shown(row[from])], Chars(row, from + 1);
    if from == 8 {
      assert Chars(row, from) == "" + "  " + (c + rest) by {
        Assoc("  ", c, rest);
        assert "" + "  " == "  ";
      }
      StandsHere("", "  ", c + rest);
    } else {
      assert Chars(row, from) == c + rest by { assert "" + c == c; }
      CharGap(row, from + 1);
      StandsFurther(c, rest, 8 - from - 1, "  ");
    }
  }

  /** The three columns of a row, and what stands between. */
  lemma RowColumns(offset: nat, row: seq<Byte>)
    requires |row| <= ROW
    ensures var text, cells := RowText(offset, row), |Hex04(offset)| + 4;
      var filled := cells + |Cells(row, 0)|;
      var chars := filled + 3 * (16 - |row|) + 3;
      && |text| == chars + |Chars(row, 0)| + 1
      && text[..cells] == Hex04(offset) + ":   "
      && StandsAt(text, cells, Cells(row, 0))
      && (forall p :: filled <= p < chars ==> text[p] == ' ')
      && StandsAt(text, chars, Chars(row, 0))
      && text[|text| - 1] == '\n'
  {
    hide Cells, Chars, Hex04, RowText, StandsAt;
    var h, c, k := Hex04(offset) + ":   ", Cells(row, 0), Chars(row, 0);
    var blanks := Blank(3 * (16 - |row|)) + "   ";
    var text := RowText(offset, row);
    RowRegrouped(offset, row);
    assert text == h + (c + (blanks + (k + "\n"))) by {
      Assoc(h + c, blanks, k + "\n");
      Assoc(h, c, blanks + (k + "\n"));
    }
    assert text[..|h|] == h;
    StandsHere(h, c, blanks + (k + "\n"));
    Assoc(h, c, blanks + (k + "\n"));
    StandsHere(h + c, blanks, k + "\n");
    Assoc(h + c + blanks, k, "\n");
    StandsHere(h + c + blanks, k, "\n");
    AllBlank(text, |h + c|, blanks);
  }

  lemma AllBlank(text: string, q: nat, blanks: string)
    requires StandsAt(text, q, blanks) && forall i :: 0 <= i < |blanks| ==> blanks[i] == ' '
    ensures forall p :: q <= p < q + |blanks| ==> text[p] == ' '
  {
    forall p | q <= p < q + |blanks| ensures text[p] == ' ' {
      assert text[q + (p - q)] == blanks[p - q];
    }
  }

  lemma RowRegrouped(offset: nat, row: seq<Byte>)
    requires |row| <= ROW
    ensures RowText(offset, row)
         == (Hex04(offset) + ":   ") + Cells(row, 0) + (Blank(3 * (16 - |row|)) + "   ") + (Chars(row, 0) + "\n")
  {
    hide Cells, Chars, Hex04;
    var h, c, b, k := Hex04(offset) + ":   ", Cells(row, 0), Blank(3 * (16 - |row|)), Chars(row, 0);
    Assoc(h + c + b + "   ", k, "\n");
    Assoc(h + c, b, "   ");
  }

  /**
   A row by position. Its offset and a colon; then for byte `i` a blank and its two digits, three columns for each of
   sixteen bytes and one blank more before byte 8; then its character, with two blanks more before byte 8. The
   character is the byte itself if it can be printed, and a dot if not. All else is blank up to the line break.
  */
  lemma RowByPosition(offset: nat, row: seq<Byte>, i: nat)
    requires i < |row| <= 16
    ensures var text := RowText(offset, row);
      var cells := |Hex04(offset)| + 4;
      var chars := cells + 48 + (if |row| > 8 then 1 else 0) + 3;
      var cell, shown := cells + 3 * i + (if i >= 8 then 1 else 0), chars + i + (if i >= 8 then 2 else 0);
      && |text| == chars + |row| + (if |row| > 8 then 2 else 0) + 1
      && text[..cells] == Hex04(offset) + ":   "
      && text[cell] == ' ' && AllDigits(text[cell + 1..cell + 3]) && HexValue(text[cell + 1..cell + 3]) == row[i]
      && text[shown] == (if 0x20 <= row[i] <= 0x7e then row[i] as char else '.')
  {
    hide Cells, Chars, Hex2, RowText, HexValue, AllDigits, StandsAt;
    RowColumns(offset, row);
    CellsLength(row, 0);
    CharsLength(row, 0);
    var text, cells := RowText(offset, row), |Hex04(offset)| + 4;
    CellShows(text, cells, row, i);
    CharShows(text, |text| - 1 - |Chars(row, 0)|, row, i);
  }

  lemma CellShows(text: string, cells: nat, row: seq<Byte>, i: nat)
    requires i < |row| && StandsAt(text, cells, Cells(row, 0))
    ensures var cell := cells + 3 * i + (if i >= 8 then 1 else 0);
      && cell + 3 <= |text| && text[cell] == ' '
      && AllDigits(text[cell + 1..cell + 3]) && HexValue(text[cell + 1..cell + 3]) == row[i]
  {
    hide Cells, Hex2, HexValue, AllDigits, StandsAt;
    var q := 3 * i + Gap(i + 1, 0);
    CellAt(row, 0, i);
    Within(text, cells, Cells(row, 0), q, " " + Hex2(row[i]));
    Hex2Inverse(row[i]);
    StandsSlice(text, cells + q, " " + Hex2(row[i]));
    assert text[cells + q..cells + q + 3][0] == ' ';
    assert text[cells + q..cells + q + 3][1..3] == text[cells + q + 1..cells + q + 3] == Hex2(row[i]);
  }

  lemma CharShows(text: string, chars: nat, row: seq<Byte>, i: nat)
    requires i < |row| && StandsAt(text, chars, Chars(row, 0))
    ensures var shown := chars + i + (if i >= 8 then 2 else 0);
      shown < |text| && text[shown] == if 0x20 <= row[i] <= 0x7e then row[i] as char else '.'
  {
    hide Chars, StandsAt;
    var q, part := i + 2 * Gap(i + 1, 0), [if 0x20 <= row[i] <= 0x7e then row[i] as char else '.'];
    CharAt(row, 0, i);
    Within(text, chars, Chars(row, 0), q, part);
    StandsSlice(text, chars + q, part);
    assert text[chars + q..chars + q + 1][0] == part[0];
  }

  /** The blanks of the two gaps, those that fill a short row, and the line break. */
  lemma RowBlanks(offset: nat, row: seq<Byte>)
    requires |row| <= 16
    ensures var text := RowText(offset, row);
      var cells, gap := |Hex04(offset)| + 4, if |row| > 8 then 1 else 0;
      var chars := cells + 48 + gap + 3;
      && |text| == chars + |row| + 2 * gap + 1 && text[|text| - 1] == '\n'
      && (forall p :: cells + 3 * |row| + gap <= p < chars ==> text[p] == ' ')
      && (|row| > 8 ==> text[cells + 24] == ' ' && text[chars + 8] == ' ' && text[chars + 9] == ' ')
  {
    hide Cells, Chars, RowText, StandsAt;
    RowColumns(offset, row);
    CellsLength(row, 0);
    CharsLength(row, 0);
    var text, cells := RowText(offset, row), |Hex04(offset)| + 4;
    var c, k := Cells(row, 0), Chars(row, 0);
    var chars := |text| - 1 - |k|;
    if |row| > 8 {
      CellGap(row, 0);
      CharGap(row, 0);
      Within(text, cells, c, 24, " ");
      Within(text, chars, k, 8, "  ");
      StandsSlice(text, cells + 24, " ");
      StandsSlice(text, chars + 8, "  ");
      assert text[cells + 24..cells + 25][0] == ' ';
      assert text[chars + 8..chars + 10][0] == ' ' && text[chars + 8..chars + 10][1] == ' ';
    }
  }
}
