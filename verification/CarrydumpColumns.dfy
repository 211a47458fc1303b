/** Reading a `carrydump` text by position: the constants stand in fixed columns, so the bytes of every buffer come
    back, whatever its comments show. */
module CarrydumpColumns {
  import opened Bytes
  import opened Sequences
  import opened Text
  import opened Carrydump

  /** Width of one constant with its separator, and of a row without its characters. */
  const CELL: nat := 6
  const FRAME: nat := 58

  predicate IsCell(s: string) {
    |s| >= CELL && s[..2] == "0x" && IsDigit(s[2]) && IsDigit(s[3]) && s[4..CELL] == ", "
  }

  /** The constants of a row from column `i` on, at most eight. */
  function ReadCells(s: string, i: nat): (row: seq<Byte>)
    decreases |s|
  {
    if i >= ROW || !IsCell(s) then [] else [ReadByte(s[2..4])] + ReadCells(s[CELL..], i + 1)
  }

  /** Row by row: behind the constants' columns a row takes one character for each constant. */
  function ReadRows(s: string): seq<Byte>
    decreases |s|
  {
    if |s| < 2 || s[..2] != "  " then []
    else
      var row := ReadCells(s[2..], 0);
      row + if |s| < FRAME + |row| then [] else ReadRows(s[FRAME + |row|..])
  }

  lemma {:induction false} ConstantsLength(row: seq<Byte>)
    ensures |Constants(row)| == CELL * |row|
    decreases |row|
  {
    if row == [] {
    } else {
      ConstantsLength(row[1..]);
    }
  }

  lemma RowLength(row: seq<Byte>)
    requires |row| <= ROW
    ensures |RowText(row)| == FRAME + |row|
  {
    ConstantsLength(row);
  }

  lemma ReadOneCell(b: Byte, rest: string, i: nat)
    requires i < ROW
    ensures ReadCells("0x" + Hex2(b) + ", " + rest, i) == [b] + ReadCells(rest, i + 1)
  {
    hide Hex2, ReadByte;
    Hex2Reads(b);
    CellParts(Hex2(b), rest);
  }

  lemma CellParts(h: string, rest: string)
    requires |h| == 2
    ensures var s := "0x" + h + ", " + rest;
      |s| >= CELL && s[..2] == "0x" && s[2..4] == h && s[2] == h[0] && s[3] == h[1] && s[4..CELL] == ", " && s[CELL..] == rest
  {
  }

  /** Reading stops behind the last constant: at the eighth, or at a blank. */
  lemma {:induction false} CellsRead(row: seq<Byte>, tail: string, i: nat)
    requires i + |row| <= ROW && (i + |row| == ROW || (tail != "" && tail[0] == ' '))
    ensures ReadCells(Constants(row) + tail, i) == row
    decreases |row|
  {
    hide ReadCells, Hex2;
    if row == [] {
      assert Constants(row) + tail == tail;
      CellsEnd(tail, i);
    } else {
      CellsRead(row[1..], tail, i + 1);
      Assoc("0x" + Hex2(row[0]) + ", ", Constants(row[1..]), tail);
      ReadOneCell(row[0], Constants(row[1..]) + tail, i);
    }
  }

  lemma CellsEnd(tail: string, i: nat)
    requires i >= ROW || (tail != "" && tail[0] == ' ')
    ensures ReadCells(tail, i) == []
  {
    assert IsCell(tail) ==> tail[..2][0] == '0';
  }

  lemma RowRead(row: seq<Byte>, rest: string)
    requires |row| <= ROW
    ensures ReadRows(RowText(row) + rest) == row + ReadRows(rest)
  {
    hide RowText, ReadCells, Constants, Chars;
    var s := RowText(row) + rest;
    var behind := Blank(6 * (ROW - |row|)) + ("   " + ("/*" + (Chars(row) + ("*/" + ("\n" + rest)))));
    RowParts(row, rest);
    RowLength(row);
    CellsRead(row, behind, 0);
    assert s[..2] == "  " && s[2..] == Constants(row) + behind;
    assert s[FRAME + |row|..] == rest;
  }

  lemma NoRows()
    ensures ReadRows(CLOSING) == []
  {
    assert CLOSING[..2] == "};";
  }

  lemma {:induction false} RowsRead(data: seq<Byte>)
    ensures ReadRows(RowsText(data) + CLOSING) == data
    decreases |data|
  {
    hide RowText, ReadRows;
    if data == [] {
      assert RowsText(data) + CLOSING == CLOSING;
      NoRows();
    } else {
      var n := Min(ROW, |data|);
      RowsStep(data);
      RowsRead(data[n..]);
      Assoc(RowText(data[..n]), RowsText(data[n..]), CLOSING);
      RowRead(data[..n], RowsText(data[n..]) + CLOSING);
    }
  }

  /** Behind the title and the opening, reading by column gives the bytes of every buffer. */
  lemma ReadsBack(title: Option<string>, data: seq<Byte>)
    ensures var head := TitleText(title) + OPENING;
      head <= CarryText(title, data) && ReadRows(CarryText(title, data)[|head|..]) == data
  {
    hide TitleText, RowsText, ReadRows;
    var head := TitleText(title) + OPENING;
    Assoc(head, RowsText(data), CLOSING);
    assert CarryText(title, data)[|head|..] == RowsText(data) + CLOSING;
    RowsRead(data);
  }

  /** Two buffers printed under the same title give the same text exactly when they are the same. */
  lemma CarryInjective(title: Option<string>, a: seq<Byte>, b: seq<Byte>)
    ensures CarryText(title, a) == CarryText(title, b) <==> a == b
  {
    hide CarryText, ReadRows;
    ReadsBack(title, a);
    ReadsBack(title, b);
  }

  /** A row by position: blanks where there is no constant, and the characters in the comment, each the byte itself if it
      can be printed, and a dot if not. */
  lemma RowShows(row: seq<Byte>)
    requires |row| <= 8
    ensures var text := RowText(row);
      && |text| == 58 + |row|
      && text[..2] == "  " && (forall p :: 2 + 6 * |row| <= p < 53 ==> text[p] == ' ')
      && text[53..55] == "/*" && text[55 + |row|..] == "*/\n"
      && forall i :: 0 <= i < |row| ==> text[55 + i] == if 0x20 <= row[i] <= 0x7e then row[i] as char else '.'
  {
    hide RowText, Chars, StandsAt;
    RowPieces(row);
    var text := RowText(row);
    var blanks, c := Blank(6 * (8 - |row|)) + "   ", Chars(row);
    StandsSlice(text, 2 + 6 * |row|, blanks);
    StandsSlice(text, 53, "/*");
    StandsSlice(text, 55, c);
    StandsSlice(text, 55 + |row|, "*/\n");
    forall p | 2 + 6 * |row| <= p < 53 ensures text[p] == ' ' {
      assert text[2 + 6 * |row|..53][p - 2 - 6 * |row|] == blanks[p - 2 - 6 * |row|];
    }
    assert text[55 + |row|..58 + |row|] == text[55 + |row|..];
    forall i | 0 <= i < |row| ensures text[55 + i] == if 0x20 <= row[i] <= 0x7e then row[i] as char else '.' {
      assert text[55..55 + |row|][i] == c[i];
    }
  }

  lemma RowPieces(row: seq<Byte>)
    requires |row| <= 8
    ensures var text, blanks := RowText(row), Blank(6 * (8 - |row|)) + "   ";
      && |text| == 58 + |row| && text[..2] == "  " && |blanks| == 51 - 6 * |row|
      && (forall i :: 0 <= i < |blanks| ==> blanks[i] == ' ')
      && StandsAt(text, 2 + 6 * |row|, blanks) && StandsAt(text, 53, "/*")
      && StandsAt(text, 55, Chars(row)) && StandsAt(text, 55 + |row|, "*/\n")
  {
    hide Constants, Chars, StandsAt;
    var k, b, c := Constants(row), Blank(6 * (8 - |row|)), Chars(row);
    var front, blanks, end := "  " + k, b + "   ", "*/\n";
    ConstantsLength(row);
    RowRegrouped(row);
    var text := RowText(row);
    assert text == front + blanks + ("/*" + (c + end));
    StandsHere(front, blanks, "/*" + (c + end));
    Assoc(front + blanks, "/*", c + end);
    StandsHere(front + blanks, "/*", c + end);
    Assoc(front + blanks + "/*", c, end);
    StandsHere(front + blanks + "/*", c, end);
    assert text == front + blanks + "/*" + c + end + "";
    StandsHere(front + blanks + "/*" + c, end, "");
  }

  lemma RowRegrouped(row: seq<Byte>)
    requires |row| <= 8
    ensures RowText(row)
         == ("  " + Constants(row)) + (Blank(6 * (8 - |row|)) + "   ") + ("/*" + (Chars(row) + "*/\n"))
  {
    hide Constants, Chars;
    Literals();
    Regroup("  ", Constants(row), Blank(6 * (8 - |row|)), "   /*", "   ", "/*", Chars(row), "*/", "\n", "*/\n");
  }

  lemma Literals()
    ensures "   /*" == "   " + "/*"
    ensures "*/\n" == "*/" + "\n"
  {
  }

  lemma Regroup(p: string, k: string, b: string, xy: string, x: string, y: string, c: string, e: string, n: string, en: string)
    requires xy == x + y && en == e + n
    ensures p + k + b + xy + c + e + n == (p + k) + (b + x) + (y + (c + en))
  {
    var front := (p + k) + (b + x);
    Assoc(p + k, b, x + y);
    Assoc(b, x, y);
    Assoc(p + k, b + x, y);
    Assoc(front + y + c, e, n);
    Assoc(front + y, c, en);
    Assoc(front, y, c + en);
  }
}
