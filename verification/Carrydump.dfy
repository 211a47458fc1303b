/** `carrydump`: bytes as a C array, eight to a row, each row followed by a comment with its characters;
    and what a C lexer finds in the text. */
module Carrydump {
  import opened Bytes
  import opened Sequences
  import opened Text
  import opened CLexer

  const ROW: nat := 8

  function Constants(row: seq<Byte>): string {
    if row == [] then "" else "0x" + Hex2(row[0]) + ", " + Constants(row[1..])
  }

  function Chars(row: seq<Byte>): (s: string)
    ensures |s| == |row| && forall i :: 0 <= i < |row| ==> s[i] == Shown(row[i])
  {
    seq(|row|, i requires 0 <= i < |row| => Shown(row[i]))
  }

  function RowText(row: seq<Byte>): string
    requires |row| <= ROW
  {
    "  " + Constants(row) + Blank(6 * (ROW - |row|)) + "   /*" + Chars(row) + "*/" + "\n"
  }

  function RowsText(data: seq<Byte>): string {
    if data == [] then ""
    else var n := Min(ROW, |data|); RowText(data[..n]) + RowsText(data[n..])
  }

  function TitleText(title: Option<string>): string {
    if title.Some? then "// " + title.value + " \n" else ""
  }

  const OPENING: string := "static uint8_t arry[] = {\n"
  const CLOSING: string := "};\n"

  function CarryText(title: Option<string>, data: seq<Byte>): string {
    TitleText(title) + OPENING + RowsText(data) + CLOSING
  }

  // ------------------------------------------------------------ the program

  method PrintConstants(fp: Stream, row: seq<Byte>)
    modifies fp
    ensures fp.text == old(fp.text) + Constants(row)
  {
    for i := 0 to |row|
      invariant fp.text + Constants(row[i..]) == old(fp.text) + Constants(row)
    {
      ghost var before, rest := fp.text, row[i..];
      fp.Print("0x" + Hex2(row[i]) + ", ");
      assert rest[1..] == row[i + 1..];
      Assoc(before, "0x" + Hex2(row[i]) + ", ", Constants(rest[1..]));
    }
    assert row[|row|..] == [];
  }

  method PrintChars(fp: Stream, row: seq<Byte>)
    modifies fp
    ensures fp.text == old(fp.text) + Chars(row)
  {
    for i := 0 to |row|
      invariant fp.text == old(fp.text) + Chars(row)[..i]
    {
      fp.Print([Shown(row[i])]);
      assert Chars(row)[..i + 1] == Chars(row)[..i] + [Shown(row[i])];
    }
    assert Chars(row)[..|row|] == Chars(row);
  }

  method PrintRow(fp: Stream, row: seq<Byte>)
    requires |row| <= ROW
    modifies fp
    ensures fp.text == old(fp.text) + RowText(row)
  {
    ghost var t, k, b, c := fp.text, Constants(row), Blank(6 * (ROW - |row|)), Chars(row);
    fp.Print("  ");
    PrintConstants(fp, row);
    PrintPad(fp, |row|, ROW, 6);
    fp.Print("   /*");
    PrintChars(fp, row);
    fp.Print("*/");
    fp.Print("\n");
    Assoc7(t, "  ", k, b, "   /*", c, "*/", "\n");
    Assoc6("  ", k, b, "   /*", c, "*/", "\n");
  }

  lemma RowsStep(data: seq<Byte>)
    requires data != []
    ensures var n := Min(ROW, |data|); RowsText(data) == RowText(data[..n]) + RowsText(data[n..])
  {
  }

  method PrintOpening(fp: Stream, comment: Option<string>)
    modifies fp
    ensures fp.text == old(fp.text) + (TitleText(comment) + OPENING)
  {
    ghost var t := fp.text;
    if comment.Some? { fp.Print("// " + comment.value + " \n"); }
    assert fp.text == t + TitleText(comment);
    fp.Print(OPENING);
    Assoc(t, TitleText(comment), OPENING);
  }

  method PrintCarrydump(fp: Stream, comment: Option<string>, buffer: seq<Byte>)
    modifies fp
    ensures fp.text == old(fp.text) + CarryText(comment, buffer)
  {
    hide RowText, TitleText;
    ghost var t, head := fp.text, TitleText(comment) + OPENING;
    PrintOpening(fp, comment);
    var bufferlen, data, row := |buffer|, 0, 0;
    while bufferlen > 0
      invariant 0 <= data && 0 <= bufferlen && data + bufferlen == |buffer| && row == data
      invariant fp.text + RowsText(buffer[data..]) == t + head + RowsText(buffer)
      decreases bufferlen
    {
      ghost var before, rest := fp.text, buffer[data..];
      var n := if bufferlen < 8 then bufferlen else 8;
      assert rest[..n] == buffer[data..data + n] && rest[n..] == buffer[data + n..];
      PrintRow(fp, buffer[data..data + n]);
      RowsStep(rest);
      Assoc(before, RowText(rest[..n]), RowsText(rest[n..]));
      bufferlen := bufferlen - n;
      data := data + n;
      row := row + n;
    }
    assert buffer[data..] == [];
    fp.Print(CLOSING);
    Assoc(t, head, RowsText(buffer));
    Assoc(t, head + RowsText(buffer), CLOSING);
  }

  // ------------------------------------------------------- what is intended

  function ConstantTokens(row: seq<Byte>): seq<Token> {
    if row == [] then [] else [Number("0x" + Hex2(row[0])), Punct(',')] + ConstantTokens(row[1..])
  }

  function RowTokens(row: seq<Byte>): seq<Token> {
    ConstantTokens(row) + [Comment(Chars(row))]
  }

  function RowsTokens(data: seq<Byte>): seq<Token> {
    if data == [] then []
    else var n := Min(ROW, |data|); RowTokens(data[..n]) + RowsTokens(data[n..])
  }

  function TitleTokens(title: Option<string>): seq<Token> {
    if title.Some? then [LineComment(" " + title.value + " ")] else []
  }

  const OPENING_TOKENS: seq<Token> := [Ident("static"), Ident("uint8_t"), Ident("arry"),
    Punct('['), Punct(']'), Punct('='), Punct('{')]
  const CLOSING_TOKENS: seq<Token> := [Punct('}'), Punct(';')]

  /** The C text meant: title, declaration, the constants, and behind each row its characters as a comment. */
  function Intended(title: Option<string>, data: seq<Byte>): seq<Token> {
    TitleTokens(title) + OPENING_TOKENS + RowsTokens(data) + CLOSING_TOKENS
  }

  /** No row shows "*" directly before "/". */
  predicate CleanRow(row: seq<Byte>) {
    forall i :: 0 <= i < |row| - 1 ==> !(row[i] == 0x2a && row[i + 1] == 0x2f)
  }

  predicate Clean(data: seq<Byte>) {
    forall i :: 0 <= i < |data| - 1 && (i + 1) % ROW != 0 ==> !(data[i] == 0x2a && data[i + 1] == 0x2f)
  }

  predicate CleanTitle(title: Option<string>) {
    title.Some? ==> '\n' !in title.value
  }

  // ------------------------------------------------------------ lexing rows

  lemma ConstantWord(b: Byte)
    ensures var w := "0x" + Hex2(b); IsDecimal(w[0]) && forall i :: 0 <= i < |w| ==> IsWord(w[i])
  {
    DigitInverse(b / 16);
    DigitInverse(b % 16);
  }

  lemma LexComma(rest: string)
    ensures Lex(", " + rest) == [Punct(',')] + Lex(rest)
  {
    assert ", " == [','] + " ";
    Assoc([','], " ", rest);
    LexPunct(',', " " + rest);
    LexSpaces(" ", rest);
  }

  lemma LexConstant(b: Byte, rest: string)
    ensures Lex("0x" + Hex2(b) + ", " + rest) == [Number("0x" + Hex2(b)), Punct(',')] + Lex(rest)
  {
    var w := "0x" + Hex2(b);
    ConstantWord(b);
    Assoc(w, ", ", rest);
    LexWord(w, ", " + rest);
    LexComma(rest);
    Assoc([Number(w)], [Punct(',')], Lex(rest));
  }

  lemma {:induction false} LexConstants(row: seq<Byte>, rest: string)
    ensures Lex(Constants(row) + rest) == ConstantTokens(row) + Lex(rest)
    decreases |row|
  {
    hide Lex, Hex2;
    if row == [] {
      assert Constants(row) + rest == rest;
    } else {
      LexConstants(row[1..], rest);
      Assoc("0x" + Hex2(row[0]) + ", ", Constants(row[1..]), rest);
      LexConstant(row[0], Constants(row[1..]) + rest);
    }
  }

  /** A row up to its comment. */
  lemma LexRowFront(row: seq<Byte>, rest: string)
    requires |row| <= ROW
    ensures Lex(RowText(row) + rest) == ConstantTokens(row) + Lex("/*" + (Chars(row) + ("*/" + ("\n" + rest))))
  {
    var k, b, c := Constants(row), Blank(6 * (ROW - |row|)), Chars(row);
    var body := "/*" + (c + ("*/" + ("\n" + rest)));
    RowParts(row, rest);
    LexSpaces("  ", k + (b + ("   " + body)));
    LexConstants(row, b + ("   " + body));
    LexSpaces(b, "   " + body);
    LexSpaces("   ", body);
  }

  lemma RowParts(row: seq<Byte>, rest: string)
    requires |row| <= ROW
    ensures RowText(row) + rest == "  " + (Constants(row) + (Blank(6 * (ROW - |row|))
      + ("   " + ("/*" + (Chars(row) + ("*/" + ("\n" + rest)))))))
  {
    Assoc7("  ", Constants(row), Blank(6 * (ROW - |row|)), "   /*", Chars(row), "*/", "\n", rest);
    CommentStart(Chars(row) + ("*/" + ("\n" + rest)));
  }

  lemma CommentStart(s: string)
    ensures "   /*" + s == "   " + ("/*" + s)
  {
    assert "   /*" == "   " + "/*";
    Assoc("   ", "/*", s);
  }

  lemma CleanChars(row: seq<Byte>)
    ensures CleanRow(row) <==> NoClose(Chars(row), |row|)
  {
    var c := Chars(row);
    assert forall i :: 0 <= i < |row| ==> (c[i] == '*' <==> row[i] == 0x2a) && (c[i] == '/' <==> row[i] == 0x2f);
    if !CleanRow(row) {
      var i :| 0 <= i < |row| - 1 && row[i] == 0x2a && row[i + 1] == 0x2f;
      assert c[i] == '*' && c[i + 1] == '/';
    }
    if !NoClose(c, |row|) {
      var i :| 0 <= i < |row| && i + 1 < |c| && c[i] == '*' && c[i + 1] == '/';
      assert row[i] == 0x2a && row[i + 1] == 0x2f;
    }
  }

  /** A clean row lexes as intended. */
  lemma LexCleanRow(row: seq<Byte>, rest: string)
    requires |row| <= ROW && CleanRow(row)
    ensures Lex(RowText(row) + rest) == RowTokens(row) + Lex(rest)
  {
    LexRowFront(row, rest);
    CleanChars(row);
    var c := Chars(row);
    Assoc("/*", c, "*/" + ("\n" + rest));
    Assoc("/*" + c, "*/", "\n" + rest);
    LexComment(c, "\n" + rest);
    LexSpaces("\n", rest);
    Assoc(ConstantTokens(row), [Comment(c)], Lex(rest));
  }

  /** In any other row the comment ends early, so the token behind the constants is not the one intended. */
  lemma LexDirtyRow(row: seq<Byte>, rest: string) returns (body: string, more: string)
    requires |row| <= ROW && !CleanRow(row)
    ensures |body| < |row| && Lex(RowText(row) + rest) == ConstantTokens(row) + [Comment(body)] + Lex(more)
    ensures Chars(row) + ("*/" + ("\n" + rest)) == body + "*/" + more
  {
    LexRowFront(row, rest);
    CleanChars(row);
    var c := Chars(row);
    var p := FirstClose(c);
    var end := "*/" + ("\n" + rest);
    body, more := c[..p], c[p + 2..] + end;
    Assoc(body + "*/", c[p + 2..], end);
    Assoc("/*", body + "*/", more);
    assert "/*" + (body + "*/") == "/*" + body + "*/";
    LexComment(body, more);
  }

  lemma CleanSplit(data: seq<Byte>)
    requires data != []
    ensures var n := Min(ROW, |data|); Clean(data) <==> CleanRow(data[..n]) && Clean(data[n..])
  {
    var n := Min(ROW, |data|);
    var row, rest := data[..n], data[n..];
    if CleanRow(row) && Clean(rest) {
      forall i | 0 <= i < |data| - 1 && (i + 1) % ROW != 0 ensures !(data[i] == 0x2a && data[i + 1] == 0x2f) {
        if i < n - 1 {
          assert row[i] == data[i] && row[i + 1] == data[i + 1];
        } else {
          assert rest[i - n] == data[i] && rest[i - n + 1] == data[i + 1] && (i - n + 1) % ROW != 0;
        }
      }
    }
    if Clean(data) {
      forall i | 0 <= i < |row| - 1 ensures !(row[i] == 0x2a && row[i + 1] == 0x2f) {
        assert (i + 1) % ROW != 0 && row[i] == data[i] && row[i + 1] == data[i + 1];
      }
      forall i | 0 <= i < |rest| - 1 && (i + 1) % ROW != 0 ensures !(rest[i] == 0x2a && rest[i + 1] == 0x2f) {
        assert (i + n + 1) % ROW != 0 && rest[i] == data[i + n] && rest[i + 1] == data[i + n + 1];
      }
    }
  }

  lemma TokensDiffer(a: seq<Token>, x: Token, y: Token, b: seq<Token>, d: seq<Token>)
    requires x != y
    ensures a + [x] + b != a + [y] + d
  {
    assert (a + [x] + b)[|a|] == x;
    assert (a + [y] + d)[|a|] == y;
  }

  lemma Cancel(a: seq<Token>, b: seq<Token>, d: seq<Token>)
    ensures a + b == a + d <==> b == d
  {
    assert (a + b)[|a|..] == b && (a + d)[|a|..] == d;
  }

  lemma {:induction false} LexRowsIff(data: seq<Byte>, rest: string, end: seq<Token>)
    requires Lex(rest) == end
    ensures Lex(RowsText(data) + rest) == RowsTokens(data) + end <==> Clean(data)
    decreases |data|
  {
    if data == [] {
      assert RowsText(data) + rest == rest;
    } else {
      var n := Min(ROW, |data|);
      var row, more := data[..n], data[n..];
      LexRowsIff(more, rest, end);
      CleanSplit(data);
      Assoc(RowText(row), RowsText(more), rest);
      var tail, meant := RowsText(more) + rest, RowsTokens(more) + end;
      Assoc(RowTokens(row), RowsTokens(more), end);
      if CleanRow(row) {
        LexCleanRow(row, tail);
        Cancel(RowTokens(row), Lex(tail), meant);
      } else {
        var body, left := LexDirtyRow(row, tail);
        TokensDiffer(ConstantTokens(row), Comment(body), Comment(Chars(row)), Lex(left), meant);
      }
    }
  }
}
