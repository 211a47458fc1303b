/** What a C lexer finds in the whole of a `carrydump` text. */
module CarrydumpLexed {
  import opened Bytes
  import opened Sequences
  import opened Text
  import opened CLexer
  import opened Carrydump

  lemma PunctThen(c: char, t: string, rest: string)
    requires !IsSpace(c) && !IsWord(c) && c != '/'
    ensures Lex(([c] + t) + rest) == [Punct(c)] + Lex(t + rest)
  {
    Assoc([c], t, rest);
    LexPunct(c, t + rest);
  }

  lemma SpaceThen(t: string, rest: string)
    ensures Lex((" " + t) + rest) == Lex(t + rest)
  {
    Assoc(" ", t, rest);
    LexSpaces(" ", t + rest);
  }

  lemma WordThen(w: string, t: string, rest: string)
    requires w != "" && (forall i :: 0 <= i < |w| ==> IsWord(w[i])) && !IsDecimal(w[0]) && t != "" && !IsWord(t[0])
    ensures Lex((w + t) + rest) == [Ident(w)] + Lex(t + rest)
  {
    Assoc(w, t, rest);
    LexWord(w, t + rest);
  }

  lemma LexBrace(rest: string)
    ensures Lex(" {\n" + rest) == [Punct('{')] + Lex(rest)
  {
    SpaceThen("{\n", rest);
    PunctThen('{', "\n", rest);
    LexSpaces("\n", rest);
    assert " {\n" == " " + "{\n" && "{\n" == ['{'] + "\n";
  }

  lemma LexEquals(rest: string)
    ensures Lex(" = {\n" + rest) == [Punct('='), Punct('{')] + Lex(rest)
  {
    SpaceThen("= {\n", rest);
    PunctThen('=', " {\n", rest);
    LexBrace(rest);
    assert " = {\n" == " " + "= {\n" && "= {\n" == ['='] + " {\n";
  }

  lemma LexBrackets(rest: string)
    ensures Lex("[] = {\n" + rest) == [Punct('['), Punct(']'), Punct('='), Punct('{')] + Lex(rest)
  {
    PunctThen('[', "] = {\n", rest);
    PunctThen(']', " = {\n", rest);
    LexEquals(rest);
    assert "[] = {\n" == ['['] + "] = {\n" && "] = {\n" == [']'] + " = {\n";
  }

  lemma LexName(rest: string)
    ensures Lex(" arry[] = {\n" + rest)
         == [Ident("arry"), Punct('['), Punct(']'), Punct('='), Punct('{')] + Lex(rest)
  {
    hide Lex;
    SpaceThen("arry[] = {\n", rest);
    WordThen("arry", "[] = {\n", rest);
    LexBrackets(rest);
    assert " arry[] = {\n" == " " + "arry[] = {\n" && "arry[] = {\n" == "arry" + "[] = {\n";
  }

  lemma SplitType()
    ensures " uint8_t arry[] = {\n" == " " + ("uint8_t" + " arry[] = {\n")
    ensures OPENING == "static" + " uint8_t arry[] = {\n"
  {
  }

  lemma LexType(t: string, rest: string)
    requires t != "" && !IsWord(t[0])
    ensures Lex((" " + ("uint8_t" + t)) + rest) == [Ident("uint8_t")] + Lex(t + rest)
  {
    SpaceThen("uint8_t" + t, rest);
    WordThen("uint8_t", t, rest);
  }

  lemma JoinTokens(tail: seq<Token>)
    ensures [Ident("static")] + ([Ident("uint8_t")]
         + ([Ident("arry"), Punct('['), Punct(']'), Punct('='), Punct('{')] + tail)) == OPENING_TOKENS + tail
  {
  }

  lemma LexOpening(rest: string)
    ensures Lex(OPENING + rest) == OPENING_TOKENS + Lex(rest)
  {
    SplitType();
    WordThen("static", " uint8_t arry[] = {\n", rest);
    LexType(" arry[] = {\n", rest);
    LexName(rest);
    JoinTokens(Lex(rest));
  }

  lemma LexClosing()
    ensures Lex(CLOSING) == CLOSING_TOKENS
  {
    LexPunct('}', ";\n");
    LexPunct(';', "\n");
    LexSpaces("\n", "");
    assert CLOSING == ['}'] + ";\n" && ";\n" == [';'] + "\n" && "\n" + "" == "\n";
  }

  lemma LexTitle(title: Option<string>, rest: string)
    requires CleanTitle(title)
    ensures Lex(TitleText(title) + rest) == TitleTokens(title) + Lex(rest)
  {
    if title.Some? {
      var body := " " + title.value + " ";
      assert TitleText(title) + rest == "//" + body + "\n" + rest;
      LexLineComment(body, rest);
    } else {
      assert TitleText(title) + rest == rest;
    }
  }

  lemma {:induction false} FirstBreak(s: string) returns (p: nat)
    requires '\n' in s
    ensures p < |s| && s[p] == '\n' && '\n' !in s[..p]
    decreases |s|
  {
    if s[0] == '\n' {
      p := 0;
    } else {
      p := FirstBreak(s[1..]);
      p := p + 1;
      assert s[..p] == [s[0]] + s[1..][..p - 1];
    }
  }

  /** A title with a line break ends its comment early. */
  lemma LexBrokenTitle(title: string, rest: string) returns (body: string, more: string)
    requires '\n' in title
    ensures |body| < |title| + 2
    ensures Lex(TitleText(Some(title)) + rest) == [LineComment(body)] + Lex(more)
  {
    var p := FirstBreak(title);
    body, more := " " + title[..p], title[p + 1..] + " \n" + rest;
    assert title == title[..p] + "\n" + title[p + 1..];
    assert TitleText(Some(title)) + rest == "//" + body + "\n" + more;
    LexLineComment(body, more);
  }

  /** The text lexes to exactly what is meant, comments included, if and only if the title has no line break
      and no row shows "*" directly before "/". */
  lemma LexesAsIntendedIff(title: Option<string>, data: seq<Byte>)
    ensures Lex(CarryText(title, data)) == Intended(title, data) <==> CleanTitle(title) && Clean(data)
  {
    var rows := RowsText(data) + CLOSING;
    Assoc(TitleText(title) + OPENING, RowsText(data), CLOSING);
    Assoc(TitleText(title), OPENING, rows);
    if CleanTitle(title) {
      LexTitle(title, OPENING + rows);
      LexOpening(rows);
      LexClosing();
      LexRowsIff(data, CLOSING, CLOSING_TOKENS);
      Assoc(TitleTokens(title), OPENING_TOKENS, Lex(rows));
      Assoc(TitleTokens(title) + OPENING_TOKENS, RowsTokens(data), CLOSING_TOKENS);
      Cancel(TitleTokens(title) + OPENING_TOKENS, Lex(rows), RowsTokens(data) + CLOSING_TOKENS);
    } else {
      var body, more := LexBrokenTitle(title.value, OPENING + rows);
      assert Lex(CarryText(title, data))[0] == LineComment(body);
      assert Intended(title, data)[0] == LineComment(" " + title.value + " ");
    }
  }

  lemma PairValues(b: Byte)
    ensures Values([Number("0x" + Hex2(b)), Punct(',')]) == [b as int]
  {
    Hex2Inverse(b);
    var w := "0x" + Hex2(b);
    assert w[..2] == "0x" && w[2..] == Hex2(b);
    var pair := [Number(w), Punct(',')];
    assert pair[1..] == [Punct(',')] && [Punct(',')][1..] == [];
  }

  lemma {:induction false} ConstantValues(row: seq<Byte>)
    ensures Values(ConstantTokens(row)) == row
    decreases |row|
  {
    if row == [] {
    } else {
      ConstantValues(row[1..]);
      PairValues(row[0]);
      ValuesConcat([Number("0x" + Hex2(row[0])), Punct(',')], ConstantTokens(row[1..]));
    }
  }

  lemma CommentValues(ts: seq<Token>, c: Token)
    requires !c.Number?
    ensures Values(ts + [c]) == Values(ts)
  {
    ValuesConcat(ts, [c]);
    assert [c][1..] == [];
  }

  lemma {:induction false} RowsValues(data: seq<Byte>)
    ensures Values(RowsTokens(data)) == data
    decreases |data|
  {
    if data == [] {
    } else {
      var n := Min(ROW, |data|);
      RowsValues(data[n..]);
      ConstantValues(data[..n]);
      CommentValues(ConstantTokens(data[..n]), Comment(Chars(data[..n])));
      ValuesConcat(RowTokens(data[..n]), RowsTokens(data[n..]));
      assert data == data[..n] + data[n..];
    }
  }

  lemma FrameValues(title: Option<string>)
    ensures Values(TitleTokens(title)) == [] && Values(OPENING_TOKENS) == [] && Values(CLOSING_TOKENS) == []
  {
    var a, b, c, d, e, f, g := Ident("static"), Ident("uint8_t"), Ident("arry"), Punct('['), Punct(']'), Punct('='), Punct('{');
    NoNumbers(OPENING_TOKENS);
    NoNumbers(CLOSING_TOKENS);
    NoNumbers(TitleTokens(title));
  }

  lemma {:induction false} NoNumbers(ts: seq<Token>)
    requires forall i :: 0 <= i < |ts| ==> !ts[i].Number?
    ensures Values(ts) == []
    decreases |ts|
  {
    if ts == [] {
    } else {
      NoNumbers(ts[1..]);
    }
  }

  lemma IntendedValues(title: Option<string>, data: seq<Byte>)
    ensures Values(Intended(title, data)) == data
  {
    FrameValues(title);
    RowsValues(data);
    ValuesConcat(TitleTokens(title) + OPENING_TOKENS + RowsTokens(data), CLOSING_TOKENS);
    ValuesConcat(TitleTokens(title) + OPENING_TOKENS, RowsTokens(data));
    ValuesConcat(TitleTokens(title), OPENING_TOKENS);
  }

  /** Outside comments the text holds exactly the bytes, in order, partial last row included. */
  lemma RecoversBytes(title: Option<string>, data: seq<Byte>)
    requires CleanTitle(title) && Clean(data)
    ensures Values(Lex(CarryText(title, data))) == data
  {
    LexesAsIntendedIff(title, data);
    IntendedValues(title, data);
  }

  /** The one-row buffer `2a 2f 31` closes its own comment and gains a constant: 1. */
  lemma EarlyCloseAddsConstant()
    ensures Values(Lex(CarryText(None, [0x2a, 0x2f, 0x31]))) == [0x2a, 0x2f, 0x31, 1]
  {
    var row: seq<Byte> := [0x2a, 0x2f, 0x31];
    var body, more := EarlyClose(row, "1");
    TailWithOne(more);
    CloseValues(row, body, more, [1]);
  }

  lemma TailWithOne(more: string)
    requires more == "1" + ("*/" + ("\n" + CLOSING))
    ensures Values(Lex(more)) == [1]
  {
    var one, tail := [Number("1")], [Punct('*'), Punct('/')] + CLOSING_TOKENS;
    LexWord("1", "*/" + ("\n" + CLOSING));
    LexTail();
    NoNumbers(tail);
    ValuesConcat(one, tail);
    assert "1"[..0] == "" && one[1..] == [];
    assert Values(one) == [1];
  }

  /** The buffer `2a 2f` also closes its comment early, yet no constant is gained or lost: for the constants
      alone the condition is sufficient, not necessary. */
  lemma EarlyCloseMayBeHarmless()
    ensures !Clean([0x2a, 0x2f]) && Values(Lex(CarryText(None, [0x2a, 0x2f]))) == [0x2a, 0x2f]
  {
    var row: seq<Byte> := [0x2a, 0x2f];
    assert row[0] == 0x2a && row[1] == 0x2f && (0 + 1) % ROW != 0;
    var body, more := EarlyClose(row, "");
    LexTail();
    NoNumbers([Punct('*'), Punct('/')] + CLOSING_TOKENS);
    assert more == "*/" + ("\n" + CLOSING);
    CloseValues(row, body, more, []);
  }

  lemma LexTail()
    ensures Lex("*/" + ("\n" + CLOSING)) == [Punct('*'), Punct('/')] + CLOSING_TOKENS
  {
    PunctThen('*', "/", "\n" + CLOSING);
    assert "*/" == ['*'] + "/";
    LexClosing();
    LexSpaces("\n", CLOSING);
    var s := "/" + ("\n" + CLOSING);
    assert s[1..] == "\n" + CLOSING;
    assert Lex(s) == [Punct('/')] + Lex(s[1..]);
  }

  /** The text of a single row. */
  lemma OneRow(row: seq<Byte>)
    requires 0 < |row| <= ROW
    ensures CarryText(None, row) == OPENING + (RowText(row) + CLOSING)
  {
    RowsStep(row);
    assert row[..|row|] == row && row[|row|..] == [];
    assert RowsText(row) == RowText(row) + "";
    assert CarryText(None, row) == "" + OPENING + RowsText(row) + CLOSING;
    assert "" + OPENING == OPENING && RowText(row) + "" == RowText(row);
    Assoc(OPENING, RowText(row), CLOSING);
  }

  /** A single row that shows a closing mark first. */
  lemma EarlyClose(row: seq<Byte>, left: string) returns (body: string, more: string)
    requires 2 <= |row| <= ROW && row[0] == 0x2a && row[1] == 0x2f && Chars(row) == "*/" + left
    ensures body == "" && more == left + ("*/" + ("\n" + CLOSING))
    ensures Lex(CarryText(None, row)) == OPENING_TOKENS + (ConstantTokens(row) + [Comment(body)] + Lex(more))
  {
    var end := "*/" + ("\n" + CLOSING);
    body, more := "", left + end;
    OneRow(row);
    LexOpening(RowText(row) + CLOSING);
    LexRowFront(row, CLOSING);
    Assoc("*/", left, end);
    LexEmptyComment(more);
    Assoc(ConstantTokens(row), [Comment(body)], Lex(more));
  }

  lemma LexEmptyComment(more: string)
    ensures Lex("/*" + ("*/" + more)) == [Comment("")] + Lex(more)
  {
    Assoc("/*", "*/", more);
    assert "/*" + "" + "*/" == "/*" + "*/";
    LexComment("", more);
  }

  lemma CloseValues(row: seq<Byte>, body: string, more: string, gained: seq<int>)
    requires Values(Lex(more)) == gained
    requires Lex(CarryText(None, row)) == OPENING_TOKENS + (ConstantTokens(row) + [Comment(body)] + Lex(more))
    ensures Values(Lex(CarryText(None, row))) == row + gained
  {
    NoNumbers(OPENING_TOKENS);
    ConstantValues(row);
    CommentValues(ConstantTokens(row), Comment(body));
    ValuesConcat(OPENING_TOKENS, ConstantTokens(row) + [Comment(body)] + Lex(more));
    ValuesConcat(ConstantTokens(row) + [Comment(body)], Lex(more));
  }
}
