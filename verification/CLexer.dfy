/** A small lexer for C text that keeps comments as tokens. Text is taken after line splicing; quotes are
    ordinary punctuation. */
module CLexer {
  import opened Bytes
  import opened Text

  datatype Token = Ident(name: string) | Number(digits: string) | Punct(c: char)
    | Comment(body: string) | LineComment(body: string) | Unterminated

  predicate IsSpace(c: char) { c == ' ' || c == '\n' || c == '\t' || c == '\r' }

  predicate IsDecimal(c: char) { '0' <= c <= '9' }

  predicate IsWord(c: char) {
    IsDecimal(c) || 'a' <= c <= 'z' || 'A' <= c <= 'Z' || c == '_'
  }

  /** Length of the run of word characters a text starts with. */
  function WordLen(s: string): (n: nat)
    ensures n <= |s|
  {
    if s == "" || !IsWord(s[0]) then 0 else 1 + WordLen(s[1..])
  }

  /** Distance to the end of the line. */
  function LineLen(s: string): (n: nat)
    ensures n <= |s|
  {
    if s == "" || s[0] == '\n' then 0 else 1 + LineLen(s[1..])
  }

  /** Distance to the mark that closes a comment. */
  function CommentLen(s: string): (r: Option<nat>)
    ensures r.Some? ==> r.value + 2 <= |s|
  {
    if |s| < 2 then None
    else if s[0] == '*' && s[1] == '/' then Some(0)
    else match CommentLen(s[1..]) case None => None case Some(n) => Some(n + 1)
  }

  function Lex(s: string): seq<Token>
    decreases |s|
  {
    if s == "" then []
    else if IsSpace(s[0]) then Lex(s[1..])
    else if |s| >= 2 && s[0] == '/' && s[1] == '/' then
      var n := LineLen(s[2..]);
      [LineComment(s[2..2 + n])] + Lex(s[2 + n..])
    else if |s| >= 2 && s[0] == '/' && s[1] == '*' then
      match CommentLen(s[2..])
      case None => [Unterminated]
      case Some(n) => [Comment(s[2..2 + n])] + Lex(s[4 + n..])
    else if IsWord(s[0]) then
      var n := WordLen(s);
      [if IsDecimal(s[0]) then Number(s[..n]) else Ident(s[..n])] + Lex(s[n..])
    else [Punct(s[0])] + Lex(s[1..])
  }

  /** The value of a hexadecimal or decimal constant. */
  function DecimalValue(s: string): nat
    requires forall i :: 0 <= i < |s| ==> IsDecimal(s[i])
  {
    if s == "" then 0
    else
      assert IsDecimal(s[|s| - 1]);
      10 * DecimalValue(s[..|s| - 1]) + (s[|s| - 1] as nat - '0' as nat)
  }

  function NumberValue(s: string): Option<nat> {
    if |s| > 2 && s[..2] == "0x" && AllDigits(s[2..]) then Some(HexValue(s[2..]))
    else if forall i :: 0 <= i < |s| ==> IsDecimal(s[i]) then Some(DecimalValue(s))
    else None
  }

  /** The integer constants of a token sequence: what a C compiler would find outside comments. */
  function Values(ts: seq<Token>): seq<int> {
    if ts == [] then []
    else
      (if ts[0].Number? && NumberValue(ts[0].digits).Some? then [NumberValue(ts[0].digits).value] else [])
      + Values(ts[1..])
  }

  lemma {:induction false} ValuesConcat(a: seq<Token>, b: seq<Token>)
    ensures Values(a + b) == Values(a) + Values(b)
    decreases |a|
  {
    if a == [] {
      assert a + b == b;
    } else {
      assert (a + b)[1..] == a[1..] + b;
      ValuesConcat(a[1..], b);
    }
  }

  lemma {:induction false} LexSpaces(w: string, rest: string)
    requires forall i :: 0 <= i < |w| ==> IsSpace(w[i])
    ensures Lex(w + rest) == Lex(rest)
    decreases |w|
  {
    if w == "" {
      assert w + rest == rest;
    } else {
      assert (w + rest)[1..] == w[1..] + rest;
      LexSpaces(w[1..], rest);
    }
  }

  predicate WordEnds(rest: string) { rest == "" || !IsWord(rest[0]) }

  lemma {:induction false} WordLenOf(w: string, rest: string)
    requires (forall i :: 0 <= i < |w| ==> IsWord(w[i])) && WordEnds(rest)
    ensures WordLen(w + rest) == |w|
    decreases |w|
  {
    if w == "" {
      assert w + rest == rest;
    } else {
      assert (w + rest)[1..] == w[1..] + rest;
      WordLenOf(w[1..], rest);
    }
  }

  lemma LexWord(w: string, rest: string)
    requires w != "" && (forall i :: 0 <= i < |w| ==> IsWord(w[i])) && WordEnds(rest)
    ensures Lex(w + rest) == [if IsDecimal(w[0]) then Number(w) else Ident(w)] + Lex(rest)
  {
    WordLenOf(w, rest);
    var s := w + rest;
    assert s[0] == w[0] && IsWord(s[0]);
    assert s[..|w|] == w && s[|w|..] == rest;
  }

  lemma LexPunct(c: char, rest: string)
    requires !IsSpace(c) && !IsWord(c) && c != '/'
    ensures Lex([c] + rest) == [Punct(c)] + Lex(rest)
  {
    assert ([c] + rest)[1..] == rest;
  }

  lemma {:induction false} LineLenOf(body: string, rest: string)
    requires '\n' !in body
    ensures LineLen(body + "\n" + rest) == |body|
    decreases |body|
  {
    var s := body + "\n" + rest;
    if body == "" {
    } else {
      assert s[1..] == body[1..] + "\n" + rest;
      LineLenOf(body[1..], rest);
    }
  }

  lemma LexLineComment(body: string, rest: string)
    requires '\n' !in body
    ensures Lex("//" + body + "\n" + rest) == [LineComment(body)] + Lex(rest)
  {
    LineLenOf(body, rest);
    var s := "//" + body + "\n" + rest;
    assert s[2..] == body + "\n" + rest;
    assert s[2..2 + |body|] == body && s[2 + |body|..] == "\n" + rest;
    LexSpaces("\n", rest);
  }

  /** No "*" directly before "/" among the first `n` characters. */
  predicate NoClose(s: string, n: nat) {
    forall i :: 0 <= i < n && i + 1 < |s| ==> !(s[i] == '*' && s[i + 1] == '/')
  }

  lemma {:induction false} CommentLenOf(body: string, rest: string)
    requires NoClose(body, |body|)
    ensures CommentLen(body + "*/" + rest) == Some(|body|)
    decreases |body|
  {
    var s := body + "*/" + rest;
    if body == "" {
    } else {
      assert s[1..] == body[1..] + "*/" + rest;
      assert forall i :: 0 <= i < |body[1..]| ==> body[1..][i] == body[i + 1];
      CommentLenOf(body[1..], rest);
    }
  }

  lemma LexComment(body: string, rest: string)
    requires NoClose(body, |body|)
    ensures Lex("/*" + body + "*/" + rest) == [Comment(body)] + Lex(rest)
  {
    CommentLenOf(body, rest);
    var s := "/*" + body + "*/" + rest;
    assert s[2..] == body + "*/" + rest;
    assert s[2..2 + |body|] == body && s[4 + |body|..] == rest;
  }

  /** The first closing mark inside a text. */
  lemma {:induction false} FirstClose(s: string) returns (p: nat)
    requires !NoClose(s, |s|)
    ensures p + 1 < |s| && s[p] == '*' && s[p + 1] == '/' && NoClose(s[..p], p)
    ensures s == s[..p] + "*/" + s[p + 2..]
    decreases |s|
  {
    if s[0] == '*' && s[1] == '/' {
      p := 0;
    } else {
      assert !NoClose(s[1..], |s| - 1) by {
        var i :| 0 <= i < |s| && i + 1 < |s| && s[i] == '*' && s[i + 1] == '/';
        assert s[1..][i - 1] == '*' && s[1..][i] == '/';
      }
      var q := FirstClose(s[1..]);
      p := q + 1;
      forall i | 0 <= i < p && i + 1 < |s[..p]| ensures !(s[..p][i] == '*' && s[..p][i + 1] == '/') {
        if i > 0 { assert s[1..][..q][i - 1] == s[i] && s[1..][..q][i] == s[i + 1]; }
      }
    }
  }
}
