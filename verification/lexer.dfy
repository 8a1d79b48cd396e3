/** The character scan that turns source text into tokens (Parser.lex). */
module Lexer {
  import opened Errors
  import opened Tokens

  /** The host's whitespace test: the ASCII controls tab to carriage return and
      the four information separators, plus the Unicode space, line and
      paragraph separators other than the three non-breaking spaces. */
  predicate IsWhitespace(c: char) {
    || c == ' ' || c == '\t' || c == '\n' || c == '\U{B}' || c == '\U{C}' || c == '\r'
    || c == '\U{1C}' || c == '\U{1D}' || c == '\U{1E}' || c == '\U{1F}'
    || c == '\U{1680}' || ('\U{2000}' <= c <= '\U{200A}' && c != '\U{2007}')
    || c == '\U{2028}' || c == '\U{2029}' || c == '\U{205F}' || c == '\U{3000}'
  }

  /** A character that may occur inside a literal token. */
  predicate IsLiteralChar(c: char) {
    SpecialToken(c).None? && !IsWhitespace(c)
  }

  /** The pending literal, as a token list: empty when nothing is pending. */
  function Flush(pending: string): seq<Token> {
    if pending == [] then [] else [LiteralToken(pending)]
  }

  /** Reference definition of the scan: `pending` holds the literal read so
      far. A special character or whitespace ends the pending literal before
      the special token is emitted; the end of the text ends it too. */
  function Scan(s: string, pending: string): seq<Token>
    decreases |s|
  {
    if s == [] then Flush(pending)
    else match SpecialToken(s[0])
      case Some(t) => Flush(pending) + [t] + Scan(s[1..], [])
      case None =>
        if IsWhitespace(s[0]) then Flush(pending) + Scan(s[1..], [])
        else Scan(s[1..], pending + [s[0]])
  }

  function Tokenize(s: string): seq<Token> {
    Scan(s, [])
  }

  /** The index loop of the lexer, with its literal buffer and one-token lookahead. */
  method Lex(s: string) returns (tokens: seq<Token>)
    ensures tokens == Tokenize(s)
  {
    tokens := [];
    var next: Option<Token> := None;
    var pending: string := [];
    var i := 0;
    while i < |s|
      invariant 0 <= i <= |s|
      invariant next == None
      invariant i == |s| ==> pending == []
      invariant tokens + Scan(s[i..], pending) == Tokenize(s)
    {
      var ch := s[i];
      var separator := true;
      ghost var before, was := tokens, pending;
      assert s[i..][1..] == s[i + 1..];
      if SpecialToken(ch).Some? {
        next := SpecialToken(ch);
      } else if !IsWhitespace(ch) {
        separator := false;
        pending := pending + [ch];
      }
      if separator || i == |s| - 1 {
        if |pending| > 0 {
          tokens := tokens + [LiteralToken(pending)];
          pending := [];
        }
        if next.Some? {
          tokens := tokens + [next.value];
          next := None;
        }
      }
      ScanStep(s, i, was, before, tokens, pending);
      i := i + 1;
    }
    assert s[i..] == [];
  }

  /** One iteration of the lexer loop, as the reference scan sees it. */
  lemma ScanStep(s: string, i: nat, was: string, before: seq<Token>, after: seq<Token>, pending: string)
    requires i < |s|
    requires SpecialToken(s[i]).Some? ==>
      after == before + Flush(was) + [SpecialToken(s[i]).value] && pending == []
    requires SpecialToken(s[i]).None? && IsWhitespace(s[i]) ==>
      after == before + Flush(was) && pending == []
    requires IsLiteralChar(s[i]) && i == |s| - 1 ==>
      after == before + Flush(was + [s[i]]) && pending == []
    requires IsLiteralChar(s[i]) && i < |s| - 1 ==>
      after == before && pending == was + [s[i]]
    ensures before + Scan(s[i..], was) == after + Scan(s[i + 1..], pending)
  {
    assert s[i..][1..] == s[i + 1..];
    if IsLiteralChar(s[i]) && i == |s| - 1 {
      assert s[i + 1..] == [];
    }
  }

  /** Writes the tokens back as text: punctuation as its character, literals as their text. */
  function Render(ts: seq<Token>): string {
    if ts == [] then []
    else
      (match ts[0].kind
       case ParensOpen => [OpenChar]
       case ParensClose => [CloseChar]
       case QuoteMark => [QuoteChar]
       case Literal => if ts[0].literal.Some? then ts[0].literal.value else [])
      + Render(ts[1..])
  }

  /** The source text with its whitespace removed. */
  function Visible(s: string): string {
    if s == [] then [] else (if IsWhitespace(s[0]) then [] else [s[0]]) + Visible(s[1..])
  }

  lemma {:induction false} RenderAppend(a: seq<Token>, b: seq<Token>)
    ensures Render(a + b) == Render(a) + Render(b)
  {
    if a == [] {
      assert a + b == b;
    } else {
      assert (a + b)[1..] == a[1..] + b;
      RenderAppend(a[1..], b);
    }
  }

  lemma RenderFlush(pending: string)
    ensures Render(Flush(pending)) == pending
  {
    if pending != [] {
      assert Render([LiteralToken(pending)]) == pending + Render([]);
    }
  }

  lemma RenderSpecial(c: char)
    requires SpecialToken(c).Some?
    ensures Render([SpecialToken(c).value]) == [c] && !IsWhitespace(c)
  {
    assert Render([SpecialToken(c).value]) == Render([SpecialToken(c).value][..1]) + Render([]);
  }

  lemma VisibleStep(s: string)
    requires s != [] && !IsWhitespace(s[0])
    ensures Visible(s) == [s[0]] + Visible(s[1..])
  {
  }

  lemma ScanLiteralStep(s: string, pending: string)
    requires s != [] && SpecialToken(s[0]).None? && !IsWhitespace(s[0])
    ensures Scan(s, pending) == Scan(s[1..], pending + [s[0]])
  {
  }

  lemma RenderSpecialStep(s: string, pending: string)
    requires s != [] && SpecialToken(s[0]).Some?
    requires Render(Scan(s[1..], [])) == Visible(s[1..])
    ensures Render(Scan(s, pending)) == pending + Visible(s)
  {
    var t := SpecialToken(s[0]).value;
    var rest := Scan(s[1..], []);
    assert Scan(s, pending) == (Flush(pending) + [t]) + rest;
    RenderSpecial(s[0]);
    assert Visible(s) == [s[0]] + Visible(s[1..]);
    RenderAppend(Flush(pending) + [t], rest);
    RenderAppend(Flush(pending), [t]);
    RenderFlush(pending);
  }

  lemma RenderWhitespaceStep(s: string, pending: string)
    requires s != [] && SpecialToken(s[0]).None? && IsWhitespace(s[0])
    requires Render(Scan(s[1..], [])) == Visible(s[1..])
    ensures Render(Scan(s, pending)) == pending + Visible(s)
  {
    var rest := Scan(s[1..], []);
    assert Scan(s, pending) == Flush(pending) + rest;
    assert Visible(s) == [] + Visible(s[1..]);
    RenderAppend(Flush(pending), rest);
    RenderFlush(pending);
  }

  lemma {:induction false} ScanRendersSource(s: string, pending: string)
    ensures Render(Scan(s, pending)) == pending + Visible(s)
    decreases |s|
  {
    if s == [] {
      RenderFlush(pending);
      assert pending + [] == pending;
    } else if SpecialToken(s[0]).Some? {
      ScanRendersSource(s[1..], []);
      RenderSpecialStep(s, pending);
    } else if IsWhitespace(s[0]) {
      ScanRendersSource(s[1..], []);
      RenderWhitespaceStep(s, pending);
    } else {
      ScanRendersSource(s[1..], pending + [s[0]]);
      ScanLiteralStep(s, pending);
      VisibleStep(s);
      assert (pending + [s[0]]) + Visible(s[1..]) == pending + ([s[0]] + Visible(s[1..]));
    }
  }

  /** Token order follows source order and whitespace is never emitted:
      writing the tokens back gives the source text without its whitespace. */
  lemma LexPreservesText(s: string)
    ensures Render(Tokenize(s)) == Visible(s)
  {
    ScanRendersSource(s, []);
  }

  /** A literal token is a non-empty run of literal characters; the other
      tokens carry no text. */
  predicate WellFormed(t: Token) {
    if t.kind == Literal then
      t.literal.Some? && |t.literal.value| > 0
      && forall k :: 0 <= k < |t.literal.value| ==> IsLiteralChar(t.literal.value[k])
    else t.literal == None
  }

  lemma {:induction false} ScanWellFormed(s: string, pending: string)
    requires forall k :: 0 <= k < |pending| ==> IsLiteralChar(pending[k])
    ensures forall i :: 0 <= i < |Scan(s, pending)| ==> WellFormed(Scan(s, pending)[i])
    decreases |s|
  {
    if s != [] {
      match SpecialToken(s[0])
      case Some(t) =>
        ScanWellFormed(s[1..], []);
      case None =>
        if IsWhitespace(s[0]) {
          ScanWellFormed(s[1..], []);
        } else {
          ScanWellFormed(s[1..], pending + [s[0]]);
        }
    }
  }

  /** Every literal is a non-empty run of non-whitespace, non-special characters. */
  lemma LexWellFormed(s: string)
    ensures forall i :: 0 <= i < |Tokenize(s)| ==> WellFormed(Tokenize(s)[i])
  {
    ScanWellFormed(s, []);
  }

  /** The tokens a character that ends literals contributes by itself. */
  function SeparatorTokens(c: char): (r: seq<Token>)
    ensures |r| <= 1
    ensures r == [] <==> SpecialToken(c).None?
  {
    if SpecialToken(c).Some? then [SpecialToken(c).value] else []
  }

  /** One step of the scan: a literal character joins the pending literal,
      any other character flushes it and contributes its own token, if any. */
  lemma ScanCons(c: char, t: string, pending: string)
    ensures Scan([c] + t, pending) ==
      if IsLiteralChar(c) then Scan(t, pending + [c])
      else Flush(pending) + SeparatorTokens(c) + Scan(t, [])
  {
    assert ([c] + t)[0] == c;
    assert ([c] + t)[1..] == t;
  }

  lemma SeqAssoc<T>(x: seq<T>, y: seq<T>, z: seq<T>)
    ensures x + (y + z) == x + y + z
  {
  }

  /** The scan can be cut after any character that ends a literal: what
      comes before and what comes after are scanned independently. */
  lemma {:induction false} ScanSplit(a: string, b: string, pending: string)
    requires a == [] ==> pending == []
    requires a != [] ==> !IsLiteralChar(a[|a| - 1])
    ensures Scan(a + b, pending) == Scan(a, pending) + Scan(b, [])
    decreases |a|
  {
    if a == [] {
      assert a + b == b;
    } else {
      var c, tail := a[0], a[1..];
      assert a == [c] + tail;
      assert a + b == [c] + (tail + b);
      ScanCons(c, tail + b, pending);
      ScanCons(c, tail, pending);
      if IsLiteralChar(c) {
        ScanSplit(tail, b, pending + [c]);
      } else {
        ScanSplit(tail, b, []);
        var emitted := Flush(pending) + SeparatorTokens(c);
        calc {
          Scan(a + b, pending);
          emitted + Scan(tail + b, []);
          emitted + (Scan(tail, []) + Scan(b, []));
          { SeqAssoc(emitted, Scan(tail, []), Scan(b, [])); }
          emitted + Scan(tail, []) + Scan(b, []);
          Scan(a, pending) + Scan(b, []);
        }
      }
    }
  }

  /** A run of literal characters, followed by the end of the text or a
      character that cannot continue it, is scanned as one literal token. */
  lemma {:induction false} ScanRun(run: string, rest: string, pending: string)
    requires forall k :: 0 <= k < |run| ==> IsLiteralChar(run[k])
    requires |pending + run| > 0
    requires rest == [] || !IsLiteralChar(rest[0])
    ensures Scan(run + rest, pending) == [LiteralToken(pending + run)] + Scan(rest, [])
    decreases |run|
  {
    if run == [] {
      assert run + rest == rest;
      assert pending + run == pending;
    } else {
      assert (run + rest)[1..] == run[1..] + rest;
      assert pending + run == (pending + [run[0]]) + run[1..];
      ScanRun(run[1..], rest, pending + [run[0]]);
    }
  }

  /** Two literals are never adjacent unless whitespace or punctuation
      separated them in the source: wherever it occurs, a maximal run of
      literal characters becomes exactly one literal token holding it, between
      the tokens of the text before it and those of the text after it. */
  lemma LiteralRunIsOneToken(before: string, run: string, rest: string)
    requires before == [] || !IsLiteralChar(before[|before| - 1])
    requires |run| > 0
    requires forall k :: 0 <= k < |run| ==> IsLiteralChar(run[k])
    requires rest == [] || !IsLiteralChar(rest[0])
    ensures Tokenize(before + run + rest) == Tokenize(before) + [LiteralToken(run)] + Tokenize(rest)
  {
    ScanSplit(before, run + rest, []);
    ScanRun(run, rest, []);
    assert [] + run == run;
    assert before + run + rest == before + (run + rest);
  }

  /** At position `i`, a character that ends literals contributes its own
      token, if any, before the tokens of the rest. */
  lemma SeparatorAt(s: string, i: nat)
    requires i < |s| && !IsLiteralChar(s[i])
    ensures Tokenize(s[i..]) == SeparatorTokens(s[i]) + Tokenize(s[i + 1..])
  {
    ScanCons(s[i], s[i + 1..], []);
    assert [s[i]] + s[i + 1..] == s[i..];
  }

  /** A printable ASCII character other than the three special ones. */
  predicate AsciiWordChar(c: char) {
    '!' <= c <= '~' && c != OpenChar && c != CloseChar && c != QuoteChar
  }

  lemma AsciiWordChars(w: string)
    requires forall k :: 0 <= k < |w| ==> AsciiWordChar(w[k])
    ensures forall k :: 0 <= k < |w| ==> IsLiteralChar(w[k])
  {
  }

  /** At position `i`, a run of printable characters up to `j` is one token. */
  lemma WordAt(s: string, i: nat, j: nat, w: string)
    requires i < j <= |s| && s[i..j] == w
    requires forall k :: 0 <= k < |w| ==> AsciiWordChar(w[k])
    requires j == |s| || !IsLiteralChar(s[j])
    ensures Tokenize(s[i..]) == [LiteralToken(w)] + Tokenize(s[j..])
  {
    AsciiWordChars(w);
    LiteralRunIsOneToken([], w, s[j..]);
    assert [] + w + s[j..] == s[i..];
  }

  /** `( + 12  abc (+ 3))` gives nine tokens: the literals `+`, `12`, `abc`,
      `+` and `3` among the parentheses. */
  lemma LexNineTokens(s: string)
    requires s == "( + 12  abc (+ 3))"
    ensures Tokenize(s) == [Open, LiteralToken("+"), LiteralToken("12"), LiteralToken("abc"),
                            Open, LiteralToken("+"), LiteralToken("3"), Close, Close]
    ensures |Tokenize(s)| == 9
  {
    var head, rest := s[..8], s[8..];
    assert s == head + rest;
    LexHead(head);
    LexRest(rest);
    TokenizeAppend(head, rest);
  }

  lemma LexHead(head: string)
    requires head == "( + 12  "
    ensures Tokenize(head) == [Open, LiteralToken("+"), LiteralToken("12")]
  {
    var open, twelve := head[..4], head[4..];
    assert head == open + twelve;
    LexOpenPlus(open);
    LexTwelve(twelve);
    TokenizeAppend(open, twelve);
  }

  lemma LexRest(rest: string)
    requires rest == "abc (+ 3))"
    ensures Tokenize(rest) == [LiteralToken("abc"), Open, LiteralToken("+"), LiteralToken("3"), Close, Close]
  {
    var middle, tail := rest[..5], rest[5..];
    assert rest == middle + tail;
    LexMiddle(middle);
    LexTail(tail);
    TokenizeAppend(middle, tail);
  }

  lemma LexOpenPlus(open: string)
    requires open == "( + "
    ensures Tokenize(open) == [Open, LiteralToken("+")]
  {
    assert open[0..] == open && open[4..] == [];
    SeparatorAt(open, 0);
    SeparatorAt(open, 1);
    WordAt(open, 2, 3, "+");
    SeparatorAt(open, 3);
  }

  lemma LexTwelve(twelve: string)
    requires twelve == "12  "
    ensures Tokenize(twelve) == [LiteralToken("12")]
  {
    assert twelve[0..] == twelve && twelve[4..] == [];
    WordAt(twelve, 0, 2, "12");
    SeparatorAt(twelve, 2);
    SeparatorAt(twelve, 3);
  }

  lemma LexMiddle(middle: string)
    requires middle == "abc ("
    ensures Tokenize(middle) == [LiteralToken("abc"), Open]
  {
    assert middle[0..] == middle && middle[5..] == [];
    WordAt(middle, 0, 3, "abc");
    SeparatorAt(middle, 3);
    SeparatorAt(middle, 4);
  }

  lemma LexTail(tail: string)
    requires tail == "+ 3))"
    ensures Tokenize(tail) == [LiteralToken("+"), LiteralToken("3"), Close, Close]
  {
    assert tail[0..] == tail && tail[5..] == [];
    WordAt(tail, 0, 1, "+");
    SeparatorAt(tail, 1);
    WordAt(tail, 2, 3, "3");
    SeparatorAt(tail, 3);
    SeparatorAt(tail, 4);
  }

  /** Text cut after a character that ends literals is tokenized piecewise. */
  lemma TokenizeAppend(a: string, b: string)
    requires a == [] || !IsLiteralChar(a[|a| - 1])
    ensures Tokenize(a + b) == Tokenize(a) + Tokenize(b)
  {
    ScanSplit(a, b, []);
  }

  /** ` 123.456  ` is one literal token, its surrounding spaces dropped. */
  lemma LexOneLiteral(s: string)
    requires s == " 123.456  "
    ensures Tokenize(s) == [LiteralToken("123.456")]
  {
    assert s[0..] == s;
    SeparatorAt(s, 0);
    LexPaddedNumber(s[1..]);
  }

  lemma LexPaddedNumber(number: string)
    requires number == "123.456  "
    ensures Tokenize(number) == [LiteralToken("123.456")]
  {
    assert number[0..] == number && number[9..] == [];
    WordAt(number, 0, 7, "123.456");
    SeparatorAt(number, 7);
    SeparatorAt(number, 8);
  }

  /** `(+ 1 foo` gives four tokens: the literal `foo` that the text ends in
      is kept although no separator follows it. */
  lemma LexTrailingLiteral(s: string)
    requires s == "(+ 1 foo"
    ensures Tokenize(s) == [Open, LiteralToken("+"), LiteralToken("1"), LiteralToken("foo")]
    ensures |Tokenize(s)| == 4
  {
    var front, word := s[..5], s[5..];
    assert s == front + word;
    assert word == "foo";
    LexOpenPlusOne(front);
    WordIsOneToken(word);
    TokenizeAppend(front, word);
  }

  lemma LexOpenPlusOne(front: string)
    requires front == "(+ 1 "
    ensures Tokenize(front) == [Open, LiteralToken("+"), LiteralToken("1")]
  {
    assert front[0..] == front && front[5..] == [];
    SeparatorAt(front, 0);
    WordAt(front, 1, 2, "+");
    SeparatorAt(front, 2);
    WordAt(front, 3, 4, "1");
    SeparatorAt(front, 4);
  }

  /** A text of printable characters alone is one literal token. */
  lemma WordIsOneToken(w: string)
    requires |w| > 0
    requires forall k :: 0 <= k < |w| ==> AsciiWordChar(w[k])
    ensures Tokenize(w) == [LiteralToken(w)]
  {
    AsciiWordChars(w);
    LiteralRunIsOneToken([], w, []);
    assert [] + w + [] == w;
  }
}
