/** The recursive builder that turns one group of tokens into a value: literals,
    lists, and the rewriting of `'e` into `(quote e)` (Parser.parseSingleExpr,
    parseQuoteAt, extractSubExpression, parseLiteral and parse). */
module Parser {
  import opened Errors
  import opened Tokens
  import opened Lexer
  import opened Grouping
  import opened Decimals
  import opened Values

  /** A parsed value and the next unused cons identity. */
  datatype Parsed = Parsed(value: Value, next: nat)

  /** The literal that the quote rewrite inserts after the new `(`. */
  const QuoteLiteral: Token := LiteralToken("quote")

  /** A literal becomes a number when it starts with a digit or `-` and reads
      as a decimal numeral, and a symbol with its text as name otherwise. A
      token without text fails as a null dereference, an empty text as an
      index out of bounds (both come from the first-character test). */
  function ParseLiteral(t: Token): (r: Result<Value>)
    ensures r.Ok? <==> t.literal.Some? && |t.literal.value| > 0
    ensures t.literal.None? ==> r == Err(NullValue)
    ensures t.literal == Some("") ==> r == Err(IndexOutOfBounds)
    ensures r.Ok? ==> r.value == Symbol(t.literal.value) || r.value.Number?
    ensures r.Ok? ==> (r.value.Number? <==>
      (IsDigit(t.literal.value[0]) || t.literal.value[0] == '-') && ParseDecimal(t.literal.value).Some?)
    ensures r.Ok? && r.value.Number? ==> ParseDecimal(t.literal.value) == Some(r.value.num)
  {
    match t.literal
    case None => Err(NullValue)
    case Some(text) =>
      if text == "" then Err(IndexOutOfBounds)
      else if (IsDigit(text[0]) || text[0] == '-') && ParseDecimal(text).Some? then
        Ok(Number(ParseDecimal(text).value))
      else Ok(Symbol(text))
  }

  /** The printed form of every number reads back as that number. */
  lemma NumberLiteralRoundTrip(d: Decimal)
    ensures ParseLiteral(LiteralToken(ShowDecimal(d))) == Ok(Number(d))
  {
    MagnitudeRoundTrip(d);
    ShowParseRoundTrip(d);
  }

  /** `-` alone starts like a number but is not one, so it is a symbol. */
  lemma MinusAloneIsSymbol()
    ensures ParseLiteral(LiteralToken("-")) == Ok(Symbol("-"))
  {
    assert "-"[1..] == "";
    assert ParseUnsigned("") == None;
  }

  /** The scan of parseQuoteAt for the end of the quoted expression, from
      index `j` with balance `bal`: the end is just after the first token
      that leaves the balance at zero and is not itself a quote. Running off
      the end of the list is an index error. */
  function QuoteEnd(ts: seq<Token>, j: nat, bal: int): (r: Result<nat>)
    decreases |ts| - j
    ensures r.Ok? ==> j < r.value <= |ts|
    ensures r.Err? ==> r.error == IndexOutOfBounds
  {
    if j >= |ts| then Err(IndexOutOfBounds)
    else
      var b := bal + Delta(ts[j]);
      if b != 0 || ts[j].kind == QuoteMark then QuoteEnd(ts, j + 1, b) else Ok(j + 1)
  }

  /** The quote mark at `idx` replaced by `(` and `quote`, with a `)` inserted
      after the quoted expression. */
  function QuoteRewrite(ts: seq<Token>, idx: nat): (r: Result<seq<Token>>)
    requires idx < |ts| && ts[idx].kind == QuoteMark
    ensures r.Ok? ==> (|r.value| == |ts| + 2 && r.value[..idx] == ts[..idx]
      && r.value[idx] == Open && r.value[idx + 1] == QuoteLiteral)
    ensures r.Ok? ==> Quotes(r.value) + 1 == Quotes(ts)
    ensures r.Err? ==> r.error == IndexOutOfBounds
  {
    var edited := ts[..idx] + [Open, QuoteLiteral] + ts[idx + 1..];
    match QuoteEnd(edited, idx + 2, 0)
    case Err(e) => Err(e)
    case Ok(e) =>
      RewriteQuotes(ts, idx, e);
      Ok(edited[..e] + [Close] + edited[e..])
  }

  lemma RewriteQuotes(ts: seq<Token>, idx: nat, e: nat)
    requires idx < |ts| && ts[idx].kind == QuoteMark && e <= |ts| + 1
    ensures var edited := ts[..idx] + [Open, QuoteLiteral] + ts[idx + 1..];
      Quotes(edited[..e] + [Close] + edited[e..]) + 1 == Quotes(ts)
  {
    ReplaceQuote(ts, idx);
    InsertClose(ts[..idx] + [Open, QuoteLiteral] + ts[idx + 1..], e);
  }

  lemma ReplaceQuote(ts: seq<Token>, idx: nat)
    requires idx < |ts| && ts[idx].kind == QuoteMark
    ensures Quotes(ts[..idx] + [Open, QuoteLiteral] + ts[idx + 1..]) + 1 == Quotes(ts)
  {
    var pre, post := ts[..idx], ts[idx + 1..];
    assert ts == pre + [ts[idx]] + post;
    QuotesAppend(pre + [ts[idx]], post);
    QuotesAppend(pre, [ts[idx]]);
    QuotesAppend(pre + [Open, QuoteLiteral], post);
    QuotesAppend(pre, [Open, QuoteLiteral]);
    assert Quotes([ts[idx]]) == 1 by {
      assert [ts[idx]][1..] == [];
    }
    assert Quotes([Open, QuoteLiteral]) == 0 by {
      assert [Open, QuoteLiteral][1..] == [QuoteLiteral];
      assert [QuoteLiteral][1..] == [];
    }
  }

  lemma InsertClose(s: seq<Token>, e: nat)
    requires e <= |s|
    ensures Quotes(s[..e] + [Close] + s[e..]) == Quotes(s)
  {
    assert s == s[..e] + s[e..];
    QuotesAppend(s[..e], s[e..]);
    assert s[..e] + [Close] + s[e..] == s[..e] + ([Close] + s[e..]);
    QuotesAppend(s[..e], [Close] + s[e..]);
    assert ([Close] + s[e..])[1..] == s[e..];
  }

  /** The tokens of parseQuoteAt's list edit: the quote at `idx` is set to
      `(`, `quote` is inserted after it, and a do-while scan finds where the
      `)` goes. */
  method RewriteQuoteAt(ts: seq<Token>, idx: nat) returns (r: Result<seq<Token>>)
    requires idx < |ts| && ts[idx].kind == QuoteMark
    ensures r == QuoteRewrite(ts, idx)
  {
    var tokens := ts[idx := Open];
    var i := idx + 1;
    tokens := tokens[..i] + [QuoteLiteral] + tokens[i..];
    assert tokens == ts[..idx] + [Open, QuoteLiteral] + ts[idx + 1..];
    var bal := 0;
    i := i + 1;
    while true
      invariant idx + 2 <= i <= |tokens|
      invariant QuoteEnd(tokens, i, bal) == QuoteEnd(tokens, idx + 2, 0)
      decreases |tokens| - i
    {
      if i >= |tokens| {
        return Err(IndexOutOfBounds);
      }
      var kind := tokens[i].kind;
      i := i + 1;
      if kind == ParensOpen {
        bal := bal + 1;
      } else if kind == ParensClose {
        bal := bal - 1;
      }
      if bal == 0 && kind != QuoteMark {
        break;
      }
    }
    r := Ok(tokens[..i] + [Close] + tokens[i..]);
  }

  /** End of a parenthesised sub-expression whose `(` is counted in `bal`:
      the index just after the token that closes it, or the end of the list. */
  function SubEnd(ts: seq<Token>, j: nat, bal: int): (r: nat)
    requires j <= |ts|
    decreases |ts| - j
    ensures j <= r <= |ts|
  {
    if j < |ts| && bal > 0 then SubEnd(ts, j + 1, bal + Delta(ts[j])) else j
  }

  lemma SplitQuotes(ts: seq<Token>, e: nat)
    requires 1 <= e <= |ts|
    ensures Quotes(ts[1..e]) + Quotes([ts[0]] + ts[e..]) == Quotes(ts)
  {
    assert ts == [ts[0]] + ts[1..e] + ts[e..];
    QuotesAppend([ts[0]] + ts[1..e], ts[e..]);
    QuotesAppend([ts[0]], ts[1..e]);
    QuotesAppend([ts[0]], ts[e..]);
  }

  /** extractSubExpression: the first element of the list `ts` (a literal or
      a parenthesised expression) and the list with that element removed. */
  function SplitSub(ts: seq<Token>): (r: Result<(seq<Token>, seq<Token>)>)
    ensures r.Ok? <==> (|ts| >= 2 && ts[0].kind == ParensOpen
      && (ts[1].kind == Literal || ts[1].kind == ParensOpen))
    ensures r.Err? ==> r.error == ParseError
    ensures r.Ok? ==> |r.value.0| >= 1 && |r.value.1| >= 1
    ensures r.Ok? ==> (r.value.0[0] == ts[1] && r.value.1[0] == ts[0]
      && [ts[0]] + r.value.0 + r.value.1[1..] == ts)
    ensures r.Ok? ==> Quotes(r.value.0) + Quotes(r.value.1) == Quotes(ts)
  {
    if |ts| == 0 || ts[0].kind != ParensOpen || |ts| < 2 then Err(ParseError)
    else if ts[1].kind == Literal then
      SplitQuotes(ts, 2);
      assert ts[1..2] == [ts[1]];
      assert [ts[0]] + [ts[1]] + ts[2..] == ts;
      Ok(([ts[1]], [ts[0]] + ts[2..]))
    else if ts[1].kind == ParensOpen then
      var e := SubEnd(ts, 2, 1);
      SplitQuotes(ts, e);
      assert [ts[0]] + ts[1..e] + ts[e..] == ts;
      Ok((ts[1..e], [ts[0]] + ts[e..]))
    else Err(ParseError)
  }

  /** extractSubExpression's iteration over the list: the literal case drops
      the second token, the nested case collects tokens until the balance
      closes and copies the rest after the initial `(`. */
  method ExtractSubExpression(ts: seq<Token>) returns (r: Result<(seq<Token>, seq<Token>)>)
    ensures r == SplitSub(ts)
  {
    if |ts| == 0 {
      return Err(ParseError);
    }
    var first := ts[0];
    if first.kind != ParensOpen || |ts| < 2 {
      return Err(ParseError);
    }
    var second := ts[1];
    var sub := [second];
    if second.kind == Literal {
      assert ts[..1] == [first];
      return Ok((sub, ts[..1] + ts[2..]));
    } else if second.kind == ParensOpen {
      var bal := 1;
      var i := 2;
      while i < |ts| && bal > 0
        invariant 2 <= i <= |ts|
        invariant sub == ts[1..i]
        invariant SubEnd(ts, i, bal) == SubEnd(ts, 2, 1)
        decreases |ts| - i
      {
        var curr := ts[i];
        if curr.kind == ParensOpen {
          bal := bal + 1;
        } else if curr.kind == ParensClose {
          bal := bal - 1;
        }
        sub := sub + [curr];
        i := i + 1;
      }
      ghost var e := i;
      var rest := [first];
      while i < |ts|
        invariant e <= i <= |ts|
        invariant rest == [first] + ts[e..i]
        decreases |ts| - i
      {
        assert ts[e..i + 1] == ts[e..i] + [ts[i]];
        rest := rest + [ts[i]];
        i := i + 1;
      }
      assert ts[e..i] == ts[e..];
      return Ok((sub, rest));
    } else {
      return Err(ParseError);
    }
  }

  /** Identities of the cons cells in a value. */
  function ConsIds(v: Value): set<nat> {
    match v
    case Cons(id, a, d) => {id} + ConsIds(a) + ConsIds(d)
    case _ => {}
  }

  /** Every cons cell of `v` has its own identity. */
  predicate Distinct(v: Value) {
    match v
    case Cons(id, a, d) =>
      Distinct(a) && Distinct(d) && ConsIds(a) !! ConsIds(d)
      && id !in ConsIds(a) && id !in ConsIds(d)
    case _ => true
  }

  /** Every cons cell of `v` has an identity in [lo, hi). */
  predicate FreshIn(v: Value, lo: nat, hi: nat) {
    forall i :: i in ConsIds(v) ==> lo <= i < hi
  }

  /** parseSingleExpr on one group. Identities for new cons cells are drawn
      from the counter `next`; the result says where the counter ends. */
  function ParseExpr(ts: seq<Token>, next: nat): (r: Result<Parsed>)
    decreases Quotes(ts), |ts|, 1
    ensures r.Ok? ==> next <= r.value.next
  {
    if |ts| == 0 then Err(IndexOutOfBounds)
    else match ts[0].kind
      case ParensOpen =>
        if |ts| < 2 then Err(IndexOutOfBounds)
        else if ts[1].kind == ParensClose then Ok(Parsed(Nil, next))
        else if ts[1].kind == QuoteMark then
          match QuoteRewrite(ts, 1)
          case Err(e) => Err(e)
          case Ok(us) => ParseExpr(us, next)
        else
          var split := SplitSub(ts).value;
          ParseList(split.0, split.1, next)
      case Literal =>
        (match ParseLiteral(ts[0])
         case Err(e) => Err(e)
         case Ok(v) => Ok(Parsed(v, next)))
      case QuoteMark =>
        (match QuoteRewrite(ts, 0)
         case Err(e) => Err(e)
         case Ok(us) => ParseExpr(us, next))
      case ParensClose => Err(ParseError)
  }

  /** A list whose first element has the tokens `sub` and whose remaining
      elements are the list `rest`: the first element, then the rest, then
      the new pair joining them. */
  function ParseList(sub: seq<Token>, rest: seq<Token>, next: nat): (r: Result<Parsed>)
    requires |sub| >= 1 && |rest| >= 1
    decreases Quotes(sub) + Quotes(rest), |sub| + |rest|, 0
    ensures r.Ok? ==> next < r.value.next && r.value.value.Cons?
  {
    match ParseExpr(sub, next)
    case Err(e) => Err(e)
    case Ok(car) =>
      match ParseExpr(rest, car.next)
      case Err(e) => Err(e)
      case Ok(cdr) => Ok(Parsed(Cons(cdr.next, car.value, cdr.value), cdr.next + 1))
  }

  /** Every cons cell a parse builds is a new one: all identities in the
      result are distinct and drawn from [next, r.next). */
  lemma {:induction false} ParseExprFresh(ts: seq<Token>, next: nat)
    decreases Quotes(ts), |ts|, 1
    ensures ParseExpr(ts, next).Ok? ==>
      var p := ParseExpr(ts, next).value; Distinct(p.value) && FreshIn(p.value, next, p.next)
  {
    if |ts| == 0 {
    } else if ts[0].kind == ParensOpen {
      if |ts| >= 2 && ts[1].kind == QuoteMark {
        var q := QuoteRewrite(ts, 1);
        if q.Ok? {
          ParseExprFresh(q.value, next);
        }
      } else if |ts| >= 2 && ts[1].kind != ParensClose {
        var split := SplitSub(ts);
        if split.Ok? {
          ParseListFresh(split.value.0, split.value.1, next);
        }
      }
    } else if ts[0].kind == QuoteMark {
      var q := QuoteRewrite(ts, 0);
      if q.Ok? {
        ParseExprFresh(q.value, next);
      }
    }
  }

  /** The pair a list parses to is new, and so are all the cells below it. */
  lemma {:induction false} ParseListFresh(sub: seq<Token>, rest: seq<Token>, next: nat)
    requires |sub| >= 1 && |rest| >= 1
    decreases Quotes(sub) + Quotes(rest), |sub| + |rest|, 0
    ensures ParseList(sub, rest, next).Ok? ==>
      var p := ParseList(sub, rest, next).value; Distinct(p.value) && FreshIn(p.value, next, p.next)
  {
    var car := ParseExpr(sub, next);
    if car.Ok? {
      ParseExprFresh(sub, next);
      var cdr := ParseExpr(rest, car.value.next);
      if cdr.Ok? {
        ParseExprFresh(rest, car.value.next);
        var a, d, id := car.value.value, cdr.value.value, cdr.value.next;
        assert ConsIds(Cons(id, a, d)) == {id} + ConsIds(a) + ConsIds(d);
        assert ConsIds(a) !! ConsIds(d) by {
          forall i | i in ConsIds(a) ensures i !in ConsIds(d) {
            assert i < car.value.next;
          }
        }
      }
    }
  }

  /** parseSingleExpr as the recursive procedure, editing token lists through
      RewriteQuoteAt and ExtractSubExpression. */
  method ParseSingleExpr(ts: seq<Token>, next: nat) returns (r: Result<Parsed>)
    decreases Quotes(ts), |ts|
    ensures r == ParseExpr(ts, next)
  {
    if |ts| == 0 {
      return Err(IndexOutOfBounds);
    }
    var current := ts[0];
    if current.kind == ParensOpen {
      if |ts| < 2 {
        return Err(IndexOutOfBounds);
      }
      var following := ts[1];
      if following.kind == ParensClose {
        r := Ok(Parsed(Nil, next));
      } else if following.kind == QuoteMark {
        var rewritten :- RewriteQuoteAt(ts, 1);
        r := ParseSingleExpr(rewritten, next);
      } else {
        var split := ExtractSubExpression(ts);
        var car :- ParseSingleExpr(split.value.0, next);
        var cdr :- ParseSingleExpr(split.value.1, car.next);
        r := Ok(Parsed(Cons(cdr.next, car.value, cdr.value), cdr.next + 1));
      }
    } else if current.kind == Literal {
      var v :- ParseLiteral(current);
      r := Ok(Parsed(v, next));
    } else if current.kind == QuoteMark {
      var rewritten :- RewriteQuoteAt(ts, 0);
      r := ParseSingleExpr(rewritten, next);
    } else {
      r := Err(ParseError);
    }
  }

  /** Parses the groups in order, threading the cons identities; the first
      failure ends the parse. */
  function ParseGroups(gs: seq<seq<Token>>, next: nat): (r: Result<(seq<Value>, nat)>)
    ensures r.Ok? ==> |r.value.0| == |gs| && next <= r.value.1
  {
    if gs == [] then Ok(([], next))
    else match ParseExpr(gs[0], next)
      case Err(e) => Err(e)
      case Ok(p) =>
        match ParseGroups(gs[1..], p.next)
        case Err(e) => Err(e)
        case Ok(tail) => Ok(([p.value] + tail.0, tail.1))
  }

  /** parse: lex, split into groups, and parse each group. */
  function ParseProgram(text: string, next: nat): Result<(seq<Value>, nat)> {
    match Groups(Tokenize(text))
    case Err(e) => Err(e)
    case Ok(gs) => ParseGroups(gs, next)
  }

  function PrefixValues(done: seq<Value>, r: Result<(seq<Value>, nat)>): Result<(seq<Value>, nat)> {
    match r
    case Err(e) => Err(e)
    case Ok(p) => Ok((done + p.0, p.1))
  }

  /** parse's loop over the groups, collecting one result per group. */
  method Parse(text: string, next: nat) returns (r: Result<(seq<Value>, nat)>)
    ensures r == ParseProgram(text, next)
  {
    var tokens := Lex(text);
    var groups :- ExtractGroups(tokens);
    var results: seq<Value> := [];
    var n := next;
    var i := 0;
    assert groups[0..] == groups;
    if ParseGroups(groups, next).Ok? {
      assert [] + ParseGroups(groups, next).value.0 == ParseGroups(groups, next).value.0;
    }
    while i < |groups|
      invariant 0 <= i <= |groups|
      invariant PrefixValues(results, ParseGroups(groups[i..], n)) == ParseGroups(groups, next)
    {
      assert groups[i..][0] == groups[i] && groups[i..][1..] == groups[i + 1..];
      var p :- ParseSingleExpr(groups[i], n);
      ghost var tail := ParseGroups(groups[i + 1..], p.next);
      if tail.Ok? {
        assert results + ([p.value] + tail.value.0) == (results + [p.value]) + tail.value.0;
      }
      results := results + [p.value];
      n := p.next;
      i := i + 1;
    }
    assert groups[i..] == [];
    assert results + [] == results;
    r := Ok((results, n));
  }

  /** Read by the quote scan, a complete expression ends where grouping ends it. */
  lemma {:induction false} QuoteEndOfExpr(ts: seq<Token>, j: nat, bal: int, k: nat)
    requires j <= |ts| && ScanExpr(ts[j..], bal) == Done(k)
    ensures QuoteEnd(ts, j, bal) == Ok(j + k)
    decreases |ts| - j
  {
    assert ts[j..][0] == ts[j] && ts[j..][1..] == ts[j + 1..];
    var b := bal + Delta(ts[j]);
    if b != 0 || ts[j].kind == QuoteMark {
      QuoteEndOfExpr(ts, j + 1, b, k - 1);
    }
  }

  /** Read by the sub-expression scan, a parenthesised expression ends where
      grouping ends it. */
  lemma {:induction false} SubEndOfExpr(ts: seq<Token>, j: nat, bal: int, k: nat)
    requires j <= |ts| && bal > 0 && ScanExpr(ts[j..], bal) == Done(k)
    ensures SubEnd(ts, j, bal) == j + k
    decreases |ts| - j
  {
    assert ts[j..][0] == ts[j] && ts[j..][1..] == ts[j + 1..];
    var b := bal + Delta(ts[j]);
    if b != 0 {
      SubEndOfExpr(ts, j + 1, b, k - 1);
    }
  }

  /** The quote rewrite wraps exactly the complete expression that follows
      the quote mark: `pre ' g rest` becomes `pre ( quote g ) rest`. */
  lemma RewriteExpr(pre: seq<Token>, q: Token, g: seq<Token>, rest: seq<Token>)
    requires q.kind == QuoteMark && IsExpr(g)
    ensures QuoteRewrite(pre + [q] + g + rest, |pre|)
         == Ok(pre + [Open, QuoteLiteral] + g + [Close] + rest)
  {
    var ts := pre + [q] + g + rest;
    var idx := |pre|;
    assert ts[..idx] == pre && ts[idx] == q && ts[idx + 1..] == g + rest;
    var edited := pre + [Open, QuoteLiteral] + g + rest;
    assert ts[..idx] + [Open, QuoteLiteral] + ts[idx + 1..] == edited;
    assert edited[idx + 2..] == g + rest;
    ScanAfterDone(g, rest, 0, |g|);
    QuoteEndOfExpr(edited, idx + 2, 0, |g|);
    var e := idx + 2 + |g|;
    assert edited[..e] == pre + [Open, QuoteLiteral] + g && edited[e..] == rest;
  }

  /** The first element split off a list is exactly the complete expression
      after the `(`, and the rest keeps the `(`. */
  lemma SplitSubOfExpr(g: seq<Token>, rest: seq<Token>)
    requires IsExpr(g) && g[0].kind != QuoteMark
    ensures SplitSub([Open] + g + rest) == Ok((g, [Open] + rest))
  {
    ExprShape(g, 0);
    var ts := [Open] + g + rest;
    assert ts[0] == Open && ts[1] == g[0];
    if g[0].kind == Literal {
      assert |g| == 1;
      assert ts[2..] == rest;
      assert g == [g[0]];
    } else {
      assert ScanExpr(g[1..], 1) == Done(|g| - 1);
      assert ts[2..] == g[1..] + rest;
      ScanAfterDone(g[1..], rest, 1, |g| - 1);
      SubEndOfExpr(ts, 2, 1, |g| - 1);
      assert ts[1..|g| + 1] == g && ts[|g| + 1..] == rest;
    }
  }

  /** `(x rest...)` parses as the pair of `x` and the list `(rest...)`. */
  lemma ListCons(g: seq<Token>, rest: seq<Token>, n: nat)
    requires IsExpr(g) && g[0].kind != QuoteMark
    ensures ParseExpr([Open] + g + rest, n) == ParseList(g, [Open] + rest, n)
  {
    ExprShape(g, 0);
    SplitSubOfExpr(g, rest);
    assert ([Open] + g + rest)[1] == g[0];
  }

  /** `'e` parses to the same value as `(quote e)`. */
  lemma QuoteSugar(q: Token, g: seq<Token>, n: nat)
    requires q.kind == QuoteMark && IsExpr(g)
    ensures ParseExpr([q] + g, n) == ParseExpr([Open, QuoteLiteral] + g + [Close], n)
  {
    RewriteExpr([], q, g, []);
    assert [] + [q] + g + [] == [q] + g;
    assert [] + [Open, QuoteLiteral] + g + [Close] + [] == [Open, QuoteLiteral] + g + [Close];
  }

  /** A quote right after `(` is rewritten in place in the same way. */
  lemma QuoteInList(q: Token, g: seq<Token>, rest: seq<Token>, n: nat)
    requires q.kind == QuoteMark && IsExpr(g)
    ensures ParseExpr([Open, q] + g + rest, n)
         == ParseExpr([Open, Open, QuoteLiteral] + g + [Close] + rest, n)
  {
    RewriteExpr([Open], q, g, rest);
    assert [Open] + [q] + g + rest == [Open, q] + g + rest;
    assert [Open] + [Open, QuoteLiteral] + g + [Close] + rest
        == [Open, Open, QuoteLiteral] + g + [Close] + rest;
  }

  /** Inside an enclosing `(`, a complete expression never closes the scan. */
  lemma {:induction false} LiftScan(h: seq<Token>, bal: int, c: int)
    requires c > 0 && ScanExpr(h, bal) == Done(|h|)
    ensures ScanExpr(h, bal + c) == Pending(c)
    decreases |h|
  {
    var b := bal + Delta(h[0]);
    if !(b == 0 && h[0].kind != QuoteMark) {
      LiftScan(h[1..], b, c);
    }
  }

  lemma QuotedIsExpr(h: seq<Token>)
    requires IsExpr(h)
    ensures IsExpr([Open, QuoteLiteral] + h + [Close])
  {
    LiftScan(h, 0, 1);
    assert [Open, QuoteLiteral][1..] == [QuoteLiteral] && [QuoteLiteral][1..] == [];
    assert ScanExpr([QuoteLiteral], 1) == Pending(1);
    assert ScanExpr([Open, QuoteLiteral], 0) == Pending(1);
    ScanAfterPending([Open, QuoteLiteral], h, 0, 1);
    ScanAfterPending([Open, QuoteLiteral] + h, [Close], 0, 1);
  }

  /** A quoted head expression loses its quote mark and stays complete. */
  lemma QuotedHead(g: seq<Token>)
    requires IsExpr(g) && g[0].kind == QuoteMark
    ensures IsExpr(g[1..])
  {
    assert Delta(g[0]) == 0;
    assert ScanExpr(g, 0) == Shift(ScanExpr(g[1..], 0), 1);
  }

  /** The one-element list around the value of `g`, after `g`'s own cells. */
  function Single(r: Result<Parsed>): Result<Parsed> {
    match r
    case Err(e) => Err(e)
    case Ok(p) => Ok(Parsed(Cons(p.next, p.value, Nil), p.next + 1))
  }

  lemma SingletonPlain(g: seq<Token>, n: nat)
    requires IsExpr(g) && g[0].kind != QuoteMark
    ensures ParseExpr([Open] + g + [Close], n) == Single(ParseExpr(g, n))
  {
    ExprShape(g, 0);
    ListCons(g, [Close], n);
    assert [Open] + [Close] == [Open, Close];
    var car := ParseExpr(g, n);
    if car.Ok? {
      assert ParseExpr([Open, Close], car.value.next) == Ok(Parsed(Nil, car.value.next));
    }
  }

  /** Inside `(e)`, a quoted `e` is rewritten to its quote form. */
  lemma QuotedInSingleton(g: seq<Token>, n: nat)
    requires IsExpr(g) && g[0].kind == QuoteMark
    ensures ParseExpr([Open] + g + [Close], n)
         == ParseExpr([Open] + ([Open, QuoteLiteral] + g[1..] + [Close]) + [Close], n)
  {
    QuotedHead(g);
    QuotedInSingletonTokens(g);
    QuoteInList(g[0], g[1..], [Close], n);
  }

  lemma QuotedInSingletonTokens(g: seq<Token>)
    requires |g| >= 1
    ensures [Open, g[0]] + g[1..] + [Close] == [Open] + g + [Close]
    ensures [Open, Open, QuoteLiteral] + g[1..] + [Close] + [Close]
         == [Open] + ([Open, QuoteLiteral] + g[1..] + [Close]) + [Close]
  {
    assert g == [g[0]] + g[1..];
  }

  lemma SingletonQuoted(g: seq<Token>, n: nat)
    requires IsExpr(g) && g[0].kind == QuoteMark
    ensures ParseExpr([Open] + g + [Close], n) == Single(ParseExpr(g, n))
  {
    var h := g[1..];
    QuotedHead(g);
    var g2 := [Open, QuoteLiteral] + h + [Close];
    QuotedIsExpr(h);
    QuotedInSingleton(g, n);
    SingletonPlain(g2, n);
    assert g == [g[0]] + h;
    QuoteSugar(g[0], h, n);
  }

  /** `(e)` parses to the one-element list of `e`, or fails as `e` fails. */
  lemma SingletonList(g: seq<Token>, n: nat)
    requires IsExpr(g)
    ensures ParseExpr([Open] + g + [Close], n) == Single(ParseExpr(g, n))
  {
    ExprShape(g, 0);
    if g[0].kind != QuoteMark {
      SingletonPlain(g, n);
    } else {
      SingletonQuoted(g, n);
    }
  }

  /** The value `(quote e)` built after the cells of `e`. */
  function Quoted(r: Result<Parsed>): Result<Parsed> {
    match r
    case Err(e) => Err(e)
    case Ok(p) => Ok(Parsed(Cons(p.next + 1, Symbol("quote"), Cons(p.next, p.value, Nil)), p.next + 2))
  }

  /** `'e` is the two-element list of the symbol `quote` and `e`. */
  lemma QuoteForm(g: seq<Token>, n: nat)
    requires IsExpr(g)
    ensures ParseExpr([Quote] + g, n) == Quoted(ParseExpr(g, n))
  {
    QuoteSugar(Quote, g, n);
    QuoteFormIsList(g, n);
    QuoteThenSingleton(g, n);
  }

  lemma QuoteFormIsList(g: seq<Token>, n: nat)
    ensures ParseExpr([Open, QuoteLiteral] + g + [Close], n) == ParseList([QuoteLiteral], [Open] + g + [Close], n)
  {
    assert ScanExpr([QuoteLiteral], 0) == Done(1);
    ListCons([QuoteLiteral], g + [Close], n);
    assert [Open] + [QuoteLiteral] + (g + [Close]) == [Open, QuoteLiteral] + g + [Close];
    assert [Open] + (g + [Close]) == [Open] + g + [Close];
  }

  lemma QuoteThenSingleton(g: seq<Token>, n: nat)
    requires IsExpr(g)
    ensures ParseList([QuoteLiteral], [Open] + g + [Close], n) == Quoted(ParseExpr(g, n))
  {
    var head := ParseExpr([QuoteLiteral], n);
    assert head == Ok(Parsed(Symbol("quote"), n));
    SingletonList(g, n);
    var tail := ParseExpr([Open] + g + [Close], n);
    var r := ParseExpr(g, n);
    if r.Ok? {
      assert tail == Ok(Parsed(Cons(r.value.next, r.value.value, Nil), r.value.next + 1));
    } else {
      assert tail == Err(r.error);
    }
  }

  function QuoteMarks(k: nat): seq<Token> {
    if k == 0 then [] else [Quote] + QuoteMarks(k - 1)
  }

  /** `e` wrapped in `k` explicit `(quote ...)` forms. */
  function QuoteForms(k: nat, g: seq<Token>): seq<Token> {
    if k == 0 then g else [Open, QuoteLiteral] + QuoteForms(k - 1, g) + [Close]
  }

  function QuotedN(k: nat, r: Result<Parsed>): Result<Parsed> {
    if k == 0 then r else Quoted(QuotedN(k - 1, r))
  }

  lemma QuoteMarkExpr(h: seq<Token>)
    requires IsExpr(h)
    ensures IsExpr([Quote] + h)
  {
    assert ([Quote] + h)[1..] == h;
  }

  lemma QuoteMarksStep(k: nat, g: seq<Token>)
    requires k > 0
    ensures QuoteMarks(k) + g == [Quote] + (QuoteMarks(k - 1) + g)
  {
  }

  lemma {:induction false} QuoteMarksExpr(k: nat, g: seq<Token>)
    requires IsExpr(g)
    ensures IsExpr(QuoteMarks(k) + g)
  {
    if k == 0 {
      assert QuoteMarks(0) + g == g;
    } else {
      QuoteMarksExpr(k - 1, g);
      QuoteMarksStep(k, g);
      QuoteMarkExpr(QuoteMarks(k - 1) + g);
    }
  }

  /** Nested quote marks expand fully: `k` quotes before `e` give `e` inside
      `k` quote forms. */
  lemma {:induction false} NestedQuotes(k: nat, g: seq<Token>, n: nat)
    requires IsExpr(g)
    ensures ParseExpr(QuoteMarks(k) + g, n) == QuotedN(k, ParseExpr(g, n))
  {
    if k == 0 {
      assert QuoteMarks(0) + g == g;
    } else {
      var h := QuoteMarks(k - 1) + g;
      var inner := ParseExpr(h, n);
      NestedQuotes(k - 1, g, n);
      QuoteMarksExpr(k - 1, g);
      QuoteMarksStep(k, g);
      QuoteForm(h, n);
      assert ParseExpr(QuoteMarks(k) + g, n) == Quoted(inner);
    }
  }

  /** Written out in full, `k` quote forms around `e` parse to the same value. */
  lemma {:induction false} NestedQuoteForms(k: nat, g: seq<Token>, n: nat)
    requires IsExpr(g)
    ensures IsExpr(QuoteForms(k, g))
    ensures ParseExpr(QuoteForms(k, g), n) == QuotedN(k, ParseExpr(g, n))
  {
    if k > 0 {
      NestedQuoteForms(k - 1, g, n);
      var h := QuoteForms(k - 1, g);
      QuotedIsExpr(h);
      QuoteSugar(Quote, h, n);
      QuoteForm(h, n);
    }
  }

  /** Quote marks and written-out quote forms read the same, for any number
      of quotes before any expression (`'''''qux` against five nested
      `(quote ...)` forms around `qux`). */
  lemma QuoteMarksAreQuoteForms(k: nat, g: seq<Token>, n: nat)
    requires IsExpr(g)
    ensures ParseExpr(QuoteMarks(k) + g, n) == ParseExpr(QuoteForms(k, g), n)
  {
    NestedQuotes(k, g, n);
    NestedQuoteForms(k, g, n);
  }

  /** `(a b)` is the pair of `a` and the pair of `b` and `nil`; the inner pair
      is built first. */
  lemma TwoElementList(n: nat)
    ensures ParseExpr([Open, LiteralToken("a"), LiteralToken("b"), Close], n)
         == Ok(Parsed(Cons(n + 1, Symbol("a"), Cons(n, Symbol("b"), Nil)), n + 2))
  {
    var a, b := LiteralToken("a"), LiteralToken("b");
    assert IsExpr([a]) && IsExpr([b]);
    ListCons([a], [b, Close], n);
    assert [Open] + [a] + [b, Close] == [Open, a, b, Close];
    SingletonList([b], n);
    assert [Open] + [b] + [Close] == [Open] + [b, Close];
  }

  /** `(')` is one group, but the quote scan runs off the end of the list. */
  lemma DanglingQuoteInList(n: nat)
    ensures Groups([Open, Quote, Close]) == Ok([[Open, Quote, Close]])
    ensures ParseExpr([Open, Quote, Close], n) == Err(IndexOutOfBounds)
  {
    var ts := [Open, Quote, Close];
    assert ts[1..] == [Quote, Close] && ts[1..][1..] == [Close];
    assert ScanExpr([Close], 1) == Done(1);
    assert ScanExpr([Quote, Close], 1) == Done(2);
    assert ScanExpr(ts, 0) == Done(3);
    GroupsCharacterized(ts, [ts]);
    var edited := [Open, Open, QuoteLiteral, Close];
    assert ts[..1] + [Open, QuoteLiteral] + ts[2..] == edited;
    assert QuoteEnd(edited, 3, 0) == Err(IndexOutOfBounds);
  }

  function AndThen(r: Result<(seq<Value>, nat)>, b: seq<seq<Token>>): Result<(seq<Value>, nat)> {
    match r
    case Err(e) => Err(e)
    case Ok(p) => PrefixValues(p.0, ParseGroups(b, p.1))
  }

  /** Parsing two runs of groups one after the other gives the values of the
      first run followed by those of the second: one value per group, in
      source order. */
  lemma {:induction false} ParseGroupsAppend(a: seq<seq<Token>>, b: seq<seq<Token>>, n: nat)
    ensures ParseGroups(a + b, n) == AndThen(ParseGroups(a, n), b)
  {
    if a == [] {
      assert a + b == b;
      if ParseGroups(b, n).Ok? {
        assert [] + ParseGroups(b, n).value.0 == ParseGroups(b, n).value.0;
      }
    } else {
      assert (a + b)[0] == a[0] && (a + b)[1..] == a[1..] + b;
      match ParseExpr(a[0], n)
      case Err(e) =>
      case Ok(p) =>
        ParseGroupsAppend(a[1..], b, p.next);
        var first := ParseGroups(a[1..], p.next);
        if first.Ok? && ParseGroups(b, first.value.1).Ok? {
          var rest := ParseGroups(b, first.value.1).value.0;
          assert [p.value] + (first.value.0 + rest) == ([p.value] + first.value.0) + rest;
        }
    }
  }
}
