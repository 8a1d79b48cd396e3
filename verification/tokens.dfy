/** Tokens produced by the lexer: a kind and, for literals, the literal text. */
module Tokens {
  import opened Errors

  /** The four token kinds; no other kind exists. */
  datatype TokenType = ParensOpen | ParensClose | QuoteMark | Literal

  /** An immutable token. Literal tokens carry their text; the three
      punctuation tokens are built without text. */
  datatype Token = Token(kind: TokenType, literal: Option<string>)

  const OpenChar: char := '('
  const CloseChar: char := ')'
  const QuoteChar: char := '\''

  const Open: Token := Token(ParensOpen, None)
  const Close: Token := Token(ParensClose, None)
  const Quote: Token := Token(QuoteMark, None)

  function LiteralToken(text: string): Token {
    Token(Literal, Some(text))
  }

  /** The token a special character stands for, or None for any other character. */
  function SpecialToken(c: char): (t: Option<Token>)
    ensures t.Some? <==> c == OpenChar || c == CloseChar || c == QuoteChar
    ensures t == Some(Open) <==> c == OpenChar
    ensures t == Some(Close) <==> c == CloseChar
    ensures t == Some(Quote) <==> c == QuoteChar
    ensures t.Some? ==> t.value.kind != Literal && t.value.literal == None
  {
    if c == OpenChar then Some(Open)
    else if c == CloseChar then Some(Close)
    else if c == QuoteChar then Some(Quote)
    else None
  }

  /** Change of parenthesis balance caused by one token. */
  function Delta(t: Token): int {
    match t.kind
    case ParensOpen => 1
    case ParensClose => -1
    case _ => 0
  }

  /** Parenthesis balance of a token list: opened minus closed. */
  function Balance(ts: seq<Token>): int {
    if ts == [] then 0 else Delta(ts[0]) + Balance(ts[1..])
  }

  lemma {:induction false} BalanceAppend(a: seq<Token>, b: seq<Token>)
    ensures Balance(a + b) == Balance(a) + Balance(b)
  {
    if a == [] {
      assert a + b == b;
    } else {
      assert (a + b)[1..] == a[1..] + b;
      BalanceAppend(a[1..], b);
    }
  }

  /** Number of quote tokens in a list: the parser removes one per quote rewrite. */
  function Quotes(ts: seq<Token>): nat {
    if ts == [] then 0 else (if ts[0].kind == QuoteMark then 1 else 0) + Quotes(ts[1..])
  }

  lemma {:induction false} QuotesAppend(a: seq<Token>, b: seq<Token>)
    ensures Quotes(a + b) == Quotes(a) + Quotes(b)
  {
    if a == [] {
      assert a + b == b;
    } else {
      assert (a + b)[1..] == a[1..] + b;
      QuotesAppend(a[1..], b);
    }
  }

  lemma QuotesSlice(ts: seq<Token>, i: nat, j: nat)
    requires i <= j <= |ts|
    ensures Quotes(ts[i..j]) <= Quotes(ts)
  {
    assert ts == ts[..i] + ts[i..j] + ts[j..];
    QuotesAppend(ts[..i] + ts[i..j], ts[j..]);
    QuotesAppend(ts[..i], ts[i..j]);
  }
}
