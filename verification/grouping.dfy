/** Splitting the token stream into top-level expressions (Parser.extractTokSExprs). */
module Grouping {
  import opened Errors
  import opened Tokens

  /** Where a scan of one expression stands: finished after `n` tokens,
      still open with balance `bal`, or broken by a surplus `)`. */
  datatype ScanState = Done(n: nat) | Pending(bal: int) | Broken

  /** Scans one expression from balance `bal`. The expression ends at the first
      token after which the balance is zero, unless that token is a quote mark:
      a quote at balance zero still waits for the expression it quotes. */
  function ScanExpr(ts: seq<Token>, bal: int): ScanState
    decreases |ts|
  {
    if ts == [] then Pending(bal)
    else
      var b := bal + Delta(ts[0]);
      if b == 0 && ts[0].kind != QuoteMark then Done(1)
      else if b < 0 then Broken
      else match ScanExpr(ts[1..], b)
        case Done(n) => Done(n + 1)
        case other => other
  }

  /** `g` is exactly one complete expression: the scan ends at its last token. */
  predicate IsExpr(g: seq<Token>) {
    ScanExpr(g, 0) == Done(|g|)
  }

  function Concat(gs: seq<seq<Token>>): seq<Token> {
    if gs == [] then [] else gs[0] + Concat(gs[1..])
  }

  /** Reference definition of the grouping loop: `cur` is the group being
      collected and `bal` its balance. */
  function GroupsFrom(ts: seq<Token>, cur: seq<Token>, bal: int): Result<seq<seq<Token>>>
    decreases |ts|
  {
    if ts == [] then
      (if bal == 0 && cur == [] then Ok([]) else Err(ParseError))
    else
      var b := bal + Delta(ts[0]);
      if b == 0 && ts[0].kind != QuoteMark then
        match GroupsFrom(ts[1..], [], 0)
        case Ok(gs) => Ok([cur + [ts[0]]] + gs)
        case Err(e) => Err(e)
      else if b < 0 then Err(ParseError)
      else GroupsFrom(ts[1..], cur + [ts[0]], b)
  }

  function Groups(ts: seq<Token>): Result<seq<seq<Token>>> {
    GroupsFrom(ts, [], 0)
  }

  function Prepend(done: seq<seq<Token>>, r: Result<seq<seq<Token>>>): Result<seq<seq<Token>>> {
    match r
    case Ok(gs) => Ok(done + gs)
    case Err(e) => Err(e)
  }

  /** The grouping loop with its balance counter and current group. */
  method ExtractGroups(ts: seq<Token>) returns (r: Result<seq<seq<Token>>>)
    ensures r == Groups(ts)
  {
    var groups: seq<seq<Token>> := [];
    var cur: seq<Token> := [];
    var bal := 0;
    var i := 0;
    assert ts[0..] == ts;
    if Groups(ts).Ok? {
      assert [] + Groups(ts).value == Groups(ts).value;
    }
    while i < |ts|
      invariant 0 <= i <= |ts|
      invariant Prepend(groups, GroupsFrom(ts[i..], cur, bal)) == Groups(ts)
    {
      var t := ts[i];
      assert ts[i..][0] == t && ts[i..][1..] == ts[i + 1..];
      if t.kind == ParensOpen {
        bal := bal + 1;
      } else if t.kind == ParensClose {
        bal := bal - 1;
      }
      cur := cur + [t];
      if bal == 0 && t.kind != QuoteMark {
        assert groups + ([cur] + []) == (groups + [cur]) + [];
        groups := groups + [cur];
        cur := [];
        ghost var rest := GroupsFrom(ts[i + 1..], [], 0);
        if rest.Ok? {
          assert groups + rest.value == (groups[..|groups| - 1]) + ([groups[|groups| - 1]] + rest.value);
        }
      } else if bal < 0 {
        return Err(ParseError);
      }
      i := i + 1;
    }
    assert ts[i..] == [];
    if bal == 0 && |cur| == 0 {
      assert groups + [] == groups;
      r := Ok(groups);
    } else {
      r := Err(ParseError);
    }
  }

  function Shift(st: ScanState, k: nat): ScanState {
    match st
    case Done(n) => Done(n + k)
    case other => other
  }

  /** Scanning past a still-open prefix continues from the prefix's balance. */
  lemma {:induction false} ScanAfterPending(a: seq<Token>, b: seq<Token>, bal: int, p: int)
    requires ScanExpr(a, bal) == Pending(p)
    ensures ScanExpr(a + b, bal) == Shift(ScanExpr(b, p), |a|)
    decreases |a|
  {
    if a == [] {
      assert a + b == b;
    } else {
      assert (a + b)[1..] == a[1..] + b;
      ScanAfterPending(a[1..], b, bal + Delta(a[0]), p);
    }
  }

  /** Once an expression is complete, the tokens after it do not matter. */
  lemma {:induction false} ScanAfterDone(a: seq<Token>, b: seq<Token>, bal: int, n: nat)
    requires ScanExpr(a, bal) == Done(n)
    ensures ScanExpr(a + b, bal) == Done(n)
    decreases |a|
  {
    assert a != [];
    assert (a + b)[1..] == a[1..] + b;
    var d := bal + Delta(a[0]);
    if !(d == 0 && a[0].kind != QuoteMark) {
      ScanAfterDone(a[1..], b, d, n - 1);
    }
  }

  lemma StepPending(cur: seq<Token>, t: Token, bal: int)
    requires ScanExpr(cur, 0) == Pending(bal)
    requires !(bal + Delta(t) == 0 && t.kind != QuoteMark) && bal + Delta(t) >= 0
    ensures ScanExpr(cur + [t], 0) == Pending(bal + Delta(t))
  {
    ScanAfterPending(cur, [t], 0, bal);
    assert [t][1..] == [];
  }

  lemma StepDone(cur: seq<Token>, t: Token, bal: int)
    requires ScanExpr(cur, 0) == Pending(bal)
    requires bal + Delta(t) == 0 && t.kind != QuoteMark
    ensures IsExpr(cur + [t])
  {
    ScanAfterPending(cur, [t], 0, bal);
  }

  /** Every group the loop emits is one complete expression, and the groups
      put back together give the input. */
  lemma {:induction false} GroupsFromSound(ts: seq<Token>, cur: seq<Token>, bal: int)
    requires ScanExpr(cur, 0) == Pending(bal)
    requires GroupsFrom(ts, cur, bal).Ok?
    ensures Concat(GroupsFrom(ts, cur, bal).value) == cur + ts
    ensures forall i :: 0 <= i < |GroupsFrom(ts, cur, bal).value| ==> IsExpr(GroupsFrom(ts, cur, bal).value[i])
    decreases |ts|
  {
    if ts == [] {
      assert cur + ts == [];
    } else {
      var t := ts[0];
      var b := bal + Delta(t);
      assert cur + ts == (cur + [t]) + ts[1..];
      if b == 0 && t.kind != QuoteMark {
        StepDone(cur, t, bal);
        GroupsFromSound(ts[1..], [], 0);
        var gs := GroupsFrom(ts[1..], [], 0).value;
        assert ([cur + [t]] + gs)[1..] == gs;
        assert [] + ts[1..] == ts[1..];
      } else {
        StepPending(cur, t, bal);
        GroupsFromSound(ts[1..], cur + [t], b);
      }
    }
  }

  /** An expression at the head of the input is emitted as one group. */
  lemma {:induction false} GroupsFromExpr(a: seq<Token>, rest: seq<Token>, cur: seq<Token>, bal: int)
    requires ScanExpr(cur, 0) == Pending(bal)
    requires ScanExpr(a, bal) == Done(|a|)
    ensures GroupsFrom(a + rest, cur, bal) == Prepend([cur + a], GroupsFrom(rest, [], 0))
    decreases |a|
  {
    assert a != [];
    var t := a[0];
    var b := bal + Delta(t);
    assert (a + rest)[0] == t && (a + rest)[1..] == a[1..] + rest;
    if b == 0 && t.kind != QuoteMark {
      assert a == [t];
    } else {
      StepPending(cur, t, bal);
      GroupsFromExpr(a[1..], rest, cur + [t], b);
      assert (cur + [t]) + a[1..] == cur + a;
    }
  }

  lemma {:induction false} GroupsComplete(gs: seq<seq<Token>>)
    requires forall i :: 0 <= i < |gs| ==> IsExpr(gs[i])
    ensures Groups(Concat(gs)) == Ok(gs)
  {
    if gs != [] {
      GroupsComplete(gs[1..]);
      GroupsFromExpr(gs[0], Concat(gs[1..]), [], 0);
      assert [] + gs[0] == gs[0];
      assert [gs[0]] + gs[1..] == gs;
    }
  }

  /** Grouping succeeds with `gs` exactly when `gs` are complete expressions
      whose concatenation is the input; so it fails exactly when the input is
      not a sequence of complete expressions (a surplus `)`, an unclosed `(`,
      or a dangling quote). */
  lemma GroupsCharacterized(ts: seq<Token>, gs: seq<seq<Token>>)
    ensures Groups(ts) == Ok(gs) <==>
      Concat(gs) == ts && forall i :: 0 <= i < |gs| ==> IsExpr(gs[i])
  {
    if Groups(ts) == Ok(gs) {
      GroupsFromSound(ts, [], 0);
      assert [] + ts == ts;
    }
    if Concat(gs) == ts && forall i :: 0 <= i < |gs| ==> IsExpr(gs[i]) {
      GroupsComplete(gs);
    }
  }

  /** A complete expression has balance zero, never starts with `)` and
      never ends with a quote mark. */
  lemma {:induction false} ExprShape(g: seq<Token>, bal: int)
    requires ScanExpr(g, bal) == Done(|g|)
    ensures bal + Balance(g) == 0
    ensures g[|g| - 1].kind != QuoteMark
    ensures bal == 0 ==> g[0].kind != ParensClose
    decreases |g|
  {
    var b := bal + Delta(g[0]);
    if !(b == 0 && g[0].kind != QuoteMark) {
      ExprShape(g[1..], b);
      assert g[1..][|g[1..]| - 1] == g[|g| - 1];
    }
  }

  lemma SurplusCloseFails()
    ensures Groups([Close, LiteralToken("a"), Open]) == Err(ParseError)
  {
  }

  lemma LoneQuoteFails()
    ensures Groups([Quote]) == Err(ParseError)
  {
    assert [Quote][1..] == [];
    assert Delta(Quote) == 0;
    assert GroupsFrom([], [] + [Quote], 0) == Err(ParseError);
  }

  lemma NoTokensNoGroups()
    ensures Groups([]) == Ok([])
  {
  }

  /** `'(a b) 3 'q`: a quote at balance zero does not end a group. */
  lemma QuotedGroups()
    ensures Groups([Quote, Open, LiteralToken("a"), LiteralToken("b"), Close,
                    LiteralToken("3"), Quote, LiteralToken("q")])
         == Ok([[Quote, Open, LiteralToken("a"), LiteralToken("b"), Close],
                [LiteralToken("3")], [Quote, LiteralToken("q")]])
  {
    var a, b, n, q := LiteralToken("a"), LiteralToken("b"), LiteralToken("3"), LiteralToken("q");
    var g1, g2, g3 := [Quote, Open, a, b, Close], [n], [Quote, q];
    assert ScanExpr([Close], 1) == Done(1);
    assert [b, Close][1..] == [Close];
    assert ScanExpr([b, Close], 1) == Done(2);
    assert [a, b, Close][1..] == [b, Close];
    assert ScanExpr([a, b, Close], 1) == Done(3);
    assert g1[1..][1..] == [a, b, Close];
    assert ScanExpr(g1[1..], 0) == Done(4);
    assert IsExpr(g1);
    assert IsExpr(g2);
    assert g3[1..] == [q];
    assert IsExpr(g3);
    var gs := [g1, g2, g3];
    assert gs[1..][1..] == [g3] && gs[1..][1..][1..] == [];
    assert Concat([g3]) == g3 + Concat([]);
    assert Concat([g2, g3]) == g2 + Concat([g3]);
    assert Concat(gs) == g1 + Concat([g2, g3]);
    GroupsCharacterized(g1 + g2 + g3, gs);
    assert g1 + g2 + g3 == [Quote, Open, a, b, Close, n, Quote, q];
  }
}
