# Yale interpreter core in Dafny

Yale is a small Lisp interpreter written in Java. This project models its
core and proves properties of the model:

- the reader: `Parser` lexes the text into tokens, splits the tokens into one
  group per top-level expression, rewrites the quote mark `'e` into
  `(quote e)`, and builds cons pairs, symbols and numbers;
- the values: `SExpr` with `Symbol`, `Number` (a `BigDecimal`), `Cons`,
  `Function` and `SpecialForm`, together with their `car`/`cdr`, `equals`,
  `eval` and printing;
- environments: frames of bindings chained through their parents, with
  `defineBinding`, `updateBinding` and `getBinding`;
- the kernel: the root environment, the special forms `quote`, `if`,
  `define`, `assign`, `lambda`, `let` and `letrec`, closures with lexical
  scope, the list functions, the predicates, and the arithmetic.

Modules, one per file:

| file | module | models |
|---|---|---|
| errors.dfy | `Errors` | the exceptions the core throws, as error kinds of a `Result` |
| tokens.dfy | `Tokens` | `Token` and its four kinds |
| lexer.dfy | `Lexer` | `Parser.lex` |
| grouping.dfy | `Grouping` | `Parser.extractTokSExprs` |
| parser.dfy | `Parser` | `parse`, `parseSingleExpr`, `parseQuoteAt`, `parseLiteral` and `extractSubExpression` |
| decimals.dfy | `Decimals` | the `BigDecimal` operations the core uses: `new BigDecimal(String)`, `toString`, `add`, `subtract`, `multiply`, `divide`, `remainder`, `compareTo` and `equals` |
| values.dfy | `Values` | `SExpr` and its subclasses |
| environment.dfy | `Environment` | `Environment` |
| builtins.dfy | `Builtins` | the builtin functions of `Kernel` |
| evaluator.dfy | `Evaluator` | `Cons.eval`, `getParameters`, the special forms, closures and `Let` |
| evaluator_properties.dfy | `EvaluatorProperties` | what evaluation does, stated against the environment |
| loops.dfy | `EvaluatorLoops` | the evaluator's loops as the host writes them, each proved equal to its function |

How the host is represented:

- **Values.** Java's `null` is a value, `Null`. A special form evaluates to
  it, and every dereference of it is the error `NullValue`.
- **Identity.** Object identity is a number. A pair, a function and a special
  form each carry one. The reader numbers its pairs from a counter. The
  evaluator draws new numbers from its store. So that the two never hand out
  the same number, a caller parses with `ParseProgram(text, st.nextId)` and
  then sets the store's `nextId` to the counter that `ParseProgram` returns.
- **Environments.** They live in one sequence of frames. A frame names its
  parent by position, and a parent is always older than its child.
  - The evaluator takes this store and returns it as it is afterwards, also
    when it fails, because the host does not undo a change made before an
    exception.
  - The class `Environment.Arena` holds the same sequence as a mutable field
    for the methods that update it in place.
- **Termination.** Evaluation is cut off by a fuel count, since a Yale
  program need not terminate.

## Model

| member | source | states |
|---|---|---|
| `Tokens.SpecialToken` | src/yale/parse/Parser.java:255-264 | `(`, `)` and `'` stand for the open, close and quote tokens, each for its own; every other character stands for none, and these tokens carry no text |
| `Lexer.Lex` | src/yale/parse/Parser.java:248-277 | the index loop with its literal buffer and one-token lookahead yields exactly the reference scan `Tokenize` |
| `Lexer.LexPreservesText` | src/yale/parse/Parser.java:248-277 | writing the tokens back as text gives the source with its whitespace removed: no character is lost, reordered or invented |
| `Lexer.LexWellFormed` | src/yale/parse/Parser.java:259-268 | every literal token is a non-empty run of characters that are neither whitespace nor `(`, `)` or `'` |
| `Lexer.ScanSplit` | src/yale/parse/Parser.java:248-277 | the scan of a text cut just after whitespace or `(`, `)`, `'` is the scan of the part before followed by the scan of the part after: the literal buffer is always empty at such a point |
| `Lexer.LiteralRunIsOneToken` | src/yale/parse/Parser.java:259-268 | wherever it occurs, a maximal run of literal characters (preceded by the start of the text or a separator, followed by the end of the text or a separator) becomes exactly one literal token holding that run, between the tokens of the text before it and those of the text after it |
| `Lexer.LexNineTokens` | test/yale/parse/ParserTest.java:24-28 | `( + 12  abc (+ 3))` is scanned (by `Tokenize`, hence by `Lex`) into nine tokens: two opening parentheses, the literals `+`, `12`, `abc`, `+`, `3` and two closing parentheses, in that order |
| `Lexer.LexTrailingLiteral` | test/yale/parse/ParserTest.java:31-35 | `(+ 1 foo` is scanned (by `Tokenize`, hence by `Lex`) into four tokens; the literal `foo` at the very end is emitted although no separator follows it |
| `Lexer.LexOneLiteral` | test/yale/parse/ParserTest.java:38-42 | ` 123.456  ` is scanned (by `Tokenize`, hence by `Lex`) into the single literal token `123.456`; the surrounding spaces produce nothing |
| `Grouping.ExtractGroups` | src/yale/parse/Parser.java:219-246 | the loop over the tokens computes `Groups` |
| `Grouping.GroupsCharacterized` | src/yale/parse/Parser.java:219-246 | grouping succeeds with `gs` exactly when `gs` concatenate to the tokens and each of them is one complete expression |
| `Grouping.GroupsComplete` | src/yale/parse/Parser.java:224-242 | concatenated complete expressions are split back into exactly those expressions |
| `Grouping.ExprShape` | src/yale/parse/Parser.java:224-238 | a group is balanced, does not end in a quote, and does not start with `)` |
| `Grouping.SurplusCloseFails` | src/yale/parse/Parser.java:235-238 | a `)` with no `(` before it is a parse error |
| `Grouping.LoneQuoteFails` | src/yale/parse/Parser.java:240-245 | a quote with nothing after it leaves tokens over, a parse error |
| `Grouping.NoTokensNoGroups` | src/yale/parse/Parser.java:240-242 | no tokens give no expressions |
| `Grouping.QuotedGroups` | src/yale/parse/Parser.java:232-234 | a quote joins the group of the expression after it, and each top-level expression is its own group |
| `Parser.ParseLiteral` | src/yale/parse/Parser.java:113-134 | a literal is a number exactly when it starts with a digit or `-` and the whole text is a decimal numeral, which it denotes; otherwise it is the symbol of that text; an empty text fails on its first character |
| `Parser.NumberLiteralRoundTrip` | src/yale/parse/Parser.java:113-134 | the printed form of every number reads back as that number |
| `Parser.MinusAloneIsSymbol` | src/yale/parse/Parser.java:119-130 | `-` alone is not a numeral and reads as the symbol `-` |
| `Parser.QuoteRewrite` | src/yale/parse/Parser.java:85-111 | the quote becomes `(` `quote` and a `)` is added after the quoted expression: the tokens before it are kept and one quote fewer remains; running off the end fails on an index |
| `Parser.RewriteQuoteAt` | src/yale/parse/Parser.java:85-111 | the do-while search for the end of the quoted expression computes `QuoteRewrite` |
| `Parser.RewriteExpr` | src/yale/parse/Parser.java:93-109 | for a quote followed by a complete expression `g`, the rewrite is exactly `( quote g )` in its place |
| `Parser.SplitSub` | src/yale/parse/Parser.java:149-204 | splitting succeeds exactly on `(` followed by a literal or `(`; the first part starts with that token, the rest starts with the `(`, and the parts put together give back the input |
| `Parser.ExtractSubExpression` | src/yale/parse/Parser.java:149-204 | the iterator loop with its balance counter computes `SplitSub` |
| `Parser.SplitSubOfExpr` | src/yale/parse/Parser.java:170-199 | when the list's first element is a complete expression `g`, the split gives `g` and the `(` followed by the remaining tokens |
| `Parser.ParseExpr` | src/yale/parse/Parser.java:45-72 | parsing never moves the identity counter back |
| `Parser.ParseList` | src/yale/parse/Parser.java:53-59 | a list parses to a pair and takes at least one new identity |
| `Parser.ParseExprFresh` | src/yale/parse/Parser.java:45-72 | a parsed expression's pairs all have distinct identities, each drawn fresh from the counter range it used |
| `Parser.ParseListFresh` | src/yale/parse/Parser.java:53-59 | a parsed list's pairs, its own included, have distinct identities drawn fresh from the counter range it used |
| `Parser.ParseSingleExpr` | src/yale/parse/Parser.java:45-72 | the recursive method computes `ParseExpr` |
| `Parser.ParseGroups` | src/yale/parse/Parser.java:37-41 | one value per group |
| `Parser.Parse` | src/yale/parse/Parser.java:33-43 | the loop over the groups computes `ParseProgram`: lexing, grouping, then one parse per group |
| `Parser.ParseGroupsAppend` | src/yale/parse/Parser.java:33-43 | the values of two runs of groups are those of the first run followed by those of the second, in source order |
| `Parser.ListCons` | src/yale/parse/Parser.java:53-59 | `( g rest` parses as the pair of `g` and `( rest` |
| `Parser.SingletonList` | src/yale/parse/Parser.java:51-59 | `( g )` parses to the one-element list of `g` |
| `Parser.QuoteSugar` | src/yale/parse/Parser.java:68-69 | `'g` parses exactly as `(quote g)` |
| `Parser.QuoteInList` | src/yale/parse/Parser.java:60-61 | a quote right after `(` is rewritten in place: `('g ...` parses as `((quote g) ...` |
| `Parser.QuoteForm` | src/yale/parse/Parser.java:85-111 | `'g` parses to the list `(quote v)` where `v` is what `g` parses to |
| `Parser.NestedQuotes` | src/yale/parse/Parser.java:85-111 | `k` quote marks before `g` give `k` nested quote forms around `g` |
| `Parser.NestedQuoteForms` | src/yale/parse/Parser.java:85-111 | `k` nested written-out `(quote ...)` forms parse to the same `k` nested quote forms |
| `Parser.QuoteMarksAreQuoteForms` | src/yale/parse/Parser.java:85-111 | quote marks and written-out quote forms parse alike |
| `Parser.TwoElementList` | src/yale/parse/Parser.java:45-72 | `(a b)` parses to two pairs ending in `nil` |
| `Parser.DanglingQuoteInList` | src/yale/parse/Parser.java:96-108 | `(')` passes grouping, but the search for the quoted expression runs off the end and fails on an index |
| `Decimals.Add` | src/yale/main/Kernel.java:348-352 | the sum is exact, at the larger of the two scales |
| `Decimals.Subtract` | src/yale/main/Kernel.java:367-370 | the difference is exact, at the larger of the two scales |
| `Decimals.Multiply` | src/yale/main/Kernel.java:377-381 | the product is exact, at the sum of the scales |
| `Decimals.Divide` | src/yale/main/Kernel.java:396-398 | fails exactly on a zero divisor; otherwise the quotient times the divisor is the dividend, at the least scale not below the difference of the scales at which this is exact; it fails as non-terminating only when no number of extra digits up to the divisor's magnitude makes the quotient exact |
| `Decimals.IntegralQuotient` | src/yale/main/Kernel.java:421-423 | `divideToIntegralValue`: the truncated quotient as a whole number, with the preferred scale (dividend's minus divisor's) raised only as far as its trailing zeros allow |
| `Decimals.Remainder` | src/yale/main/Kernel.java:421-423 | `remainder` is the dividend less the integral quotient times the divisor. It fails exactly on a zero divisor. When the truncated quotient is 0 the result is the dividend itself, scale included. Otherwise its scale is the larger of the dividend's scale and the divisor's scale less the quotient's trailing zeros. At the larger of the two scales, the dividend is the quotient times the divisor plus the remainder; the remainder is smaller than the divisor in magnitude and, unless zero, has the sign of the dividend |
| `Decimals.RemainderOfSmaller` | src/yale/main/Kernel.java:421-423 | a dividend smaller than the divisor in magnitude is its own remainder, at its own scale |
| `Decimals.RemainderExamplesSmaller` | src/yale/main/Kernel.java:417-424 | `(mod 5 10.0)` is 5 and `(mod 0.1 0.25)` is 0.1 |
| `Decimals.RemainderExampleStripped` | src/yale/main/Kernel.java:417-424 | `(mod 100 0.5)` is 0 at scale 0: the quotient 200 gives up its two trailing zeros |
| `Decimals.RemainderExampleKept` | src/yale/main/Kernel.java:417-424 | `(mod 7 0.5)` is 0.0: the quotient 14 has no trailing zero, so the divisor's scale is kept |
| `Decimals.RemainderExampleNegative` | src/yale/main/Kernel.java:417-424 | `(mod -7.5 2)` is -1.5, with the dividend's sign |
| `Decimals.TruncDivision` | src/yale/main/Kernel.java:421-423 | truncating division and remainder put the dividend back together, and the remainder is smaller than the divisor |
| `Decimals.GreaterAtAnyScale` | src/yale/main/Kernel.java:407-409 | `compareTo` does not depend on scale: one decimal is greater than another exactly when it is greater at any common scale |
| `Decimals.GreaterStrict` | src/yale/main/Kernel.java:407-409 | greater is irreflexive and asymmetric |
| `Decimals.ShowParseRoundTrip` | src/yale/eval/Number.java:42-44 | reading the printed form of a decimal gives back the same unscaled value and scale |
| `Values.Truth` | src/yale/main/Kernel.java:228-232 | a test returns `t` exactly when it holds and `nil` exactly when it does not |
| `Values.KindsPartition` | src/yale/eval/SExpr.java:40-78 | every non-null value is exactly one of atom, pair, function and special form, and every number is an atom |
| `Values.ConsToString` | src/yale/eval/Cons.java:76-88 | the printing loop with its string buffer computes `Show` |
| `Values.ShowProperList` | src/yale/eval/Cons.java:76-88 | a proper list prints as its elements' texts joined by single spaces, in parentheses |
| `Values.ErrorAbout` | src/yale/eval/SExpr.java:87-89 | an error whose message names a value is that error when the value prints, and the printing error otherwise |
| `Values.Car` | src/yale/eval/SExpr.java:87-89 | only a pair has a car; on anything else it fails |
| `Values.Cdr` | src/yale/eval/SExpr.java:98-100 | only a pair has a cdr; on anything else it fails |
| `Values.CarCdrOfCons` | src/yale/eval/Cons.java:51-59 | the car and cdr of a pair are its two parts |
| `Values.NumericValue` | src/yale/eval/SExpr.java:124-126 | only a number has a numeric value, and it is that number's decimal |
| `Values.EqualsEquivalence` | src/yale/eval/Symbol.java:31-38 | `equals` is reflexive, symmetric and transitive, never holds between values of different kinds, and never holds with null |
| `Values.AtomEquality` | src/yale/eval/Number.java:33-40 | an atom equals exactly the values that are the same atom: symbols by name, numbers by decimal value and scale |
| `Values.DistinctPairs` | src/yale/eval/Cons.java:17-25 | pairs have identity equality: two separately built pairs with the same parts are not equal |
| `Values.NilTest` | src/yale/eval/Symbol.java:10 | a value equals `nil` exactly when it is the symbol `nil` |
| `Environment.NewFrame` | src/yale/eval/Environment.java:25-28 | a new environment is empty and has the given parent; the frames already there are unchanged |
| `Environment.Define` | src/yale/eval/Environment.java:41-46 | defining fails exactly when the frame itself already has the name; otherwise it binds the name in that frame only |
| `Environment.Lookup` | src/yale/eval/Environment.java:80-89 | the result is never null; a failure is always "unbound" |
| `Environment.Update` | src/yale/eval/Environment.java:60-68 | a failure is always "unbound"; frames newer than the start are unchanged, and no binding is lost |
| `Environment.LookupNearest` | src/yale/eval/Environment.java:80-89 | lookup returns the value from the nearest frame of the parent chain that binds the name to a non-null value, and fails exactly when there is none |
| `Environment.UpdateNearest` | src/yale/eval/Environment.java:60-68 | an update changes the nearest frame of the chain that has the key, and fails exactly when there is none |
| `Environment.LookupAfterAssign` | src/yale/eval/Environment.java:80-89 | a lookup is unaffected by a change to another name, or to a frame outside its chain |
| `Environment.UpdateThenLookup` | src/yale/eval/Environment.java:60-68 | after a successful update, a lookup from the same frame returns the new value |
| `Environment.DefineShadows` | src/yale/eval/Environment.java:41-46 | a definition is seen from its frame even when an ancestor binds the name, and is invisible from frames whose chain does not pass through it |
| `Environment.LookupExtended` | src/yale/eval/Environment.java:25-28 | adding frames does not change what existing frames see |
| `Environment.NewFrameLookup` | src/yale/eval/Environment.java:25-28 | a new environment sees exactly what its parent sees |
| `Environment.Arena.constructor` | src/yale/eval/Environment.java:21-23 | the root environment: one empty frame without a parent |
| `Environment.Arena.Create` | src/yale/eval/Environment.java:25-28 | adds one empty frame with the given parent and returns its number |
| `Environment.Arena.DefineBinding` | src/yale/eval/Environment.java:41-46 | updates the arena in place as `Define` says, and leaves it unchanged on failure |
| `Environment.Arena.UpdateBinding` | src/yale/eval/Environment.java:60-68 | updates the arena in place as `Update` says, and leaves it unchanged on failure |
| `Environment.Arena.GetBinding` | src/yale/eval/Environment.java:80-89 | returns what `Lookup` gives |
| `Builtins.Arithmetic` | src/yale/main/Kernel.java:345-401 | `+ - * /` give a number when they succeed |
| `Builtins.FoldArguments` | src/yale/main/Kernel.java:349-351 | the loop over the arguments computes `Fold` |
| `Builtins.ApplyArithmetic` | src/yale/main/Kernel.java:356-401 | taking the first argument as the seed of `-` and `/`, then looping over the rest, computes `Arithmetic` |
| `Builtins.FoldOnlyNumbers` | src/yale/main/Kernel.java:349-351 | a fold succeeds only when every argument is a number |
| `Builtins.FoldTotal` | src/yale/main/Kernel.java:345-383 | addition, subtraction and multiplication of numbers never fail |
| `Builtins.Sum` | src/yale/main/Kernel.java:345-354 | `+` succeeds exactly on numbers, and gives their exact sum at the largest of 0 and their scales |
| `Builtins.SumExample` | src/yale/main/Kernel.java:345-354 | `(+ 1 -2)` is -1 at scale 0 |
| `Builtins.Difference` | src/yale/main/Kernel.java:356-372 | `-` with arguments succeeds exactly on numbers, and gives the first minus the sum of the rest, at the largest of their scales |
| `Builtins.Product` | src/yale/main/Kernel.java:374-383 | `*` succeeds exactly on numbers; the result's unscaled value is the product of theirs and its scale the sum of theirs |
| `Builtins.Quotient` | src/yale/main/Kernel.java:385-401 | `(/ x y)` is the decimal quotient, and fails on a zero divisor |
| `Builtins.Identities` | src/yale/main/Kernel.java:345-401 | with no arguments `+` and `-` give 0 and `*` and `/` give 1; `-` and `/` of one argument give it back |
| `Builtins.ApplyBuiltin` | src/yale/main/Kernel.java:183-425 | a builtin's result refers only to frames its arguments refer to |
| `Builtins.GreaterThan` | src/yale/main/Kernel.java:403-415 | `>` of two numbers is `t` exactly when the first is greater; a number is not greater than itself, and `>` never holds both ways |
| `Builtins.GreaterExamples` | src/yale/main/Kernel.java:403-415 | `(> 5555 5555)` is `nil` and `(> 222 221)` is `t` |
| `Builtins.Modulo` | src/yale/main/Kernel.java:417-425 | `mod` of two numbers is the decimal remainder, scale included |
| `Builtins.ModuloKeepsDividend` | src/yale/main/Kernel.java:417-425 | `(mod 5 10.0)` is 5 at scale 0, so `(eql (mod 5 10.0) 5)` is `t` |
| `Builtins.ModuloStripsZeros` | src/yale/main/Kernel.java:417-425 | `(mod 100 0.5)` is 0 at scale 0 |
| `Builtins.BuiltinArity` | src/yale/main/Kernel.java:109-424 | through `validateParameters`, `cons`, `eql`, `>` and `mod` fail with the arity error exactly when not given two arguments, and `car`, `cdr`, `not`, `nullp`, `consp`, `atomp` and `numberp` exactly when not given one; `+`, `-`, `*` and `/` never fail on the count |
| `Builtins.ConsCarCdr` | src/yale/main/Kernel.java:182-208 | `cons` makes a new pair with the next identity, and `car` and `cdr` give back its parts |
| `Builtins.NotAndNullp` | src/yale/main/Kernel.java:211-245 | `not` and `nullp` agree: `t` exactly on `nil`, `nil` on every other value, an error on null |
| `Builtins.Eql` | src/yale/main/Kernel.java:223-234 | `eql` of an atom holds exactly for the same atom, and of a pair exactly for the same pair |
| `Builtins.TypeTests` | src/yale/main/Kernel.java:247-278 | `consp` and `atomp` never fail on a value and never both hold; both are `nil` exactly for functions and special forms; whatever `numberp` accepts `atomp` accepts |
| `Evaluator.Operands` | src/yale/eval/Cons.java:66-74 | the operands refer only to frames the chain refers to; a chain that does not end in `nil` fails with a null or an unsupported-operation error |
| `Evaluator.EvalOperands` | src/yale/eval/Cons.java:66-74 | evaluation gives one value per operand, keeps the store well formed and only lets it grow |
| `Evaluator.Eval` | src/yale/eval/Cons.java:32-49 | evaluation keeps the store well formed, only lets it grow (no frame lost, no parent changed, no name unbound, identities only increase), and its value refers only to existing frames |
| `Evaluator.Combine` | src/yale/eval/Cons.java:32-49 | applying an operator keeps the store well formed and only lets it grow |
| `Evaluator.ApplyForm` | src/yale/eval/Cons.java:45-48 | a special form keeps the store well formed and only lets it grow |
| `Evaluator.EvalBody` | src/yale/main/Kernel.java:323-332 | an empty body fails on its index and changes nothing; the store only grows |
| `Evaluator.ApplyFunction` | src/yale/main/Kernel.java:303-334 | a closure called with as many arguments as parameters runs in a new frame whose parent is the closure's own frame |
| `Evaluator.BindAll` | src/yale/main/Kernel.java:319-322 | a failure is always "already bound"; otherwise the frames only grow and stay well formed |
| `Evaluator.ParamNames` | src/yale/main/Kernel.java:289-297 | a parameter list is read only when every element is a symbol, and gives their names in order |
| `Evaluator.Quote` | src/yale/main/Kernel.java:109-133 | through `validateParameters`, `quote` succeeds exactly with one operand, returns it unevaluated, and changes nothing |
| `Evaluator.If` | src/yale/main/Kernel.java:109-149 | through `validateParameters`, `if` with other than three operands fails with the arity error and leaves the store as it was; in every case it keeps the store well formed and only lets it grow |
| `Evaluator.SetSymbol` | src/yale/main/Kernel.java:109-179 | through `validateParameters`, `define` and `assign` with other than two operands fail with the arity error and leave the store as it was; they succeed only with two operands, the first a symbol, which they return |
| `Evaluator.Lambda` | src/yale/main/Kernel.java:281-302 | `lambda` with no operand fails with the arity error of `validateParameters` (Kernel.java lines 109-121) and leaves the store as it was; otherwise it makes a new function with the parameter names, the remaining operands as body, and the current frame as its defining frame |
| `Evaluator.Let` | src/yale/eval/Let.java:38-80 | `let` and `letrec` with no operand fail with the arity error of `validateParameters` (Kernel.java lines 109-121) and leave the store as it was; with a binding list they create a new frame whose parent is the current one |
| `Evaluator.Binding` | src/yale/eval/Let.java:45-51 | the name is the car of the tuple and the expression the car of its cdr; a missing part fails as `car` does (null or not supported), and a left side that is not a symbol fails |
| `Evaluator.LetBindings` | src/yale/eval/Let.java:43-71 | the names bound are those of the list, distinct, none in the new frame before, all in it after |
| `Evaluator.RootStore` | src/yale/main/Kernel.java:69-82 | a new kernel's store is well formed and has only the root frame |
| `EvaluatorProperties.OperandsOfList` | src/yale/eval/Cons.java:66-74 | the operands of a list built from `vs` are `vs` |
| `EvaluatorProperties.ParamNamesOfList` | src/yale/main/Kernel.java:289-297 | a list of symbols gives back their names |
| `EvaluatorProperties.ParamNamesComplete` | src/yale/main/Kernel.java:289-297 | a proper list is a valid parameter list exactly when every element is a symbol |
| `EvaluatorProperties.SelfEvaluatingOperands` | src/yale/eval/Cons.java:66-74 | operands that are numbers or functions are passed on as they are, and the store is untouched |
| `EvaluatorProperties.EvalAtoms` | src/yale/eval/Symbol.java:22-25 | a symbol evaluates to its nearest binding, numbers and functions to themselves, a special form to null, and null fails; none of these changes the store |
| `EvaluatorProperties.NotApplicable` | src/yale/eval/SExpr.java:114-116 | a pair whose car evaluates to neither a function nor a special form fails as not callable, and its operands are not looked at |
| `EvaluatorProperties.QuoteExpression` | src/yale/main/Kernel.java:127-133 | `(quote e)` evaluates to `e` itself and changes nothing |
| `EvaluatorProperties.IfChoosesOneBranch` | src/yale/main/Kernel.java:135-149 | the value of the condition is evaluated once more; unless that gives `nil` only the second operand is evaluated, otherwise only the third; null fails |
| `EvaluatorProperties.DefineBindsInRoot` | src/yale/main/Kernel.java:151-164 | `define` binds in the root frame wherever it is evaluated, fails if the root already has the name, returns the symbol, and the root then sees the value |
| `EvaluatorProperties.AssignUpdatesNearest` | src/yale/main/Kernel.java:166-179 | `assign` overwrites the nearest binding seen from the current frame, fails when there is none, returns the symbol, and the frame then sees the new value |
| `EvaluatorProperties.SetNeedsSymbol` | src/yale/main/Kernel.java:155-159 | a first operand that is not a symbol fails before anything is evaluated |
| `EvaluatorProperties.LambdaExpression` | src/yale/main/Kernel.java:281-302 | a lambda expression evaluates to a new function closing over the frame it is evaluated in |
| `EvaluatorProperties.ParamFrameBinds` | src/yale/main/Kernel.java:319-322 | with distinct names each parameter is bound to its own argument and nothing else is bound |
| `EvaluatorProperties.BindAllFresh` | src/yale/main/Kernel.java:319-322 | binding new names succeeds exactly when they are distinct, and then adds exactly the parameter bindings |
| `EvaluatorProperties.ClosureCall` | src/yale/main/Kernel.java:303-334 | a closure call with the wrong number of arguments fails before anything is created, a repeated parameter fails as already bound, and otherwise the body runs in the store `CallStore` builds: one new frame, holding each parameter bound to its argument, whose parent is the defining frame, so the caller's frame plays no part |
| `EvaluatorProperties.EmptyLet` | src/yale/eval/Let.java:72-79 | `(let ())` evaluates the empty binding list `nil` in the new frame, which sees what the outer frame sees |
| `EvaluatorProperties.LetNeedsSymbol` | src/yale/eval/Let.java:38-51 | a first binding whose left side is not a symbol makes `let` and `letrec` fail before anything is evaluated, leaving only the new empty frame |
| `EvaluatorProperties.LetRejectsDuplicates` | src/yale/eval/Let.java:69 | a binding list that repeats a name always fails |
| `EvaluatorProperties.LetFrameHidden` | src/yale/eval/Let.java:41 | the frame holding a let's bindings is not on the chain of the frame the let is evaluated in |
| `EvaluatorProperties.LetSingleBinding` | src/yale/eval/Let.java:44-71 | one binding `(f x)` evaluates `x` in the outer frame for let and in the new frame for letrec, and binds `f` to its value in the new frame |
| `EvaluatorProperties.LetBindsLambda` | src/yale/eval/Let.java:52-69 | binding `f` to a lambda expression binds it, in the new frame, to a new function closing over the outer frame (let) or the new frame (letrec) |
| `EvaluatorProperties.LetVersusLetrec` | src/yale/eval/Let.java:52-69 | a function bound by letrec closes over the new frame, which binds its own name to it, so it can call itself; one bound by let closes over the outer frame, where its name means what it meant before |
| `EvaluatorProperties.RootBindingsHold` | src/yale/main/Kernel.java:69-82 | in a new kernel `nil` and `t` are bound to themselves, `quote` and `define` to their special forms and `+` to the addition builtin |
| `EvaluatorLoops.GetParameters` | src/yale/eval/Cons.java:66-74 | the walk up to `nil` gives `EvalOperands` when evaluating and `Operands` with the store unchanged otherwise |
| `EvaluatorLoops.ParameterList` | src/yale/main/Kernel.java:289-297 | the parameter loop of lambda computes `ParamNames` |
| `EvaluatorLoops.BindParameters` | src/yale/main/Kernel.java:319-322 | defining the parameters one by one in the arena leaves it as `BindAll` says, or reports its error |
| `EvaluatorLoops.RunBody` | src/yale/main/Kernel.java:323-332 | evaluating all but the last expression and then the last computes `EvalBody` |
| `EvaluatorLoops.BindLet` | src/yale/eval/Let.java:43-71 | the binding loop computes `LetBindings` |
| `EvaluatorLoops.CallClosure` | src/yale/main/Kernel.java:303-334 | the arity check, the new frame, the binding loop and the body loop together compute `ApplyFunction` |
| `EvaluatorLoops.ApplyLet` | src/yale/eval/Let.java:38-80 | the arity check, the new frame, the binding loop and the body together compute `Let` |

## Left out

- The I/O builtins `exit`, `print`, `println` and `read` are not modelled. They are bound in `Kernel.java` lines 432-462 and `Printer.java`, and they need the console and the process. Their names are not bound in the model's root frame, and `RootBindingsHold` says nothing about them.
- The read-eval-print loop in `Yale.java` is not modelled, nor the standard library it loads.
- `Parser.parseFromFile` is not modelled; in the source it returns null.
- Error messages are not modelled. An exception is reduced to its kind.
  - `ParseError` and `RuntimeException` keep only what went wrong.
  - A message that prints a value can itself fail while printing; that failure is kept (`ErrorAbout`).
- Object identity is not modelled as a hash. A pair, function or special form carries a number instead of `System.identityHashCode`; a function prints with that number.
- In-place mutation is modelled only where noted:
  - The token lists that `parseQuoteAt` and `extractSubExpression` change in place are sequences, rebuilt by each edit.
  - The environments that the evaluator changes in place are a sequence threaded through evaluation. Only the binding loop of a closure works on the mutable `Arena`.
  - Aliasing of `Environment` objects is represented by frame numbers.
- Termination is not modelled. Evaluation takes fuel and fails with `OutOfFuel` when the fuel runs out.
  - It is not proved that more fuel never changes a result that was reached with less.
  - Java's stack overflow on deep recursion is not modelled.
- `Decimals.ParseDecimal`: the scale of a `BigDecimal` is a 32-bit `int`, and the model's scale is unbounded. A literal such as `1e9999999999` has a scale out of that range: `new BigDecimal` rejects it, so the host reads it as a symbol, while `ParseDecimal` and `Parser.ParseLiteral` read it as a number.
- `Decimals.Multiply`: a product whose scale (the sum of the two scales) leaves the 32-bit range makes the host throw an `ArithmeticException`. The model returns the product.
- `Decimals.Divide`: a quotient whose scale leaves the 32-bit range makes the host throw an `ArithmeticException`. The model returns the quotient. The same holds for `Decimals.Remainder`, whose scales come from the same arithmetic.
- `Decimals.Divide`: the search for an exact quotient tries at most as many extra digits as the divisor's unscaled value. This is enough for every terminating expansion, but it is not `BigDecimal`'s own algorithm, and `MathContext` rounding is not modelled because the core never uses it.
- `Lexer.IsWhitespace` follows `Character.isWhitespace`. `Decimals.IsDigit` accepts only the ASCII digits: `Character.isDigit` and `new BigDecimal(String)` also accept digits of other scripts, and that is not modelled.
- Whole programs are not proved, e.g. the factorial defined with `letrec`: that needs long concrete evaluation chains.
  - `LetVersusLetrec` proves the scoping difference that such a program relies on.
  - `ClosureCall` proves how a call binds its arguments.
