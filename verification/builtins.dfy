/** The builtin functions of the root environment (Kernel): the list
    functions, the predicates and the arithmetic, each applied to arguments
    that have already been evaluated. */
module Builtins {
  import opened Errors
  import opened Decimals
  import opened Values

  /** validateParameters: an exact count, or a lower bound when `atLeast`. */
  predicate ArityOk(count: nat, expected: nat, atLeast: bool) {
    if atLeast then count >= expected else count == expected
  }

  /** The four arithmetic functions that fold over their arguments. */
  predicate IsFold(op: Builtin) {
    op == AddOp || op == SubOp || op == MulOp || op == DivOp
  }

  /** One step of a fold: the running value combined with the next number. */
  function Step(op: Builtin, acc: Decimal, d: Decimal): Result<Decimal>
    requires IsFold(op)
  {
    match op
    case AddOp => Ok(Add(acc, d))
    case SubOp => Ok(Subtract(acc, d))
    case MulOp => Ok(Multiply(acc, d))
    case DivOp => Divide(acc, d)
  }

  /** The loop over the arguments: each one's number is taken (a non-number
      stops the loop with its error) and combined into the running value. */
  function Fold(op: Builtin, acc: Decimal, args: seq<Value>): (r: Result<Decimal>)
    requires IsFold(op)
    decreases |args|
  {
    if args == [] then Ok(acc)
    else
      match NumericValue(args[0])
      case Err(e) => Err(e)
      case Ok(d) =>
        match Step(op, acc, d)
        case Err(e) => Err(e)
        case Ok(a) => Fold(op, a, args[1..])
  }

  /** `+` and `*` start from 0 and 1; `-` and `/` start from their first
      argument, which is then dropped, or from 0 and 1 when there is none. */
  function Arithmetic(op: Builtin, args: seq<Value>): (r: Result<Value>)
    requires IsFold(op)
    ensures r.Ok? ==> r.value.Number?
  {
    if (op == SubOp || op == DivOp) && |args| >= 1 then
      match NumericValue(args[0])
      case Err(e) => Err(e)
      case Ok(d) => AsNumber(Fold(op, d, args[1..]))
    else
      AsNumber(Fold(op, if op == MulOp || op == DivOp then One else Zero, args))
  }

  function AsNumber(r: Result<Decimal>): Result<Value> {
    match r
    case Ok(d) => Ok(Number(d))
    case Err(e) => Err(e)
  }

  /** A builtin function applied to its arguments. `cons` makes a new pair,
      whose identity is `id`. */
  function ApplyBuiltin(op: Builtin, args: seq<Value>, id: nat): (r: Result<Value>)
    ensures r.Ok? ==> Bound(r.value) <= BoundAll(args)
  {
    match op
    case ConsOp =>
      if !ArityOk(|args|, 2, false) then Err(Arity)
      else
        BoundAllElements(args, 0);
        BoundAllElements(args, 1);
        Ok(Cons(id, args[0], args[1]))
    case CarOp =>
      if !ArityOk(|args|, 1, false) then Err(Arity)
      else
        BoundAllElements(args, 0);
        Car(args[0])
    case CdrOp =>
      if !ArityOk(|args|, 1, false) then Err(Arity)
      else
        BoundAllElements(args, 0);
        Cdr(args[0])
    case NotOp => Predicate1(op, args)
    case NullpOp => Predicate1(op, args)
    case ConspOp => Predicate1(op, args)
    case AtompOp => Predicate1(op, args)
    case NumberpOp => Predicate1(op, args)
    case EqlOp =>
      if !ArityOk(|args|, 2, false) then Err(Arity)
      else if args[0] == Null then Err(NullValue)
      else Ok(Truth(Equals(args[0], args[1])))
    case GtOp =>
      if !ArityOk(|args|, 2, false) then Err(Arity)
      else
        (match NumericValue(args[0])
         case Err(e) => Err(e)
         case Ok(x) =>
          (match NumericValue(args[1])
           case Err(e) => Err(e)
           case Ok(y) => Ok(Truth(Greater(x, y)))))
    case ModOp =>
      if !ArityOk(|args|, 2, false) then Err(Arity)
      else
        (match NumericValue(args[0])
         case Err(e) => Err(e)
         case Ok(x) =>
          (match NumericValue(args[1])
           case Err(e) => Err(e)
           case Ok(y) => AsNumber(Remainder(x, y))))
    case _ => Arithmetic(op, args)
  }

  /** The question each one-argument predicate asks of a non-null value:
      `not` and `nullp` compare with `nil`, the others test the kind. */
  predicate Test(op: Builtin, v: Value)
    requires v != Null
  {
    match op
    case NotOp => Equals(v, Nil)
    case NullpOp => Equals(v, Nil)
    case ConspOp => IsCons(v)
    case AtompOp => IsAtom(v)
    case NumberpOp => IsNumber(v)
    case _ => false
  }

  /** A one-argument predicate answering `t` or `nil`; asking it of null fails. */
  function Predicate1(op: Builtin, args: seq<Value>): Result<Value> {
    if !ArityOk(|args|, 1, false) then Err(Arity)
    else if args[0] == Null then Err(NullValue)
    else Ok(Truth(Test(op, args[0])))
  }

  /** The loop of the arithmetic functions, one argument at a time. */
  method FoldArguments(op: Builtin, seed: Decimal, args: seq<Value>) returns (r: Result<Decimal>)
    requires IsFold(op)
    ensures r == Fold(op, seed, args)
  {
    var acc := seed;
    var i := 0;
    while i < |args|
      invariant 0 <= i <= |args|
      invariant Fold(op, acc, args[i..]) == Fold(op, seed, args)
    {
      assert args[i..][1..] == args[i + 1..];
      var d := NumericValue(args[i]);
      if d.Err? {
        return Err(d.error);
      }
      var next := Step(op, acc, d.value);
      if next.Err? {
        return Err(next.error);
      }
      acc := next.value;
      i := i + 1;
    }
    return Ok(acc);
  }

  /** The bodies of `+`, `-`, `*` and `/`. */
  method ApplyArithmetic(op: Builtin, args: seq<Value>) returns (r: Result<Value>)
    requires IsFold(op)
    ensures r == Arithmetic(op, args)
  {
    var start: Decimal;
    var rest := args;
    if (op == SubOp || op == DivOp) && |args| >= 1 {
      var first := NumericValue(args[0]);
      if first.Err? {
        return Err(first.error);
      }
      start := first.value;
      rest := args[1..];
    } else if op == MulOp || op == DivOp {
      start := One;
    } else {
      start := Zero;
    }
    var folded := FoldArguments(op, start, rest);
    r := AsNumber(folded);
  }

  // What the arithmetic computes

  /** The value of a number at scale `s` (0 for anything else). */
  function ValueAt(v: Value, s: int): int {
    if v.Number? && v.num.scale <= s then Align(v.num, s) else 0
  }

  /** The largest of `s` and the scales of the numbers among the arguments. */
  function ScaleMax(s: int, args: seq<Value>): int
    decreases |args|
  {
    if args == [] then s
    else ScaleMax(if args[0].Number? then Max(s, args[0].num.scale) else s, args[1..])
  }

  /** The sum of the arguments' values, at scale `s`. */
  function Total(args: seq<Value>, s: int): int {
    if args == [] then 0 else ValueAt(args[0], s) + Total(args[1..], s)
  }

  predicate AllNumbers(args: seq<Value>) {
    forall i :: 0 <= i < |args| ==> args[i].Number?
  }

  /** Every argument is a number of scale at most `s`. */
  predicate ScalesWithin(args: seq<Value>, s: int) {
    forall i :: 0 <= i < |args| ==> args[i].Number? && args[i].num.scale <= s
  }

  lemma ScalesTail(args: seq<Value>, s: int, t: int)
    requires args != [] && args[0].Number? && args[0].num.scale <= t && ScalesWithin(args[1..], t)
    ensures ScalesWithin(args, t)
  {
    forall i | 0 <= i < |args|
      ensures args[i].Number? && args[i].num.scale <= t
    {
      if i > 0 {
        assert args[i] == args[1..][i - 1];
      }
    }
  }

  /** A fold that succeeds has seen only numbers. */
  lemma {:induction false} FoldOnlyNumbers(op: Builtin, acc: Decimal, args: seq<Value>)
    requires IsFold(op) && Fold(op, acc, args).Ok?
    decreases |args|
    ensures AllNumbers(args)
  {
    if args != [] {
      var a := Step(op, acc, args[0].num).value;
      FoldOnlyNumbers(op, a, args[1..]);
      forall i | 0 <= i < |args|
        ensures args[i].Number?
      {
        if i > 0 {
          assert args[i] == args[1..][i - 1];
        }
      }
    }
  }

  /** Adding, subtracting and multiplying numbers cannot fail. */
  lemma {:induction false} FoldTotal(op: Builtin, acc: Decimal, args: seq<Value>)
    requires op == AddOp || op == SubOp || op == MulOp
    decreases |args|
    requires AllNumbers(args)
    ensures Fold(op, acc, args).Ok?
  {
    if args != [] {
      var a := Step(op, acc, args[0].num).value;
      assert AllNumbers(args[1..]) by {
        forall i | 0 <= i < |args| - 1
          ensures args[1..][i].Number?
        {
          assert args[1..][i] == args[i + 1];
        }
      }
      FoldTotal(op, a, args[1..]);
    }
  }

  /** A sum fold: the result's scale is the largest seen, and its value is the
      start value plus the sum of the arguments. */
  lemma {:induction false} SumFold(acc: Decimal, args: seq<Value>, r: Decimal)
    requires Fold(AddOp, acc, args) == Ok(r)
    decreases |args|
    ensures r.scale == ScaleMax(acc.scale, args)
    ensures r.scale >= acc.scale && ScalesWithin(args, r.scale)
    ensures forall s :: s >= r.scale ==> Align(r, s) == Align(acc, s) + Total(args, s)
  {
    if args != [] {
      var d := args[0].num;
      var a := Add(acc, d);
      SumFold(a, args[1..], r);
      ScalesTail(args, r.scale, r.scale);
      forall s | s >= r.scale
        ensures Align(r, s) == Align(acc, s) + Total(args, s)
      {
        assert ValueAt(args[0], s) == Align(d, s);
      }
    }
  }

  /** A difference fold: the start value minus the sum of the arguments. */
  lemma {:induction false} DifferenceFold(acc: Decimal, args: seq<Value>, r: Decimal)
    requires Fold(SubOp, acc, args) == Ok(r)
    decreases |args|
    ensures r.scale == ScaleMax(acc.scale, args)
    ensures r.scale >= acc.scale && ScalesWithin(args, r.scale)
    ensures forall s :: s >= r.scale ==> Align(r, s) == Align(acc, s) - Total(args, s)
  {
    if args != [] {
      var d := args[0].num;
      var a := Subtract(acc, d);
      DifferenceFold(a, args[1..], r);
      ScalesTail(args, r.scale, r.scale);
      forall s | s >= r.scale
        ensures Align(r, s) == Align(acc, s) - Total(args, s)
      {
        assert ValueAt(args[0], s) == Align(d, s);
      }
    }
  }

  /** The product of the arguments' unscaled values (1 for a non-number). */
  function UnscaledProduct(args: seq<Value>): int {
    if args == [] then 1
    else (if args[0].Number? then args[0].num.unscaled else 1) * UnscaledProduct(args[1..])
  }

  /** The sum of the arguments' scales (0 for a non-number). */
  function ScaleSum(args: seq<Value>): int {
    if args == [] then 0
    else (if args[0].Number? then args[0].num.scale else 0) + ScaleSum(args[1..])
  }

  /** A product fold multiplies the unscaled values and adds the scales, so
      the product is exact. */
  lemma {:induction false} ProductFold(acc: Decimal, args: seq<Value>, r: Decimal)
    requires Fold(MulOp, acc, args) == Ok(r)
    decreases |args|
    ensures r.unscaled == acc.unscaled * UnscaledProduct(args)
    ensures r.scale == acc.scale + ScaleSum(args)
  {
    if args != [] {
      var d := args[0].num;
      ProductFold(Multiply(acc, d), args[1..], r);
      assert r.unscaled == acc.unscaled * d.unscaled * UnscaledProduct(args[1..]);
    }
  }

  /** `(+ ...)`: the exact sum of the arguments, at the largest of their
      scales (and never below 0, the scale of the start value); it fails only
      on a non-number. */
  lemma Sum(args: seq<Value>)
    ensures Arithmetic(AddOp, args).Ok? <==> AllNumbers(args)
    ensures Arithmetic(AddOp, args).Ok? ==> var r := Arithmetic(AddOp, args).value.num;
      && r.scale == ScaleMax(0, args)
      && r.scale >= 0 && ScalesWithin(args, r.scale)
      && forall s :: s >= r.scale ==> Align(r, s) == Total(args, s)
  {
    if AllNumbers(args) {
      FoldTotal(AddOp, Zero, args);
      SumFold(Zero, args, Fold(AddOp, Zero, args).value);
    } else if Fold(AddOp, Zero, args).Ok? {
      FoldOnlyNumbers(AddOp, Zero, args);
    }
  }

  /** `(+ 1 -2)` is -1, at scale 0, so it equals the number read from `-1`. */
  lemma SumExample()
    ensures Arithmetic(AddOp, [Number(Decimal(1, 0)), Number(Decimal(-2, 0))]) == Ok(Number(Decimal(-1, 0)))
  {
    var args := [Number(Decimal(1, 0)), Number(Decimal(-2, 0))];
    Sum(args);
    assert AllNumbers(args);
    assert args[1..][1..] == [];
    var r := Arithmetic(AddOp, args).value.num;
    assert Align(r, 0) == Total(args, 0) == -1;
  }

  /** `(- x ...)`: the first argument minus the sum of the others; with no
      argument, 0. */
  lemma Difference(args: seq<Value>)
    requires args != []
    ensures Arithmetic(SubOp, args).Ok? <==> AllNumbers(args)
    ensures Arithmetic(SubOp, args).Ok? ==> var r := Arithmetic(SubOp, args).value.num;
      && r.scale == ScaleMax(args[0].num.scale, args[1..])
      && ScalesWithin(args, r.scale)
      && forall s :: s >= r.scale ==> Align(r, s) == Align(args[0].num, s) - Total(args[1..], s)
  {
    var rest := args[1..];
    assert AllNumbers(args) <==> args[0].Number? && AllNumbers(rest) by {
      if args[0].Number? && AllNumbers(rest) {
        forall i | 0 <= i < |args|
          ensures args[i].Number?
        {
          if i > 0 {
            assert args[i] == rest[i - 1];
          }
        }
      }
    }
    if args[0].Number? {
      var d := args[0].num;
      if AllNumbers(rest) {
        FoldTotal(SubOp, d, rest);
        var r := Fold(SubOp, d, rest).value;
        DifferenceFold(d, rest, r);
        ScalesTail(args, r.scale, r.scale);
      } else if Fold(SubOp, d, rest).Ok? {
        FoldOnlyNumbers(SubOp, d, rest);
      }
    }
  }

  /** `(* ...)`: the exact product of the arguments; its scale is the sum of
      their scales. */
  lemma Product(args: seq<Value>)
    ensures Arithmetic(MulOp, args).Ok? <==> AllNumbers(args)
    ensures Arithmetic(MulOp, args).Ok? ==>
      Arithmetic(MulOp, args).value.num == Decimal(UnscaledProduct(args), ScaleSum(args))
  {
    if AllNumbers(args) {
      FoldTotal(MulOp, One, args);
      ProductFold(One, args, Fold(MulOp, One, args).value);
    } else if Fold(MulOp, One, args).Ok? {
      FoldOnlyNumbers(MulOp, One, args);
    }
  }

  /** `(/ x y)` is the exact quotient of Divide: it fails on a zero divisor
      and on a quotient without a finite expansion. */
  lemma Quotient(x: Decimal, y: Decimal)
    ensures Arithmetic(DivOp, [Number(x), Number(y)]) == AsNumber(Divide(x, y))
    ensures y.unscaled == 0 ==> Arithmetic(DivOp, [Number(x), Number(y)]) == Err(DivideByZero)
  {
    assert [Number(x), Number(y)][1..] == [Number(y)];
    assert [Number(y)][1..] == [];
    assert Fold(DivOp, x, [Number(y)]) == (match Divide(x, y) case Err(e) => Err(e) case Ok(q) => Fold(DivOp, q, []));
  }

  /** With no arguments `+` and `-` give 0 and `*` and `/` give 1; `-` and `/`
      give back a lone argument unchanged. */
  lemma Identities(d: Decimal)
    ensures Arithmetic(AddOp, []) == Ok(Number(Zero)) && Arithmetic(SubOp, []) == Ok(Number(Zero))
    ensures Arithmetic(MulOp, []) == Ok(Number(One)) && Arithmetic(DivOp, []) == Ok(Number(One))
    ensures Arithmetic(SubOp, [Number(d)]) == Ok(Number(d))
    ensures Arithmetic(DivOp, [Number(d)]) == Ok(Number(d))
  {
    assert [Number(d)][1..] == [];
  }

  // The other builtins

  /** `>` answers `t` exactly when the first number is strictly greater: no
      number is greater than itself and two are never greater than each other. */
  lemma GreaterThan(x: Decimal, y: Decimal, id: nat)
    ensures ApplyBuiltin(GtOp, [Number(x), Number(y)], id) == Ok(Truth(Greater(x, y)))
    ensures ApplyBuiltin(GtOp, [Number(x), Number(x)], id) == Ok(Nil)
    ensures !(ApplyBuiltin(GtOp, [Number(x), Number(y)], id) == Ok(T) &&
              ApplyBuiltin(GtOp, [Number(y), Number(x)], id) == Ok(T))
  {
    GreaterStrict(x, y);
  }

  /** `mod` is the truncating remainder of two numbers. */
  lemma Modulo(x: Decimal, y: Decimal, id: nat)
    ensures ApplyBuiltin(ModOp, [Number(x), Number(y)], id) == AsNumber(Remainder(x, y))
  {
  }

  /** `(mod 5 10.0)` is 5, at the dividend's scale (so, by Eql,
      `(eql (mod 5 10.0) 5)` is t). */
  lemma ModuloKeepsDividend(x: Decimal, y: Decimal, id: nat)
    requires x == Decimal(5, 0) && y == Decimal(100, 1)
    ensures ApplyBuiltin(ModOp, [Number(x), Number(y)], id) == Ok(Number(x))
  {
    RemainderExamplesSmaller(x, y);
    Modulo(x, y, id);
  }

  /** `(mod 100 0.5)` is 0 at scale 0. */
  lemma ModuloStripsZeros(x: Decimal, y: Decimal, id: nat)
    requires x == Decimal(100, 0) && y == Decimal(5, 1)
    ensures ApplyBuiltin(ModOp, [Number(x), Number(y)], id) == Ok(Number(Decimal(0, 0)))
  {
    RemainderExampleStripped(x, y);
    Modulo(x, y, id);
  }

  /** Each builtin of fixed arity fails with the arity error exactly when it
      is given the wrong number of arguments: two for `cons`, `eql`, `>` and
      `mod`, one for `car`, `cdr` and the predicates. The folding arithmetic
      takes any number. */
  lemma BuiltinArity(op: Builtin, args: seq<Value>, id: nat)
    ensures op in {ConsOp, EqlOp, GtOp, ModOp} ==> (ApplyBuiltin(op, args, id) == Err(Arity) <==> |args| != 2)
    ensures op in {CarOp, CdrOp, NotOp, NullpOp, ConspOp, AtompOp, NumberpOp} ==>
      (ApplyBuiltin(op, args, id) == Err(Arity) <==> |args| != 1)
    ensures IsFold(op) ==> ApplyBuiltin(op, args, id) != Err(Arity)
  {
    if |args| >= 1 {
      NumericFailures(args[0]);
    }
    if |args| >= 2 {
      NumericFailures(args[1]);
    }
    if IsFold(op) {
      FoldNeverArity(op, if op == MulOp || op == DivOp then One else Zero, args);
      if |args| >= 1 && args[0].Number? {
        FoldNeverArity(op, args[0].num, args[1..]);
      }
    }
  }

  /** A fold fails only with the error of a non-number or of a division. */
  lemma {:induction false} FoldNeverArity(op: Builtin, acc: Decimal, args: seq<Value>)
    requires IsFold(op)
    decreases |args|
    ensures Fold(op, acc, args) != Err(Arity)
  {
    if args != [] {
      NumericFailures(args[0]);
      if args[0].Number? && Step(op, acc, args[0].num).Ok? {
        FoldNeverArity(op, Step(op, acc, args[0].num).value, args[1..]);
      }
    }
  }

  /** car and cdr of a fresh pair give back its two halves. */
  lemma ConsCarCdr(a: Value, d: Value, id: nat, id2: nat)
    ensures ApplyBuiltin(ConsOp, [a, d], id) == Ok(Cons(id, a, d))
    ensures ApplyBuiltin(CarOp, [Cons(id, a, d)], id2) == Ok(a)
    ensures ApplyBuiltin(CdrOp, [Cons(id, a, d)], id2) == Ok(d)
  {
  }

  /** `not` and `nullp` answer `t` exactly on `nil` and fail only on null. */
  lemma NotAndNullp(v: Value, id: nat)
    ensures ApplyBuiltin(NotOp, [v], id) == ApplyBuiltin(NullpOp, [v], id)
    ensures v == Null ==> ApplyBuiltin(NotOp, [v], id) == Err(NullValue)
    ensures v != Null ==> (ApplyBuiltin(NotOp, [v], id) == Ok(T) <==> v == Nil)
    ensures v != Null ==> (ApplyBuiltin(NotOp, [v], id) == Ok(Nil) <==> v != Nil)
  {
  }

  /** `eql` on atoms is equality of the atoms; pairs are eql only to
      themselves (the same identity). */
  lemma Eql(a: Value, b: Value, id: nat)
    requires a != Null
    ensures IsAtom(a) ==> (ApplyBuiltin(EqlOp, [a, b], id) == Ok(T) <==> a == b)
    ensures a.Cons? ==> (ApplyBuiltin(EqlOp, [a, b], id) == Ok(T) <==> b.Cons? && b.id == a.id)
  {
  }

  /** Every non-null value is exactly one of: a pair (consp), an atom (atomp),
      or a function or special form; numberp implies atomp. */
  lemma TypeTests(v: Value, id: nat)
    requires v != Null
    ensures ApplyBuiltin(ConspOp, [v], id).Ok? && ApplyBuiltin(AtompOp, [v], id).Ok?
    ensures !(ApplyBuiltin(ConspOp, [v], id) == Ok(T) && ApplyBuiltin(AtompOp, [v], id) == Ok(T))
    ensures ApplyBuiltin(NumberpOp, [v], id) == Ok(T) ==> ApplyBuiltin(AtompOp, [v], id) == Ok(T)
    ensures ApplyBuiltin(ConspOp, [v], id) == Ok(Nil) && ApplyBuiltin(AtompOp, [v], id) == Ok(Nil) <==>
      v.Function? || v.SpecialForm?
  {
  }

  /** Worked examples: (> 5555 5555) is nil and (> 222 221) is t. */
  lemma GreaterExamples(id: nat)
    ensures ApplyBuiltin(GtOp, [Number(Decimal(5555, 0)), Number(Decimal(5555, 0))], id) == Ok(Nil)
    ensures ApplyBuiltin(GtOp, [Number(Decimal(222, 0)), Number(Decimal(221, 0))], id) == Ok(T)
  {
    GreaterThan(Decimal(5555, 0), Decimal(5555, 0), id);
    GreaterThan(Decimal(222, 0), Decimal(221, 0), id);
  }

}
