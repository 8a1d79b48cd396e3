/** The loops of the evaluator written as the host writes them: the operand
    walk of getParameters, the parameter walk of lambda, the binding and body
    loops of a closure call, and the binding loop of Let.apply. Each is
    proved to compute the function of the Evaluator that specifies it, so
    every property proved of those functions holds of these loops. */
module EvaluatorLoops {
  import opened Errors
  import opened Values
  import opened Environment
  import opened Evaluator

  /** `acc` followed by what the rest of a walk gives, or the walk's error. */
  function Prepend<T>(acc: seq<T>, o: Outcome<seq<T>>): Outcome<seq<T>> {
    if o.result.Ok? then Outcome(Ok(acc + o.result.value), o.store) else o
  }

  function PrependResult<T>(acc: seq<T>, r: Result<seq<T>>): Result<seq<T>> {
    if r.Ok? then Ok(acc + r.value) else r
  }

  lemma PrependNothing<T>(o: Outcome<seq<T>>)
    ensures Prepend([], o) == o
  {
    if o.result.Ok? {
      assert [] + o.result.value == o.result.value;
    }
  }

  lemma PrependResultNothing<T>(r: Result<seq<T>>)
    ensures PrependResult([], r) == r
  {
    if r.Ok? {
      assert [] + r.value == r.value;
    }
  }

  lemma PrependTwice<T>(acc: seq<T>, x: T, o: Outcome<seq<T>>)
    ensures Prepend(acc, Prepend([x], o)) == Prepend(acc + [x], o)
  {
    if o.result.Ok? {
      assert acc + ([x] + o.result.value) == (acc + [x]) + o.result.value;
    }
  }

  lemma PrependResultTwice<T>(acc: seq<T>, x: T, r: Result<seq<T>>)
    ensures PrependResult(acc, PrependResult([x], r)) == PrependResult(acc + [x], r)
  {
    if r.Ok? {
      assert acc + ([x] + r.value) == (acc + [x]) + r.value;
    }
  }

  /** getParameters: walks the cdr chain up to `nil`, collecting each car,
      evaluated in turn when `evaluate` holds (for a function) and as it is
      otherwise (for a special form). */
  method GetParameters(evaluate: bool, chain: Value, env: nat, st: Store, fuel: nat)
    returns (out: Outcome<seq<Value>>)
    requires Fits(st, env, chain)
    ensures evaluate ==> out == EvalOperands(chain, env, st, fuel)
    ensures !evaluate ==> out == Outcome(Operands(chain), st)
  {
    var curr := chain;
    var s := st;
    var acc: seq<Value> := [];
    PrependNothing(EvalOperands(chain, env, st, fuel));
    PrependResultNothing(Operands(chain));
    while curr != Nil
      invariant Fits(s, env, curr)
      invariant evaluate ==> EvalOperands(chain, env, st, fuel) == Prepend(acc, EvalOperands(curr, env, s, fuel))
      invariant !evaluate ==> s == st && Operands(chain) == PrependResult(acc, Operands(curr))
      decreases Size(curr)
    {
      match curr {
        case Null =>
          return Outcome(Err(NullValue), s);
        case Cons(_, a, d) =>
          if evaluate {
            var first := Eval(a, env, s, fuel);
            if first.result.Err? {
              return Outcome(Err(first.result.error), first.store);
            }
            PrependTwice(acc, first.result.value, EvalOperands(d, env, first.store, fuel));
            acc := acc + [first.result.value];
            s := first.store;
          } else {
            PrependResultTwice(acc, a, Operands(d));
            acc := acc + [a];
          }
          curr := d;
        case _ =>
          return Outcome(Err(NotSupported), s);
      }
    }
    out := Outcome(Ok(acc), s);
    assert acc + [] == acc;
  }

  /** The parameter loop of lambda: every element of the list must be a
      symbol, whose name is collected. */
  method ParameterList(chain: Value) returns (r: Result<seq<string>>)
    ensures r == ParamNames(chain)
  {
    var curr := chain;
    var names: seq<string> := [];
    PrependResultNothing(ParamNames(chain));
    while curr != Nil
      invariant ParamNames(chain) == PrependResult(names, ParamNames(curr))
      decreases Size(curr)
    {
      match curr {
        case Null =>
          return Err(NullValue);
        case Cons(_, a, d) =>
          if !a.Symbol? {
            return Err(if a == Null then NullValue else ErrorAbout(a, NotASymbol));
          }
          PrependResultTwice(names, a.name, ParamNames(d));
          names := names + [a.name];
          curr := d;
        case _ =>
          return Err(NotSupported);
      }
    }
    r := Ok(names);
    assert names + [] == names;
  }

  /** The first loop of a closure call: each parameter defined, in order, in
      the new environment `f` of the arena. */
  method BindParameters(arena: Arena, f: nat, names: seq<string>, vals: seq<Value>) returns (failure: Option<Error>)
    requires arena.Valid() && f < |arena.frames| && |names| == |vals|
    modifies arena
    ensures arena.Valid()
    ensures match BindAll(old(arena.frames), f, names, vals)
      case Ok(fs) => failure == None && arena.frames == fs
      case Err(e) => failure == Some(e)
  {
    ghost var expected := BindAll(arena.frames, f, names, vals);
    for i := 0 to |names|
      invariant arena.Valid() && f < |arena.frames|
      invariant expected == BindAll(arena.frames, f, names[i..], vals[i..])
    {
      assert names[i..][1..] == names[i + 1..] && vals[i..][1..] == vals[i + 1..];
      failure := arena.DefineBinding(f, names[i], vals[i]);
      if failure.Some? {
        return;
      }
    }
    failure := None;
  }

  /** The body loop of a closure call and of Let.apply: every expression but
      the last evaluated for its effect, then the last for the value. An
      empty body fails on its last index. */
  method RunBody(body: seq<Value>, env: nat, st: Store, fuel: nat) returns (out: Outcome<Value>)
    requires FitsAll(st, env, body)
    ensures out == EvalBody(body, env, st, fuel)
  {
    if |body| == 0 {
      return Outcome(Err(IndexOutOfBounds), st);
    }
    var s := st;
    for i := 0 to |body| - 1
      invariant FitsAll(s, env, body[i..])
      invariant EvalBody(body, env, st, fuel) == EvalBody(body[i..], env, s, fuel)
    {
      BoundAllElements(body[i..], 0);
      var first := Eval(body[i], env, s, fuel);
      if first.result.Err? {
        return Outcome(Err(first.result.error), first.store);
      }
      assert body[i..][1..] == body[i + 1..];
      BoundAllSlice(body[i..], 1);
      s := first.store;
    }
    BoundAllElements(body[|body| - 1..], 0);
    out := Eval(body[|body| - 1], env, s, fuel);
  }

  /** The binding loop of Let.apply: each binding's right side evaluated in
      the outer frame (let) or the new one (letrec) and defined in the new
      one. Returns the names bound. */
  method BindLet(recursive: bool, bindings: Value, env: nat, sub: nat, st: Store, fuel: nat)
    returns (out: Outcome<seq<string>>)
    requires Fits(st, env, bindings) && sub < |st.frames|
    ensures out == LetBindings(recursive, bindings, env, sub, st, fuel)
  {
    var curr := bindings;
    var s := st;
    var names: seq<string> := [];
    PrependNothing(LetBindings(recursive, bindings, env, sub, st, fuel));
    while curr != Nil
      invariant Fits(s, env, curr) && sub < |s.frames|
      invariant LetBindings(recursive, bindings, env, sub, st, fuel) ==
        Prepend(names, LetBindings(recursive, curr, env, sub, s, fuel))
      decreases Size(curr)
    {
      if curr == Null {
        return Outcome(Err(NullValue), s);
      }
      var b := Binding(curr);
      if b.Err? {
        return Outcome(Err(b.error), s);
      }
      var (left, right) := b.value;
      var val := Eval(right, if recursive then sub else env, s, fuel);
      if val.result.Err? {
        return Outcome(Err(val.result.error), val.store);
      }
      var defined := Define(val.store.frames, sub, left, val.result.value);
      if defined.Err? {
        return Outcome(Err(defined.error), val.store);
      }
      var s2 := val.store.(frames := defined.value);
      PrependTwice(names, left, LetBindings(recursive, curr.cdr, env, sub, s2, fuel));
      names := names + [left];
      s := s2;
      curr := curr.cdr;
    }
    out := Outcome(Ok(names), s);
    assert names + [] == names;
  }

  /** A call of a function made by lambda: the arity check, a new
      environment whose parent is the closure's own, the parameters bound
      there, and the body run there. */
  method CallClosure(id: nat, params: seq<string>, body: seq<Value>, e: nat, args: seq<Value>, st: Store, fuel: nat)
    returns (out: Outcome<Value>)
    requires Valid(st) && Bound(Function(id, Closure(params, body, e))) <= |st.frames|
    requires BoundAll(args) <= |st.frames|
    ensures out == ApplyFunction(Function(id, Closure(params, body, e)), args, st, fuel)
  {
    if |args| != |params| {
      return Outcome(Err(Arity), st);
    }
    var sub := |st.frames|;
    var fs := NewFrame(st.frames, e);
    var arena := new Arena.Of(fs);
    var failure := BindParameters(arena, sub, params, args);
    if failure.Some? {
      return Outcome(Err(failure.value), st.(frames := fs));
    }
    BoundAllSlice(body, 0);
    out := RunBody(body, sub, st.(frames := arena.frames), fuel);
  }

  /** Let.apply: the arity check, a new environment whose parent is `env`,
      the binding loop, then the body, or with no body the binding list
      itself evaluated in the new environment. */
  method ApplyLet(recursive: bool, ops: seq<Value>, env: nat, st: Store, fuel: nat) returns (out: Outcome<Value>)
    requires FitsAll(st, env, ops)
    ensures out == Let(recursive, ops, env, st, fuel)
  {
    if |ops| < 1 {
      return Outcome(Err(Arity), st);
    }
    var sub := |st.frames|;
    var st1 := st.(frames := NewFrame(st.frames, env));
    BoundAllElements(ops, 0);
    var bound := BindLet(recursive, ops[0], env, sub, st1, fuel);
    if bound.result.Err? {
      return Outcome(Err(bound.result.error), bound.store);
    }
    if |ops| == 1 {
      out := Eval(ops[0], sub, bound.store, fuel);
    } else {
      BoundAllSlice(ops, 1);
      out := RunBody(ops[1..], sub, bound.store, fuel);
    }
  }
}
