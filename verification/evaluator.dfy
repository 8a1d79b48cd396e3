/** Evaluation: Cons.eval with getParameters, the eval of every other kind of
    value, the special forms of Kernel and Let, and the application of builtin
    functions and closures. All environments live in a store together with
    the identity the next new pair or function gets; evaluation takes a store
    and gives back the store as it is afterwards, also when it fails, since
    the host does not undo a change made before an exception. Evaluation is
    cut off by fuel, since a program need not terminate. */
module Evaluator {
  import opened Errors
  import opened Values
  import opened Environment
  import opened Builtins

  /** Every environment frame, and the next free identity. */
  datatype Store = Store(frames: seq<Frame>, nextId: nat)

  /** A result or an error, and the store after the step. */
  datatype Outcome<T> = Outcome(result: Result<T>, store: Store)

  /** The root environment, in which the kernel's bindings live and every
      `define` binds. */
  const Root: nat := 0

  predicate Valid(st: Store) {
    |st.frames| >= 1 && Acyclic(st.frames) && Closed(st.frames)
  }

  /** `b` is a later state of `a`. */
  predicate Grows(a: Store, b: Store) {
    Extends(a.frames, b.frames) && a.nextId <= b.nextId
  }

  /** What every evaluation step keeps: the store stays well formed and only
      grows, and a value produced refers only to existing frames. */
  predicate Sound(st: Store, out: Outcome<Value>) {
    Valid(out.store) && Grows(st, out.store) &&
    (out.result.Ok? ==> Bound(out.result.value) <= |out.store.frames|)
  }

  /** `v` may be evaluated in frame `env` of `st`. */
  predicate Fits(st: Store, env: nat, v: Value) {
    Valid(st) && env < |st.frames| && Bound(v) <= |st.frames|
  }

  predicate FitsAll(st: Store, env: nat, vs: seq<Value>) {
    Valid(st) && env < |st.frames| && BoundAll(vs) <= |st.frames|
  }

  /** No name occurs twice. */
  predicate NoDuplicates(ns: seq<string>) {
    forall i, j :: 0 <= i < j < |ns| ==> ns[i] != ns[j]
  }

  // The operand lists

  /** getParameters without evaluation: the elements of the nil-terminated
      chain of pairs, in order. A chain ending in null fails as the host's
      null dereference does; one ending in another atom fails on its car. */
  function Operands(chain: Value): (r: Result<seq<Value>>)
    ensures r.Ok? ==> BoundAll(r.value) <= Bound(chain)
    ensures r.Err? ==> r.error == NullValue || r.error == NotSupported
    decreases chain
  {
    if chain == Nil then Ok([])
    else match chain
      case Null => Err(NullValue)
      case Cons(_, a, d) =>
        (match Operands(d)
         case Err(e) => Err(e)
         case Ok(rest) =>
           assert ([a] + rest)[1..] == rest;
           Ok([a] + rest))
      case _ => Err(NotSupported)
  }

  /** The list whose elements are `vs`, its pairs numbered from `id`. */
  function MakeList(vs: seq<Value>, id: nat): Value
    decreases |vs|
  {
    if vs == [] then Nil else Cons(id, vs[0], MakeList(vs[1..], id + 1))
  }

  /** The parameter list of `lambda`: every element must be a symbol. A null
      element fails while its message is built. */
  function ParamNames(chain: Value): (r: Result<seq<string>>)
    ensures r.Ok? ==> Operands(chain).Ok? && |r.value| == |Operands(chain).value|
    ensures r.Ok? ==> forall i :: 0 <= i < |r.value| ==> Operands(chain).value[i] == Symbol(r.value[i])
    decreases chain
  {
    if chain == Nil then Ok([])
    else match chain
      case Null => Err(NullValue)
      case Cons(_, a, d) =>
        if !a.Symbol? then Err(if a == Null then NullValue else ErrorAbout(a, NotASymbol))
        else
          (match ParamNames(d)
           case Err(e) => Err(e)
           case Ok(ns) =>
             assert forall i :: 0 < i < |ns| + 1 ==> Operands(chain).value[i] == Operands(d).value[i - 1];
             Ok([a.name] + ns))
      case _ => Err(NotSupported)
  }

  /** One binding `(name expr)` of a `let`: the car of the current pair is
      the tuple, whose car is the name and the car of whose cdr is the
      expression. A left side that is not a symbol fails, after the
      expression has been found; a null left side prints as "null". */
  function Binding(curr: Value): (r: Result<(string, Value)>)
    ensures r.Ok? ==> curr.Cons? && Size(r.value.1) < Size(curr) && Bound(r.value.1) <= Bound(curr)
    ensures !curr.Cons? ==> r == Err(if curr == Null then NullValue else NotSupported)
    ensures curr.Cons? && !curr.car.Cons? ==> r == Err(if curr.car == Null then NullValue else NotSupported)
    ensures curr.Cons? && curr.car.Cons? && !curr.car.cdr.Cons? ==>
      r == Err(if curr.car.cdr == Null then NullValue else NotSupported)
    ensures curr.Cons? && curr.car.Cons? && curr.car.cdr.Cons? ==>
      r == if curr.car.car.Symbol? then Ok((curr.car.car.name, curr.car.cdr.car))
           else Err(if curr.car.car == Null then NotASymbol else ErrorAbout(curr.car.car, NotASymbol))
  {
    match curr
    case Cons(_, tuple, _) =>
      (match tuple
       case Cons(_, left, d) =>
         (match d
          case Cons(_, right, _) =>
            assert Size(right) < Size(d) < Size(tuple) < Size(curr);
            assert Bound(right) <= Bound(d) <= Bound(tuple) <= Bound(curr);
            if left.Symbol? then Ok((left.name, right))
            else Err(if left == Null then NotASymbol else ErrorAbout(left, NotASymbol))
          case Null => Err(NullValue)
          case _ => Err(NotSupported))
       case Null => Err(NullValue)
       case _ => Err(NotSupported))
    case Null => Err(NullValue)
    case _ => Err(NotSupported)
  }

  /** The names a binding list introduces, read without evaluating anything. */
  function BindingNames(curr: Value): Result<seq<string>>
    decreases Size(curr)
  {
    if curr == Null then Err(NullValue)
    else if curr == Nil then Ok([])
    else
      match Binding(curr)
      case Err(e) => Err(e)
      case Ok(b) =>
        match BindingNames(curr.cdr)
        case Err(e) => Err(e)
        case Ok(ns) => Ok([b.0] + ns)
  }

  /** The loop of a closure binding its parameters, in order, in frame `f`;
      a repeated name fails. */
  function BindAll(fs: seq<Frame>, f: nat, names: seq<string>, vals: seq<Value>): (r: Result<seq<Frame>>)
    requires f < |fs| && |names| == |vals|
    ensures r.Err? ==> r.error == AlreadyBound
    ensures r.Ok? ==> |r.value| == |fs| && Extends(fs, r.value)
    ensures r.Ok? && Acyclic(fs) ==> Acyclic(r.value)
    ensures r.Ok? && Closed(fs) && BoundAll(vals) <= |fs| ==> Closed(r.value)
    decreases |names|
  {
    if names == [] then Ok(fs)
    else
      match Define(fs, f, names[0], vals[0])
      case Err(e) => Err(e)
      case Ok(fs1) =>
        BoundAllElements(vals, 0);
        BoundAllSlice(vals, 1);
        BindAll(fs1, f, names[1..], vals[1..])
  }

  // Evaluation

  /** eval: a symbol is looked up, numbers and functions evaluate to
      themselves, a special form to null, and a pair is an application. */
  function Eval(v: Value, env: nat, st: Store, fuel: nat): (out: Outcome<Value>)
    requires Fits(st, env, v)
    ensures Sound(st, out)
    decreases fuel, 0, Size(v), 0
  {
    match v
    case Null => Outcome(Err(NullValue), st)
    case Symbol(name) => Outcome(Lookup(st.frames, env, name), st)
    case Number(_) => Outcome(Ok(v), st)
    case Function(_, _) => Outcome(Ok(v), st)
    case SpecialForm(_, _) => Outcome(Ok(Null), st)
    case Cons(_, head, tail) =>
      if fuel == 0 then Outcome(Err(OutOfFuel), st)
      else Combine(head, tail, env, st, fuel - 1)
  }

  /** Cons.eval: the car is evaluated to the operator. A function gets the
      operands evaluated, left to right, a special form gets them as they
      are, and anything else cannot be applied. */
  function Combine(head: Value, tail: Value, env: nat, st: Store, fuel: nat): (out: Outcome<Value>)
    requires Fits(st, env, head) && Bound(tail) <= |st.frames|
    ensures Sound(st, out)
    decreases fuel, 4, 0, 0
  {
    var op := Eval(head, env, st, fuel);
    if op.result.Err? then Outcome(Err(op.result.error), op.store)
    else
      var form := op.result.value;
      match form
      case Null => Outcome(Err(NullValue), op.store)
      case Function(_, _) =>
        var args := EvalOperands(tail, env, op.store, fuel);
        if args.result.Err? then Outcome(Err(args.result.error), args.store)
        else ApplyFunction(form, args.result.value, args.store, fuel)
      case SpecialForm(_, f) =>
        (match Operands(tail)
         case Err(e) => Outcome(Err(e), op.store)
         case Ok(ops) => ApplyForm(f, ops, env, op.store, fuel))
      case _ => Outcome(Err(ErrorAbout(form, NotCallable)), op.store)
  }

  /** getParameters with evaluation: each element of the chain evaluated in
      turn, each in the store the previous one left. */
  function EvalOperands(chain: Value, env: nat, st: Store, fuel: nat): (out: Outcome<seq<Value>>)
    requires Fits(st, env, chain)
    ensures Valid(out.store) && Grows(st, out.store)
    ensures out.result.Ok? ==> BoundAll(out.result.value) <= |out.store.frames|
    ensures out.result.Ok? ==> Operands(chain).Ok? && |out.result.value| == |Operands(chain).value|
    decreases fuel, 0, Size(chain), 1
  {
    if chain == Nil then Outcome(Ok([]), st)
    else match chain
      case Null => Outcome(Err(NullValue), st)
      case Cons(_, a, d) =>
        var first := Eval(a, env, st, fuel);
        if first.result.Err? then Outcome(Err(first.result.error), first.store)
        else
          var rest := EvalOperands(d, env, first.store, fuel);
          if rest.result.Err? then Outcome(Err(rest.result.error), rest.store)
          else
            var vs := [first.result.value] + rest.result.value;
            assert vs[1..] == rest.result.value;
            Outcome(Ok(vs), rest.store)
      case _ => Outcome(Err(NotSupported), st)
  }

  /** A body: every expression evaluated in order, the value of the last
      returned. An empty body fails on the host's index -1. */
  function EvalBody(body: seq<Value>, env: nat, st: Store, fuel: nat): (out: Outcome<Value>)
    requires FitsAll(st, env, body)
    ensures Sound(st, out)
    ensures body == [] ==> out == Outcome(Err(IndexOutOfBounds), st)
    decreases fuel, 1, |body|, 0
  {
    if body == [] then Outcome(Err(IndexOutOfBounds), st)
    else
      BoundAllElements(body, 0);
      var first := Eval(body[0], env, st, fuel);
      if |body| == 1 then first
      else if first.result.Err? then Outcome(Err(first.result.error), first.store)
      else
        BoundAllSlice(body, 1);
        EvalBody(body[1..], env, first.store, fuel)
  }

  /** Function.apply: a builtin computes its value (cons using the next
      identity); a closure checks its arity, binds its parameters in a new
      frame whose parent is the frame it was made in (the caller's frame
      plays no part) and evaluates its body there. */
  function ApplyFunction(f: Value, args: seq<Value>, st: Store, fuel: nat): (out: Outcome<Value>)
    requires f.Function? && Valid(st) && Bound(f) <= |st.frames| && BoundAll(args) <= |st.frames|
    ensures Sound(st, out)
    ensures f.fn.Closure? && |args| == |f.fn.params| ==>
      |out.store.frames| > |st.frames| && out.store.frames[|st.frames|].parent == Some(f.fn.env)
    decreases fuel, 2, 0, 0
  {
    match f.fn
    case Primitive(op) =>
      Outcome(ApplyBuiltin(op, args, st.nextId), if op == ConsOp then st.(nextId := st.nextId + 1) else st)
    case Closure(params, body, defEnv) =>
      if |args| != |params| then Outcome(Err(Arity), st)
      else
        var sub := |st.frames|;
        var fs := NewFrame(st.frames, defEnv);
        match BindAll(fs, sub, params, args)
        case Err(e) => Outcome(Err(e), st.(frames := fs))
        case Ok(fs1) => EvalBody(body, sub, st.(frames := fs1), fuel)
  }

  /** SpecialForm.apply, on the unevaluated operands. */
  function ApplyForm(form: Form, ops: seq<Value>, env: nat, st: Store, fuel: nat): (out: Outcome<Value>)
    requires FitsAll(st, env, ops)
    ensures Sound(st, out)
    decreases fuel, 3, 0, 0
  {
    match form
    case QuoteForm => Quote(ops, st)
    case IfForm => If(ops, env, st, fuel)
    case DefineForm => SetSymbol(false, ops, env, st, fuel)
    case AssignForm => SetSymbol(true, ops, env, st, fuel)
    case LambdaForm => Lambda(ops, env, st)
    case LetForm => Let(false, ops, env, st, fuel)
    case LetrecForm => Let(true, ops, env, st, fuel)
  }

  /** quote: exactly one operand, returned unevaluated. */
  function Quote(ops: seq<Value>, st: Store): (out: Outcome<Value>)
    requires Valid(st) && BoundAll(ops) <= |st.frames|
    ensures out.store == st && Sound(st, out)
    ensures out.result.Ok? <==> |ops| == 1
    ensures out.result.Ok? ==> out.result.value == ops[0]
    ensures out.result.Err? ==> out.result.error == Arity
  {
    if !ArityOk(|ops|, 1, false) then Outcome(Err(Arity), st)
    else
      BoundAllElements(ops, 0);
      Outcome(Ok(ops[0]), st)
  }

  /** if: exactly three operands. The condition is evaluated, and its value
      evaluated once more; unless that gives `nil` only the second operand is
      evaluated, otherwise only the third. */
  function If(ops: seq<Value>, env: nat, st: Store, fuel: nat): (out: Outcome<Value>)
    requires FitsAll(st, env, ops)
    ensures Sound(st, out)
    ensures |ops| != 3 ==> out == Outcome(Err(Arity), st)
    decreases fuel, 2, 0, 0
  {
    if !ArityOk(|ops|, 3, false) then Outcome(Err(Arity), st)
    else
      BoundAllElements(ops, 0);
      BoundAllElements(ops, 1);
      BoundAllElements(ops, 2);
      var c := Eval(ops[0], env, st, fuel);
      if c.result.Err? then c
      else
        var w := Eval(c.result.value, env, c.store, fuel);
        if w.result.Err? then w
        else if w.result.value == Null then Outcome(Err(NullValue), w.store)
        else if !Equals(w.result.value, Nil) then Eval(ops[1], env, w.store, fuel)
        else Eval(ops[2], env, w.store, fuel)
  }

  /** define (`assign` false) and assign (`assign` true): exactly two
      operands, the first a symbol. The second is evaluated; define then
      binds the symbol in the root frame, failing if the root already has it,
      and assign overwrites the nearest binding seen from `env`, failing if
      there is none. Both return the symbol. */
  function SetSymbol(assign: bool, ops: seq<Value>, env: nat, st: Store, fuel: nat): (out: Outcome<Value>)
    requires FitsAll(st, env, ops)
    ensures Sound(st, out)
    ensures |ops| != 2 ==> out == Outcome(Err(Arity), st)
    ensures out.result.Ok? ==> |ops| == 2 && ops[0].Symbol? && out.result.value == ops[0]
    decreases fuel, 2, 0, 0
  {
    if !ArityOk(|ops|, 2, false) then Outcome(Err(Arity), st)
    else if !ops[0].Symbol? then
      Outcome(Err(if ops[0] == Null then NullValue else ErrorAbout(ops[0], NotASymbol)), st)
    else
      BoundAllElements(ops, 1);
      var name := ops[0].name;
      var val := Eval(ops[1], env, st, fuel);
      if val.result.Err? then val
      else
        var fs := val.store.frames;
        var changed := if assign then Update(fs, env, name, val.result.value) else Define(fs, Root, name, val.result.value);
        if changed.Err? then Outcome(Err(changed.error), val.store)
        else Outcome(Ok(ops[0]), val.store.(frames := changed.value))
  }

  /** lambda: at least one operand, the parameter list; the rest is the body.
      The result is a new function closing over `env`. */
  function Lambda(ops: seq<Value>, env: nat, st: Store): (out: Outcome<Value>)
    requires FitsAll(st, env, ops)
    ensures Sound(st, out)
    ensures ops == [] ==> out == Outcome(Err(Arity), st)
    ensures out.result.Ok? ==> (|ops| >= 1 && ParamNames(ops[0]).Ok? &&
      out.result.value == Function(st.nextId, Closure(ParamNames(ops[0]).value, ops[1..], env)))
  {
    if !ArityOk(|ops|, 1, true) then Outcome(Err(Arity), st)
    else
      match ParamNames(ops[0])
      case Err(e) => Outcome(Err(e), st)
      case Ok(names) =>
        BoundAllSlice(ops, 1);
        Outcome(Ok(Function(st.nextId, Closure(names, ops[1..], env))), st.(nextId := st.nextId + 1))
  }

  /** Let.apply: at least one operand, the binding list. The bindings go into
      a new frame whose parent is `env`; then the remaining operands are the
      body, or, with none, the binding list itself is evaluated there. */
  function Let(recursive: bool, ops: seq<Value>, env: nat, st: Store, fuel: nat): (out: Outcome<Value>)
    requires FitsAll(st, env, ops)
    ensures Sound(st, out)
    ensures ops == [] ==> out == Outcome(Err(Arity), st)
    ensures |ops| >= 1 ==>
      |out.store.frames| > |st.frames| && out.store.frames[|st.frames|].parent == Some(env)
    decreases fuel, 2, 0, 0
  {
    if !ArityOk(|ops|, 1, true) then Outcome(Err(Arity), st)
    else
      var sub := |st.frames|;
      var st1 := st.(frames := NewFrame(st.frames, env));
      BoundAllElements(ops, 0);
      var bound := LetBindings(recursive, ops[0], env, sub, st1, fuel);
      if bound.result.Err? then Outcome(Err(bound.result.error), bound.store)
      else LetBody(ops, sub, bound.store, fuel)
  }

  /** The rest of Let.apply, in the new frame `sub`: the body, or the
      binding list itself when there is no body. */
  function LetBody(ops: seq<Value>, sub: nat, st: Store, fuel: nat): (out: Outcome<Value>)
    requires ops != [] && FitsAll(st, sub, ops)
    ensures Sound(st, out)
    decreases fuel, 1, |ops|, 1
  {
    if |ops| == 1 then
      BoundAllElements(ops, 0);
      Eval(ops[0], sub, st, fuel)
    else
      BoundAllSlice(ops, 1);
      EvalBody(ops[1..], sub, st, fuel)
  }

  /** The binding loop of Let.apply: each right side is evaluated in `env`
      (let) or in the new frame `sub` (letrec) and bound in `sub`. Returns the
      names bound: exactly those of the list, none bound in `sub` before, no
      two the same, all bound in `sub` after. */
  function LetBindings(recursive: bool, curr: Value, env: nat, sub: nat, st: Store, fuel: nat)
    : (out: Outcome<seq<string>>)
    requires Fits(st, env, curr) && sub < |st.frames|
    ensures Valid(out.store) && Grows(st, out.store)
    ensures out.result.Ok? ==> BindingNames(curr) == out.result
    ensures out.result.Ok? ==> NoDuplicates(out.result.value)
    ensures out.result.Ok? ==> forall i :: 0 <= i < |out.result.value| ==>
      out.result.value[i] !in st.frames[sub].bindings && out.result.value[i] in out.store.frames[sub].bindings
    decreases fuel, 0, Size(curr), 1
  {
    if curr == Null then Outcome(Err(NullValue), st)
    else if curr == Nil then Outcome(Ok([]), st)
    else
      match Binding(curr)
      case Err(e) => Outcome(Err(e), st)
      case Ok(b) =>
        var val := Eval(b.1, if recursive then sub else env, st, fuel);
        if val.result.Err? then Outcome(Err(val.result.error), val.store)
        else
          match Define(val.store.frames, sub, b.0, val.result.value)
          case Err(e) => Outcome(Err(e), val.store)
          case Ok(fs) =>
            var st2 := val.store.(frames := fs);
            var rest := LetBindings(recursive, curr.cdr, env, sub, st2, fuel);
            if rest.result.Err? then Outcome(Err(rest.result.error), rest.store)
            else
              NamesStep(b.0, rest.result.value, st.frames[sub].bindings, fs[sub].bindings,
                        rest.store.frames[sub].bindings);
              Outcome(Ok([b.0] + rest.result.value), rest.store)
  }

  /** One more binding in front of the names bound after it: the new name was
      unbound before, and the later ones were unbound once it was added. */
  lemma NamesStep(n: string, rest: seq<string>, before: map<string, Value>, mid: map<string, Value>,
                  after: map<string, Value>)
    requires n !in before && n in mid && before.Keys <= mid.Keys && mid.Keys <= after.Keys
    requires NoDuplicates(rest)
    requires forall i :: 0 <= i < |rest| ==> rest[i] !in mid && rest[i] in after
    ensures NoDuplicates([n] + rest)
    ensures forall i :: 0 <= i < |[n] + rest| ==> ([n] + rest)[i] !in before && ([n] + rest)[i] in after
  {
    var names := [n] + rest;
    forall i | 1 <= i < |names|
      ensures names[i] == rest[i - 1]
    {
    }
  }

  // The root environment

  /** The kernel's root bindings, numbered in the order the constructor
      creates them: the special forms, the list functions, the predicates
      and the arithmetic, then `nil` and `t` bound to themselves. */
  function RootBindings(): map<string, Value> {
    map[
      "lambda" := SpecialForm(0, LambdaForm),
      "let" := SpecialForm(1, LetForm),
      "letrec" := SpecialForm(2, LetrecForm),
      "quote" := SpecialForm(3, QuoteForm),
      "if" := SpecialForm(4, IfForm),
      "define" := SpecialForm(5, DefineForm),
      "assign" := SpecialForm(6, AssignForm),
      "cons" := Function(7, Primitive(ConsOp)),
      "car" := Function(8, Primitive(CarOp)),
      "cdr" := Function(9, Primitive(CdrOp)),
      "not" := Function(10, Primitive(NotOp)),
      "eql" := Function(11, Primitive(EqlOp)),
      "nullp" := Function(12, Primitive(NullpOp)),
      "consp" := Function(13, Primitive(ConspOp)),
      "atomp" := Function(14, Primitive(AtompOp)),
      "numberp" := Function(15, Primitive(NumberpOp)),
      "+" := Function(16, Primitive(AddOp)),
      "-" := Function(17, Primitive(SubOp)),
      "*" := Function(18, Primitive(MulOp)),
      "/" := Function(19, Primitive(DivOp)),
      ">" := Function(20, Primitive(GtOp)),
      "mod" := Function(21, Primitive(ModOp)),
      "nil" := Nil,
      "t" := T
    ]
  }

  /** The store of a new kernel: only the root frame. */
  function RootStore(): (st: Store)
    ensures Valid(st) && |st.frames| == 1
  {
    var st := Store([Frame(RootBindings(), None)], 22);
    assert Closed(st.frames) by {
      forall k | k in st.frames[0].bindings
        ensures Bound(st.frames[0].bindings[k]) <= 1
      {
      }
    }
    st
  }
}
