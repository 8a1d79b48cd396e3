/** What evaluation does, stated against the environment operations: the
    special forms, closure application with lexical scope, and the scoping
    of let and letrec. */
module EvaluatorProperties {
  import opened Errors
  import opened Values
  import opened Environment
  import opened Builtins
  import opened Evaluator

  // Operand lists

  /** Reading a list built from `vs` gives back `vs`. */
  lemma {:induction false} OperandsOfList(vs: seq<Value>, id: nat)
    ensures Operands(MakeList(vs, id)) == Ok(vs)
    decreases |vs|
  {
    if vs != [] {
      OperandsOfList(vs[1..], id + 1);
      assert [vs[0]] + vs[1..] == vs;
    }
  }

  /** The symbols named by `ns`, in order. */
  function Symbols(ns: seq<string>): (vs: seq<Value>)
    ensures |vs| == |ns|
  {
    if ns == [] then [] else [Symbol(ns[0])] + Symbols(ns[1..])
  }

  /** A parameter list of symbols gives back their names. */
  lemma {:induction false} ParamNamesOfList(ns: seq<string>, id: nat)
    ensures ParamNames(MakeList(Symbols(ns), id)) == Ok(ns)
    decreases |ns|
  {
    if ns != [] {
      var vs := Symbols(ns);
      assert vs[1..] == Symbols(ns[1..]);
      ParamNamesOfList(ns[1..], id + 1);
      assert [ns[0]] + ns[1..] == ns;
    }
  }

  /** A parameter list fails exactly when some element is not a symbol. */
  lemma {:induction false} ParamNamesComplete(chain: Value)
    requires Operands(chain).Ok?
    ensures ParamNames(chain).Ok? <==>
      forall i :: 0 <= i < |Operands(chain).value| ==> Operands(chain).value[i].Symbol?
    decreases chain
  {
    if chain != Nil {
      var d := chain.cdr;
      ParamNamesComplete(d);
      var ops := Operands(chain).value;
      assert ops[1..] == Operands(d).value;
      assert forall i :: 0 < i < |ops| ==> ops[i] == Operands(d).value[i - 1];
    }
  }

  /** getParameters with evaluation: operands that evaluate to themselves
      are passed on as they are, and the store is untouched. */
  lemma {:induction false} SelfEvaluatingOperands(chain: Value, env: nat, st: Store, fuel: nat)
    requires Fits(st, env, chain) && Operands(chain).Ok?
    requires forall i :: 0 <= i < |Operands(chain).value| ==>
      Operands(chain).value[i].Number? || Operands(chain).value[i].Function?
    ensures EvalOperands(chain, env, st, fuel) == Outcome(Operands(chain), st)
    decreases chain
  {
    if chain != Nil {
      var d := chain.cdr;
      assert forall i :: 0 <= i < |Operands(d).value| ==> Operands(d).value[i] == Operands(chain).value[i + 1];
      SelfEvaluatingOperands(d, env, st, fuel);
    }
  }

  lemma BoundPair(a: Value, b: Value)
    ensures BoundAll([a, b]) == NatMax(Bound(a), Bound(b))
  {
    assert [a, b][1..] == [b];
    assert [b][1..] == [];
    assert BoundAll([b]) == NatMax(Bound(b), BoundAll([]));
    assert BoundAll([a, b]) == NatMax(Bound(a), BoundAll([b]));
  }

  // Evaluation of the kinds of value

  /** Numbers and functions evaluate to themselves, a special form to null,
      a symbol to its nearest binding; none of these changes the store. */
  lemma EvalAtoms(v: Value, env: nat, st: Store, fuel: nat)
    requires Fits(st, env, v) && !v.Cons?
    ensures Eval(v, env, st, fuel).store == st
    ensures v.Number? || v.Function? ==> Eval(v, env, st, fuel).result == Ok(v)
    ensures v.SpecialForm? ==> Eval(v, env, st, fuel).result == Ok(Null)
    ensures v.Symbol? ==> Eval(v, env, st, fuel).result == Lookup(st.frames, env, v.name)
    ensures v == Null ==> Eval(v, env, st, fuel).result == Err(NullValue)
  {
  }

  /** A pair whose car does not evaluate to a function or special form
      cannot be applied; its operands are never looked at. */
  lemma NotApplicable(head: Value, tail: Value, id: nat, env: nat, st: Store, fuel: nat)
    requires Fits(st, env, Cons(id, head, tail))
    requires Eval(head, env, st, fuel).result.Ok?
    requires var f := Eval(head, env, st, fuel).result.value; f != Null && !f.Function? && !f.SpecialForm?
    ensures var op := Eval(head, env, st, fuel);
      Eval(Cons(id, head, tail), env, st, fuel + 1) ==
        Outcome(Err(ErrorAbout(op.result.value, NotCallable)), op.store)
  {
  }

  // quote

  /** `(quote e)` evaluates to `e` itself, wherever `quote` names the quote
      form. */
  lemma QuoteExpression(e: Value, i: nat, j: nat, k: nat, env: nat, st: Store, fuel: nat)
    requires Fits(st, env, e) && Lookup(st.frames, env, "quote") == Ok(SpecialForm(i, QuoteForm))
    ensures Fits(st, env, Cons(j, Symbol("quote"), Cons(k, e, Nil)))
    ensures Eval(Cons(j, Symbol("quote"), Cons(k, e, Nil)), env, st, fuel + 1) == Outcome(Ok(e), st)
  {
    var tail := Cons(k, e, Nil);
    OperandsOfList([e], k);
    assert [e][1..] == [];
    assert MakeList([e], k) == tail;
    assert BoundAll([e]) == Bound(e) by {
      assert BoundAll([e]) == NatMax(Bound(e), BoundAll([]));
    }
    var op := Eval(Symbol("quote"), env, st, fuel);
    assert op == Outcome(Ok(SpecialForm(i, QuoteForm)), st);
    assert ApplyForm(QuoteForm, [e], env, st, fuel) == Outcome(Ok(e), st);
    assert Combine(Symbol("quote"), tail, env, st, fuel) == Outcome(Ok(e), st);
  }

  // if

  /** if evaluates its condition, evaluates the value once more, and then
      evaluates only the second operand when that is not `nil` and only the
      third when it is. */
  lemma IfChoosesOneBranch(c: Value, a: Value, b: Value, env: nat, st: Store, fuel: nat)
    requires FitsAll(st, env, [c, a, b])
    ensures Fits(st, env, c) && Fits(st, env, a) && Fits(st, env, b)
    ensures var first := Eval(c, env, st, fuel);
      first.result.Ok? ==>
      var w := Eval(first.result.value, env, first.store, fuel);
      && (w.result.Ok? && w.result.value != Null && w.result.value != Nil ==>
           If([c, a, b], env, st, fuel) == Eval(a, env, w.store, fuel))
      && (w.result.Ok? && w.result.value == Nil ==>
           If([c, a, b], env, st, fuel) == Eval(b, env, w.store, fuel))
      && (w.result.Ok? && w.result.value == Null ==>
           If([c, a, b], env, st, fuel).result == Err(NullValue))
  {
    BoundAllElements([c, a, b], 0);
    BoundAllElements([c, a, b], 1);
    BoundAllElements([c, a, b], 2);
    var first := Eval(c, env, st, fuel);
    if first.result.Ok? {
      var w := Eval(first.result.value, env, first.store, fuel);
      if w.result.Ok? && w.result.value != Null {
        NilTest(w.result.value);
      }
    }
  }

  // define and assign

  /** define binds in the root frame, whatever the frame it is evaluated in:
      it fails if the root already has the name, and otherwise returns the
      symbol, after which the root sees the new value. */
  lemma DefineBindsInRoot(n: string, e: Value, env: nat, st: Store, fuel: nat)
    requires Fits(st, env, e)
    ensures FitsAll(st, env, [Symbol(n), e])
    ensures var val := Eval(e, env, st, fuel);
      var out := SetSymbol(false, [Symbol(n), e], env, st, fuel);
      && (val.result.Err? ==> out == val)
      && (val.result.Ok? && n in val.store.frames[Root].bindings ==>
            out == Outcome(Err(AlreadyBound), val.store))
      && (val.result.Ok? && n !in val.store.frames[Root].bindings ==>
            && out.result == Ok(Symbol(n))
            && out.store == val.store.(frames := Assign(val.store.frames, Root, n, val.result.value))
            && (val.result.value != Null ==> Lookup(out.store.frames, Root, n) == Ok(val.result.value)))
  {
    BoundPair(Symbol(n), e);
  }

  /** assign overwrites the nearest binding seen from the frame it is
      evaluated in, fails when there is none, and returns the symbol; the
      frame then sees the new value. */
  lemma AssignUpdatesNearest(n: string, e: Value, env: nat, st: Store, fuel: nat)
    requires Fits(st, env, e)
    ensures FitsAll(st, env, [Symbol(n), e])
    ensures var val := Eval(e, env, st, fuel);
      var out := SetSymbol(true, [Symbol(n), e], env, st, fuel);
      && (val.result.Err? ==> out == val)
      && (val.result.Ok? ==>
            var updated := Update(val.store.frames, env, n, val.result.value);
            && (updated.Err? ==> out == Outcome(Err(Unbound), val.store))
            && (updated.Ok? ==> out == Outcome(Ok(Symbol(n)), val.store.(frames := updated.value)))
            && (updated.Ok? && val.result.value != Null ==>
                  Lookup(out.store.frames, env, n) == Ok(val.result.value)))
  {
    BoundPair(Symbol(n), e);
    var val := Eval(e, env, st, fuel);
    if val.result.Ok? {
      var updated := Update(val.store.frames, env, n, val.result.value);
      if updated.Ok? && val.result.value != Null {
        UpdateThenLookup(val.store.frames, env, n, val.result.value);
      }
    }
  }

  /** define and assign reject a first operand that is not a symbol. */
  lemma SetNeedsSymbol(assign: bool, x: Value, e: Value, env: nat, st: Store, fuel: nat)
    requires FitsAll(st, env, [x, e]) && !x.Symbol?
    ensures SetSymbol(assign, [x, e], env, st, fuel) ==
      Outcome(Err(if x == Null then NullValue else ErrorAbout(x, NotASymbol)), st)
  {
  }

  // lambda and closures

  /** A lambda expression evaluates to a new function closing over the frame
      it is evaluated in, with the parameter names and the remaining operands
      as its body. */
  lemma LambdaExpression(params: Value, names: seq<string>, body: seq<Value>, i: nat, j: nat, k: nat,
                         env: nat, st: Store, fuel: nat)
    requires Fits(st, env, Cons(j, Symbol("lambda"), MakeList([params] + body, k)))
    requires Lookup(st.frames, env, "lambda") == Ok(SpecialForm(i, LambdaForm))
    requires ParamNames(params) == Ok(names)
    ensures Eval(Cons(j, Symbol("lambda"), MakeList([params] + body, k)), env, st, fuel + 1) ==
      Outcome(Ok(Function(st.nextId, Closure(names, body, env))), st.(nextId := st.nextId + 1))
  {
    var ops := [params] + body;
    OperandsOfList(ops, k);
    FormCall(j, "lambda", i, LambdaForm, MakeList(ops, k), ops, env, st, fuel);
    assert ops[0] == params && ops[1..] == body;
    LambdaOperands(ops, names, env, st, fuel);
  }

  /** A special form named by a symbol is applied to the operands unevaluated. */
  lemma FormCall(j: nat, name: string, i: nat, f: Form, tail: Value, ops: seq<Value>,
                 env: nat, st: Store, fuel: nat)
    requires Fits(st, env, Cons(j, Symbol(name), tail))
    requires Lookup(st.frames, env, name) == Ok(SpecialForm(i, f))
    requires Operands(tail) == Ok(ops)
    ensures FitsAll(st, env, ops)
    ensures Eval(Cons(j, Symbol(name), tail), env, st, fuel + 1) == ApplyForm(f, ops, env, st, fuel)
  {
    var op := Eval(Symbol(name), env, st, fuel);
    assert op == Outcome(Ok(SpecialForm(i, f)), st);
  }

  lemma LambdaOperands(ops: seq<Value>, names: seq<string>, env: nat, st: Store, fuel: nat)
    requires FitsAll(st, env, ops) && |ops| >= 1 && ParamNames(ops[0]) == Ok(names)
    ensures ApplyForm(LambdaForm, ops, env, st, fuel) ==
      Outcome(Ok(Function(st.nextId, Closure(names, ops[1..], env))), st.(nextId := st.nextId + 1))
  {
    assert ApplyForm(LambdaForm, ops, env, st, fuel) == Lambda(ops, env, st);
  }

  /** The bindings a closure call makes, parameter to argument. */
  function ParamFrame(names: seq<string>, vals: seq<Value>): map<string, Value>
    requires |names| == |vals|
    decreases |names|
  {
    if names == [] then map[] else map[names[0] := vals[0]] + ParamFrame(names[1..], vals[1..])
  }

  /** With distinct names, each parameter is bound to its own argument and
      nothing else is bound. */
  lemma {:induction false} ParamFrameBinds(names: seq<string>, vals: seq<Value>)
    requires |names| == |vals| && NoDuplicates(names)
    ensures forall k :: k in ParamFrame(names, vals) <==> k in names
    ensures forall i :: 0 <= i < |names| ==> ParamFrame(names, vals)[names[i]] == vals[i]
    decreases |names|
  {
    if names != [] {
      var tail, rest := names[1..], vals[1..];
      DistinctTail(names);
      ParamFrameBinds(tail, rest);
      ParamFrameStep(names[0], vals[0], tail, rest, ParamFrame(tail, rest));
      assert names == [names[0]] + tail && vals == [vals[0]] + rest;
    }
  }

  /** Dropping the first of distinct names leaves distinct names without it. */
  lemma DistinctTail(names: seq<string>)
    requires names != [] && NoDuplicates(names)
    ensures NoDuplicates(names[1..]) && names[0] !in names[1..]
  {
    var tail := names[1..];
    forall i, j | 0 <= i < j < |tail|
      ensures tail[i] != tail[j]
    {
      assert tail[i] == names[i + 1] && tail[j] == names[j + 1];
    }
    forall i | 0 <= i < |tail|
      ensures tail[i] != names[0]
    {
      assert tail[i] == names[i + 1];
    }
  }

  /** One more parameter in front of a frame that binds the later ones. */
  lemma ParamFrameStep(n: string, v: Value, tail: seq<string>, rest: seq<Value>, m: map<string, Value>)
    requires |tail| == |rest| && n !in tail
    requires forall k :: k in m <==> k in tail
    requires forall i :: 0 <= i < |tail| ==> m[tail[i]] == rest[i]
    ensures forall k :: k in map[n := v] + m <==> k in [n] + tail
    ensures forall i :: 0 <= i < |tail| + 1 ==> (map[n := v] + m)[([n] + tail)[i]] == ([v] + rest)[i]
  {
    forall i | 0 <= i < |tail| + 1
      ensures (map[n := v] + m)[([n] + tail)[i]] == ([v] + rest)[i]
    {
      if i > 0 {
        assert ([n] + tail)[i] == tail[i - 1] && ([v] + rest)[i] == rest[i - 1];
      }
    }
  }

  lemma {:induction false} ParamFrameBound(names: seq<string>, vals: seq<Value>, n: nat)
    requires |names| == |vals| && BoundAll(vals) <= n
    ensures forall k :: k in ParamFrame(names, vals) ==> Bound(ParamFrame(names, vals)[k]) <= n
    decreases |names|
  {
    if names != [] {
      BoundAllElements(vals, 0);
      BoundAllSlice(vals, 1);
      ParamFrameBound(names[1..], vals[1..], n);
    }
  }

  /** Names are distinct exactly when the first is not repeated and the
      rest are distinct. */
  lemma NoDuplicatesStep(names: seq<string>)
    requires names != []
    ensures NoDuplicates(names) <==> NoDuplicates(names[1..]) && names[0] !in names[1..]
  {
    var rest := names[1..];
    if NoDuplicates(rest) && names[0] !in rest {
      forall i, j | 0 <= i < j < |names|
        ensures names[i] != names[j]
      {
        assert names[j] == rest[j - 1];
        if i > 0 {
          assert names[i] == rest[i - 1];
        }
      }
    }
    if NoDuplicates(names) {
      forall i, j | 0 <= i < j < |rest|
        ensures rest[i] != rest[j]
      {
        assert rest[i] == names[i + 1] && rest[j] == names[j + 1];
      }
      forall j | 0 <= j < |rest|
        ensures rest[j] != names[0]
      {
        assert rest[j] == names[j + 1];
      }
    }
  }

  /** Binding names that are new to the frame and pairwise distinct adds
      exactly their bindings; a name already present, or repeated, fails. */
  lemma {:induction false} BindAllFresh(fs: seq<Frame>, f: nat, names: seq<string>, vals: seq<Value>)
    requires f < |fs| && |names| == |vals|
    requires forall i :: 0 <= i < |names| ==> names[i] !in fs[f].bindings
    ensures BindAll(fs, f, names, vals).Ok? <==> NoDuplicates(names)
    ensures NoDuplicates(names) ==>
      BindAll(fs, f, names, vals) == Ok(fs[f := Frame(fs[f].bindings + ParamFrame(names, vals), fs[f].parent)])
    decreases |names|
  {
    if names == [] {
      assert fs[f].bindings + map[] == fs[f].bindings;
      assert fs[f := Frame(fs[f].bindings, fs[f].parent)] == fs;
    } else {
      var n0, v0, rest := names[0], vals[0], names[1..];
      var fs1 := Assign(fs, f, n0, v0);
      assert BindAll(fs, f, names, vals) == BindAll(fs1, f, rest, vals[1..]);
      NoDuplicatesStep(names);
      if n0 in rest {
        var j :| 0 <= j < |rest| && rest[j] == n0;
        BindAllClash(fs1, f, rest, vals[1..], j);
      } else {
        assert forall i :: 0 <= i < |rest| ==> rest[i] == names[i + 1];
        BindAllFresh(fs1, f, rest, vals[1..]);
        FreshFrameStep(fs, f, names, vals);
      }
    }
  }

  /** Binding the first parameter, then the parameter frame of the others,
      gives the whole parameter frame. */
  lemma FreshFrameStep(fs: seq<Frame>, f: nat, names: seq<string>, vals: seq<Value>)
    requires f < |fs| && |names| == |vals| && names != []
    ensures var fs1 := Assign(fs, f, names[0], vals[0]);
      fs1[f := Frame(fs1[f].bindings + ParamFrame(names[1..], vals[1..]), fs1[f].parent)]
        == fs[f := Frame(fs[f].bindings + ParamFrame(names, vals), fs[f].parent)]
  {
    var fs1 := Assign(fs, f, names[0], vals[0]);
    var b, rest := fs[f].bindings, ParamFrame(names[1..], vals[1..]);
    MergeFirst(b, names[0], vals[0], rest);
    assert ParamFrame(names, vals) == map[names[0] := vals[0]] + rest;
    assert fs1[f].bindings + rest == b + ParamFrame(names, vals);
  }

  lemma MergeFirst(b: map<string, Value>, n: string, v: Value, m: map<string, Value>)
    ensures b[n := v] + m == b + (map[n := v] + m)
  {
  }

  /** Binding a name the frame already has fails, however late it comes. */
  lemma {:induction false} BindAllClash(fs: seq<Frame>, f: nat, names: seq<string>, vals: seq<Value>, j: nat)
    requires f < |fs| && |names| == |vals| && j < |names| && names[j] in fs[f].bindings
    ensures BindAll(fs, f, names, vals) == Err(AlreadyBound)
    decreases |names|
  {
    if j > 0 && names[0] !in fs[f].bindings {
      BindAllClash(Assign(fs, f, names[0], vals[0]), f, names[1..], vals[1..], j - 1);
    }
  }

  /** The store a closure's body runs in: the caller's store with one more
      frame, whose parent is the closure's own frame and which binds the
      parameters to the arguments. */
  function CallStore(st: Store, e: nat, names: seq<string>, args: seq<Value>): (r: Store)
    requires Valid(st) && e < |st.frames| && BoundAll(args) <= |st.frames| && |names| == |args|
    ensures Valid(r) && |r.frames| == |st.frames| + 1
    ensures r.frames[..|st.frames|] == st.frames && r.nextId == st.nextId
    ensures r.frames[|st.frames|].parent == Some(e)
  {
    ParamFrameBound(names, args, |st.frames|);
    var r := st.(frames := st.frames + [Frame(ParamFrame(names, args), Some(e))]);
    assert Closed(r.frames) by {
      forall i, k | 0 <= i < |r.frames| && k in r.frames[i].bindings
        ensures Bound(r.frames[i].bindings[k]) <= |r.frames|
      {
        if i < |st.frames| {
          assert r.frames[i] == st.frames[i];
        }
      }
    }
    r
  }

  /** Calling a closure with as many arguments as parameters, all distinct,
      runs its body in a new frame binding each parameter to its argument,
      whose parent is the frame the closure was made in: the caller's frame
      plays no part (lexical scope). A wrong number of arguments fails before
      anything is created, and a repeated parameter fails. */
  lemma ClosureCall(id: nat, names: seq<string>, body: seq<Value>, e: nat, args: seq<Value>, st: Store, fuel: nat)
    requires Valid(st) && Bound(Function(id, Closure(names, body, e))) <= |st.frames|
    requires BoundAll(args) <= |st.frames|
    ensures e < |st.frames| && BoundAll(body) <= |st.frames|
    ensures |args| != |names| ==>
      ApplyFunction(Function(id, Closure(names, body, e)), args, st, fuel) == Outcome(Err(Arity), st)
    ensures |args| == |names| && !NoDuplicates(names) ==>
      ApplyFunction(Function(id, Closure(names, body, e)), args, st, fuel).result == Err(AlreadyBound)
    ensures |args| == |names| && NoDuplicates(names) ==>
      ApplyFunction(Function(id, Closure(names, body, e)), args, st, fuel) ==
        EvalBody(body, |st.frames|, CallStore(st, e, names, args), fuel)
  {
    if |args| == |names| {
      var fs := NewFrame(st.frames, e);
      BindAllFresh(fs, |st.frames|, names, args);
      if NoDuplicates(names) {
        assert map[] + ParamFrame(names, args) == ParamFrame(names, args);
        assert fs[|st.frames| := Frame(ParamFrame(names, args), Some(e))] == CallStore(st, e, names, args).frames;
      }
    }
  }

  // let and letrec

  /** `(let ())` and `(letrec ())` evaluate the empty binding list `nil` in
      the new frame, which sees what the outer frame sees. */
  lemma EmptyLet(recursive: bool, env: nat, st: Store, fuel: nat)
    requires FitsAll(st, env, [Nil])
    ensures Let(recursive, [Nil], env, st, fuel).result == Lookup(st.frames, env, "nil")
  {
    var st1 := st.(frames := NewFrame(st.frames, env));
    assert Let(recursive, [Nil], env, st, fuel) == LetBody([Nil], |st.frames|, st1, fuel);
    NewFrameLookup(st.frames, env, "nil");
  }

  /** A binding whose left side is not a symbol fails before any right side
      is evaluated: the store only has the new, empty frame. */
  lemma LetNeedsSymbol(recursive: bool, ops: seq<Value>, env: nat, st: Store, fuel: nat)
    requires FitsAll(st, env, ops) && |ops| >= 1
    requires ops[0].Cons? && ops[0].car.Cons? && ops[0].car.cdr.Cons? && !ops[0].car.car.Symbol?
    ensures var left := ops[0].car.car;
      Let(recursive, ops, env, st, fuel) ==
        Outcome(Err(if left == Null then NotASymbol else ErrorAbout(left, NotASymbol)),
                st.(frames := NewFrame(st.frames, env)))
  {
  }

  /** A binding list that repeats a name always fails. */
  lemma LetRejectsDuplicates(recursive: bool, ops: seq<Value>, env: nat, st: Store, fuel: nat)
    requires FitsAll(st, env, ops) && |ops| >= 1
    requires BindingNames(ops[0]).Ok? && !NoDuplicates(BindingNames(ops[0]).value)
    ensures Let(recursive, ops, env, st, fuel).result.Err?
  {
  }

  /** The frame holding a let's bindings is not on the chain of the frame the
      let is evaluated in, so after the let they cannot be seen from there. */
  lemma LetFrameHidden(recursive: bool, ops: seq<Value>, env: nat, st: Store, fuel: nat)
    requires FitsAll(st, env, ops) && |ops| >= 1
    ensures var out := Let(recursive, ops, env, st, fuel);
      Acyclic(out.store.frames) && env < |out.store.frames| && |st.frames| !in Chain(out.store.frames, env)
  {
  }

  /** A list of one binding `(f x)`: `x` is evaluated in the outer frame
      (let) or in the new one (letrec), and `f` is bound to its value in the
      new frame. */
  lemma LetSingleBinding(recursive: bool, f: string, x: Value, i0: nat, i1: nat, i2: nat,
                          env: nat, sub: nat, st: Store, fuel: nat)
    requires Fits(st, env, x) && sub < |st.frames|
    requires var val := Eval(x, if recursive then sub else env, st, fuel);
      val.result.Ok? && f !in val.store.frames[sub].bindings
    ensures var list := Cons(i0, Cons(i1, Symbol(f), Cons(i2, x, Nil)), Nil);
      Fits(st, env, list) &&
      var val := Eval(x, if recursive then sub else env, st, fuel);
      LetBindings(recursive, list, env, sub, st, fuel) ==
        Outcome(Ok([f]), val.store.(frames := Assign(val.store.frames, sub, f, val.result.value)))
  {
    var list := Cons(i0, Cons(i1, Symbol(f), Cons(i2, x, Nil)), Nil);
    assert Bound(Cons(i2, x, Nil)) == Bound(x);
    assert Bound(Cons(i1, Symbol(f), Cons(i2, x, Nil))) == Bound(x);
    assert Bound(list) == Bound(x);
    assert Binding(list) == Ok((f, x));
    var val := Eval(x, if recursive then sub else env, st, fuel);
    var st2 := val.store.(frames := Assign(val.store.frames, sub, f, val.result.value));
    assert Define(val.store.frames, sub, f, val.result.value) == Ok(st2.frames);
    assert LetBindings(recursive, Nil, env, sub, st2, fuel) == Outcome(Ok([]), st2);
    assert [f] + [] == [f];
  }

  /** A single binding `(f (lambda ...))` in a new frame: under letrec the
      function closes over the new frame, which binds `f` to the function
      itself, so its body sees itself; under let it closes over the outer
      frame, which still sees whatever `f` meant before. */
  lemma LetVersusLetrec(recursive: bool, f: string, params: Value, names: seq<string>, body: seq<Value>,
                        ids: seq<nat>, env: nat, st: Store, fuel: nat)
    requires |ids| == 6 && Valid(st) && |st.frames| >= 2
    requires var sub := |st.frames| - 1;
      env < sub && st.frames[sub] == Frame(map[], Some(env))
    requires Lookup(st.frames, env, "lambda") == Ok(SpecialForm(ids[0], LambdaForm))
    requires ParamNames(params) == Ok(names)
    requires Bound(MakeList([params] + body, ids[1])) <= |st.frames|
    ensures var sub := |st.frames| - 1;
      var lam := Cons(ids[2], Symbol("lambda"), MakeList([params] + body, ids[1]));
      var list := Cons(ids[3], Cons(ids[4], Symbol(f), Cons(ids[5], lam, Nil)), Nil);
      var clo := Function(st.nextId, Closure(names, body, if recursive then sub else env));
      Fits(st, env, list) &&
      var out := LetBindings(recursive, list, env, sub, st, fuel + 1);
      && out.result == Ok([f])
      && (recursive ==> Lookup(out.store.frames, sub, f) == Ok(clo))
      && (!recursive ==> Lookup(out.store.frames, env, f) == Lookup(st.frames, env, f))
  {
    var sub := |st.frames| - 1;
    var clo := Function(st.nextId, Closure(names, body, if recursive then sub else env));
    ClosureSeesBinding(recursive, st.frames, Assign(st.frames, sub, f, clo), env, sub, f, clo);
    LetBindsLambda(recursive, f, params, names, body, ids, env, st, fuel);
  }

  /** After `f` is bound in the new frame `sub`, the new frame sees that
      binding while its parent `env` still sees what it saw before. */
  lemma ClosureSeesBinding(recursive: bool, fs: seq<Frame>, after: seq<Frame>, env: nat, sub: nat, f: string, v: Value)
    requires sub < |fs| && Acyclic(fs) && env < sub && fs[sub] == Frame(map[], Some(env)) && v != Null
    requires after == Assign(fs, sub, f, v)
    ensures recursive ==> Lookup(after, sub, f) == Ok(v)
    ensures !recursive ==> Lookup(after, env, f) == Lookup(fs, env, f)
  {
    if recursive {
      AssignThenLookup(fs, sub, f, v);
    } else {
      LookupAfterAssign(fs, sub, f, v, env, f);
    }
  }

  /** The binding step of LetVersusLetrec: the lambda is evaluated where the
      binding's right side is, and its closure bound to `f` in the new frame. */
  lemma LetBindsLambda(recursive: bool, f: string, params: Value, names: seq<string>, body: seq<Value>,
                       ids: seq<nat>, env: nat, st: Store, fuel: nat)
    requires |ids| == 6 && Valid(st) && |st.frames| >= 2
    requires var sub := |st.frames| - 1;
      env < sub && st.frames[sub] == Frame(map[], Some(env))
    requires Lookup(st.frames, env, "lambda") == Ok(SpecialForm(ids[0], LambdaForm))
    requires ParamNames(params) == Ok(names)
    requires Bound(MakeList([params] + body, ids[1])) <= |st.frames|
    ensures var sub := |st.frames| - 1;
      var lam := Cons(ids[2], Symbol("lambda"), MakeList([params] + body, ids[1]));
      var list := Cons(ids[3], Cons(ids[4], Symbol(f), Cons(ids[5], lam, Nil)), Nil);
      var clo := Function(st.nextId, Closure(names, body, if recursive then sub else env));
      Fits(st, env, list) &&
      var out := LetBindings(recursive, list, env, sub, st, fuel + 1);
      out.result == Ok([f]) && out.store.frames == Assign(st.frames, sub, f, clo)
  {
    var sub := |st.frames| - 1;
    var lam := Cons(ids[2], Symbol("lambda"), MakeList([params] + body, ids[1]));
    var where := if recursive then sub else env;
    assert Lookup(st.frames, where, "lambda") == Ok(SpecialForm(ids[0], LambdaForm)) by {
      if recursive {
        EmptyFrameLookup(st.frames, sub, env, "lambda");
      }
    }
    LambdaExpression(params, names, body, ids[0], ids[2], ids[1], where, st, fuel);
    var clo := Function(st.nextId, Closure(names, body, where));
    assert Eval(lam, where, st, fuel + 1) == Outcome(Ok(clo), st.(nextId := st.nextId + 1));
    LetSingleBinding(recursive, f, lam, ids[3], ids[4], ids[5], env, sub, st, fuel + 1);
  }

  /** A frame with no bindings sees what its parent sees. */
  lemma EmptyFrameLookup(fs: seq<Frame>, f: nat, p: nat, name: string)
    requires f < |fs| && Acyclic(fs) && fs[f] == Frame(map[], Some(p))
    ensures Lookup(fs, f, name) == Lookup(fs, p, name)
  {
  }

  lemma AssignThenLookup(fs: seq<Frame>, f: nat, name: string, v: Value)
    requires f < |fs| && Acyclic(fs) && v != Null
    ensures Acyclic(Assign(fs, f, name, v))
    ensures Lookup(Assign(fs, f, name, v), f, name) == Ok(v)
  {
  }

  // The root environment

  /** The new kernel's root frame binds `nil` and `t` to themselves, and the
      names of the special forms and builtins to their own values. */
  lemma RootBindingsHold()
    ensures Lookup(RootStore().frames, Root, "nil") == Ok(Nil)
    ensures Lookup(RootStore().frames, Root, "t") == Ok(T)
    ensures Lookup(RootStore().frames, Root, "quote") == Ok(SpecialForm(3, QuoteForm))
    ensures Lookup(RootStore().frames, Root, "define") == Ok(SpecialForm(5, DefineForm))
    ensures Lookup(RootStore().frames, Root, "+") == Ok(Function(16, Primitive(AddOp)))
  {
    var m := RootBindings();
    assert m["nil"] == Nil && m["t"] == T;
    assert m["quote"] == SpecialForm(3, QuoteForm) && m["define"] == SpecialForm(5, DefineForm);
    assert m["+"] == Function(16, Primitive(AddOp));
    RootLookup("nil");
    RootLookup("t");
    RootLookup("quote");
    RootLookup("define");
    RootLookup("+");
  }

  /** A name bound in the root frame is found there. */
  lemma RootLookup(name: string)
    requires name in RootBindings() && RootBindings()[name] != Null
    ensures Lookup(RootStore().frames, Root, name) == Ok(RootBindings()[name])
  {
    assert RootStore().frames[Root] == Frame(RootBindings(), None);
  }
}
