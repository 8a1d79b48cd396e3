/** S-expressions: the values the interpreter reads, evaluates and prints
    (SExpr with its subclasses Symbol, Number, Cons, Function and SpecialForm). */
module Values {
  import opened Errors
  import opened Decimals

  /** The seven special forms of the root environment. */
  datatype Form = QuoteForm | IfForm | DefineForm | AssignForm | LambdaForm | LetForm | LetrecForm

  /** The builtin functions of the root environment (the console ones are not modelled). */
  datatype Builtin =
    | ConsOp | CarOp | CdrOp
    | NotOp | EqlOp | NullpOp | ConspOp | AtompOp | NumberpOp
    | AddOp | SubOp | MulOp | DivOp | GtOp | ModOp

  /** What a function does when applied: a builtin, or a closure made by
      `lambda` from its parameter names, its body and the frame it was
      created in (an index into the store of frames). */
  datatype Callable =
    | Primitive(op: Builtin)
    | Closure(params: seq<string>, body: seq<Value>, env: nat)

  /** One s-expression. `Null` is the host's null reference, which evaluating
      a special-form value yields. Cons cells, functions and special forms are
      objects compared by identity, so each carries the id it was allocated with. */
  datatype Value =
    | Null
    | Symbol(name: string)
    | Number(num: Decimal)
    | Cons(id: nat, car: Value, cdr: Value)
    | Function(id: nat, fn: Callable)
    | SpecialForm(id: nat, form: Form)

  const Nil: Value := Symbol("nil")
  const T: Value := Symbol("t")

  /** The interpreter's booleans: `t` for true, `nil` for false. */
  function Truth(b: bool): (v: Value)
    ensures v == T <==> b
    ensures v == Nil <==> !b
  {
    if b then T else Nil
  }

  // The type tests. On Null the host throws before asking; callers check for it first.

  predicate IsFunction(v: Value) {
    v.Function?
  }

  predicate IsSpecialForm(v: Value) {
    v.SpecialForm?
  }

  predicate IsCons(v: Value) {
    v.Cons?
  }

  predicate IsNumber(v: Value) {
    v.Number?
  }

  /** Symbols and numbers are the atoms. */
  predicate IsAtom(v: Value) {
    v.Symbol? || v.Number?
  }

  /** Every value is exactly one of atom, cons pair, function and special
      form, and every number is an atom. */
  lemma KindsPartition(v: Value)
    requires v != Null
    ensures IsAtom(v) || IsCons(v) || IsFunction(v) || IsSpecialForm(v)
    ensures IsAtom(v) ==> !IsCons(v) && !IsFunction(v) && !IsSpecialForm(v)
    ensures IsCons(v) ==> !IsFunction(v) && !IsSpecialForm(v)
    ensures IsFunction(v) ==> !IsSpecialForm(v)
    ensures IsNumber(v) ==> IsAtom(v)
  {
  }

  /** The text of a value (toString). Null cannot be printed; a list that
      does not end in `nil` fails when the walk asks a non-pair for its car. */
  function Show(v: Value): Result<string>
    decreases v, 1
  {
    match v
    case Null => Err(NullValue)
    case Symbol(n) => Ok(n)
    case Number(d) => Ok(ShowDecimal(d))
    case Function(i, _) => Ok("<function " + NatDigits(i) + ">")
    case SpecialForm(i, _) => Ok("<special form " + NatDigits(i) + ">")
    case Cons(_, _, _) =>
      match Items(v)
      case Err(e) => Err(e)
      case Ok(s) => Ok("(" + s[..|s| - 1] + ")")
  }

  /** The elements of a list from `iter` on, each followed by one space. */
  function Items(iter: Value): (r: Result<string>)
    ensures r.Ok? && iter.Cons? ==> |r.value| > 0 && r.value[|r.value| - 1] == ' '
    decreases iter, 0
  {
    if iter == Null then Err(NullValue)
    else if iter == Nil then Ok("")
    else match iter
      case Cons(_, a, d) =>
        (match Show(a)
         case Err(e) => Err(e)
         case Ok(s) =>
           match Items(d)
           case Err(e) => Err(e)
           case Ok(t) => Ok(s + " " + t))
      case _ => Err(NotSupported)
  }

  /** `r` with `p` in front of its text. */
  function PrefixWith(p: string, r: Result<string>): Result<string> {
    match r
    case Ok(t) => Ok(p + t)
    case Err(e) => Err(e)
  }

  /** The printing loop of a cons pair with its string buffer: each element
      and a space, then the last space replaced by the closing parenthesis. */
  method ConsToString(v: Value) returns (r: Result<string>)
    requires v.Cons?
    ensures r == Show(v)
  {
    var sb := "(";
    var iter := v;
    assert sb[1..] == [];
    assert Items(v) == PrefixWith(sb[1..], Items(iter)) by {
      if Items(v).Ok? {
        assert sb[1..] + Items(v).value == Items(v).value;
      }
    }
    while iter == Null || iter != Nil
      invariant |sb| >= 1 && sb[0] == '('
      invariant iter != v ==> |sb| >= 2 && sb[|sb| - 1] == ' '
      invariant Items(v) == PrefixWith(sb[1..], Items(iter))
      decreases iter
    {
      if iter == Null {
        return Err(NullValue);
      }
      if !iter.Cons? {
        return Err(NotSupported);
      }
      var s := Show(iter.car);
      if s.Err? {
        return Err(s.error);
      }
      ItemsStep(iter, sb[1..], s.value);
      assert (sb + s.value + " ")[1..] == sb[1..] + s.value + " ";
      sb := sb + s.value + " ";
      iter := iter.cdr;
    }
    ShowFromItems(v, sb);
    sb := sb[..|sb| - 1] + [')'];
    r := Ok(sb);
  }

  /** The end of the printing loop: the buffer holds `(` and every element
      with its space. */
  lemma ShowFromItems(v: Value, sb: string)
    requires v.Cons? && |sb| >= 2 && sb[0] == '('
    requires Items(v) == PrefixWith(sb[1..], Items(Nil))
    ensures Show(v) == Ok(sb[..|sb| - 1] + [')'])
  {
    var items := sb[1..];
    assert Items(v) == Ok(items) by {
      assert items + "" == items;
    }
    assert "(" + items[..|items| - 1] == sb[..|sb| - 1];
  }

  /** One round of the printing loop: the element's text and a space move
      from the rest of the walk into the buffer. */
  lemma ItemsStep(iter: Value, p: string, s: string)
    requires iter.Cons? && Show(iter.car) == Ok(s)
    ensures PrefixWith(p, Items(iter)) == PrefixWith(p + s + " ", Items(iter.cdr))
  {
    assert iter != Nil;
    if Items(iter.cdr).Ok? {
      var t := Items(iter.cdr).value;
      assert Items(iter) == Ok(s + " " + t);
      assert p + (s + " " + t) == (p + s + " ") + t;
    }
  }

  /** The elements of a proper list, or None if the list is improper or holds null. */
  function Elements(v: Value): Option<seq<Value>>
    decreases v
  {
    if v == Nil then Some([])
    else match v
      case Cons(_, a, d) =>
        (match Elements(d)
         case Some(es) => if a == Null then None else Some([a] + es)
         case None => None)
      case _ => None
  }

  /** Each text followed by one space. */
  function Spaced(ss: seq<string>): string {
    if ss == [] then "" else ss[0] + " " + Spaced(ss[1..])
  }

  /** The texts separated by single spaces. */
  function Join(ss: seq<string>): string {
    if ss == [] then ""
    else if |ss| == 1 then ss[0]
    else ss[0] + " " + Join(ss[1..])
  }

  /** The texts of the values, if every one can be printed. */
  function ShowAll(vs: seq<Value>): Option<seq<string>> {
    if vs == [] then Some([])
    else match Show(vs[0])
      case Err(_) => None
      case Ok(s) =>
        match ShowAll(vs[1..])
        case None => None
        case Some(ss) => Some([s] + ss)
  }

  lemma {:induction false} ItemsOfList(v: Value, es: seq<Value>, ss: seq<string>)
    requires Elements(v) == Some(es) && ShowAll(es) == Some(ss)
    ensures Items(v) == Ok(Spaced(ss))
    decreases v
  {
    if v != Nil {
      ItemsOfList(v.cdr, es[1..], ss[1..]);
    }
  }

  lemma {:induction false} SpacedJoin(ss: seq<string>)
    requires |ss| > 0
    ensures |Spaced(ss)| > 0
    ensures Spaced(ss)[..|Spaced(ss)| - 1] == Join(ss)
  {
    if |ss| > 1 {
      SpacedJoin(ss[1..]);
      var t := Spaced(ss[1..]);
      assert Spaced(ss) == (ss[0] + " ") + t;
      assert Spaced(ss)[..|Spaced(ss)| - 1] == (ss[0] + " ") + t[..|t| - 1];
    } else {
      assert ss[1..] == [];
    }
  }

  /** A proper, non-empty list prints as its element texts joined by single
      spaces between parentheses. */
  lemma ShowProperList(v: Value, es: seq<Value>, ss: seq<string>)
    requires v.Cons? && Elements(v) == Some(es) && ShowAll(es) == Some(ss)
    ensures Show(v) == Ok("(" + Join(ss) + ")")
  {
    ItemsOfList(v, es, ss);
    assert |es| > 0;
    assert |ss| > 0;
    SpacedJoin(ss);
  }

  /** The error a message about `v` raises: printing `v` for the message
      can itself fail, and then that failure is what surfaces. */
  function ErrorAbout(v: Value, e: Error): (r: Error)
    ensures Show(v).Ok? ==> r == e
    ensures Show(v).Err? ==> r == Show(v).error
  {
    match Show(v)
    case Ok(_) => e
    case Err(x) => x
  }

  /** car: only cons pairs have one. */
  function Car(v: Value): (r: Result<Value>)
    ensures r.Ok? <==> v.Cons?
    ensures r.Err? ==> r.error == if v == Null then NullValue else NotSupported
  {
    match v
    case Cons(_, a, _) => Ok(a)
    case Null => Err(NullValue)
    case _ => Err(NotSupported)
  }

  /** cdr: only cons pairs have one. */
  function Cdr(v: Value): (r: Result<Value>)
    ensures r.Ok? <==> v.Cons?
    ensures r.Err? ==> r.error == if v == Null then NullValue else NotSupported
  {
    match v
    case Cons(_, _, d) => Ok(d)
    case Null => Err(NullValue)
    case _ => Err(NotSupported)
  }

  /** car and cdr give back exactly the two halves a pair was built from. */
  lemma CarCdrOfCons(id: nat, a: Value, d: Value)
    ensures Car(Cons(id, a, d)) == Ok(a) && Cdr(Cons(id, a, d)) == Ok(d)
  {
  }

  /** The decimal behind a number; any other value is not a number. */
  function NumericValue(v: Value): (r: Result<Decimal>)
    ensures r.Ok? <==> v.Number?
    ensures r.Ok? ==> Number(r.value) == v
    ensures v.Symbol? ==> r == Err(NotANumber)
  {
    match v
    case Number(d) => Ok(d)
    case Null => Err(NullValue)
    case _ => Err(ErrorAbout(v, NotANumber))
  }

  /** Printing fails only on null or on a list that does not end in `nil`. */
  lemma {:induction false} ShowFailures(v: Value)
    decreases v, 1
    ensures Show(v).Err? ==> Show(v).error == NullValue || Show(v).error == NotSupported
  {
    if v.Cons? {
      ItemsFailures(v);
    }
  }

  lemma {:induction false} ItemsFailures(iter: Value)
    decreases iter, 0
    ensures Items(iter).Err? ==> Items(iter).error == NullValue || Items(iter).error == NotSupported
  {
    if iter.Cons? {
      ShowFailures(iter.car);
      ItemsFailures(iter.cdr);
    }
  }

  /** Asking for a number fails with null, or with the error of printing the
      value, or with the complaint that it is not a number. */
  lemma NumericFailures(v: Value)
    ensures NumericValue(v).Err? ==> NumericValue(v).error in {NullValue, NotSupported, NotANumber}
  {
    ShowFailures(v);
  }

  /** The host's `a.equals(b)` for a non-null receiver `a`: symbols by name,
      numbers by decimal value and scale, everything else by identity. */
  predicate Equals(a: Value, b: Value)
    requires a != Null
  {
    match a
    case Symbol(n) => b.Symbol? && b.name == n
    case Number(d) => b.Number? && b.num == d
    case Cons(i, _, _) => b.Cons? && b.id == i
    case Function(i, _) => b.Function? && b.id == i
    case SpecialForm(i, _) => b.SpecialForm? && b.id == i
  }

  /** Equality is an equivalence on non-null values, never holds between
      values of different kinds, and never holds with null. */
  lemma EqualsEquivalence(a: Value, b: Value, c: Value)
    requires a != Null && b != Null && c != Null
    ensures Equals(a, a)
    ensures Equals(a, b) <==> Equals(b, a)
    ensures Equals(a, b) && Equals(b, c) ==> Equals(a, c)
    ensures Equals(a, b) ==> IsAtom(a) == IsAtom(b) && IsCons(a) == IsCons(b) && IsFunction(a) == IsFunction(b)
    ensures !Equals(a, Null)
  {
  }

  /** Two symbols are equal exactly when their names are, and an atom is
      equal to another value exactly when it is the same value. */
  lemma AtomEquality(a: Value, b: Value)
    requires IsAtom(a)
    ensures Equals(a, b) <==> a == b
  {
  }

  /** Structurally identical pairs built separately are not equal. */
  lemma DistinctPairs(i: nat, j: nat, a: Value, d: Value)
    requires i != j
    ensures !Equals(Cons(i, a, d), Cons(j, a, d))
  {
  }

  /** The comparison with `nil` that list walks and predicates use. */
  lemma NilTest(v: Value)
    requires v != Null
    ensures Equals(v, Nil) <==> v == Nil
  {
  }

  /** How many pairs and leaves a value is built from, along car and cdr. */
  function Size(v: Value): (n: nat)
    ensures n >= 1
  {
    match v
    case Cons(_, a, d) => 1 + Size(a) + Size(d)
    case _ => 1
  }

  function NatMax(a: nat, b: nat): nat {
    if a < b then b else a
  }

  /** One more than the largest frame any closure inside `v` refers to
      (0 if there is none): `v` only uses frames below this index. */
  function Bound(v: Value): nat
    decreases v
  {
    match v
    case Cons(_, a, d) => NatMax(Bound(a), Bound(d))
    case Function(_, Closure(_, body, e)) => NatMax(e + 1, BoundAll(body))
    case _ => 0
  }

  function BoundAll(vs: seq<Value>): nat
    decreases vs
  {
    if vs == [] then 0 else NatMax(Bound(vs[0]), BoundAll(vs[1..]))
  }

  lemma {:induction false} BoundAllElements(vs: seq<Value>, i: nat)
    requires i < |vs|
    ensures Bound(vs[i]) <= BoundAll(vs)
  {
    if i > 0 {
      BoundAllElements(vs[1..], i - 1);
    }
  }

  lemma {:induction false} BoundAllSlice(vs: seq<Value>, i: nat)
    requires i <= |vs|
    ensures BoundAll(vs[i..]) <= BoundAll(vs)
  {
    if i > 0 {
      BoundAllSlice(vs[1..], i - 1);
      assert vs[1..][i - 1..] == vs[i..];
    }
  }

  lemma {:induction false} BoundAllAppend(a: seq<Value>, b: seq<Value>)
    ensures BoundAll(a + b) == NatMax(BoundAll(a), BoundAll(b))
  {
    if a != [] {
      assert (a + b)[1..] == a[1..] + b;
      BoundAllAppend(a[1..], b);
    } else {
      assert a + b == b;
    }
  }
}
