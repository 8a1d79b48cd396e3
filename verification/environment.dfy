/** Environments: frames of bindings chained through their parents
    (Environment). All frames live in one sequence, numbered in creation
    order; a frame refers to its parent by number, and a parent is always
    older than its child. */
module Environment {
  import opened Errors
  import opened Values

  /** One environment: its bindings from symbol names to values, and its
      parent (none for the root). */
  datatype Frame = Frame(bindings: map<string, Value>, parent: Option<nat>)

  /** Every parent is older than its child, so parent chains are finite. */
  predicate Acyclic(fs: seq<Frame>) {
    forall i :: 0 <= i < |fs| && fs[i].parent.Some? ==> fs[i].parent.value < i
  }

  /** Every closure stored in a binding refers to an existing frame. */
  predicate Closed(fs: seq<Frame>) {
    forall i, k :: 0 <= i < |fs| && k in fs[i].bindings ==> Bound(fs[i].bindings[k]) <= |fs|
  }

  /** `b` is a later state of the frames `a`: frames are only added, a frame
      keeps its parent, and a name once bound stays bound. */
  predicate Extends(a: seq<Frame>, b: seq<Frame>) {
    |a| <= |b| &&
    forall i :: 0 <= i < |a| ==> b[i].parent == a[i].parent && a[i].bindings.Keys <= b[i].bindings.Keys
  }

  /** A new environment (Environment(parent)): no bindings, the given parent. */
  function NewFrame(fs: seq<Frame>, parent: nat): (r: seq<Frame>)
    requires parent < |fs|
    ensures |r| == |fs| + 1 && r[..|fs|] == fs
    ensures r[|fs|].bindings == map[] && r[|fs|].parent == Some(parent)
    ensures Acyclic(fs) ==> Acyclic(r)
    ensures Closed(fs) ==> Closed(r)
    ensures Extends(fs, r)
  {
    fs + [Frame(map[], Some(parent))]
  }

  /** Frame `g` with `name` (re)bound to `v`; every other frame as it was. */
  function Assign(fs: seq<Frame>, g: nat, name: string, v: Value): (r: seq<Frame>)
    requires g < |fs|
    ensures |r| == |fs| && r[g].bindings == fs[g].bindings[name := v] && r[g].parent == fs[g].parent
    ensures forall h :: 0 <= h < |fs| && h != g ==> r[h] == fs[h]
    ensures Acyclic(fs) ==> Acyclic(r)
    ensures Closed(fs) && Bound(v) <= |fs| ==> Closed(r)
    ensures Extends(fs, r)
  {
    fs[g := Frame(fs[g].bindings[name := v], fs[g].parent)]
  }

  /** defineBinding: a new binding in frame `f` itself. Only that frame is
      checked, so a binding of the same name further up is shadowed, not
      an error. */
  function Define(fs: seq<Frame>, f: nat, name: string, v: Value): (r: Result<seq<Frame>>)
    requires f < |fs|
    ensures r.Err? <==> name in fs[f].bindings
    ensures r.Err? ==> r.error == AlreadyBound
    ensures r.Ok? ==> r.value == Assign(fs, f, name, v)
  {
    if name in fs[f].bindings then Err(AlreadyBound) else Ok(Assign(fs, f, name, v))
  }

  /** getBinding: the value bound to `name` in the nearest frame of the chain
      from `f`. A key bound to null counts as absent, as the host's map
      lookup cannot tell the two apart; so the result is never null. */
  function Lookup(fs: seq<Frame>, f: nat, name: string): (r: Result<Value>)
    requires f < |fs| && Acyclic(fs)
    decreases f
    ensures r.Ok? ==> r.value != Null
    ensures r.Err? ==> r.error == Unbound
    ensures r.Ok? && Closed(fs) ==> Bound(r.value) <= |fs|
  {
    if name in fs[f].bindings && fs[f].bindings[name] != Null then Ok(fs[f].bindings[name])
    else match fs[f].parent
      case None => Err(Unbound)
      case Some(p) => Lookup(fs, p, name)
  }

  /** updateBinding: overwrites `name` in the nearest frame from `f` whose
      map has the key; fails when no frame of the chain has it. */
  function Update(fs: seq<Frame>, f: nat, name: string, v: Value): (r: Result<seq<Frame>>)
    requires f < |fs| && Acyclic(fs)
    decreases f
    ensures r.Err? ==> r.error == Unbound
    ensures r.Ok? ==> |r.value| == |fs| && Acyclic(r.value)
    ensures r.Ok? && Closed(fs) && Bound(v) <= |fs| ==> Closed(r.value)
    ensures r.Ok? ==> forall h :: f < h < |fs| ==> r.value[h] == fs[h]
    ensures r.Ok? ==> Extends(fs, r.value)
  {
    if name in fs[f].bindings then Ok(Assign(fs, f, name, v))
    else match fs[f].parent
      case None => Err(Unbound)
      case Some(p) => Update(fs, p, name, v)
  }

  /** The frames searched from `f`: `f` itself, then its ancestors. */
  function Chain(fs: seq<Frame>, f: nat): (c: seq<nat>)
    requires f < |fs| && Acyclic(fs)
    decreases f
    ensures |c| >= 1 && c[0] == f
    ensures forall i :: 0 <= i < |c| ==> c[i] <= f
  {
    match fs[f].parent
    case None => [f]
    case Some(p) => [f] + Chain(fs, p)
  }

  /** Frame `fr` has a key for `name` (and, when `live`, a non-null value). */
  predicate Holds(fr: Frame, name: string, live: bool) {
    name in fr.bindings && (!live || fr.bindings[name] != Null)
  }

  /** Position in the list of frame numbers `c` of the first frame that holds `name`. */
  function FirstIn(fs: seq<Frame>, c: seq<nat>, name: string, live: bool): (r: Option<nat>)
    requires forall i :: 0 <= i < |c| ==> c[i] < |fs|
    ensures r.Some? ==> r.value < |c| && Holds(fs[c[r.value]], name, live)
    ensures r.Some? ==> forall j :: 0 <= j < r.value ==> !Holds(fs[c[j]], name, live)
    ensures r.None? ==> forall j :: 0 <= j < |c| ==> !Holds(fs[c[j]], name, live)
  {
    if c == [] then None
    else if Holds(fs[c[0]], name, live) then Some(0)
    else match FirstIn(fs, c[1..], name, live)
      case None => None
      case Some(i) => Some(i + 1)
  }

  /** Lookup as a search of the chain: the first frame with a non-null
      binding supplies the value, and with no such frame it fails. */
  function FoundIn(fs: seq<Frame>, c: seq<nat>, name: string): Result<Value>
    requires forall i :: 0 <= i < |c| ==> c[i] < |fs|
  {
    match FirstIn(fs, c, name, true)
    case None => Err(Unbound)
    case Some(i) => Ok(fs[c[i]].bindings[name])
  }

  /** Update as a search of the chain: the first frame with the key is the
      one that changes. */
  function UpdatedIn(fs: seq<Frame>, c: seq<nat>, name: string, v: Value): Result<seq<Frame>>
    requires forall i :: 0 <= i < |c| ==> c[i] < |fs|
  {
    match FirstIn(fs, c, name, false)
    case None => Err(Unbound)
    case Some(i) => Ok(Assign(fs, c[i], name, v))
  }

  lemma FirstInStep(fs: seq<Frame>, g: nat, c: seq<nat>, name: string, live: bool)
    requires g < |fs| && forall i :: 0 <= i < |c| ==> c[i] < |fs|
    ensures FirstIn(fs, [g] + c, name, live)
         == if Holds(fs[g], name, live) then Some(0)
            else match FirstIn(fs, c, name, live) case None => None case Some(i) => Some(i + 1)
  {
    assert ([g] + c)[0] == g && ([g] + c)[1..] == c;
  }

  /** getBinding returns the value from the nearest frame that binds the
      symbol, and fails exactly when no frame of the chain binds it. */
  lemma {:induction false} LookupNearest(fs: seq<Frame>, f: nat, name: string)
    requires f < |fs| && Acyclic(fs)
    ensures Lookup(fs, f, name) == FoundIn(fs, Chain(fs, f), name)
    decreases f
  {
    match fs[f].parent
    case None =>
    case Some(p) =>
      LookupNearest(fs, p, name);
      FirstInStep(fs, f, Chain(fs, p), name, true);
      assert forall i :: 0 <= i < |Chain(fs, p)| ==> Chain(fs, f)[i + 1] == Chain(fs, p)[i];
  }

  /** updateBinding changes the nearest frame that has the key, and fails
      exactly when no frame of the chain has it. */
  lemma {:induction false} UpdateNearest(fs: seq<Frame>, f: nat, name: string, v: Value)
    requires f < |fs| && Acyclic(fs)
    ensures Update(fs, f, name, v) == UpdatedIn(fs, Chain(fs, f), name, v)
    decreases f
  {
    match fs[f].parent
    case None =>
    case Some(p) =>
      UpdateNearest(fs, p, name, v);
      var c := Chain(fs, p);
      assert Chain(fs, f) == [f] + c;
      FirstInStep(fs, f, c, name, false);
      match FirstIn(fs, c, name, false)
      case None =>
      case Some(i) =>
        assert ([f] + c)[i + 1] == c[i];
  }

  /** Lookups are unaffected by a change to a frame outside their chain, or
      to another name. */
  lemma {:induction false} LookupAfterAssign(fs: seq<Frame>, g: nat, name: string, v: Value, h: nat, k: string)
    requires g < |fs| && h < |fs| && Acyclic(fs)
    requires k != name || g !in Chain(fs, h)
    ensures Lookup(Assign(fs, g, name, v), h, k) == Lookup(fs, h, k)
    decreases h
  {
    match fs[h].parent
    case None =>
    case Some(p) =>
      assert Chain(fs, h) == [h] + Chain(fs, p);
      LookupAfterAssign(fs, g, name, v, p, k);
  }

  /** After a successful updateBinding from `f`, getBinding from `f` returns
      the new value. */
  lemma {:induction false} UpdateThenLookup(fs: seq<Frame>, f: nat, name: string, v: Value)
    requires f < |fs| && Acyclic(fs) && v != Null
    requires Update(fs, f, name, v).Ok?
    ensures Lookup(Update(fs, f, name, v).value, f, name) == Ok(v)
    decreases f
  {
    if name !in fs[f].bindings {
      var p := fs[f].parent.value;
      UpdateThenLookup(fs, p, name, v);
    }
  }

  /** A definition in a frame is seen from that frame even when an ancestor
      binds the same name, and is invisible from every frame whose chain
      does not pass through it. */
  lemma DefineShadows(fs: seq<Frame>, f: nat, name: string, v: Value)
    requires f < |fs| && Acyclic(fs) && name !in fs[f].bindings && v != Null
    ensures Define(fs, f, name, v).Ok?
    ensures Lookup(Define(fs, f, name, v).value, f, name) == Ok(v)
    ensures forall h :: 0 <= h < |fs| && f !in Chain(fs, h) ==>
      Lookup(Define(fs, f, name, v).value, h, name) == Lookup(fs, h, name)
  {
    forall h | 0 <= h < |fs| && f !in Chain(fs, h)
      ensures Lookup(Assign(fs, f, name, v), h, name) == Lookup(fs, h, name)
    {
      LookupAfterAssign(fs, f, name, v, h, name);
    }
  }

  /** Adding frames does not change what existing frames see. */
  lemma {:induction false} LookupExtended(fs: seq<Frame>, more: seq<Frame>, h: nat, k: string)
    requires h < |fs| && Acyclic(fs + more)
    ensures Acyclic(fs)
    ensures Lookup(fs + more, h, k) == Lookup(fs, h, k)
    decreases h
  {
    assert forall i :: 0 <= i < |fs| ==> (fs + more)[i] == fs[i];
    match fs[h].parent
    case None =>
    case Some(p) =>
      LookupExtended(fs, more, p, k);
  }

  /** A new environment sees exactly what its parent sees. */
  lemma NewFrameLookup(fs: seq<Frame>, parent: nat, k: string)
    requires parent < |fs| && Acyclic(fs)
    ensures Lookup(NewFrame(fs, parent), |fs|, k) == Lookup(fs, parent, k)
  {
    LookupExtended(fs, [Frame(map[], Some(parent))], parent, k);
  }

  /** All environments of the interpreter as one mutable arena; frame
      numbers play the part of the host's references to Environment objects. */
  class Arena {
    var frames: seq<Frame>

    ghost predicate Valid()
      reads this
    {
      |frames| >= 1 && Acyclic(frames)
    }

    /** The root environment, without a parent. */
    constructor ()
      ensures Valid() && frames == [Frame(map[], None)]
    {
      frames := [Frame(map[], None)];
    }

    /** An arena holding the given frames. */
    constructor Of(fs: seq<Frame>)
      requires |fs| >= 1 && Acyclic(fs)
      ensures Valid() && frames == fs
    {
      frames := fs;
    }

    /** new Environment(parent): returns the number of the new frame. */
    method Create(parent: nat) returns (index: nat)
      requires Valid() && parent < |frames|
      modifies this
      ensures Valid() && frames == NewFrame(old(frames), parent) && index == |old(frames)|
    {
      index := |frames|;
      frames := frames + [Frame(map[], Some(parent))];
    }

    method DefineBinding(f: nat, name: string, v: Value) returns (failure: Option<Error>)
      requires Valid() && f < |frames|
      modifies this
      ensures Valid()
      ensures match Define(old(frames), f, name, v)
        case Ok(fs) => failure == None && frames == fs
        case Err(e) => failure == Some(e) && frames == old(frames)
    {
      if name in frames[f].bindings {
        return Some(AlreadyBound);
      }
      frames := frames[f := Frame(frames[f].bindings[name := v], frames[f].parent)];
      failure := None;
    }

    method UpdateBinding(f: nat, name: string, v: Value) returns (failure: Option<Error>)
      requires Valid() && f < |frames|
      modifies this
      decreases f
      ensures Valid()
      ensures match Update(old(frames), f, name, v)
        case Ok(fs) => failure == None && frames == fs
        case Err(e) => failure == Some(e) && frames == old(frames)
    {
      if name in frames[f].bindings {
        frames := frames[f := Frame(frames[f].bindings[name := v], frames[f].parent)];
        failure := None;
      } else if frames[f].parent.Some? {
        failure := UpdateBinding(frames[f].parent.value, name, v);
      } else {
        failure := Some(Unbound);
      }
    }

    method GetBinding(f: nat, name: string) returns (r: Result<Value>)
      requires Valid() && f < |frames|
      decreases f
      ensures r == Lookup(frames, f, name)
    {
      var result := if name in frames[f].bindings then frames[f].bindings[name] else Null;
      if result == Null && frames[f].parent.None? {
        r := Err(Unbound);
      } else if result == Null {
        r := GetBinding(frames[f].parent.value, name);
      } else {
        r := Ok(result);
      }
    }
  }
}
