/** The evaluator of evalapply.hpp: a global environment List, the table of
  * special forms, eval and apply.
  *
  * Environments are heap Lists that closures refer to by reference, so the
  * evaluator keeps, as ghost state, the set of every environment List it
  * has made (`lists`) and the objects they are built from (`footprint`).
  * Its invariant says that these lists are well formed, pairwise separate,
  * hold only bindings, and that every closure they hold captured one of
  * them. Evaluation only ever adds lists and appends to them.
  *
  * eval may not terminate: every call of a lambda and of print spends one
  * unit of `fuel`, and a run out of fuel yields the error object FuelOut.
  */
module Evaluator {
  import opened LispObjects
  import opened Bindings
  import opened Primitives

  /** The special-form table: name, the number of arguments its handler
    * reads, and per argument whether it is evaluated first. */
  const SpecialForms: seq<SpecialForm> := [
    SpecialForm("define", 2, [NO_EVAL, EVAL, EVAL], DefineForm),
    SpecialForm("if", 3, [EVAL, NO_EVAL, NO_EVAL], IfForm),
    SpecialForm("lambda", 2, [NO_EVAL, NO_EVAL, EVAL], LambdaForm)
  ]

  /** The primitives bound at start-up, in order. */
  const PrimitiveTable: seq<(string, PrimOp)> := [
    ("+", Plus), ("-", Minus), ("/", Divide), ("*", Multiply), ("<", Less),
    ("eq", Equals), ("print", Print), (">", Greater), ("car", Car), ("cdr", Cdr)
  ]

  /** The environment entry of one primitive. */
  function PrimitiveBinding(entry: (string, PrimOp)): Object {
    MakeBindingObject(MakeBinding(MakeSymbolObject(entry.0), MakeFunctionObject(MakeFunction(entry.1))))
  }

  /** The global environment once the first n primitives are bound. */
  function GlobalBindings(n: nat): (r: seq<Object>)
    requires n <= |PrimitiveTable|
    ensures |r| == n && AllBindings(r)
    ensures forall k :: 0 <= k < n ==> r[k] == PrimitiveBinding(PrimitiveTable[k])
  {
    if n == 0 then [] else GlobalBindings(n - 1) + [PrimitiveBinding(PrimitiveTable[n - 1])]
  }

  lemma PrimitiveNamesDistinct()
    ensures forall i, j :: 0 <= i < j < |PrimitiveTable| ==> PrimitiveTable[i].0 != PrimitiveTable[j].0
  {
    assert "car"[1] != "cdr"[1];
  }

  /** In an environment binding distinct names to primitives, in order,
    * the first binding of the k-th name is the k-th. */
  lemma TableFirstIndex(table: seq<(string, PrimOp)>, s: seq<Object>, k: int)
    requires |s| == |table| && 0 <= k < |table|
    requires forall i :: 0 <= i < |s| ==> s[i] == PrimitiveBinding(table[i])
    requires forall i, j :: 0 <= i < j < |table| ==> table[i].0 != table[j].0
    ensures AllBindings(s) && FirstIndex(s, Symbol(table[k].0)) == k
  {
    var key := Symbol(table[k].0);
    CompareObjectAtoms(key, key);
    assert Binds(s, k, key);
    var f := FirstIndex(s, key);
    CompareObjectAtoms(key, s[f].bindingVal.symbol);
  }

  /** ... so each name looks up to its primitive. */
  lemma TableLookup(table: seq<(string, PrimOp)>, s: seq<Object>, k: int)
    requires |s| == |table| && 0 <= k < |table|
    requires forall i :: 0 <= i < |s| ==> s[i] == PrimitiveBinding(table[i])
    requires forall i, j :: 0 <= i < j < |table| ==> table[i].0 != table[j].0
    ensures AllBindings(s) && Lookup(s, Symbol(table[k].0)) == FunctionObj(Builtin(table[k].1))
  {
    TableFirstIndex(table, s, k);
    LookupFirst(s, Symbol(table[k].0));
  }

  /** At start-up each primitive's name looks up to that primitive. */
  lemma GlobalLookup(k: int)
    requires 0 <= k < |PrimitiveTable|
    ensures AllBindings(GlobalBindings(|PrimitiveTable|))
    ensures Lookup(GlobalBindings(|PrimitiveTable|), Symbol(PrimitiveTable[k].0)) ==
      FunctionObj(Builtin(PrimitiveTable[k].1))
  {
    PrimitiveNamesDistinct();
    TableLookup(PrimitiveTable, GlobalBindings(|PrimitiveTable|), k);
  }

  /** The result of a call made with no fuel left. */
  const FuelOut: Object := Error("<out of fuel>")

  /** Objects eval returns unchanged. */
  predicate SelfEvaluating(obj: Object) {
    obj.Int? || obj.Real? || obj.FunctionObj? || obj.Error? || obj == ListObj([])
  }

  // ---------------------------------------------------------------------
  // Size of an expression, for termination
  // ---------------------------------------------------------------------

  function Size(obj: Object): (n: nat)
    ensures n >= 1
    decreases obj, 1
  {
    if obj.ListObj? then 1 + SizeAll(obj.listVal) else 1
  }

  function SizeAll(xs: seq<Object>): (n: nat)
    ensures n >= 1
    decreases xs, 0
  {
    if xs == [] then 1 else Size(xs[0]) + SizeAll(xs[1..])
  }

  /** Every element is smaller than the sequence holding it. */
  lemma {:induction false} SizeElement(xs: seq<Object>, i: int)
    requires 0 <= i < |xs|
    ensures Size(xs[i]) < SizeAll(xs)
    decreases i
  {
    if i > 0 {
      SizeElement(xs[1..], i - 1);
    }
  }

  /** The two branches of an if are smaller than its arguments. */
  lemma SizeBranches(xs: seq<Object>)
    requires |xs| >= 3
    ensures Size(xs[1]) + Size(xs[2]) < SizeAll(xs)
  {
    assert SizeAll(xs) == Size(xs[0]) + SizeAll(xs[1..]);
    assert SizeAll(xs[1..]) == Size(xs[1]) + SizeAll(xs[2..]) by {
      assert xs[1..][1..] == xs[2..];
    }
    assert SizeAll(xs[2..]) == Size(xs[2]) + SizeAll(xs[3..]) by {
      assert xs[2..][1..] == xs[3..];
    }
  }

  // ---------------------------------------------------------------------
  // Closures and the environments they captured
  // ---------------------------------------------------------------------

  /** Every closure inside obj captured an environment from S. */
  ghost predicate Closed(obj: Object, S: set<List>)
    decreases obj
  {
    match obj
    case ListObj(xs) => forall i :: 0 <= i < |xs| ==> Closed(xs[i], S)
    case BindingObj(b) => Closed(b.symbol, S) && Closed(b.value, S)
    case FunctionObj(f) =>
      f.Closure? ==>
        f.env in S && Closed(f.code, S) && forall i :: 0 <= i < |f.freeVars| ==> Closed(f.freeVars[i], S)
    case _ => true
  }

  ghost predicate ClosedAll(xs: seq<Object>, S: set<List>) {
    forall i :: 0 <= i < |xs| ==> Closed(xs[i], S)
  }

  /** More environments never unclose an object. */
  lemma {:induction false} ClosedMono(obj: Object, S: set<List>, T: set<List>)
    requires S <= T && Closed(obj, S)
    ensures Closed(obj, T)
    decreases obj
  {
    match obj
    case ListObj(xs) =>
      forall i | 0 <= i < |xs| ensures Closed(xs[i], T) {
        ClosedMono(xs[i], S, T);
      }
    case BindingObj(b) =>
      ClosedMono(b.symbol, S, T);
      ClosedMono(b.value, S, T);
    case FunctionObj(f) =>
      if f.Closure? {
        ClosedMono(f.code, S, T);
        forall i | 0 <= i < |f.freeVars| ensures Closed(f.freeVars[i], T) {
          ClosedMono(f.freeVars[i], S, T);
        }
      }
    case _ =>
  }

  lemma ClosedAllMono(xs: seq<Object>, S: set<List>, T: set<List>)
    requires S <= T && ClosedAll(xs, S)
    ensures ClosedAll(xs, T)
  {
    forall i | 0 <= i < |xs| ensures Closed(xs[i], T) {
      ClosedMono(xs[i], S, T);
    }
  }

  /** Every element of s is a binding closed over S. */
  ghost predicate EnvOk(s: seq<Object>, S: set<List>)
    decreases |s|
  {
    s == [] || (EnvOk(s[..|s| - 1], S) && s[|s| - 1].BindingObj? && Closed(s[|s| - 1], S))
  }

  lemma {:induction false} EnvOkElements(s: seq<Object>, S: set<List>)
    ensures EnvOk(s, S) <==> AllBindings(s) && ClosedAll(s, S)
    decreases |s|
  {
    if s != [] {
      EnvOkElements(s[..|s| - 1], S);
    }
  }

  lemma EnvOkSnoc(s: seq<Object>, b: Object, S: set<List>)
    requires EnvOk(s, S) && b.BindingObj? && Closed(b, S)
    ensures EnvOk(s + [b], S)
  {
    assert (s + [b])[..|s|] == s;
  }

  lemma EnvOkMono(s: seq<Object>, S: set<List>, T: set<List>)
    requires S <= T && EnvOk(s, S)
    ensures EnvOk(s, T)
  {
    EnvOkElements(s, S);
    ClosedAllMono(s, S, T);
    EnvOkElements(s, T);
  }

  lemma {:induction false} EnvOkAddMissing(s: seq<Object>, t: seq<Object>, S: set<List>)
    requires EnvOk(s, S) && EnvOk(t, S)
    ensures EnvOk(AddMissingSeq(s, t), S)
    decreases |t|
  {
    if t != [] {
      EnvOkAddMissing(s, t[..|t| - 1], S);
      var acc := AddMissingSeq(s, t[..|t| - 1]);
      if IndexOf(acc, t[|t| - 1]) == -1 {
        EnvOkSnoc(acc, t[|t| - 1], S);
      }
    }
  }

  /** The invariant of list l, behind one step of recursion on `depth`, so
    * that a proof about the evaluator's many lists unfolds the invariant
    * of one of them only where it asks for it. */
  ghost predicate Healthy(l: List, depth: nat)
    reads l, l.Repr
    decreases depth
  {
    if depth == 0 then l.Valid() else Healthy(l, depth - 1)
  }

  lemma HealthyValid(l: List)
    requires Healthy(l, 1)
    ensures l.Valid()
  {
  }

  lemma ValidHealthy(l: List)
    requires l.Valid()
    ensures Healthy(l, 1)
  {
  }

  /** What lookup finds in closed bindings is closed. */
  lemma {:induction false} LookupClosed(s: seq<Object>, key: Object, S: set<List>)
    requires AllBindings(s) && ClosedAll(s, S)
    ensures Closed(Lookup(s, key), S)
    decreases |s|
  {
    if s != [] && !CompareObject(key, s[0].bindingVal.symbol) {
      LookupClosed(s[1..], key, S);
    }
  }

  /** The primitives only return their arguments, parts of them, or new
    * atoms. */
  lemma PrimitiveResultClosed(arith: Arith, op: PrimOp, args: seq<Object>, S: set<List>)
    requires op != Print && ClosedAll(args, S)
    ensures Closed(PrimitiveResult(arith, op, args), S)
  {
    if op == Cdr && args != [] {
      assert OmitNth(args, 0) == args[1..];
    }
  }

  /** A lambda closes over the environment it is made in. */
  lemma LambdaClosed(params: Object, code: Object, env: List, S: set<List>)
    requires Closed(params, S) && Closed(code, S) && env in S
    ensures Closed(LambdaOf(params, code, env), S)
  {
    if params.ListObj? {
      var ps := params.listVal;
      var index := IndexOf(ps, Ellipsis);
      OmitNthElements(ps, index);
    }
  }

  lemma OmitNthElements(s: seq<Object>, n: int)
    ensures forall i :: 0 <= i < |OmitNth(s, n)| ==> OmitNth(s, n)[i] in s
  {
    if 0 <= n < |s| {
      forall i | 0 <= i < |OmitNth(s, n)| ensures OmitNth(s, n)[i] in s {
        assert OmitNth(s, n)[i] == if i < n then s[i] else s[i + 1];
      }
    }
  }

  /** The names in the special-form table are distinct. */
  lemma SpecialFormNames()
    ensures SpecialForms[0].name == "define" && SpecialForms[1].name == "if" && SpecialForms[2].name == "lambda"
    ensures "define" != "if" && "define" != "lambda" && "if" != "lambda"
  {
    assert "define"[0] != "lambda"[0];
  }

  /** What applySpecial yields: undefined behaviour past the three
    * flags or short of the arguments the handler reads; define yields its
    * label, whose binding now ends the environment and holds the value
    * when that evaluates to itself; lambda the closure of
    * specialLambda; if, when its parts need no evaluation, the branch
    * the test selects. */
  ghost predicate SpecialOutcome(special: SpecialForm, args: seq<Object>, env: List, r: Object)
    reads env
  {
    (|args| > 3 || |args| < special.numArgs ==> r == Undefined) &&
    (special.handler == DefineForm && 2 <= |args| <= 3 ==>
      r == args[0] && env.elems != [] && env.elems[|env.elems| - 1].BindingObj? &&
      env.elems[|env.elems| - 1].bindingVal.symbol == args[0]) &&
    (special.handler == DefineForm && 2 <= |args| <= 3 && SelfEvaluating(args[1]) ==>
      env.elems[|env.elems| - 1] == BindingObj(Binding(args[0], args[1]))) &&
    (special.handler == LambdaForm && 2 <= |args| <= 3 ==> r == LambdaOf(args[0], args[1], env)) &&
    ((special.handler == IfForm && |args| == 3 &&
      SelfEvaluating(args[0]) && SelfEvaluating(args[1]) && SelfEvaluating(args[2])) ==>
      r == if TakesPositive(args[0]) then args[1] else args[2])
  }

  /** Argument j of a special form comes through applySpecial's loop as
    * it was: its flag says not to evaluate it, or it evaluates to itself. */
  predicate Unevaluated(special: SpecialForm, args: seq<Object>, j: int)
    requires 0 <= j < |args| && j < |special.flags|
  {
    special.numArgs == 0 || special.flags[j] != EVAL || SelfEvaluating(args[j])
  }

  predicate AllSelfEvaluating(xs: seq<Object>) {
    forall i :: 0 <= i < |xs| ==> SelfEvaluating(xs[i])
  }

  /** What apply yields without evaluating a lambda body: a primitive its
    * result on the arguments (print the zero object, or FuelOut with no
    * fuel left), a VARLAMBDA the apply error, a lambda short of arguments
    * undefined behaviour, and a lambda with no fuel left FuelOut. */
  predicate ApplyOutcome(arith: Arith, proc: Function, args: seq<Object>, fuel: nat, r: Object) {
    (proc.Builtin? && proc.func != Print ==> r == PrimitiveResult(arith, proc.func, args)) &&
    (proc.Builtin? && proc.func == Print ==> r == if fuel == 0 then FuelOut else Int(0)) &&
    (proc.Closure? && proc.funcType != Lambda ==> r == Error("An error in apply occured")) &&
    (proc.Closure? && proc.funcType == Lambda && |args| < |proc.freeVars| ==> r == Undefined) &&
    (proc.Closure? && proc.funcType == Lambda && |args| >= |proc.freeVars| && fuel == 0 ==> r == FuelOut)
  }

  /** What eval yields for a non-empty list: a head naming a special form
    * gives that form's outcome on the rest; a list whose elements evaluate
    * to themselves is applied when its head is a function and is its own
    * value otherwise. */
  ghost predicate ListOutcome(arith: Arith, xs: seq<Object>, env: List, fuel: nat, r: Object)
    requires xs != []
    reads env
  {
    (forall k :: 0 <= k < |SpecialForms| && xs[0] == Symbol(SpecialForms[k].name) ==>
      SpecialOutcome(SpecialForms[k], xs[1..], env, r)) &&
    (AllSelfEvaluating(xs) && !xs[0].FunctionObj? ==> r == ListObj(xs)) &&
    (AllSelfEvaluating(xs) && xs[0].FunctionObj? ==> ApplyOutcome(arith, xs[0].procedureVal, xs[1..], fuel, r))
  }

  /** An object eval reads without recursing: anything but a non-empty
    * list. */
  predicate Atomic(obj: Object) {
    !obj.ListObj? || obj.listVal == []
  }

  /** The value eval gives an atomic object in an environment s. */
  function AtomValue(s: seq<Object>, obj: Object): Object
    requires AllBindings(s)
  {
    match obj
    case Symbol(_) => Lookup(s, obj)
    case Bool(_) => Error("Error during eval")
    case BindingObj(_) => Error("Error during eval")
    case _ => obj
  }

  function AtomValues(s: seq<Object>, xs: seq<Object>): seq<Object>
    requires AllBindings(s)
  {
    seq(|xs|, i requires 0 <= i < |xs| => AtomValue(s, xs[i]))
  }

  predicate AllAtomic(xs: seq<Object>) {
    forall i :: 0 <= i < |xs| ==> Atomic(xs[i])
  }

  /** A call whose head names no special form and whose elements are all
    * atomic, such as (+ 1 x). */
  predicate FlatCall(xs: seq<Object>) {
    xs != [] && AllAtomic(xs) &&
    forall k :: 0 <= k < |SpecialForms| ==> xs[0] != Symbol(SpecialForms[k].name)
  }

  /** What eval yields for a flat call in an environment s: the values of
    * its elements, the first applied to the rest when it is a function,
    * else the list of the values. */
  predicate FlatOutcome(arith: Arith, s: seq<Object>, xs: seq<Object>, fuel: nat, r: Object)
    requires AllBindings(s) && xs != []
  {
    var vs := AtomValues(s, xs);
    (vs[0].FunctionObj? ==> ApplyOutcome(arith, vs[0].procedureVal, vs[1..], fuel, r)) &&
    (!vs[0].FunctionObj? ==> r == ListObj(vs))
  }

  /** The arguments a special form evaluates are all atomic, so applying
    * the form evaluates nothing that could change an environment. */
  predicate QuietArgs(special: SpecialForm, args: seq<Object>) {
    forall j :: 0 <= j < |args| && j < |special.flags| && special.numArgs != 0 && special.flags[j] == EVAL ==>
      Atomic(args[j])
  }

  /** (define name value) with a value that evaluates to itself. */
  predicate SimpleDefine(xs: seq<Object>) {
    |xs| == 3 && xs[0] == Symbol("define") && SelfEvaluating(xs[2])
  }

  /** The position in the special-form table of the form named `sym`, or
    * -1. */
  method FindSpecialForm(sym: string) returns (index: int)
    ensures -1 <= index < |SpecialForms|
    ensures index >= 0 ==> SpecialForms[index].name == sym
    ensures index == -1 <==> forall k :: 0 <= k < |SpecialForms| ==> SpecialForms[k].name != sym
  {
    var i := 0;
    while i < |SpecialForms|
      invariant 0 <= i <= |SpecialForms|
      invariant forall k :: 0 <= k < i ==> SpecialForms[k].name != sym
    {
      if sym == SpecialForms[i].name {
        return i;
      }
      i := i + 1;
    }
    return -1;
  }

  // ---------------------------------------------------------------------
  // The evaluator
  // ---------------------------------------------------------------------

  class EvalApply {
    /** The global environment. */
    const environment: List
    /** The machine's double arithmetic. */
    const arith: Arith
    /** The lines print has written to the console. */
    var output: seq<string>
    ghost var lists: set<List>
    ghost var footprint: set<object>

    ghost predicate Valid()
      reads this, footprint
    {
      this !in footprint && environment in lists &&
      (forall l :: l in lists ==> l in footprint && l in l.Repr && l.Repr <= footprint && Healthy(l, 1)) &&
      (forall l, m :: l in lists && m in lists && l != m ==> l.Repr !! m.Repr) &&
      (forall l :: l in lists ==> EnvOk(l.elems, lists))
    }

    /** A global environment holding the ten primitives, in table order. */
    constructor (arith: Arith)
      ensures Valid() && fresh(footprint) && lists == {environment} && output == []
      ensures environment.elems == GlobalBindings(|PrimitiveTable|) && this.arith == arith
    {
      environment := new List();
      this.arith := arith;
      output := [];
      new;
      lists, footprint := {environment}, environment.Repr;
      ValidHealthy(environment);
      var i := 0;
      while i < |PrimitiveTable|
        invariant 0 <= i <= |PrimitiveTable|
        invariant Valid() && lists == {environment} && fresh(footprint) && output == []
        invariant environment.elems == GlobalBindings(i)
      {
        AddPrimitive(PrimitiveTable[i].0, PrimitiveTable[i].1);
        i := i + 1;
      }
    }

    /** Appends a binding to one of the evaluator's environments. */
    method AppendBinding(l: List, name: Object, value: Object)
      requires Valid() && l in lists && Closed(name, lists) && Closed(value, lists)
      modifies this, l.Repr
      ensures Valid() && lists == old(lists) && output == old(output)
      ensures old(footprint) <= footprint && (forall o :: o in footprint && o !in old(footprint) ==> fresh(o))
      ensures l.elems == old(l.elems) + [BindingObj(Binding(name, value))]
      ensures old(l.Repr) <= l.Repr && fresh(l.Repr - old(l.Repr))
      ensures forall m :: m in lists && m != l ==> m.elems == old(m.elems)
    {
      EnvOkSnoc(l.elems, BindingObj(Binding(name, value)), lists);
      HealthyValid(l);
      l.Append(MakeBindingObject(MakeBinding(name, value)));
      ValidHealthy(l);
      footprint := footprint + l.Repr;
    }

    /** addBinding: appends to the global environment. */
    method AddBinding(binding: Binding)
      requires Valid() && Closed(BindingObj(binding), lists)
      modifies this, environment.Repr
      ensures Valid() && lists == old(lists) && output == old(output)
      ensures old(footprint) <= footprint && (forall o :: o in footprint && o !in old(footprint) ==> fresh(o))
      ensures environment.elems == old(environment.elems) + [BindingObj(binding)]
    {
      AppendBinding(environment, binding.symbol, binding.value);
    }

    /** addPrimitive: binds the symbol to a primitive procedure. */
    method AddPrimitive(symbol: string, func: PrimOp)
      requires Valid()
      modifies this, environment.Repr
      ensures Valid() && lists == old(lists) && output == old(output)
      ensures old(footprint) <= footprint && (forall o :: o in footprint && o !in old(footprint) ==> fresh(o))
      ensures environment.elems == old(environment.elems) + [PrimitiveBinding((symbol, func))]
    {
      AddBinding(MakeBinding(MakeSymbolObject(symbol), MakeFunctionObject(MakeFunction(func))));
    }

    /** A new, empty environment among the evaluator's lists. */
    method NewEnv() returns (nenv: List)
      requires Valid()
      modifies this
      ensures Valid() && fresh(nenv) && fresh(nenv.Repr) && nenv.elems == [] && output == old(output)
      ensures lists == old(lists) + {nenv}
      ensures old(footprint) <= footprint && (forall o :: o in footprint && o !in old(footprint) ==> fresh(o))
    {
      nenv := new List();
      ValidHealthy(nenv);
      lists, footprint := lists + {nenv}, footprint + nenv.Repr;
      forall l | l in old(lists) ensures EnvOk(l.elems, lists) {
        EnvOkMono(l.elems, old(lists), lists);
      }
    }

    /** addMissing of one environment into another. */
    method AddMissingTo(l: List, src: List)
      requires Valid() && l in lists && src in lists && l != src
      modifies this, l.Repr
      ensures Valid() && lists == old(lists) && output == old(output)
      ensures old(footprint) <= footprint && (forall o :: o in footprint && o !in old(footprint) ==> fresh(o))
      ensures l.elems == AddMissingSeq(old(l.elems), src.elems)
      ensures old(l.Repr) <= l.Repr && fresh(l.Repr - old(l.Repr))
      ensures forall m :: m in lists && m != l ==> m.elems == old(m.elems)
    {
      EnvOkAddMissing(l.elems, src.elems, lists);
      HealthyValid(l);
      HealthyValid(src);
      l.AddMissing(src);
      ValidHealthy(l);
      footprint := footprint + l.Repr;
    }

    /** envLookUp: the value of the first binding of obj in env. */
    method EnvLookUp(env: List, obj: Object) returns (r: Object)
      requires env.Valid() && AllBindings(env.elems)
      ensures r == Lookup(env.elems, obj)
    {
      var it := env.First();
      ghost var i := 0;
      while it != null
        invariant 0 <= i <= |env.nodes|
        invariant it == if i < |env.nodes| then env.nodes[i] else null
        invariant Lookup(env.elems, obj) == Lookup(env.elems[i..], obj)
        decreases |env.nodes| - i
      {
        if CompareObject(obj, it.info.bindingVal.symbol) {
          return it.info.bindingVal.value;
        }
        assert env.elems[i..][1..] == env.elems[i + 1..];
        it := it.next;
        i := i + 1;
      }
      return MakeErrorObject("Not Found");
    }

    /** makeNewEnvironment: a new environment binding the i-th variable to
      * the i-th value; extra values are ignored. */
    method MakeNewEnvironment(vars: seq<Object>, vals: seq<Object>) returns (nenv: List)
      requires Valid() && |vars| <= |vals| && ClosedAll(vars, lists) && ClosedAll(vals, lists)
      modifies this
      ensures Valid() && fresh(nenv) && fresh(nenv.Repr) && output == old(output)
      ensures lists == old(lists) + {nenv}
      ensures old(footprint) <= footprint && (forall o :: o in footprint && o !in old(footprint) ==> fresh(o))
      ensures nenv.elems == Zip(vars, vals)
      ensures forall m :: m in old(lists) ==> m.elems == old(m.elems)
    {
      nenv := NewEnv();
      ClosedAllMono(vars, old(lists), lists);
      ClosedAllMono(vals, old(lists), lists);
      var i := 0;
      while i < |vars|
        invariant 0 <= i <= |vars|
        invariant Valid() && fresh(nenv) && fresh(nenv.Repr) && output == old(output)
        invariant lists == old(lists) + {nenv}
        invariant old(footprint) <= footprint && (forall o :: o in footprint && o !in old(footprint) ==> fresh(o))
        invariant ClosedAll(vars, lists) && ClosedAll(vals, lists)
        invariant nenv.elems == Zip(vars[..i], vals)
        invariant forall m :: m in old(lists) ==> m.elems == old(m.elems)
      {
        assert vars[..i + 1][..i] == vars[..i];
        AppendBinding(nenv, vars[i], vals[i]);
        i := i + 1;
      }
      assert vars[..i] == vars;
    }

    /** The environment a lambda body runs in: its parameters bound to the
      * arguments, then addMissing of the environment the closure captured,
      * as it is now, then of the caller's. */
    method CallEnvironment(proc: Function, args: seq<Object>, env: List) returns (nenv: List)
      requires Valid() && env in lists && proc.Closure? && Closed(FunctionObj(proc), lists)
      requires ClosedAll(args, lists) && |proc.freeVars| <= |args|
      modifies this
      ensures Valid() && fresh(nenv) && output == old(output)
      ensures lists == old(lists) + {nenv}
      ensures old(footprint) <= footprint && (forall o :: o in footprint && o !in old(footprint) ==> fresh(o))
      ensures nenv.elems == CallEnv(proc.freeVars, args, old(proc.env.elems), old(env.elems))
    {
      nenv := MakeNewEnvironment(proc.freeVars, args);
      AddMissingTo(nenv, proc.env);
      AddMissingTo(nenv, env);
    }

    /** eval: numbers, functions, errors and the empty list evaluate to
      * themselves, a symbol to its value in env; a bool or a binding is an
      * error. */
    method Eval(obj: Object, env: List, fuel: nat) returns (r: Object)
      requires Valid() && env in lists && Closed(obj, lists)
      modifies this, footprint
      ensures Valid() && old(lists) <= lists && old(output) <= output
      ensures old(footprint) <= footprint && (forall o :: o in footprint && o !in old(footprint) ==> fresh(o))
      ensures Closed(r, lists)
      ensures SelfEvaluating(obj) ==> r == obj
      ensures obj.Symbol? ==> AllBindings(old(env.elems)) && r == Lookup(old(env.elems), obj)
      ensures obj.Bool? || obj.BindingObj? ==> r == Error("Error during eval")
      ensures obj.ListObj? && obj.listVal != [] ==> ListOutcome(arith, obj.listVal, env, fuel, r)
      ensures obj.ListObj? && FlatCall(obj.listVal) ==>
        AllBindings(old(env.elems)) && FlatOutcome(arith, old(env.elems), obj.listVal, fuel, r)
      ensures Atomic(obj) ==> lists == old(lists) && forall m :: m in lists ==> m.elems == old(m.elems)
      ensures obj.ListObj? && SimpleDefine(obj.listVal) ==>
        env.elems == old(env.elems) + [BindingObj(Binding(obj.listVal[1], obj.listVal[2]))]
      decreases fuel, Size(obj), 1
    {
      match obj
      case Int(_) => r := obj;
      case Real(_) => r := obj;
      case FunctionObj(_) => r := obj;
      case Error(_) => r := obj;
      case Symbol(_) =>
        EnvOkElements(env.elems, lists);
        HealthyValid(env);
        r := EnvLookUp(env, obj);
        LookupClosed(env.elems, obj, lists);
      case ListObj(xs) =>
        if xs == [] {
          r := obj;
        } else {
          r := EvalList(xs, env, fuel);
        }
      case Bool(_) => r := MakeErrorObject("Error during eval");
      case BindingObj(_) => r := MakeErrorObject("Error during eval");
    }

    /** eval of a non-empty list: a special form by the name at its head,
      * otherwise the elements evaluated left to right and, when the first
      * is a function, applied to the rest; otherwise the evaluated list. */
    method EvalList(xs: seq<Object>, env: List, fuel: nat) returns (r: Object)
      requires Valid() && env in lists && xs != [] && ClosedAll(xs, lists)
      modifies this, footprint
      ensures Valid() && old(lists) <= lists && old(output) <= output
      ensures old(footprint) <= footprint && (forall o :: o in footprint && o !in old(footprint) ==> fresh(o))
      ensures Closed(r, lists)
      ensures ListOutcome(arith, xs, env, fuel, r)
      ensures FlatCall(xs) ==> AllBindings(old(env.elems)) && FlatOutcome(arith, old(env.elems), xs, fuel, r)
      ensures SimpleDefine(xs) ==> env.elems == old(env.elems) + [BindingObj(Binding(xs[1], xs[2]))]
      decreases fuel, Size(ListObj(xs)), 0
    {
      SpecialFormNames();
      if xs[0].Symbol? {
        var k := FindSpecialForm(xs[0].strVal);
        if k >= 0 {
          assert SizeAll(xs) == Size(xs[0]) + SizeAll(xs[1..]);
          assert !AllSelfEvaluating(xs) by {
            assert !SelfEvaluating(xs[0]);
          }
          assert !FlatCall(xs) by {
            assert xs[0] == Symbol(SpecialForms[k].name);
          }
          SpecialFormNames();
          assert forall j :: 0 <= j < |SpecialForms| && xs[0] == Symbol(SpecialForms[j].name) ==> j == k;
          r := ApplySpecial(SpecialForms[k], xs[1..], env, fuel);
          return;
        }
      }
      assert forall k :: 0 <= k < |SpecialForms| ==> xs[0] != Symbol(SpecialForms[k].name);
      r := EvalCombination(xs, env, fuel);
    }

    /** A list whose head names no special form: every element evaluated,
      * then the first applied to the rest when it is a function, else the
      * list of the values. */
    method EvalCombination(xs: seq<Object>, env: List, fuel: nat) returns (r: Object)
      requires Valid() && env in lists && xs != [] && ClosedAll(xs, lists)
      modifies this, footprint
      ensures Valid() && old(lists) <= lists && old(output) <= output
      ensures old(footprint) <= footprint && (forall o :: o in footprint && o !in old(footprint) ==> fresh(o))
      ensures Closed(r, lists)
      ensures AllSelfEvaluating(xs) && !xs[0].FunctionObj? ==> r == ListObj(xs)
      ensures AllSelfEvaluating(xs) && xs[0].FunctionObj? ==> ApplyOutcome(arith, xs[0].procedureVal, xs[1..], fuel, r)
      ensures FlatCall(xs) ==> AllBindings(old(env.elems)) && FlatOutcome(arith, old(env.elems), xs, fuel, r)
      decreases fuel, SizeAll(xs), 1
    {
      var ev := EvalElements(xs, env, fuel);
      if AllSelfEvaluating(xs) {
        assert ev == xs;
      }
      if ev[0].FunctionObj? {
        r := Apply(ev[0].procedureVal, ev[1..], env, fuel);
      } else {
        r := MakeListObject(ev);
      }
    }

    /** Every element evaluated, left to right. */
    method EvalElements(xs: seq<Object>, env: List, fuel: nat) returns (ev: seq<Object>)
      requires Valid() && env in lists && ClosedAll(xs, lists)
      modifies this, footprint
      ensures Valid() && old(lists) <= lists && old(output) <= output
      ensures old(footprint) <= footprint && (forall o :: o in footprint && o !in old(footprint) ==> fresh(o))
      ensures |ev| == |xs| && ClosedAll(ev, lists)
      ensures forall i :: 0 <= i < |xs| && SelfEvaluating(xs[i]) ==> ev[i] == xs[i]
      ensures AllAtomic(xs) ==> AllBindings(old(env.elems)) && ev == AtomValues(old(env.elems), xs)
      decreases fuel, SizeAll(xs), 0
    {
      EnvOkElements(env.elems, lists);
      ghost var s0, atomic := env.elems, AllAtomic(xs);
      ev := [];
      var i := 0;
      while i < |xs|
        invariant 0 <= i <= |xs| && |ev| == i
        invariant Valid() && env in lists && old(lists) <= lists && old(output) <= output
        invariant old(footprint) <= footprint && (forall o :: o in footprint && o !in old(footprint) ==> fresh(o))
        invariant ClosedAll(xs, lists) && ClosedAll(ev, lists)
        invariant forall j :: 0 <= j < i && SelfEvaluating(xs[j]) ==> ev[j] == xs[j]
        invariant AllBindings(s0)
        invariant atomic ==> env.elems == s0 && forall j :: 0 <= j < i ==> ev[j] == AtomValue(s0, xs[j])
      {
        SizeElement(xs, i);
        ghost var before := lists;
        assert atomic ==> Atomic(xs[i]);
        var el := Eval(xs[i], env, fuel);
        ClosedAllMono(xs, before, lists);
        ClosedAllMono(ev, before, lists);
        if atomic {
          assert env.elems == s0 && el == AtomValue(s0, xs[i]);
        }
        ev := ev + [el];
        i := i + 1;
      }
    }

    /** applySpecial: the arguments, in order, each evaluated first when
      * the form's flag for it says so, then handed to the form's handler.
      * The flag table has three slots, so a fourth argument is read past
      * its end; a handler given fewer arguments than it reads reads
      * through a null node. */
    method ApplySpecial(special: SpecialForm, args: seq<Object>, env: List, fuel: nat) returns (r: Object)
      requires Valid() && env in lists && ClosedAll(args, lists) && special in SpecialForms
      modifies this, footprint
      ensures Valid() && old(lists) <= lists && old(output) <= output
      ensures old(footprint) <= footprint && (forall o :: o in footprint && o !in old(footprint) ==> fresh(o))
      ensures Closed(r, lists) && SpecialOutcome(special, args, env, r)
      ensures special.handler == DefineForm && |args| == 2 && SelfEvaluating(args[1]) ==>
        env.elems == old(env.elems) + [BindingObj(Binding(args[0], args[1]))]
      decreases fuel, SizeAll(args), 1
    {
      var evaluated := EvalArguments(special, args, env, fuel);
      if |args| > |special.flags| || |evaluated| < special.numArgs {
        return Undefined;
      }
      match special.handler
      case DefineForm =>
        r := SpecialDefine(evaluated, env);
      case IfForm =>
        SizeBranches(args);
        r := SpecialIf(evaluated, env, fuel);
      case LambdaForm =>
        r := LambdaOf(evaluated[0], evaluated[1], env);
        LambdaClosed(evaluated[0], evaluated[1], env, lists);
    }

    /** The loop of applySpecial, up to the end of the arguments or of the
      * flag table, whichever comes first. */
    method EvalArguments(special: SpecialForm, args: seq<Object>, env: List, fuel: nat) returns (evaluated: seq<Object>)
      requires Valid() && env in lists && ClosedAll(args, lists)
      modifies this, footprint
      ensures Valid() && old(lists) <= lists && old(output) <= output
      ensures old(footprint) <= footprint && (forall o :: o in footprint && o !in old(footprint) ==> fresh(o))
      ensures |evaluated| == if |args| < |special.flags| then |args| else |special.flags|
      ensures ClosedAll(evaluated, lists)
      ensures forall j :: 0 <= j < |evaluated| && Unevaluated(special, args, j) ==> evaluated[j] == args[j]
      ensures QuietArgs(special, args) ==> lists == old(lists) && forall m :: m in lists ==> m.elems == old(m.elems)
      decreases fuel, SizeAll(args), 0
    {
      ghost var quiet := QuietArgs(special, args);
      evaluated := [];
      var i := 0;
      while i < |args| && i < |special.flags|
        invariant 0 <= i <= |args| && i <= |special.flags| && |evaluated| == i
        invariant Valid() && env in lists && old(lists) <= lists && old(output) <= output
        invariant old(footprint) <= footprint && (forall o :: o in footprint && o !in old(footprint) ==> fresh(o))
        invariant ClosedAll(args, lists) && ClosedAll(evaluated, lists)
        invariant forall j :: 0 <= j < i && Unevaluated(special, args, j) ==> evaluated[j] == args[j]
        invariant quiet ==> lists == old(lists) && forall m :: m in lists ==> m.elems == old(m.elems)
      {
        var result := args[i];
        if special.numArgs != 0 && special.flags[i] == EVAL {
          assert quiet ==> Atomic(args[i]);
          SizeElement(args, i);
          ghost var before := lists;
          result := Eval(args[i], env, fuel);
          ClosedAllMono(args, before, lists);
          ClosedAllMono(evaluated, before, lists);
        }
        evaluated := evaluated + [result];
        i := i + 1;
      }
    }

    /** specialDefine: appends (label, value) to env and returns the
      * label. */
    method SpecialDefine(args: seq<Object>, env: List) returns (r: Object)
      requires Valid() && env in lists && |args| >= 2 && ClosedAll(args, lists)
      modifies this, env.Repr
      ensures Valid() && lists == old(lists) && output == old(output)
      ensures old(footprint) <= footprint && (forall o :: o in footprint && o !in old(footprint) ==> fresh(o))
      ensures r == args[0] && Closed(r, lists)
      ensures env.elems == old(env.elems) + [BindingObj(Binding(args[0], args[1]))]
    {
      AppendBinding(env, args[0], args[1]);
      r := args[0];
    }

    /** specialIf: evaluates the second argument when the test takes the
      * positive branch, else the third. */
    method SpecialIf(args: seq<Object>, env: List, fuel: nat) returns (r: Object)
      requires Valid() && env in lists && |args| >= 3 && ClosedAll(args, lists)
      modifies this, footprint
      ensures Valid() && old(lists) <= lists && old(output) <= output
      ensures old(footprint) <= footprint && (forall o :: o in footprint && o !in old(footprint) ==> fresh(o))
      ensures Closed(r, lists)
      ensures TakesPositive(args[0]) && SelfEvaluating(args[1]) ==> r == args[1]
      ensures !TakesPositive(args[0]) && SelfEvaluating(args[2]) ==> r == args[2]
      decreases fuel, Size(args[1]) + Size(args[2]), 0
    {
      if TakesPositive(args[0]) {
        r := Eval(args[1], env, fuel);
      } else {
        r := Eval(args[2], env, fuel);
      }
    }

    /** apply: a primitive runs on the arguments; a lambda evaluates its
      * body in the call environment; anything else is an error. */
    method Apply(proc: Function, args: seq<Object>, env: List, fuel: nat) returns (r: Object)
      requires Valid() && env in lists && Closed(FunctionObj(proc), lists) && ClosedAll(args, lists)
      modifies this, footprint
      ensures Valid() && old(lists) <= lists && old(output) <= output
      ensures old(footprint) <= footprint && (forall o :: o in footprint && o !in old(footprint) ==> fresh(o))
      ensures Closed(r, lists)
      ensures ApplyOutcome(arith, proc, args, fuel, r)
      ensures proc.Closure? && proc.funcType == Lambda && |args| >= |proc.freeVars| && fuel > 0 ==>
        var callEnv := CallEnv(proc.freeVars, args, old(proc.env.elems), old(env.elems));
        AllBindings(callEnv) &&
        (SelfEvaluating(proc.code) ==> r == proc.code) &&
        (proc.code.Symbol? ==> r == Lookup(callEnv, proc.code))
      decreases fuel, 0, 1
    {
      match proc
      case Builtin(op) =>
        if op == Print {
          if fuel == 0 {
            r := FuelOut;
          } else {
            r := PrimitivePrint(args, fuel);
          }
        } else {
          if op in {Plus, Minus, Multiply, Divide} {
            r := ApplyMathPrimitive(arith, op, args);
          } else {
            r := PrimitiveResult(arith, op, args);
          }
          PrimitiveResultClosed(arith, op, args, lists);
        }
      case Closure(funcType, vars, code, cenv) =>
        if funcType != Lambda {
          r := MakeErrorObject("An error in apply occured");
        } else if |args| < |vars| {
          r := Undefined;
        } else if fuel == 0 {
          r := FuelOut;
        } else {
          r := ApplyLambda(proc, args, env, fuel);
        }
    }

    /** The call of a lambda given enough arguments: its body evaluated, with
      * one unit of fuel less, in the environment the call builds from the
      * parameters, the captured environment and the caller's. */
    method ApplyLambda(proc: Function, args: seq<Object>, env: List, fuel: nat) returns (r: Object)
      requires Valid() && env in lists && Closed(FunctionObj(proc), lists) && ClosedAll(args, lists)
      requires proc.Closure? && |proc.freeVars| <= |args| && fuel > 0
      modifies this, footprint
      ensures Valid() && old(lists) <= lists && old(output) <= output
      ensures old(footprint) <= footprint && (forall o :: o in footprint && o !in old(footprint) ==> fresh(o))
      ensures Closed(r, lists)
      ensures var callEnv := CallEnv(proc.freeVars, args, old(proc.env.elems), old(env.elems));
        AllBindings(callEnv) &&
        (SelfEvaluating(proc.code) ==> r == proc.code) &&
        (proc.code.Symbol? ==> r == Lookup(callEnv, proc.code))
      decreases fuel, 0, 0
    {
      var nenv := CallEnvironment(proc, args, env);
      EnvOkElements(nenv.elems, lists);
      ClosedMono(proc.code, old(lists), lists);
      r := Eval(proc.code, nenv, fuel - 1);
    }

    /** primitivePrint: evaluates each argument again, in the global
      * environment, writes the list of the results as one line and
      * returns a zero-initialised object, the Int 0. */
    method PrimitivePrint(args: seq<Object>, fuel: nat) returns (r: Object)
      requires Valid() && ClosedAll(args, lists) && fuel > 0
      modifies this, footprint
      ensures Valid() && old(lists) <= lists && old(output) <= output
      ensures old(footprint) <= footprint && (forall o :: o in footprint && o !in old(footprint) ==> fresh(o))
      ensures r == Int(0) && Closed(r, lists)
      ensures |output| > |old(output)|
      decreases fuel, 0, 0
    {
      var evaluated: seq<Object> := [];
      var i := 0;
      while i < |args|
        invariant 0 <= i <= |args| && |evaluated| == i
        invariant Valid() && old(lists) <= lists && old(output) <= output
        invariant old(footprint) <= footprint && (forall o :: o in footprint && o !in old(footprint) ==> fresh(o))
        invariant ClosedAll(args, lists)
      {
        ghost var before := lists;
        var ce := Eval(args[i], environment, fuel - 1);
        ClosedAllMono(args, before, lists);
        evaluated := evaluated + [ce];
        i := i + 1;
      }
      output := output + [ToString(MakeListObject(evaluated))];
      r := Int(0);
    }

    /** eval(List*): evaluates an expression list in the global
      * environment. */
    method EvalExpression(expr: seq<Object>, fuel: nat) returns (r: Object)
      requires Valid() && ClosedAll(expr, lists)
      modifies this, footprint
      ensures Valid() && old(lists) <= lists && old(output) <= output
      ensures old(footprint) <= footprint && (forall o :: o in footprint && o !in old(footprint) ==> fresh(o))
      ensures Closed(r, lists)
      ensures expr == [] ==> r == ListObj([])
      ensures expr != [] ==> ListOutcome(arith, expr, environment, fuel, r)
      ensures FlatCall(expr) ==>
        AllBindings(old(environment.elems)) && FlatOutcome(arith, old(environment.elems), expr, fuel, r)
      ensures SimpleDefine(expr) ==>
        environment.elems == old(environment.elems) + [BindingObj(Binding(expr[1], expr[2]))]
    {
      r := Eval(MakeListObject(expr), environment, fuel);
    }
  }

  /** (+ 1 2) on a fresh evaluator is the sum the + primitive computes. */
  method EvalPlusExample(arith: Arith) returns (r: Object)
    ensures r == MathPrimitive(arith, Plus, [Int(1), Int(2)])
  {
    var e := new EvalApply(arith);
    assert FlatCall([Symbol("+"), Int(1), Int(2)]) by {
      SpecialFormNames();
    }
    r := e.EvalExpression([Symbol("+"), Int(1), Int(2)], 0);
    PlusOutcome(arith, 0, r);
  }

  lemma PlusOutcome(arith: Arith, fuel: nat, r: Object)
    requires AllBindings(GlobalBindings(|PrimitiveTable|))
    requires FlatOutcome(arith, GlobalBindings(|PrimitiveTable|), [Symbol("+"), Int(1), Int(2)], fuel, r)
    ensures r == MathPrimitive(arith, Plus, [Int(1), Int(2)])
  {
    GlobalLookup(0);
    assert AtomValues(GlobalBindings(|PrimitiveTable|), [Symbol("+"), Int(1), Int(2)]) ==
      [FunctionObj(Builtin(Plus)), Int(1), Int(2)];
  }

  /** In an environment binding the names of a table in order, a name
    * the table lacks is unbound. */
  lemma TableUnbound(table: seq<(string, PrimOp)>, s: seq<Object>, name: string)
    requires |s| == |table|
    requires forall i :: 0 <= i < |s| ==> s[i] == PrimitiveBinding(table[i])
    requires forall i :: 0 <= i < |table| ==> table[i].0 != name
    ensures AllBindings(s) && !Bound(s, Symbol(name))
  {
    forall j | 0 <= j < |s| ensures !Binds(s, j, Symbol(name)) {
      CompareObjectAtoms(Symbol(name), s[j].bindingVal.symbol);
    }
  }

  /** No primitive is named x. */
  lemma XUnboundAtStart()
    ensures AllBindings(GlobalBindings(|PrimitiveTable|))
    ensures !Bound(GlobalBindings(|PrimitiveTable|), Symbol("x"))
  {
    TableUnbound(PrimitiveTable, GlobalBindings(|PrimitiveTable|), "x");
  }

  /** Once x is defined as 5 in an environment s that did not bind it, the
    * flat call (x) comes out as the list (5). */
  lemma ReadXOutcome(arith: Arith, s: seq<Object>, fuel: nat, r: Object)
    requires AllBindings(s) && !Bound(s, Symbol("x"))
    requires AllBindings(s + [BindingObj(Binding(Symbol("x"), Int(5)))])
    requires FlatOutcome(arith, s + [BindingObj(Binding(Symbol("x"), Int(5)))], [Symbol("x")], fuel, r)
    ensures r == ListObj([Int(5)])
  {
    CompareObjectAtoms(Symbol("x"), Symbol("x"));
    DefineThenLookup(s, Symbol("x"), Int(5), Symbol("x"));
    assert AtomValues(s + [BindingObj(Binding(Symbol("x"), Int(5)))], [Symbol("x")]) == [Int(5)];
  }

  /** On a fresh evaluator, (define x 5) yields x, and evaluating (x)
    * afterwards gives (5): lookup sees the new binding. */
  method EvalDefineExample(arith: Arith) returns (r: Object, r2: Object)
    ensures r == Symbol("x") && r2 == ListObj([Int(5)])
  {
    var e := new EvalApply(arith);
    ghost var g := e.environment.elems;
    r := DefineX(e);
    XUnboundAtStart();
    r2 := ReadX(e, g);
  }

  /** Evaluates (define x 5) in the global environment, which gains the
    * binding of x to 5 at its end and is otherwise unchanged. */
  method DefineX(e: EvalApply) returns (r: Object)
    requires e.Valid()
    modifies e, e.footprint
    ensures e.Valid() && r == Symbol("x")
    ensures old(e.footprint) <= e.footprint && (forall o :: o in e.footprint && o !in old(e.footprint) ==> fresh(o))
    ensures e.environment.elems == old(e.environment.elems) + [BindingObj(Binding(Symbol("x"), Int(5)))]
  {
    SpecialFormNames();
    r := e.EvalExpression([Symbol("define"), Symbol("x"), Int(5)], 0);
  }

  /** Evaluates (x) in an evaluator whose global environment is s followed
    * by the binding of x to 5, where s does not bind x. */
  method ReadX(e: EvalApply, ghost s: seq<Object>) returns (r: Object)
    requires e.Valid() && AllBindings(s) && !Bound(s, Symbol("x"))
    requires e.environment.elems == s + [BindingObj(Binding(Symbol("x"), Int(5)))]
    modifies e, e.footprint
    ensures r == ListObj([Int(5)])
  {
    DefineThenLookup(s, Symbol("x"), Int(5), Symbol("x"));
    assert FlatCall([Symbol("x")]) by {
      SpecialFormNames();
    }
    r := e.EvalExpression([Symbol("x")], 0);
    ReadXOutcome(e.arith, s, 0, r);
  }
}
