/** The native procedures of evalapply.hpp that compute their result from
  * their arguments alone, and the parts of the special forms that do not
  * evaluate anything. Argument vectors are sequences of objects.
  */
module Primitives {
  import opened LispObjects

  /** The object the model returns where the C++ code has undefined
    * behaviour: a null or out-of-range read, or a union member read under
    * the wrong tag. No user program can build this error object. */
  const Undefined: Object := Error("<undefined behaviour>")

  /** The parameter marker of a variadic lambda. */
  const Ellipsis: Object := Symbol("..")

  predicate IsNumeric(obj: Object) {
    obj.Int? || obj.Real?
  }

  // ---------------------------------------------------------------------
  // Ordering: < and >
  // ---------------------------------------------------------------------

  /** std::string's operator<: lexicographic by character code, a proper
    * prefix coming first. */
  predicate StrLess(a: string, b: string)
  {
    if a == [] then b != []
    else if b == [] then false
    else a[0] < b[0] || (a[0] == b[0] && StrLess(a[1..], b[1..]))
  }

  /** Text order is a strict total order. */
  lemma {:induction false} StrLessStrictTotal(a: string, b: string)
    ensures StrLess(a, b) ==> !StrLess(b, a)
    ensures a != b ==> StrLess(a, b) || StrLess(b, a)
    ensures !StrLess(a, a)
  {
    if a != [] && b != [] {
      StrLessStrictTotal(a[1..], b[1..]);
      if a[0] == b[0] && a != b {
        assert a == [a[0]] + a[1..] && b == [b[0]] + b[1..];
      }
    }
    if a != [] {
      StrLessStrictTotal(a[1..], a[1..]);
    }
  }

  /** primitiveLess: numbers by value, anything else by printed text. */
  function PrimitiveLess(first: Object, second: Object): (r: Object)
    ensures r.Bool?
    ensures r.boolVal <==>
      if IsNumeric(first) && IsNumeric(second) then NumericValue(first) < NumericValue(second)
      else StrLess(ToString(first), ToString(second))
  {
    if IsNumeric(first) && IsNumeric(second) then
      MakeBoolObject(NumericValue(first) < NumericValue(second))
    else
      MakeBoolObject(StrLess(ToString(first), ToString(second)))
  }

  /** primitiveGreater: the same comparisons with the operands swapped. */
  function PrimitiveGreater(first: Object, second: Object): (r: Object)
    ensures r.Bool?
  {
    if IsNumeric(first) && IsNumeric(second) then
      MakeBoolObject(NumericValue(second) < NumericValue(first))
    else
      MakeBoolObject(StrLess(ToString(second), ToString(first)))
  }

  /** `>` is `<` with its arguments exchanged, and at most one of `a < b`
    * and `b < a` holds; on numbers, or on objects printing differently,
    * exactly one holds unless they are equal. */
  lemma LessGreater(a: Object, b: Object)
    ensures PrimitiveGreater(a, b) == PrimitiveLess(b, a)
    ensures PrimitiveLess(a, b).boolVal ==> !PrimitiveLess(b, a).boolVal
    ensures !IsNumeric(a) && ToString(a) != ToString(b) ==>
      PrimitiveLess(a, b).boolVal || PrimitiveGreater(a, b).boolVal
  {
    StrLessStrictTotal(ToString(a), ToString(b));
  }

  // ---------------------------------------------------------------------
  // eq, car, cdr
  // ---------------------------------------------------------------------

  /** primitiveEquals: compareObject of the first two arguments. */
  function PrimitiveEquals(first: Object, second: Object): (r: Object)
    ensures r.Bool?
  {
    MakeBoolObject(CompareObject(first, second))
  }

  /** eq is symmetric; it is false across tags and never true of a
    * function or an error; it is exact on symbols and bools, by value on
    * numbers of one tag, by symbol on bindings, and on two lists it
    * compares only the elements both have. */
  lemma EqualsProperties(a: Object, b: Object)
    ensures PrimitiveEquals(a, b) == PrimitiveEquals(b, a)
    ensures GetObjectType(a) != GetObjectType(b) ==> PrimitiveEquals(a, b) == Bool(false)
    ensures a.FunctionObj? || a.Error? ==> PrimitiveEquals(a, b) == Bool(false)
    ensures a.Symbol? ==> (PrimitiveEquals(a, b).boolVal <==> b == a)
    ensures a.Bool? && b.Bool? ==> PrimitiveEquals(a, b) == Bool(a.boolVal == b.boolVal)
    ensures IsNumeric(a) && GetObjectType(a) == GetObjectType(b) ==>
      (PrimitiveEquals(a, b).boolVal <==> NumericValue(a) == NumericValue(b))
    ensures a.BindingObj? && b.BindingObj? ==>
      PrimitiveEquals(a, b) == PrimitiveEquals(a.bindingVal.symbol, b.bindingVal.symbol)
    ensures a.ListObj? && b.ListObj? ==>
      (PrimitiveEquals(a, b).boolVal <==>
        forall i :: 0 <= i < |a.listVal| && i < |b.listVal| ==> PrimitiveEquals(a.listVal[i], b.listVal[i]).boolVal)
  {
    CompareObjectSymmetric(a, b);
    CompareObjectAtoms(b, a);
  }

  /** primitiveCar: the first argument. */
  function PrimitiveCar(args: seq<Object>): (r: Object)
    requires args != []
    ensures r in args
  {
    args[0]
  }

  /** primitiveCdr: a list of every argument but the first; of no arguments,
    * the empty list. */
  function PrimitiveCdr(args: seq<Object>): (r: Object)
    ensures r.ListObj? && |r.listVal| == if args == [] then 0 else |args| - 1
  {
    MakeListObject(OmitNth(args, 0))
  }

  /** car and cdr split an argument vector back into its parts. */
  lemma CarCdr(args: seq<Object>)
    requires args != []
    ensures [PrimitiveCar(args)] + PrimitiveCdr(args).listVal == args
  {
    assert args[..0] + args[1..] == args[1..];
  }

  // ---------------------------------------------------------------------
  // Arithmetic: + - * /
  // ---------------------------------------------------------------------

  /** A double operation of the machine: the model does not fix IEEE
    * rounding, so the arithmetic is a parameter. */
  type Arith = (PrimOp, real, real) -> real

  /** The arguments that take part in a numeric fold, in order. */
  function Numerics(xs: seq<Object>): (r: seq<Object>)
    ensures |r| <= |xs|
    ensures forall i :: 0 <= i < |r| ==> IsNumeric(r[i]) && r[i] in xs
  {
    if xs == [] then []
    else
      var init := Numerics(xs[..|xs| - 1]);
      if IsNumeric(xs[|xs| - 1]) then init + [xs[|xs| - 1]] else init
  }

  /** The running result after folding op over xs from v, left to right,
    * skipping anything that is not a number. */
  function Fold(arith: Arith, op: PrimOp, v: real, xs: seq<Object>): real
  {
    if xs == [] then v
    else
      var init := Fold(arith, op, v, xs[..|xs| - 1]);
      if IsNumeric(xs[|xs| - 1]) then arith(op, init, NumericValue(xs[|xs| - 1])) else init
  }

  /** Folding one more argument in. */
  lemma FoldSnoc(arith: Arith, op: PrimOp, v: real, xs: seq<Object>, x: Object)
    ensures Fold(arith, op, v, xs + [x]) ==
      if IsNumeric(x) then arith(op, Fold(arith, op, v, xs), NumericValue(x)) else Fold(arith, op, v, xs)
  {
    assert (xs + [x])[..|xs|] == xs;
  }

  /** Non-numbers do not take part: the fold over the arguments is the fold
    * over their numbers. */
  lemma {:induction false} FoldSkipsNonNumbers(arith: Arith, op: PrimOp, v: real, xs: seq<Object>)
    ensures Fold(arith, op, v, xs) == Fold(arith, op, v, Numerics(xs))
    decreases |xs|
  {
    if xs != [] {
      var init := xs[..|xs| - 1];
      var last := xs[|xs| - 1];
      FoldSkipsNonNumbers(arith, op, v, init);
      if IsNumeric(last) {
        var ns := Numerics(init) + [last];
        assert ns[..|ns| - 1] == Numerics(init);
      }
    }
  }

  /** applyMathPrimitive: starts from the first argument (which must be a
    * number: any other tag is read through the wrong union member) and
    * folds the remaining numbers in; a result with no fractional part
    * comes back as an Int. */
  function MathPrimitive(arith: Arith, op: PrimOp, args: seq<Object>): Object
  {
    if args == [] || !IsNumeric(args[0]) then Undefined
    else MakeRealObject(Fold(arith, op, NumericValue(args[0]), args[1..]))
  }

  /** The loop of applyMathPrimitive. */
  method ApplyMathPrimitive(arith: Arith, op: PrimOp, args: seq<Object>) returns (r: Object)
    ensures r == MathPrimitive(arith, op, args)
    ensures r != Undefined ==>
      IsNumeric(r) && NumericValue(r) == Fold(arith, op, NumericValue(args[0]), Numerics(args[1..]))
  {
    if args == [] || !IsNumeric(args[0]) {
      return Undefined;
    }
    var result := NumericValue(args[0]);
    var i := 1;
    while i < |args|
      invariant 1 <= i <= |args|
      invariant result == Fold(arith, op, NumericValue(args[0]), args[1..i])
    {
      assert args[1..i + 1] == args[1..i] + [args[i]];
      FoldSnoc(arith, op, NumericValue(args[0]), args[1..i], args[i]);
      if IsNumeric(args[i]) {
        result := arith(op, result, NumericValue(args[i]));
      }
      i := i + 1;
    }
    assert args[1..i] == args[1..];
    FoldSkipsNonNumbers(arith, op, NumericValue(args[0]), args[1..]);
    r := MakeRealObject(result);
  }

  /** The result of applying a primitive other than print to already
    * evaluated arguments. Reading a missing argument is undefined. */
  function PrimitiveResult(arith: Arith, op: PrimOp, args: seq<Object>): (r: Object)
    requires op != Print
    ensures op == Car && args != [] ==> r in args
    ensures op in {Less, Greater, Equals} && |args| >= 2 ==> r.Bool?
    ensures op in {Plus, Minus, Multiply, Divide} && r != Undefined ==> IsNumeric(r)
  {
    match op
    case Plus => MathPrimitive(arith, op, args)
    case Minus => MathPrimitive(arith, op, args)
    case Multiply => MathPrimitive(arith, op, args)
    case Divide => MathPrimitive(arith, op, args)
    case Less => if |args| < 2 then Undefined else PrimitiveLess(args[0], args[1])
    case Greater => if |args| < 2 then Undefined else PrimitiveGreater(args[0], args[1])
    case Equals => if |args| < 2 then Undefined else PrimitiveEquals(args[0], args[1])
    case Car => if args == [] then Undefined else PrimitiveCar(args)
    case Cdr => PrimitiveCdr(args)
  }

  // ---------------------------------------------------------------------
  // The non-evaluating halves of if and lambda
  // ---------------------------------------------------------------------

  /** Whether specialIf takes the positive branch for this test value: only
    * false and the symbol NIL select the negative one. */
  function TakesPositive(test: Object): (pos: bool)
    ensures pos <==> test != Bool(false) && test != Symbol("NIL")
  {
    if test.Bool? then test.boolVal
    else if test.Symbol? && test.strVal == "NIL" then false
    else true
  }

  /** specialLambda: a closure over the parameter list, the unevaluated body
    * and the current environment. A `..` second to last makes it
    * variadic and is removed; a `..` anywhere else is an error. */
  function LambdaOf(params: Object, code: Object, env: List): (r: Object)
  {
    if !params.ListObj? then Undefined
    else
      var index := IndexOf(params.listVal, Ellipsis);
      if index == -1 then
        MakeFunctionObject(AllocFunction(params.listVal, code, env, Lambda))
      else if index == |params.listVal| - 2 then
        MakeFunctionObject(AllocFunction(OmitNth(params.listVal, index), code, env, VarLambda))
      else
        MakeErrorObject("<error>")
  }

  /** specialLambda yields a closure exactly when the parameters form a
    * list in which `..` is absent or first appears second to last;
    * otherwise it yields the error object, or is undefined when the
    * parameters are no list. */
  lemma LambdaMakesClosure(params: Object, code: Object, env: List)
    ensures var r := LambdaOf(params, code, env);
      (r.FunctionObj? <==>
        (params.ListObj? && IndexOf(params.listVal, Ellipsis) in {-1, |params.listVal| - 2})) &&
      (!r.FunctionObj? ==> r == Undefined || r == Error("<error>"))
  {
  }

  /** The closure specialLambda makes is variadic exactly when `..`
    * appears; its parameters are the list without that `..`, and it keeps
    * the body and the environment as given. */
  lemma LambdaClosureShape(ps: seq<Object>, code: Object, env: List)
    requires LambdaOf(ListObj(ps), code, env).FunctionObj?
    ensures var p := LambdaOf(ListObj(ps), code, env).procedureVal;
      p.Closure? && p.code == code && p.env == env &&
      (p.funcType == VarLambda <==> IndexOf(ps, Ellipsis) != -1) &&
      p.freeVars == OmitNth(ps, IndexOf(ps, Ellipsis)) &&
      |p.freeVars| == |ps| - (if p.funcType == VarLambda then 1 else 0)
  {
  }

  /** A `..` found anywhere but second to last, however long the list,
    * is rejected. */
  lemma MisplacedEllipsis(ps: seq<Object>, k: int, code: Object, env: List)
    requires 0 <= k < |ps| && k != |ps| - 2 && ps[k] == Ellipsis
    requires forall j :: 0 <= j < k ==> !CompareObject(ps[j], Ellipsis)
    ensures LambdaOf(ListObj(ps), code, env) == Error("<error>")
  {
    assert CompareObject(ps[k], Ellipsis);
  }
}
