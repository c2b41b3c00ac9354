/** The tagged object model of the interpreter, the singly-linked List that
  * holds argument vectors and environments, the List iterator, and the
  * structural comparison and printing of objects.
  *
  * A closure refers to the environment List it captured, and a List holds
  * objects, so the object datatypes and the List class live in one module,
  * as they do in lisp_objects.hpp.
  */
module LispObjects {

  // ---------------------------------------------------------------------
  // Objects
  // ---------------------------------------------------------------------

  /** The tag of an object. */
  datatype ObjType = AsInt | AsReal | AsSymbol | AsBool | AsBinding | AsFunction | AsList | AsError

  /** How a procedure is applied. The objects.hpp snapshot knows only
    * Primitive and Lambda. */
  datatype FuncType = Primitive | Lambda | VarLambda

  /** The native procedures the evaluator registers at start-up; they stand
    * for the member-function pointers of the evaluator. */
  datatype PrimOp = Plus | Minus | Divide | Multiply | Less | Equals | Print | Greater | Car | Cdr

  /** An object: the tag selects the one payload that is meaningful. The
    * List* payload of a list object is represented by the sequence of its
    * elements: a list is never changed after it has been wrapped in an
    * object. */
  datatype Object =
    | Int(intVal: int)
    | Real(realVal: real)
    | Symbol(strVal: string)
    | Bool(boolVal: bool)
    | BindingObj(bindingVal: Binding)
    | FunctionObj(procedureVal: Function)
    | ListObj(listVal: seq<Object>)
    | Error(strVal: string)

  /** One environment entry. */
  datatype Binding = Binding(symbol: Object, value: Object)

  /** A procedure: a native primitive, or a closure over its parameter list,
    * its unevaluated body and the environment it captured (by reference). */
  datatype Function =
    | Builtin(func: PrimOp)
    | Closure(funcType: FuncType, freeVars: seq<Object>, code: Object, env: List)
  {
    /** The type field of the procedure record. */
    function TypeOf(): FuncType {
      if Builtin? then Primitive else funcType
    }
  }

  /** Argument-evaluation flags of the special-form table. */
  const EVAL: int := 0
  const NO_EVAL: int := 1

  /** The handlers a special form can dispatch to. */
  datatype SpecialKind = DefineForm | IfForm | LambdaForm

  /** A special-form table entry; `flags` has the three slots of the table's
    * char array, unlisted slots being zero. */
  datatype SpecialForm = SpecialForm(name: string, numArgs: int, flags: seq<int>, handler: SpecialKind)

  /** The tag of an object. */
  function GetObjectType(obj: Object): (t: ObjType)
    ensures (t == AsInt <==> obj.Int?) && (t == AsReal <==> obj.Real?)
    ensures (t == AsSymbol <==> obj.Symbol?) && (t == AsBool <==> obj.Bool?)
    ensures (t == AsBinding <==> obj.BindingObj?) && (t == AsFunction <==> obj.FunctionObj?)
    ensures (t == AsList <==> obj.ListObj?) && (t == AsError <==> obj.Error?)
  {
    match obj
    case Int(_) => AsInt
    case Real(_) => AsReal
    case Symbol(_) => AsSymbol
    case Bool(_) => AsBool
    case BindingObj(_) => AsBinding
    case FunctionObj(_) => AsFunction
    case ListObj(_) => AsList
    case Error(_) => AsError
  }

  /** The value a numeric primitive reads from an Int or a Real. */
  function NumericValue(obj: Object): real
    requires obj.Int? || obj.Real?
  {
    if obj.Int? then obj.intVal as real else obj.realVal
  }

  /** A real with zero fractional part. */
  predicate IsIntegral(v: real) {
    v.Floor as real == v
  }

  function MakeIntObject(value: int): (obj: Object)
    ensures GetObjectType(obj) == AsInt && NumericValue(obj) == value as real
  {
    Int(value)
  }

  /** A real with zero fractional part is stored as an Int; the numeric value
    * is kept either way. */
  function MakeRealObject(val: real): (obj: Object)
    ensures GetObjectType(obj) == (if IsIntegral(val) then AsInt else AsReal)
    ensures NumericValue(obj) == val
  {
    if IsIntegral(val) then Int(val.Floor) else Real(val)
  }

  /** A symbol prints as its text and equals exactly the symbols with the
    * same text. */
  function MakeSymbolObject(value: string): (obj: Object)
    ensures GetObjectType(obj) == AsSymbol && ToString(obj) == value
    ensures CompareObject(obj, Symbol(value))
  {
    Symbol(value)
  }

  function MakeListObject(value: seq<Object>): (obj: Object)
    ensures GetObjectType(obj) == AsList && obj.listVal == value
    ensures ToString(obj) == "( " + ElementsText(value) + ")"
  {
    ListObj(value)
  }

  /** A function object is not equal even to itself. */
  function MakeFunctionObject(proc: Function): (obj: Object)
    ensures GetObjectType(obj) == AsFunction && obj.procedureVal == proc
    ensures ToString(obj) == "(func)"
    ensures !CompareObject(obj, obj)
  {
    FunctionObj(proc)
  }

  /** A binding object prints as its symbol and compares by its symbol
    * alone. */
  function MakeBindingObject(value: Binding): (obj: Object)
    ensures GetObjectType(obj) == AsBinding && obj.bindingVal == value
    ensures ToString(obj) == ToString(value.symbol)
    ensures CompareObject(obj, obj) == CompareObject(value.symbol, value.symbol)
  {
    BindingObj(value)
  }

  /** An error prints as its message and is not equal even to itself. */
  function MakeErrorObject(error: string): (obj: Object)
    ensures GetObjectType(obj) == AsError && ToString(obj) == error
    ensures !CompareObject(obj, obj)
  {
    Error(error)
  }

  function MakeBoolObject(value: bool): (obj: Object)
    ensures GetObjectType(obj) == AsBool && obj.boolVal == value
    ensures ToString(obj) == if value then "true" else "false"
  {
    Bool(value)
  }

  function MakeBinding(symbol: Object, value: Object): (b: Binding)
    ensures b.symbol == symbol && b.value == value
  {
    Binding(symbol, value)
  }

  /** A closure record; the callers only ever ask for LAMBDA or VARLAMBDA
    * (a PRIMITIVE record would carry no handler). */
  function AllocFunction(vars: seq<Object>, code: Object, penv: List, funcType: FuncType): (p: Function)
    requires funcType != Primitive
    ensures p.TypeOf() == funcType && p.Closure?
    ensures p.freeVars == vars && p.code == code && p.env == penv
  {
    Closure(funcType, vars, code, penv)
  }

  /** A primitive record: no parameters, no environment. */
  function MakeFunction(func: PrimOp): (p: Function)
    ensures p.TypeOf() == Primitive && p.Builtin? && p.func == func
  {
    Builtin(func)
  }

  // ---------------------------------------------------------------------
  // Printing
  // ---------------------------------------------------------------------

  function DigitChar(d: nat): char
    requires d < 10
  {
    "0123456789"[d]
  }

  /** Decimal digits of a natural number, most significant first. */
  function NatToString(n: nat): (s: string)
    ensures |s| >= 1 && forall i :: 0 <= i < |s| ==> '0' <= s[i] <= '9'
  {
    if n < 10 then [DigitChar(n)] else NatToString(n / 10) + [DigitChar(n % 10)]
  }

  function IntToString(v: int): string {
    if v < 0 then "-" + NatToString(-v) else NatToString(v)
  }

  function PadSix(s: string): string
    decreases 6 - |s|
  {
    if |s| >= 6 then s else PadSix("0" + s)
  }

  /** Fixed notation with six decimals, truncated in the last place. */
  function RealToString(v: real): string {
    var a := if v < 0.0 then -v else v;
    var whole := a.Floor;
    var frac := ((a - whole as real) * 1000000.0).Floor;
    (if v < 0.0 then "-" else "") + NatToString(whole) + "." + PadSix(NatToString(frac))
  }

  /** The printed form of an object. */
  function ToString(obj: Object): string
  {
    match obj
    case Int(v) => IntToString(v)
    case Real(v) => RealToString(v)
    case ListObj(items) => "( " + ElementsText(items) + ")"
    case FunctionObj(_) => "(func)"
    case Error(s) => s
    case Symbol(s) => s
    case Bool(b) => if b then "true" else "false"
    case BindingObj(b) => ToString(b.symbol)
  }

  /** Each element's printed form followed by one space. */
  function ElementsText(items: seq<Object>): string
  {
    if items == [] then ""
    else ElementsText(items[..|items| - 1]) + ToString(items[|items| - 1]) + " "
  }

  // ---------------------------------------------------------------------
  // Comparison
  // ---------------------------------------------------------------------

  /** compareObject as lisp_objects.hpp has it: lists are compared over their
    * common prefix only, bindings by their symbols, and functions and errors
    * are never equal. */
  predicate CompareObject(lhs: Object, rhs: Object)
  {
    GetObjectType(lhs) == GetObjectType(rhs) &&
    match lhs
    case Int(a) => a == rhs.intVal
    case Real(a) => a == rhs.realVal
    case FunctionObj(_) => false
    case Symbol(a) => a == rhs.strVal
    case Bool(a) => a == rhs.boolVal
    case ListObj(ls) =>
      forall i :: 0 <= i < |ls| && i < |rhs.listVal| ==> CompareObject(ls[i], rhs.listVal[i])
    case BindingObj(b) => CompareObject(b.symbol, rhs.bindingVal.symbol)
    case Error(_) => false
  }

  /** compareObject as list.hpp has it: as above, except that an empty list
    * equals only an empty list. */
  predicate CompareObjectStrict(lhs: Object, rhs: Object)
  {
    GetObjectType(lhs) == GetObjectType(rhs) &&
    match lhs
    case Int(a) => a == rhs.intVal
    case Real(a) => a == rhs.realVal
    case FunctionObj(_) => false
    case Symbol(a) => a == rhs.strVal
    case Bool(a) => a == rhs.boolVal
    case ListObj(ls) =>
      if |ls| == 0 && |rhs.listVal| == 0 then true
      else if |ls| == 0 || |rhs.listVal| == 0 then false
      else forall i :: 0 <= i < |ls| && i < |rhs.listVal| ==> CompareObjectStrict(ls[i], rhs.listVal[i])
    case BindingObj(b) => CompareObjectStrict(b.symbol, rhs.bindingVal.symbol)
    case Error(_) => false
  }

  /** A symbol equals exactly the symbols of the same text; functions and
    * errors equal nothing; bindings compare by their symbols alone. */
  lemma CompareObjectAtoms(a: Object, b: Object)
    ensures a.Symbol? ==> (CompareObject(a, b) <==> b == a)
    ensures a.FunctionObj? || a.Error? ==> !CompareObject(a, b)
    ensures a.BindingObj? && b.BindingObj? ==>
      CompareObject(a, b) == CompareObject(a.bindingVal.symbol, b.bindingVal.symbol)
  {
  }

  lemma {:induction false} CompareObjectSymmetric(a: Object, b: Object)
    ensures CompareObject(a, b) == CompareObject(b, a)
    decreases a
  {
    match a
    case ListObj(ls) =>
      if b.ListObj? {
        forall i | 0 <= i < |ls| && i < |b.listVal|
          ensures CompareObject(ls[i], b.listVal[i]) == CompareObject(b.listVal[i], ls[i])
        {
          CompareObjectSymmetric(ls[i], b.listVal[i]);
        }
      }
    case BindingObj(x) =>
      if b.BindingObj? {
        CompareObjectSymmetric(x.symbol, b.bindingVal.symbol);
      }
    case _ =>
  }

  /** The list.hpp comparison only adds refusals: whatever it equates, the
    * lisp_objects.hpp comparison equates too. */
  lemma {:induction false} StrictImpliesCompare(a: Object, b: Object)
    ensures CompareObjectStrict(a, b) ==> CompareObject(a, b)
    decreases a
  {
    match a
    case ListObj(ls) =>
      if b.ListObj? {
        forall i | 0 <= i < |ls| && i < |b.listVal|
          ensures CompareObjectStrict(ls[i], b.listVal[i]) ==> CompareObject(ls[i], b.listVal[i])
        {
          StrictImpliesCompare(ls[i], b.listVal[i]);
        }
      }
    case BindingObj(x) =>
      if b.BindingObj? {
        StrictImpliesCompare(x.symbol, b.bindingVal.symbol);
      }
    case _ =>
  }

  /** Objects in which no function and no error takes part in a comparison. */
  predicate Comparable(obj: Object)
  {
    match obj
    case FunctionObj(_) => false
    case Error(_) => false
    case ListObj(ls) => forall i :: 0 <= i < |ls| ==> Comparable(ls[i])
    case BindingObj(b) => Comparable(b.symbol)
    case _ => true
  }

  lemma {:induction false} CompareObjectReflexive(obj: Object)
    requires Comparable(obj)
    ensures CompareObject(obj, obj) && CompareObjectStrict(obj, obj)
    decreases obj
  {
    match obj
    case ListObj(ls) =>
      forall i | 0 <= i < |ls|
        ensures CompareObject(ls[i], ls[i]) && CompareObjectStrict(ls[i], ls[i])
      {
        CompareObjectReflexive(ls[i]);
      }
    case BindingObj(b) => CompareObjectReflexive(b.symbol);
    case _ =>
  }

  /** Because only the common prefix is compared, a list equals every
    * extension of itself, and the empty list equals every list. */
  lemma ListEqualsItsExtensions(ls: seq<Object>, extra: seq<Object>)
    requires forall i :: 0 <= i < |ls| ==> Comparable(ls[i])
    ensures CompareObject(ListObj(ls), ListObj(ls + extra))
    ensures CompareObject(ListObj([]), ListObj(extra))
  {
    forall i | 0 <= i < |ls|
      ensures CompareObject(ls[i], (ls + extra)[i])
    {
      CompareObjectReflexive(ls[i]);
    }
  }

  /** Concrete consequences: (1) equals (1 2) and (1 3), which differ from
    * each other; () equals (1) here but not under the list.hpp comparison. */
  lemma PrefixComparisonIsNotTransitive()
    ensures CompareObject(ListObj([Int(1)]), ListObj([Int(1), Int(2)]))
    ensures CompareObject(ListObj([Int(1)]), ListObj([Int(1), Int(3)]))
    ensures !CompareObject(ListObj([Int(1), Int(2)]), ListObj([Int(1), Int(3)]))
    ensures CompareObject(ListObj([]), ListObj([Int(1)]))
    ensures !CompareObjectStrict(ListObj([]), ListObj([Int(1)]))
    ensures CompareObjectStrict(ListObj([]), ListObj([]))
  {
    assert ListObj([Int(1), Int(2)]).listVal[1] == Int(2);
    assert ListObj([Int(1), Int(3)]).listVal[1] == Int(3);
  }

  // ---------------------------------------------------------------------
  // Sequence specifications of the List operations
  // ---------------------------------------------------------------------

  /** The least index whose element compares equal to x, or -1. */
  function IndexOf(s: seq<Object>, x: Object): (r: int)
    ensures -1 <= r < |s|
    ensures r >= 0 ==> CompareObject(s[r], x) && forall j :: 0 <= j < r ==> !CompareObject(s[j], x)
    ensures r == -1 ==> forall j :: 0 <= j < |s| ==> !CompareObject(s[j], x)
  {
    if s == [] then -1
    else if CompareObject(s[0], x) then 0
    else
      var k := IndexOf(s[1..], x);
      if k == -1 then -1 else k + 1
  }

  /** s extended, in order, by each element of t that is not found in what
    * has been built so far. */
  function AddMissingSeq(s: seq<Object>, t: seq<Object>): seq<Object>
    decreases |t|
  {
    if t == [] then s
    else
      var acc := AddMissingSeq(s, t[..|t| - 1]);
      if IndexOf(acc, t[|t| - 1]) == -1 then acc + [t[|t| - 1]] else acc
  }

  /** s without index n; an index out of range leaves s as it is. */
  function OmitNth(s: seq<Object>, n: int): seq<Object> {
    if 0 <= n < |s| then s[..n] + s[n + 1..] else s
  }

  /** One more element of s taken into account by OmitNth. */
  lemma OmitNthStep(s: seq<Object>, n: int, i: int)
    requires 0 <= i < |s|
    ensures OmitNth(s[..i + 1], n) == if i == n then OmitNth(s[..i], n) else OmitNth(s[..i], n) + [s[i]]
  {
    var t := s[..i + 1];
    assert t[..i] == s[..i];
    if 0 <= n < i {
      assert t[n + 1..] == s[n + 1..i] + [s[i]];
      assert s[..i][n + 1..] == s[n + 1..i];
    }
  }

  /** One more element of t taken into account by addMissing. */
  lemma AddMissingStep(s: seq<Object>, t: seq<Object>, k: int)
    requires 0 <= k < |t|
    ensures AddMissingSeq(s, t[..k + 1]) ==
      var acc := AddMissingSeq(s, t[..k]);
      if IndexOf(acc, t[k]) == -1 then acc + [t[k]] else acc
  {
    assert t[..k + 1][..k] == t[..k];
  }

  /** addMissing never removes or reorders what is there, adds at most one
    * element per element of the argument, and adds only elements of the
    * argument. */
  lemma {:induction false} AddMissingKeepsPrefix(s: seq<Object>, t: seq<Object>)
    ensures s <= AddMissingSeq(s, t)
    ensures |AddMissingSeq(s, t)| <= |s| + |t|
    ensures forall i :: |s| <= i < |AddMissingSeq(s, t)| ==> AddMissingSeq(s, t)[i] in t
    decreases |t|
  {
    if t != [] {
      AddMissingKeepsPrefix(s, t[..|t| - 1]);
    }
  }

  /** After addMissing, find locates every element of the argument that
    * equals itself (every one but functions, errors and lists holding them). */
  lemma {:induction false} AddMissingFindsAll(s: seq<Object>, t: seq<Object>, j: int)
    requires 0 <= j < |t| && CompareObject(t[j], t[j])
    ensures IndexOf(AddMissingSeq(s, t), t[j]) != -1
    decreases |t|
  {
    var n := |t| - 1;
    var acc := AddMissingSeq(s, t[..n]);
    AddMissingKeepsPrefix(acc, [t[n]]);
    if j < n {
      AddMissingFindsAll(s, t[..n], j);
      var k := IndexOf(acc, t[j]);
      assert acc <= AddMissingSeq(s, t);
      assert AddMissingSeq(s, t)[k] == acc[k];
    } else if IndexOf(acc, t[n]) == -1 {
      assert AddMissingSeq(s, t)[|acc|] == t[n];
    }
  }

  // ---------------------------------------------------------------------
  // The linked list
  // ---------------------------------------------------------------------

  class Node {
    var info: Object
    var next: Node?

    constructor (obj: Object, n: Node?)
      ensures info == obj && next == n
    {
      info := obj;
      next := n;
    }
  }

  /** A singly-linked list with a tail pointer and an explicit count. The
    * ghost `nodes` are the nodes reachable from `head` in order and `elems`
    * their contents. When the list is empty `tail` may still point at a
    * node that has been removed: neither pop_front nor clear resets it. */
  class List {
    var head: Node?
    var tail: Node?
    var count: int
    ghost var nodes: seq<Node>
    ghost var elems: seq<Object>
    ghost var Repr: set<object>

    ghost predicate Valid()
      reads this, Repr
    {
      this in Repr &&
      |nodes| == |elems| && |elems| == count &&
      (forall i :: 0 <= i < |nodes| ==> nodes[i] in Repr) &&
      (forall i :: 0 <= i < |nodes| ==> nodes[i].info == elems[i]) &&
      (forall i, j :: 0 <= i && j == i + 1 && j < |nodes| ==> nodes[i].next == nodes[j]) &&
      (forall i, j :: 0 <= i < j < |nodes| ==> nodes[i] != nodes[j]) &&
      (if nodes == [] then head == null
       else head == nodes[0] && tail == nodes[|nodes| - 1] && tail.next == null)
    }

    /** The node at index k holds element k and links to node k + 1. */
    lemma NodeAt(k: int)
      requires Valid() && 0 <= k < |nodes|
      ensures nodes[k].info == elems[k]
      ensures nodes[k].next == if k + 1 < |nodes| then nodes[k + 1] else null
    {
    }

    constructor ()
      ensures Valid() && fresh(Repr) && elems == []
    {
      head := null;
      tail := null;
      count := 0;
      nodes := [];
      elems := [];
      Repr := {this};
    }

    function Empty(): (b: bool)
      reads this, Repr
      requires Valid()
      ensures b <==> elems == []
    {
      count == 0
    }

    function Size(): (n: int)
      reads this, Repr
      requires Valid()
      ensures n == |elems|
    {
      count
    }

    /** The head node, from which every traversal starts. */
    function First(): (n: Node?)
      reads this, Repr
      requires Valid()
      ensures n == if elems == [] then null else nodes[0]
    {
      head
    }

    method Append(obj: Object)
      requires Valid()
      modifies Repr
      ensures Valid() && old(Repr) <= Repr && fresh(Repr - old(Repr))
      ensures elems == old(elems) + [obj]
      ensures tail.info == obj
    {
      var t := new Node(obj, null);
      if count == 0 {
        head := t;
      } else {
        tail.next := t;
      }
      tail := t;
      count := count + 1;
      nodes := nodes + [t];
      elems := elems + [obj];
      Repr := Repr + {t};
    }

    /** push as list.hpp has it: on an empty list the new node becomes both
      * head and tail. */
    method Push(obj: Object)
      requires Valid()
      modifies Repr
      ensures Valid() && old(Repr) <= Repr && fresh(Repr - old(Repr))
      ensures elems == [obj] + old(elems)
      ensures old(elems) == [] ==> head == tail
    {
      var t := new Node(obj, null);
      if count == 0 {
        tail := t;
      } else {
        t.next := head;
      }
      head := t;
      count := count + 1;
      nodes := [t] + nodes;
      elems := [obj] + elems;
      Repr := Repr + {t};
    }

    /** Removes and returns the head element; tail is left alone. */
    method PopFront() returns (ret: Object)
      requires Valid() && elems != []
      modifies this
      ensures Valid() && Repr == old(Repr)
      ensures ret == old(elems)[0] && elems == old(elems)[1..]
      ensures tail == old(tail)
    {
      ret := head.info;
      head := head.next;
      count := count - 1;
      nodes := nodes[1..];
      elems := elems[1..];
    }

    /** Removes exactly element n, re-pointing tail at the new last node when
      * the last element goes. */
    method DeleteNth(n: int)
      requires Valid() && 0 <= n < count
      modifies Repr
      ensures Valid() && Repr == old(Repr)
      ensures elems == old(elems)[..n] + old(elems)[n + 1..]
    {
      if n == 0 {
        var _ := PopFront();
      } else {
        var it := head;
        var prev: Node? := null;
        var k := 0;
        while k < n
          invariant 0 <= k <= n && it == nodes[k]
          invariant k > 0 ==> prev == nodes[k - 1]
        {
          prev := it;
          it := it.next;
          k := k + 1;
        }
        Unlink(prev, it, n);
      }
    }

    /** The unlinking step of deleteNth: the node after prev, node n, is
      * bypassed, and tail moves back to prev when node n was the last. */
    method Unlink(prev: Node, it: Node, n: int)
      requires Valid() && 0 < n < count && prev == nodes[n - 1] && it == nodes[n]
      modifies Repr
      ensures Valid() && Repr == old(Repr)
      ensures elems == old(elems)[..n] + old(elems)[n + 1..]
    {
      prev.next := it.next;
      if n == count - 1 {
        tail := prev;
      }
      count := count - 1;
      nodes := nodes[..n] + nodes[n + 1..];
      elems := elems[..n] + elems[n + 1..];
    }

    method Clear()
      requires Valid()
      modifies this
      ensures Valid() && Repr == old(Repr) && elems == []
    {
      while count != 0
        invariant Valid() && Repr == old(Repr)
        decreases |elems|
      {
        var _ := PopFront();
      }
    }

    /** Node n of the list, or null one past the end. */
    method GetNthNode(n: int) returns (it: Node?)
      requires Valid() && 0 <= n <= count
      ensures it == if n < |nodes| then nodes[n] else null
      ensures it != null ==> it.info == elems[n]
    {
      it := head;
      var k := 0;
      while k < n
        invariant 0 <= k <= n
        invariant it == if k < |nodes| then nodes[k] else null
      {
        it := it.next;
        k := k + 1;
      }
    }

    /** The index of the first element equal to obj, or -1. */
    method Find(obj: Object) returns (index: int)
      requires Valid()
      ensures index == IndexOf(elems, obj)
      ensures index == -1 <==> forall j :: 0 <= j < |elems| ==> !CompareObject(elems[j], obj)
    {
      var i := 0;
      var it := head;
      while it != null
        invariant 0 <= i <= |nodes|
        invariant it == if i < |nodes| then nodes[i] else null
        invariant forall j :: 0 <= j < i ==> !CompareObject(elems[j], obj)
        decreases |nodes| - i
      {
        if CompareObject(it.info, obj) {
          return i;
        }
        it := it.next;
        i := i + 1;
      }
      return -1;
    }

    /** The body of addMissing's loop: obj is appended when find does not
      * locate it. */
    method AddIfMissing(obj: Object)
      requires Valid()
      modifies Repr
      ensures Valid() && old(Repr) <= Repr && fresh(Repr - old(Repr))
      ensures elems == if IndexOf(old(elems), obj) == -1 then old(elems) + [obj] else old(elems)
    {
      var found := Find(obj);
      if found == -1 {
        Append(obj);
      }
    }

    /** Appends, in order, each element of list that find does not locate,
      * counting the elements appended earlier in the same call. */
    method AddMissing(list: List)
      requires Valid() && list.Valid() && Repr !! list.Repr
      modifies Repr
      ensures Valid() && old(Repr) <= Repr && fresh(Repr - old(Repr))
      ensures elems == AddMissingSeq(old(elems), list.elems)
    {
      var it := list.First();
      ghost var k := 0;
      while it != null
        invariant Valid() && old(Repr) <= Repr && fresh(Repr - old(Repr))
        invariant Repr !! list.Repr && list.Valid()
        invariant 0 <= k <= |list.nodes|
        invariant it == if k < |list.nodes| then list.nodes[k] else null
        invariant elems == AddMissingSeq(old(elems), list.elems[..k])
        decreases |list.nodes| - k
      {
        AddMissingStep(old(elems), list.elems, k);
        list.NodeAt(k);
        AddIfMissing(it.info);
        it := it.next;
        k := k + 1;
      }
      assert list.elems[..k] == list.elems;
    }

    /** A new list holding the same elements in the same order. */
    method Copy() returns (nl: List)
      requires Valid()
      ensures fresh(nl) && fresh(nl.Repr) && nl.Valid()
      ensures nl.elems == elems
    {
      nl := new List();
      var it := head;
      ghost var i := 0;
      while it != null
        invariant 0 <= i <= |nodes|
        invariant it == if i < |nodes| then nodes[i] else null
        invariant fresh(nl) && fresh(nl.Repr) && nl.Valid() && nl.elems == elems[..i]
        decreases |nodes| - i
      {
        nl.Append(it.info);
        it := it.next;
        i := i + 1;
      }
    }

    /** A new list holding every element but index n. */
    method CopyOmitNth(n: int) returns (nl: List)
      requires Valid()
      ensures fresh(nl) && fresh(nl.Repr) && nl.Valid()
      ensures nl.elems == OmitNth(elems, n)
    {
      nl := new List();
      var i := 0;
      var it := head;
      while it != null
        invariant 0 <= i <= |nodes|
        invariant it == if i < |nodes| then nodes[i] else null
        invariant fresh(nl) && fresh(nl.Repr) && nl.Valid()
        invariant nl.elems == OmitNth(elems[..i], n)
        decreases |nodes| - i
      {
        OmitNthStep(elems, n, i);
        if i != n {
          nl.Append(it.info);
        }
        it := it.next;
        i := i + 1;
      }
      assert elems[..i] == elems;
    }

    /** A new list of all elements but the first. */
    method Rest() returns (nl: List)
      requires Valid()
      ensures fresh(nl) && fresh(nl.Repr) && nl.Valid()
      ensures nl.elems == if elems == [] then [] else elems[1..]
    {
      nl := CopyOmitNth(0);
    }

    /** The printed form of the list. */
    method AsString() returns (str: string)
      requires Valid()
      ensures str == ToString(ListObj(elems))
    {
      str := "( ";
      var it := head;
      ghost var i := 0;
      while it != null
        invariant 0 <= i <= |nodes|
        invariant it == if i < |nodes| then nodes[i] else null
        invariant str == "( " + ElementsText(elems[..i])
        decreases |nodes| - i
      {
        assert elems[..i + 1][..i] == elems[..i];
        str := str + ToString(it.info) + " ";
        it := it.next;
        i := i + 1;
      }
      assert elems[..i] == elems;
      str := str + ")";
    }

    method Begin() returns (it: ListIterator)
      requires Valid()
      ensures fresh(it) && it.current == First()
    {
      it := new ListIterator(head);
    }

    method End() returns (it: ListIterator)
      ensures fresh(it) && it.current == null
    {
      it := new ListIterator(null);
    }
  }

  /** A forward iterator over the nodes of a List. */
  class ListIterator {
    var current: Node?

    constructor (pos: Node?)
      ensures current == pos
    {
      current := pos;
    }

    /** Two iterators are equal when they stand on the same node. */
    predicate Equals(it: ListIterator)
      reads this, it
    {
      current == it.current
    }

    /** The element under the iterator. */
    function Get(): Object
      reads this, current
      requires current != null
    {
      current.info
    }

    /** Moves to the next node. */
    method Increment()
      requires current != null
      modifies this
      ensures current == old(current.next)
    {
      current := current.next;
    }
  }

  /** A range-for over a list: the iterator from begin() up to end() visits
    * the elements head to tail. */
  method Elements(list: List) returns (s: seq<Object>)
    requires list.Valid()
    ensures s == list.elems
  {
    s := [];
    var it := list.Begin();
    var end := list.End();
    ghost var i := 0;
    while !it.Equals(end)
      invariant it != end && end.current == null
      invariant 0 <= i <= |list.nodes|
      invariant it.current == if i < |list.nodes| then list.nodes[i] else null
      invariant s == list.elems[..i]
      decreases |list.nodes| - i
    {
      s := s + [it.Get()];
      it.Increment();
      i := i + 1;
    }
    assert list.elems[..i] == list.elems;
  }
}
