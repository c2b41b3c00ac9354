/** Environments as the evaluator sees them: sequences of binding objects,
  * searched front to back for the first binding whose symbol the key
  * equals, extended at the back by define and by addMissing. */
module Bindings {
  import opened LispObjects

  predicate AllBindings(s: seq<Object>) {
    forall k :: 0 <= k < |s| ==> s[k].BindingObj?
  }

  /** Element k of s binds `key`. */
  predicate Binds(s: seq<Object>, k: int, key: Object)
    requires AllBindings(s)
  {
    0 <= k < |s| && CompareObject(key, s[k].bindingVal.symbol)
  }

  /** The index of the first binding of `key`, or -1. */
  function FirstIndex(s: seq<Object>, key: Object): (k: int)
    requires AllBindings(s)
    ensures -1 <= k < |s|
    ensures k >= 0 ==> Binds(s, k, key) && forall j :: 0 <= j < k ==> !Binds(s, j, key)
    ensures k == -1 ==> forall j :: 0 <= j < |s| ==> !Binds(s, j, key)
  {
    if s == [] then -1
    else if CompareObject(key, s[0].bindingVal.symbol) then 0
    else
      var k := FirstIndex(s[1..], key);
      assert forall j :: 1 <= j < |s| ==> (Binds(s, j, key) <==> Binds(s[1..], j - 1, key));
      if k == -1 then -1 else k + 1
  }

  predicate Bound(s: seq<Object>, key: Object)
    requires AllBindings(s)
  {
    FirstIndex(s, key) >= 0
  }

  /** envLookUp: the value of the first binding of `key`, or the error
    * object "Not Found". */
  function Lookup(s: seq<Object>, key: Object): Object
    requires AllBindings(s)
  {
    if s == [] then Error("Not Found")
    else if CompareObject(key, s[0].bindingVal.symbol) then s[0].bindingVal.value
    else Lookup(s[1..], key)
  }

  /** Lookup returns the value of the binding at the least index that binds
    * the key, and the error object exactly when there is none. */
  lemma {:induction false} LookupFirst(s: seq<Object>, key: Object)
    requires AllBindings(s)
    ensures Lookup(s, key) ==
      if Bound(s, key) then s[FirstIndex(s, key)].bindingVal.value else Error("Not Found")
  {
    if s != [] && !CompareObject(key, s[0].bindingVal.symbol) {
      LookupFirst(s[1..], key);
    }
  }

  /** The first binding of a key in a concatenation is the front's first
    * binding of it, or else the back's, shifted past the front. */
  lemma {:induction false} FirstIndexAppend(s: seq<Object>, t: seq<Object>, key: Object)
    requires AllBindings(s) && AllBindings(t)
    ensures AllBindings(s + t)
    ensures FirstIndex(s + t, key) ==
      if Bound(s, key) then FirstIndex(s, key)
      else if Bound(t, key) then |s| + FirstIndex(t, key)
      else -1
    decreases |s|
  {
    if s == [] {
      assert s + t == t;
    } else {
      assert (s + t)[1..] == s[1..] + t;
      FirstIndexAppend(s[1..], t, key);
    }
  }

  /** Looking up in a concatenation: the front answers whenever it binds the
    * key, the back otherwise. */
  lemma {:induction false} LookupAppend(s: seq<Object>, t: seq<Object>, key: Object)
    requires AllBindings(s) && AllBindings(t)
    ensures AllBindings(s + t)
    ensures Bound(s + t, key) == (Bound(s, key) || Bound(t, key))
    ensures Lookup(s + t, key) == if Bound(s, key) then Lookup(s, key) else Lookup(t, key)
    decreases |s|
  {
    FirstIndexAppend(s, t, key);
    if s == [] {
      assert s + t == t;
    } else {
      assert (s + t)[1..] == s[1..] + t;
      LookupAppend(s[1..], t, key);
    }
  }

  /** define appends its binding: a key that was already bound keeps its
    * old value, so a redefinition is never seen by lookup; only a new key
    * gets the defined value. */
  lemma DefineThenLookup(s: seq<Object>, name: Object, value: Object, key: Object)
    requires AllBindings(s)
    ensures AllBindings(s + [BindingObj(Binding(name, value))])
    ensures Lookup(s + [BindingObj(Binding(name, value))], key) ==
      if Bound(s, key) then Lookup(s, key)
      else if CompareObject(key, name) then value
      else Error("Not Found")
  {
    var b := [BindingObj(Binding(name, value))];
    LookupAppend(s, b, key);
    assert b[1..] == [];
  }

  /** One step of addMissing: the binding is appended only when find does
    * not locate it, and for a symbol key leaving it out changes nothing a
    * lookup sees, since an equal binding is already there. */
  lemma AddOneLookup(acc: seq<Object>, last: Object, key: Object)
    requires AllBindings(acc) && last.BindingObj? && key.Symbol?
    ensures AllBindings(acc + [last])
    ensures var r := if IndexOf(acc, last) == -1 then acc + [last] else acc;
      Bound(r, key) == Bound(acc + [last], key) && Lookup(r, key) == Lookup(acc + [last], key)
  {
    LookupAppend(acc, [last], key);
    assert [last][1..] == [];
    var m := IndexOf(acc, last);
    if m != -1 {
      LookupFirst(acc, key);
      assert !CompareObject(key, last.bindingVal.symbol) || Bound(acc, key) by {
        CompareObjectAtoms(key, last.bindingVal.symbol);
        CompareObjectAtoms(acc[m], last);
        CompareObjectSymmetric(acc[m].bindingVal.symbol, key);
        if CompareObject(key, last.bindingVal.symbol) {
          assert Binds(acc, m, key);
        }
      }
    }
  }

  /** For a symbol key, the bindings addMissing adds are looked up as if t
    * had simply been appended: a binding of t is left out only when an
    * earlier binding of the same symbol is already there. */
  lemma {:induction false} AddMissingLookup(s: seq<Object>, t: seq<Object>, key: Object)
    requires AllBindings(s) && AllBindings(t) && key.Symbol?
    ensures AllBindings(AddMissingSeq(s, t)) && AllBindings(s + t)
    ensures Bound(AddMissingSeq(s, t), key) == Bound(s + t, key)
    ensures Lookup(AddMissingSeq(s, t), key) == Lookup(s + t, key)
    decreases |t|
  {
    if t == [] {
      assert s + t == s;
    } else {
      var n := |t| - 1;
      var t0 := t[..n];
      var last := t[n];
      var acc := AddMissingSeq(s, t0);
      assert AllBindings(t0);
      AddMissingLookup(s, t0, key);
      AddOneLookup(acc, last, key);
      LookupAppend(acc, [last], key);
      assert s + t == (s + t0) + [last];
      LookupAppend(s + t0, [last], key);
    }
  }

  /** makeNewEnvironment: the i-th parameter bound to the i-th value. */
  function Zip(vars: seq<Object>, vals: seq<Object>): (r: seq<Object>)
    requires |vars| <= |vals|
    ensures |r| == |vars| && AllBindings(r)
    ensures forall i :: 0 <= i < |vars| ==> r[i] == BindingObj(Binding(vars[i], vals[i]))
  {
    if vars == [] then []
    else Zip(vars[..|vars| - 1], vals) + [BindingObj(Binding(vars[|vars| - 1], vals[|vars| - 1]))]
  }

  /** A key that is the j-th parameter and no earlier one is bound to the
    * j-th value; a key that is no parameter is not bound at all. */
  lemma ZipLookup(vars: seq<Object>, vals: seq<Object>, key: Object)
    requires |vars| <= |vals|
    ensures forall j :: (0 <= j < |vars| && CompareObject(key, vars[j]) &&
      (forall i :: 0 <= i < j ==> !CompareObject(key, vars[i]))) ==>
        Lookup(Zip(vars, vals), key) == vals[j]
    ensures (forall i :: 0 <= i < |vars| ==> !CompareObject(key, vars[i])) ==>
      !Bound(Zip(vars, vals), key)
  {
    var z := Zip(vars, vals);
    LookupFirst(z, key);
    forall j | 0 <= j < |vars| && CompareObject(key, vars[j]) &&
      (forall i :: 0 <= i < j ==> !CompareObject(key, vars[i]))
      ensures Lookup(z, key) == vals[j]
    {
      assert Binds(z, j, key);
      assert forall i :: 0 <= i < j ==> !Binds(z, i, key);
    }
    if forall i :: 0 <= i < |vars| ==> !CompareObject(key, vars[i]) {
      assert forall i :: 0 <= i < |z| ==> !Binds(z, i, key);
    }
  }

  /** The environment of a closure call: the parameters zipped with the
    * arguments, then addMissing of the captured environment, then of the
    * caller's. */
  function CallEnv(vars: seq<Object>, vals: seq<Object>, captured: seq<Object>, caller: seq<Object>): seq<Object>
    requires |vars| <= |vals|
  {
    AddMissingSeq(AddMissingSeq(Zip(vars, vals), captured), caller)
  }

  /** Scoping of a call: a symbol is looked up first among the parameters,
    * then in the captured environment, then in the caller's. */
  lemma CallEnvLookup(vars: seq<Object>, vals: seq<Object>, captured: seq<Object>, caller: seq<Object>, key: Object)
    requires |vars| <= |vals| && AllBindings(captured) && AllBindings(caller) && key.Symbol?
    ensures AllBindings(CallEnv(vars, vals, captured, caller))
    ensures Lookup(CallEnv(vars, vals, captured, caller), key) ==
      if Bound(Zip(vars, vals), key) then Lookup(Zip(vars, vals), key)
      else if Bound(captured, key) then Lookup(captured, key)
      else Lookup(caller, key)
  {
    var z := Zip(vars, vals);
    var inner := AddMissingSeq(z, captured);
    AddMissingLookup(z, captured, key);
    AddMissingLookup(inner, caller, key);
    LookupAppend(inner, caller, key);
    LookupAppend(z, captured, key);
  }

  /** A closure reads the environment it captured when it is called, not
    * when it was made: a symbol defined in that environment after the
    * closure was built (the closure's own name, for a recursive function)
    * is visible in the body, unless a parameter of the same name hides it. */
  lemma LaterDefineVisible(vars: seq<Object>, vals: seq<Object>, captured: seq<Object>,
                           name: Object, value: Object, caller: seq<Object>)
    requires |vars| <= |vals| && AllBindings(captured) && AllBindings(caller) && name.Symbol?
    requires forall i :: 0 <= i < |vars| ==> !CompareObject(name, vars[i])
    requires !Bound(captured, name)
    ensures AllBindings(captured + [BindingObj(Binding(name, value))])
    ensures AllBindings(CallEnv(vars, vals, captured + [BindingObj(Binding(name, value))], caller))
    ensures Lookup(CallEnv(vars, vals, captured + [BindingObj(Binding(name, value))], caller), name) == value
  {
    var c := captured + [BindingObj(Binding(name, value))];
    DefineThenLookup(captured, name, value, name);
    ZipLookup(vars, vals, name);
    CallEnvLookup(vars, vals, c, caller, name);
    CompareObjectAtoms(name, name);
    LookupAppend(captured, [BindingObj(Binding(name, value))], name);
    assert Binds(c, |captured|, name);
  }
}
