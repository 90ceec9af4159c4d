/**
 * The Kernel-style evaluator of prim.c: eval dispatching on symbols, pairs
 * and self-evaluating values; primitive and compound operatives and
 * applicatives; match, mapcar_eval, the built-in primitives and their
 * registration by prim_init.
 *
 * prim.c is written against an object layer that is not part of this
 * model, so objects live in an abstract heap: a sequence of records that
 * only grows, whose environments hold their bindings directly. env_define
 * and env_lookup behave as obj.c's def and defined: define replaces the
 * first binding of the name or appends one, lookup tries the local
 * bindings, then the parent, and gives #null when no environment is left.
 *
 * eval need not terminate, so every evaluation carries fuel: each eval
 * call and each step of a loop over a list uses one unit, and the outcome
 * NoFuel stands for the run that would not have finished. A failed C
 * assert (car of a non-pair, a non-boolean $if test, combining a value that
 * is neither operative nor applicative) is the outcome Fault.
 */
module Kernel {
  import opened Wrappers

  /** The immediates: #null, #t, #f, #inert and #ignore. */
  datatype Imm = KNull | KTrue | KFalse | KInert | KIgnore

  /** An immediate or the address of a heap record. */
  datatype Value = K(imm: Imm) | Ref(addr: nat)

  /** The built-in primitives, one per entry of the registration table. */
  datatype Prim =
    | InertQ | IgnoreQ | BooleanQ | NullQ | SymbolQ | NumberQ | PairQ
    | EnvironmentQ | OperativeQ | ApplicativeQ
    | QuoteOp | EqOp | EqualOp | EvalOp | DefineOp | IfOp | ConsOp
    | SetCarOp | SetCdrOp | MakeEnvironmentOp | VauOp

  datatype Binding = Binding(sym: Value, val: Value)

  datatype Obj =
    | Symbol(name: string)
    | Number(num: real)
    | Pair(car: Value, cdr: Value)
    | Environment(bindings: seq<Binding>, parent: Value)
    | PrimOperative(prim: Prim)
    | CompoundOperative(formals: Value, eformal: Value, body: Value, staticEnv: Value)
    | Applicative(operative: Value)

  type Heap = seq<Obj>

  /** What an evaluation ends in. */
  datatype Out = Val(v: Value) | Fault | NoFuel

  /** An outcome and the heap it leaves. */
  datatype Res = Res(out: Out, heap: Heap)

  // The heap invariant.

  predicate Below(v: Value, h: Heap)
  {
    v.K? || v.addr < |h|
  }

  /** Every value of es is below h. */
  predicate AllBelow(es: seq<Value>, h: Heap)
  {
    forall k :: 0 <= k < |es| ==> Below(es[k], h)
  }

  predicate BindingsBelow(bs: seq<Binding>, h: Heap)
  {
    forall k :: 0 <= k < |bs| ==> Below(bs[k].sym, h) && Below(bs[k].val, h)
  }

  /** Every value a record holds names a record of h. */
  predicate ObjBelow(o: Obj, h: Heap)
  {
    match o
    case Pair(a, d) => Below(a, h) && Below(d, h)
    case Environment(bs, p) => BindingsBelow(bs, h) && Below(p, h)
    case CompoundOperative(f, e, b, s) => Below(f, h) && Below(e, h) && Below(b, h) && Below(s, h)
    case Applicative(op) => Below(op, h)
    case _ => true
  }

  /** The heap is closed under its references, and environments are younger than their parents. */
  predicate Closed(h: Heap)
  {
    forall i :: 0 <= i < |h| ==>
      ObjBelow(h[i], h) && (h[i].Environment? && h[i].parent.Ref? ==> h[i].parent.addr < i)
  }

  function Kind(o: Obj): nat
  {
    match o
    case Symbol(_) => 1
    case Number(_) => 2
    case Pair(_, _) => 3
    case Environment(_, _) => 4
    case PrimOperative(_) => 5
    case CompoundOperative(_, _, _, _) => 6
    case Applicative(_) => 7
  }

  /** How a record may change: pairs in their fields, environments in their bindings, nothing else at all. */
  predicate Evolves(o: Obj, o': Obj)
  {
    Kind(o') == Kind(o) &&
    (o.Environment? ==> o'.parent == o.parent) &&
    (!o.Pair? && !o.Environment? ==> o' == o)
  }

  /** h' extends h: no record disappears or changes type. */
  predicate Stable(h: Heap, h': Heap)
  {
    |h| <= |h'| && forall i :: 0 <= i < |h| ==> Evolves(h[i], h'[i])
  }

  lemma BelowGrows(h: Heap, h': Heap, v: Value)
    requires Below(v, h) && |h| <= |h'|
    ensures Below(v, h')
  {
  }

  lemma ObjBelowGrows(o: Obj, h: Heap, h': Heap)
    requires ObjBelow(o, h) && |h| <= |h'|
    ensures ObjBelow(o, h')
  {
  }

  // Type predicates.

  predicate IsNull(v: Value) { v == K(KNull) }
  predicate IsInert(v: Value) { v == K(KInert) }
  predicate IsIgnore(v: Value) { v == K(KIgnore) }
  predicate IsBoolean(v: Value) { v == K(KTrue) || v == K(KFalse) }

  predicate IsSymbol(h: Heap, v: Value) { v.Ref? && v.addr < |h| && h[v.addr].Symbol? }
  predicate IsNumber(h: Heap, v: Value) { v.Ref? && v.addr < |h| && h[v.addr].Number? }
  predicate IsPair(h: Heap, v: Value) { v.Ref? && v.addr < |h| && h[v.addr].Pair? }
  predicate IsEnvironment(h: Heap, v: Value) { v.Ref? && v.addr < |h| && h[v.addr].Environment? }
  predicate IsPrimOperative(h: Heap, v: Value) { v.Ref? && v.addr < |h| && h[v.addr].PrimOperative? }
  predicate IsCompoundOperative(h: Heap, v: Value) { v.Ref? && v.addr < |h| && h[v.addr].CompoundOperative? }
  predicate IsOperative(h: Heap, v: Value) { IsPrimOperative(h, v) || IsCompoundOperative(h, v) }
  predicate IsApplicative(h: Heap, v: Value) { v.Ref? && v.addr < |h| && h[v.addr].Applicative? }

  function Bool(b: bool): Value
  {
    if b then K(KTrue) else K(KFalse)
  }

  /**
   * is_eq as a boolean: immediates by identity, symbols by name (interning
   * gives equal names equal ids), numbers by payload, other records by address.
   */
  predicate IsEq(h: Heap, a: Value, b: Value)
    requires Below(a, h) && Below(b, h)
  {
    if a.K? || b.K? then a == b
    else if h[a.addr].Symbol? && h[b.addr].Symbol? then h[a.addr].name == h[b.addr].name
    else if h[a.addr].Number? && h[b.addr].Number? then h[a.addr].num == h[b.addr].num
    else a == b
  }

  /** is_equal: pairs field by field (both fields always compared), everything else by is_eq. */
  function EqualWithin(h: Heap, a: Value, b: Value, fuel: nat): Option<bool>
    requires Closed(h) && Below(a, h) && Below(b, h)
    decreases fuel
  {
    if IsPair(h, a) && IsPair(h, b) then
      if fuel == 0 then None
      else
        match (EqualWithin(h, h[a.addr].car, h[b.addr].car, fuel - 1),
               EqualWithin(h, h[a.addr].cdr, h[b.addr].cdr, fuel - 1))
        case (Some(x), Some(y)) => Some(x && y)
        case _ => None
    else Some(IsEq(h, a, b))
  }

  // Lists.

  /** The cdr chain from v leaves the pairs within n cells. */
  predicate EndsWithin(h: Heap, v: Value, n: nat)
    requires Closed(h) && Below(v, h)
    decreases n
  {
    IsPair(h, v) ==> n > 0 && EndsWithin(h, h[v.addr].cdr, n - 1)
  }

  /** The cars along the chain. */
  function Elements(h: Heap, v: Value, n: nat): (es: seq<Value>)
    requires Closed(h) && Below(v, h) && EndsWithin(h, v, n)
    ensures AllBelow(es, h)
    decreases n
  {
    if IsPair(h, v) then [h[v.addr].car] + Elements(h, h[v.addr].cdr, n - 1) else []
  }

  /** The k-th operand, car(cdr^k(v)); car of a non-pair fails its assert. */
  function Arg(h: Heap, v: Value, k: nat): (r: Out)
    requires Closed(h) && Below(v, h)
    ensures r.Val? || r.Fault?
    ensures r.Val? ==> Below(r.v, h)
    decreases k
  {
    if !IsPair(h, v) then Fault
    else if k == 0 then Val(h[v.addr].car)
    else Arg(h, h[v.addr].cdr, k - 1)
  }

  // Allocation and update.

  /** A fresh record at the end of the heap. */
  function Alloc(h: Heap, o: Obj): (r: (Value, Heap))
    requires Closed(h) && ObjBelow(o, h)
    ensures r.0 == Ref(|h|) && r.1 == h + [o]
    ensures Closed(r.1) && Stable(h, r.1) && Below(r.0, r.1)
  {
    Append(h, o);
    (Ref(|h|), h + [o])
  }

  lemma Append(h: Heap, o: Obj)
    requires Closed(h) && ObjBelow(o, h)
    ensures Closed(h + [o]) && Stable(h, h + [o])
  {
    var h' := h + [o];
    assert forall i :: 0 <= i < |h| ==> h'[i] == h[i];
    forall i | 0 <= i < |h'|
      ensures ObjBelow(h'[i], h')
    {
      ObjBelowGrows(h'[i], h, h');
    }
  }

  /** A record rewritten in place, keeping its type (and, for environments, its parent). */
  lemma Rewrite(h: Heap, i: int, o: Obj)
    requires Closed(h) && 0 <= i < |h| && ObjBelow(o, h) && Evolves(h[i], o)
    ensures Closed(h[i := o]) && Stable(h, h[i := o])
  {
    var h' := h[i := o];
    forall j | 0 <= j < |h'|
      ensures ObjBelow(h'[j], h')
    {
      ObjBelowGrows(h'[j], h, h');
    }
  }

  function SetCar(h: Heap, p: Value, v: Value): (h': Heap)
    requires Closed(h) && IsPair(h, p) && Below(v, h)
    ensures Closed(h') && Stable(h, h') && |h'| == |h|
    ensures h'[p.addr] == Pair(v, h[p.addr].cdr)
    ensures forall i :: 0 <= i < |h| && i != p.addr ==> h'[i] == h[i]
  {
    Rewrite(h, p.addr, Pair(v, h[p.addr].cdr));
    h[p.addr := Pair(v, h[p.addr].cdr)]
  }

  function SetCdr(h: Heap, p: Value, v: Value): (h': Heap)
    requires Closed(h) && IsPair(h, p) && Below(v, h)
    ensures Closed(h') && Stable(h, h') && |h'| == |h|
    ensures h'[p.addr] == Pair(h[p.addr].car, v)
    ensures forall i :: 0 <= i < |h| && i != p.addr ==> h'[i] == h[i]
  {
    Rewrite(h, p.addr, Pair(h[p.addr].car, v));
    h[p.addr := Pair(h[p.addr].car, v)]
  }

  // Environments.

  /** v is a symbol with the given name. */
  predicate NamedBy(h: Heap, v: Value, name: string)
  {
    v.Ref? && v.addr < |h| && h[v.addr].Symbol? && h[v.addr].name == name
  }

  /** For a symbol, is_eq with a key is having its name. */
  lemma IsEqSymbol(h: Heap, sym: Value, key: Value)
    requires IsSymbol(h, sym) && Below(key, h)
    ensures IsEq(h, sym, key) <==> NamedBy(h, key, h[sym.addr].name)
  {
  }

  /** The first binding whose key is a symbol with this name, or -1. */
  function FindKey(h: Heap, bs: seq<Binding>, name: string): (k: int)
    ensures -1 <= k < |bs|
    ensures 0 <= k ==> NamedBy(h, bs[k].sym, name)
    ensures forall j :: 0 <= j < |bs| && (k == -1 || j < k) ==> !NamedBy(h, bs[j].sym, name)
  {
    if bs == [] then -1
    else if NamedBy(h, bs[0].sym, name) then 0
    else
      var k := FindKey(h, bs[1..], name);
      assert forall j :: 1 <= j < |bs| ==> bs[j] == bs[1..][j - 1];
      if k == -1 then -1 else k + 1
  }

  /** env_lookup: the first local binding of the name, else the parent's answer, else #null. */
  function Lookup(h: Heap, env: Value, name: string): (r: Value)
    requires Closed(h) && IsEnvironment(h, env)
    ensures Below(r, h)
    decreases env.addr
  {
    var e := h[env.addr];
    var k := FindKey(h, e.bindings, name);
    if k >= 0 then e.bindings[k].val
    else if IsEnvironment(h, e.parent) then Lookup(h, e.parent, name)
    else K(KNull)
  }

  /** The bindings after defining sym: the first binding of its name takes the value, or one is appended. */
  function Bind(h: Heap, bs: seq<Binding>, sym: Value, val: Value): seq<Binding>
    requires IsSymbol(h, sym)
  {
    var k := FindKey(h, bs, h[sym.addr].name);
    if k >= 0 then bs[k := Binding(bs[k].sym, val)] else bs + [Binding(sym, val)]
  }

  /** env_define: rewrites the environment's bindings and nothing else. */
  function EnvDefine(h: Heap, env: Value, sym: Value, val: Value): (h': Heap)
    requires Closed(h) && IsEnvironment(h, env) && IsSymbol(h, sym) && Below(val, h)
    ensures Closed(h') && Stable(h, h') && |h'| == |h|
    ensures h'[env.addr] == Environment(Bind(h, h[env.addr].bindings, sym, val), h[env.addr].parent)
    ensures forall i :: 0 <= i < |h| && i != env.addr ==> h'[i] == h[i]
  {
    var e := h[env.addr];
    var o := Environment(Bind(h, e.bindings, sym, val), e.parent);
    Rewrite(h, env.addr, o);
    h[env.addr := o]
  }

  /** FindKey reads only which keys are symbols of which name. */
  lemma FindKeyHeap(h: Heap, h': Heap, bs: seq<Binding>, name: string)
    requires forall j :: 0 <= j < |bs| ==> NamedBy(h', bs[j].sym, name) == NamedBy(h, bs[j].sym, name)
    ensures FindKey(h', bs, name) == FindKey(h, bs, name)
  {
  }

  /** FindKey is the first index whose key has the name, or -1 when none has. */
  lemma FindKeyIs(h: Heap, bs: seq<Binding>, name: string, k: int)
    requires -1 <= k < |bs| && (0 <= k ==> NamedBy(h, bs[k].sym, name))
    requires forall j :: 0 <= j < |bs| && (k == -1 || j < k) ==> !NamedBy(h, bs[j].sym, name)
    ensures FindKey(h, bs, name) == k
  {
  }

  /** After Bind, the defined name finds the new value and every other name finds what it found before. */
  lemma {:induction false} FindKeyBind(h: Heap, bs: seq<Binding>, sym: Value, val: Value, name: string)
    requires IsSymbol(h, sym)
    ensures var bs', k' := Bind(h, bs, sym, val), FindKey(h, Bind(h, bs, sym, val), name);
      if name == h[sym.addr].name then k' >= 0 && bs'[k'].val == val
      else k' == FindKey(h, bs, name) && (k' >= 0 ==> bs'[k'] == bs[k'])
  {
    var bs' := Bind(h, bs, sym, val);
    if FindKey(h, bs, h[sym.addr].name) >= 0 {
      assert forall j :: 0 <= j < |bs| ==> bs'[j].sym == bs[j].sym;
      FindKeyHeap(h, h, bs, name);
    } else {
      assert bs' == bs + [Binding(sym, val)];
      if name == h[sym.addr].name {
        FindKeyIs(h, bs', name, |bs|);
      } else {
        FindKeyIs(h, bs', name, FindKey(h, bs, name));
      }
    }
  }

  /** Environments whose records are kept as they were. */
  predicate EnvsKept(h: Heap, h': Heap)
  {
    |h| <= |h'| && forall i :: 0 <= i < |h| && h[i].Environment? ==> h'[i] == h[i]
  }

  /** Lookup depends only on the environments (and the symbols they name), so it survives allocation and pair updates. */
  lemma {:induction false} LookupKept(h: Heap, h': Heap, env: Value, name: string)
    requires Closed(h) && Closed(h') && Stable(h, h') && EnvsKept(h, h') && IsEnvironment(h, env)
    ensures IsEnvironment(h', env) && Lookup(h', env, name) == Lookup(h, env, name)
    decreases env.addr
  {
    var e := h[env.addr];
    assert h'[env.addr] == e;
    forall j | 0 <= j < |e.bindings|
      ensures NamedBy(h', e.bindings[j].sym, name) == NamedBy(h, e.bindings[j].sym, name)
    {
      Keeps(h, h', e.bindings[j].sym);
    }
    FindKeyHeap(h, h', e.bindings, name);
    if FindKey(h, e.bindings, name) < 0 && IsEnvironment(h, e.parent) {
      LookupKept(h, h', e.parent, name);
    }
    Keeps(h, h', e.parent);
  }

  /** After env_define, the defined name looks up its value in that environment. */
  lemma LookupDefined(h: Heap, env: Value, sym: Value, val: Value)
    requires Closed(h) && IsEnvironment(h, env) && IsSymbol(h, sym) && Below(val, h)
    ensures Lookup(EnvDefine(h, env, sym, val), env, h[sym.addr].name) == val
  {
    var h' := EnvDefine(h, env, sym, val);
    var bs' := h'[env.addr].bindings;
    FindKeyBind(h, h[env.addr].bindings, sym, val, h[sym.addr].name);
    forall j | 0 <= j < |bs'|
      ensures NamedBy(h', bs'[j].sym, h[sym.addr].name) == NamedBy(h, bs'[j].sym, h[sym.addr].name)
    {
      if bs'[j].sym.Ref? && bs'[j].sym.addr < |h| {
        assert Evolves(h[bs'[j].sym.addr], h'[bs'[j].sym.addr]);
      }
    }
    FindKeyHeap(h, h', bs', h[sym.addr].name);
  }

  /** env_define changes no other name's lookup, from any environment. */
  lemma {:induction false} LookupDefinedOther(h: Heap, env: Value, sym: Value, val: Value, e: Value, name: string)
    requires Closed(h) && IsEnvironment(h, env) && IsSymbol(h, sym) && Below(val, h)
    requires IsEnvironment(h, e) && name != h[sym.addr].name
    ensures Lookup(EnvDefine(h, env, sym, val), e, name) == Lookup(h, e, name)
    decreases e.addr
  {
    var h' := EnvDefine(h, env, sym, val);
    var bs, bs' := h[e.addr].bindings, h'[e.addr].bindings;
    forall j | 0 <= j < |bs'|
      ensures NamedBy(h', bs'[j].sym, name) == NamedBy(h, bs'[j].sym, name)
    {
      if bs'[j].sym.Ref? && bs'[j].sym.addr < |h| {
        assert Evolves(h[bs'[j].sym.addr], h'[bs'[j].sym.addr]);
      }
    }
    FindKeyHeap(h, h', bs', name);
    if e == env {
      FindKeyBind(h, bs, sym, val, name);
    }
    var parent := h[e.addr].parent;
    if FindKey(h, bs, name) < 0 && IsEnvironment(h, parent) {
      LookupDefinedOther(h, env, sym, val, parent, name);
    }
  }

  // The type-predicate primitives.

  predicate IsTypePredicate(q: Prim)
  {
    q.InertQ? || q.IgnoreQ? || q.BooleanQ? || q.NullQ? || q.SymbolQ? || q.NumberQ? ||
    q.PairQ? || q.EnvironmentQ? || q.OperativeQ? || q.ApplicativeQ?
  }

  /** The test a type-predicate primitive applies to each operand. */
  predicate Satisfies(h: Heap, q: Prim, v: Value)
    requires IsTypePredicate(q)
  {
    match q
    case InertQ => IsInert(v)
    case IgnoreQ => IsIgnore(v)
    case BooleanQ => IsBoolean(v)
    case NullQ => IsNull(v)
    case SymbolQ => IsSymbol(h, v)
    case NumberQ => IsNumber(h, v)
    case PairQ => IsPair(h, v)
    case EnvironmentQ => IsEnvironment(h, v)
    case OperativeQ => IsOperative(h, v)
    case ApplicativeQ => IsApplicative(h, v)
  }

  /** DEF_TYPE_PREDICATE's loop: #f at the first operand failing the test, #t once the pairs end. */
  function TypeTestOf(h: Heap, q: Prim, obj: Value, fuel: nat): (r: Out)
    requires Closed(h) && Below(obj, h) && IsTypePredicate(q)
    ensures r == Val(K(KTrue)) || r == Val(K(KFalse)) || r == NoFuel
    decreases fuel
  {
    if !IsPair(h, obj) then Val(K(KTrue))
    else if fuel == 0 then NoFuel
    else if !Satisfies(h, q, h[obj.addr].car) then Val(K(KFalse))
    else TypeTestOf(h, q, h[obj.addr].cdr, fuel - 1)
  }

  /**
   * A type predicate over a chain of fewer than fuel pairs answers #t
   * exactly when every element passes the test; no operand at all gives #t.
   */
  lemma {:induction false} TypeTestMeaning(h: Heap, q: Prim, obj: Value, fuel: nat)
    requires Closed(h) && Below(obj, h) && IsTypePredicate(q) && EndsWithin(h, obj, fuel)
    ensures TypeTestOf(h, q, obj, fuel) ==
      Val(Bool(forall k :: 0 <= k < |Elements(h, obj, fuel)| ==> Satisfies(h, q, Elements(h, obj, fuel)[k])))
    decreases fuel
  {
    if IsPair(h, obj) {
      var rest := h[obj.addr].cdr;
      TypeTestMeaning(h, q, rest, fuel - 1);
      var es := Elements(h, obj, fuel);
      assert es == [h[obj.addr].car] + Elements(h, rest, fuel - 1);
      assert forall k :: 1 <= k < |es| ==> es[k] == Elements(h, rest, fuel - 1)[k - 1];
      var rs := Elements(h, rest, fuel - 1);
      if !Satisfies(h, q, es[0]) {
        assert TypeTestOf(h, q, obj, fuel) == Val(K(KFalse));
      } else {
        assert (forall k :: 0 <= k < |es| ==> Satisfies(h, q, es[k])) <==>
               (forall k :: 0 <= k < |rs| ==> Satisfies(h, q, rs[k])) by {
          if forall k :: 0 <= k < |rs| ==> Satisfies(h, q, rs[k]) {
            forall k | 0 <= k < |es| ensures Satisfies(h, q, es[k]) {
              if k > 0 { assert es[k] == rs[k - 1]; }
            }
          }
          if forall k :: 0 <= k < |es| ==> Satisfies(h, q, es[k]) {
            forall k | 0 <= k < |rs| ensures Satisfies(h, q, rs[k]) {
              assert rs[k] == es[k + 1];
            }
          }
        }
      }
    }
  }

  // match.

  /**
   * match: #ignore and #null bind nothing, a symbol binds the whole value,
   * a pair against a pair matches car then cdr, and anything else binds
   * nothing without complaint. Only the target environment changes.
   */
  function MatchOf(h: Heap, ptree: Value, vtree: Value, env: Value, fuel: nat): (r: Res)
    requires Closed(h) && Below(ptree, h) && Below(vtree, h) && IsEnvironment(h, env)
    ensures r.out == Val(K(KInert)) || r.out == NoFuel
    ensures Closed(r.heap) && Stable(h, r.heap) && |r.heap| == |h|
    ensures forall i :: 0 <= i < |h| && i != env.addr ==> r.heap[i] == h[i]
    decreases fuel
  {
    if fuel == 0 then Res(NoFuel, h)
    else if IsIgnore(ptree) || IsNull(ptree) then Res(Val(K(KInert)), h)
    else if IsSymbol(h, ptree) then Res(Val(K(KInert)), EnvDefine(h, env, ptree, vtree))
    else if IsPair(h, ptree) && IsPair(h, vtree) then
      var m := MatchOf(h, h[ptree.addr].car, h[vtree.addr].car, env, fuel - 1);
      if m.out.NoFuel? then m
      else MatchOf(m.heap, m.heap[ptree.addr].cdr, m.heap[vtree.addr].cdr, env, fuel - 1)
    else Res(Val(K(KInert)), h)
  }

  /** What a stable extension keeps of a value. */
  lemma Keeps(h: Heap, h': Heap, v: Value)
    requires Stable(h, h') && Below(v, h)
    ensures Below(v, h')
    ensures IsSymbol(h', v) == IsSymbol(h, v) && IsNumber(h', v) == IsNumber(h, v)
    ensures IsPair(h', v) == IsPair(h, v) && IsEnvironment(h', v) == IsEnvironment(h, v)
    ensures IsPrimOperative(h', v) == IsPrimOperative(h, v)
    ensures IsCompoundOperative(h', v) == IsCompoundOperative(h, v)
    ensures IsApplicative(h', v) == IsApplicative(h, v)
    ensures v.Ref? && !h[v.addr].Pair? && !h[v.addr].Environment? ==> h'[v.addr] == h[v.addr]
    ensures IsEnvironment(h, v) ==> h'[v.addr].parent == h[v.addr].parent
  {
    if v.Ref? {
      assert Evolves(h[v.addr], h'[v.addr]);
    }
  }

  lemma StableTrans(h0: Heap, h1: Heap, h2: Heap)
    requires Stable(h0, h1) && Stable(h1, h2)
    ensures Stable(h0, h2)
  {
    forall i | 0 <= i < |h0|
      ensures Evolves(h0[i], h2[i])
    {
      assert Evolves(h0[i], h1[i]) && Evolves(h1[i], h2[i]);
    }
  }

  // The primitives that do not evaluate.

  /** $eq: #t or #f by is_eq of the first two operands. */
  function EqOf(h: Heap, obj: Value): (r: Res)
    requires Closed(h) && Below(obj, h)
    ensures r.heap == h
    ensures r.out == Fault || r.out == Val(K(KTrue)) || r.out == Val(K(KFalse))
  {
    match (Arg(h, obj, 0), Arg(h, obj, 1))
    case (Val(a), Val(b)) => Res(Val(Bool(IsEq(h, a, b))), h)
    case _ => Res(Fault, h)
  }

  /** $equal: #t or #f by is_equal of the first two operands. */
  function EqualOf(h: Heap, obj: Value, fuel: nat): (r: Res)
    requires Closed(h) && Below(obj, h)
    ensures r.heap == h
    ensures r.out.Val? ==> r.out == Val(K(KTrue)) || r.out == Val(K(KFalse))
  {
    match (Arg(h, obj, 0), Arg(h, obj, 1))
    case (Val(a), Val(b)) =>
      (match EqualWithin(h, a, b, fuel)
       case Some(x) => Res(Val(Bool(x)), h)
       case None => Res(NoFuel, h))
    case _ => Res(Fault, h)
  }

  /** $cons: a fresh pair of the first two operands. */
  function ConsOf(h: Heap, obj: Value): (r: Res)
    requires Closed(h) && Below(obj, h)
    ensures Closed(r.heap) && Stable(h, r.heap) && (r.out.Val? ==> Below(r.out.v, r.heap))
  {
    match (Arg(h, obj, 0), Arg(h, obj, 1))
    case (Val(a), Val(b)) =>
      var (c, h') := Alloc(h, Pair(a, b));
      Res(Val(c), h')
    case _ => Res(Fault, h)
  }

  /** $set_car: set_car of the first operand (which must be a pair) to the second; #inert. */
  function SetCarOf(h: Heap, obj: Value): (r: Res)
    requires Closed(h) && Below(obj, h)
    ensures Closed(r.heap) && Stable(h, r.heap) && (r.out.Val? ==> r.out.v == K(KInert))
  {
    match (Arg(h, obj, 0), Arg(h, obj, 1))
    case (Val(p), Val(v)) =>
      if IsPair(h, p) then Res(Val(K(KInert)), SetCar(h, p, v)) else Res(Fault, h)
    case _ => Res(Fault, h)
  }

  /** $set_cdr: set_cdr of the first operand (which must be a pair) to the second; #inert. */
  function SetCdrOf(h: Heap, obj: Value): (r: Res)
    requires Closed(h) && Below(obj, h)
    ensures Closed(r.heap) && Stable(h, r.heap) && (r.out.Val? ==> r.out.v == K(KInert))
  {
    match (Arg(h, obj, 0), Arg(h, obj, 1))
    case (Val(p), Val(v)) =>
      if IsPair(h, p) then Res(Val(K(KInert)), SetCdr(h, p, v)) else Res(Fault, h)
    case _ => Res(Fault, h)
  }

  /** $make_environment: a fresh empty environment whose parent is #null or the first operand. */
  function MakeEnvironmentOf(h: Heap, obj: Value): (r: Res)
    requires Closed(h) && Below(obj, h)
    ensures Closed(r.heap) && Stable(h, r.heap) && (r.out.Val? ==> Below(r.out.v, r.heap))
  {
    match (if IsNull(obj) then Val(K(KNull)) else Arg(h, obj, 0))
    case Val(parent) =>
      var (e, h') := Alloc(h, Environment([], parent));
      Res(Val(e), h')
    case _ => Res(Fault, h)
  }

  /** $vau: a fresh compound operative over the first three operands, closed over the calling environment. */
  function VauOf(h: Heap, obj: Value, env: Value): (r: Res)
    requires Closed(h) && Below(obj, h) && Below(env, h)
    ensures Closed(r.heap) && Stable(h, r.heap) && (r.out.Val? ==> Below(r.out.v, r.heap))
  {
    match (Arg(h, obj, 0), Arg(h, obj, 1), Arg(h, obj, 2))
    case (Val(formals), Val(eformal), Val(body)) =>
      var (c, h') := Alloc(h, CompoundOperative(formals, eformal, body, env));
      Res(Val(c), h')
    case _ => Res(Fault, h)
  }

  // eval and the code it reaches, mutually recursive, by (fuel, rank).

  /**
   * eval: a symbol is looked up, a pair is combined after evaluating its
   * head (its cdr is read only then), anything else evaluates to itself.
   */
  function EvalOf(h: Heap, obj: Value, env: Value, fuel: nat): (r: Res)
    requires Closed(h) && Below(obj, h) && Below(env, h)
    ensures Closed(r.heap) && Stable(h, r.heap)
    ensures r.out.Val? ==> Below(r.out.v, r.heap)
    decreases fuel, 0
  {
    if fuel == 0 then Res(NoFuel, h)
    else if !IsEnvironment(h, env) then Res(Fault, h)
    else if IsSymbol(h, obj) then Res(Val(Lookup(h, env, h[obj.addr].name)), h)
    else if IsPair(h, obj) then
      var head := EvalOf(h, h[obj.addr].car, env, fuel - 1);
      if !head.out.Val? then head
      else
        Keeps(h, head.heap, obj);
        Keeps(h, head.heap, env);
        var r := CombineOf(head.heap, head.out.v, head.heap[obj.addr].cdr, env, fuel - 1);
        StableTrans(h, head.heap, r.heap);
        r
    else Res(Val(obj), h)
  }

  /**
   * The combination of an evaluated head f with the operands d: a primitive
   * operative gets d and env as they are, a compound operative is entered,
   * an applicative has d evaluated and its operative combined with the
   * results; any other head fails.
   */
  function CombineOf(h: Heap, f: Value, d: Value, env: Value, fuel: nat): (r: Res)
    requires Closed(h) && Below(f, h) && Below(d, h) && IsEnvironment(h, env)
    ensures Closed(r.heap) && Stable(h, r.heap)
    ensures r.out.Val? ==> Below(r.out.v, r.heap)
    decreases fuel, 3
  {
    if IsPrimOperative(h, f) then ApplyPrimOf(h, h[f.addr].prim, d, env, fuel)
    else if IsCompoundOperative(h, f) then OperateOf(h, f, d, env, fuel)
    else if IsApplicative(h, f) then
      var args := MapcarOf(h, d, env, K(KNull), K(KNull), fuel);
      if !args.out.Val? then args
      else
        Keeps(h, args.heap, f);
        var (c, h2) := Alloc(args.heap, Pair(args.heap[f.addr].operative, args.out.v));
        var r := EvalOf(h2, c, env, fuel);
        StableTrans(h, args.heap, h2);
        StableTrans(h, h2, r.heap);
        r
    else Res(Fault, h)
  }

  /** A primitive operative applied to its raw operands. */
  function ApplyPrimOf(h: Heap, q: Prim, obj: Value, env: Value, fuel: nat): (r: Res)
    requires Closed(h) && Below(obj, h) && IsEnvironment(h, env)
    ensures Closed(r.heap) && Stable(h, r.heap)
    ensures r.out.Val? ==> Below(r.out.v, r.heap)
    decreases fuel, 2
  {
    match q
    case InertQ | IgnoreQ | BooleanQ | NullQ | SymbolQ | NumberQ | PairQ
       | EnvironmentQ | OperativeQ | ApplicativeQ =>
      Res(TypeTestOf(h, q, obj, fuel), h)
    case QuoteOp => Res(Arg(h, obj, 0), h)
    case EqOp => EqOf(h, obj)
    case EqualOp => EqualOf(h, obj, fuel)
    case EvalOp => EvalPrimOf(h, obj, env, fuel)
    case DefineOp => DefineOf(h, obj, env, fuel)
    case IfOp => IfOf(h, obj, env, fuel)
    case ConsOp => ConsOf(h, obj)
    case SetCarOp => SetCarOf(h, obj)
    case SetCdrOp => SetCdrOf(h, obj)
    case MakeEnvironmentOp => MakeEnvironmentOf(h, obj)
    case VauOp => VauOf(h, obj, env)
  }

  /**
   * A compound operative: a fresh environment with no bindings whose parent
   * is the static environment, the formals matched against the unevaluated
   * operands, the eformal (when a symbol) bound to its own value in the
   * calling environment, and the body evaluated in the new environment.
   */
  function OperateOf(h: Heap, f: Value, d: Value, env: Value, fuel: nat): (r: Res)
    requires Closed(h) && IsCompoundOperative(h, f) && Below(d, h) && IsEnvironment(h, env)
    ensures Closed(r.heap) && Stable(h, r.heap)
    ensures r.out.Val? ==> Below(r.out.v, r.heap)
    decreases fuel, 1
  {
    var co := h[f.addr];
    var (local, h1) := Alloc(h, Environment([], co.staticEnv));
    var m := MatchOf(h1, co.formals, d, local, fuel);
    if m.out.NoFuel? then m
    else
      var h2 := m.heap;
      StableTrans(h, h1, h2);
      Keeps(h1, h2, local);
      if IsSymbol(h2, co.eformal) then
        var ev := EvalOf(h2, co.eformal, env, fuel);
        if !ev.out.Val? then
          StableTrans(h, h2, ev.heap);
          ev
        else
          Keeps(h2, ev.heap, local);
          Keeps(h2, ev.heap, co.eformal);
          var h3 := EnvDefine(ev.heap, local, co.eformal, ev.out.v);
          var r := EvalOf(h3, co.body, local, fuel);
          StableTrans(h, h2, ev.heap);
          StableTrans(h, ev.heap, h3);
          StableTrans(h, h3, r.heap);
          r
      else
        var r := EvalOf(h2, co.body, local, fuel);
        StableTrans(h, h2, r.heap);
        r
  }

  /**
   * mapcar_eval from the point where `a` is the last cell built so far
   * (#null before the first) and `result` the list's head: each operand
   * pair gets a fresh cell, linked after `a` (or made the head) before the
   * operand is evaluated; an improper tail is dropped.
   */
  function MapcarOf(h: Heap, obj: Value, env: Value, a: Value, result: Value, fuel: nat): (r: Res)
    requires Closed(h) && Below(obj, h) && IsEnvironment(h, env) && Below(result, h)
    requires IsNull(a) || IsPair(h, a)
    ensures Closed(r.heap) && Stable(h, r.heap)
    ensures r.out.Val? ==> Below(r.out.v, r.heap)
    decreases fuel, 2
  {
    if !IsPair(h, obj) then Res(Val(result), h)
    else if fuel == 0 then Res(NoFuel, h)
    else
      var (cell, h1) := Alloc(h, Pair(K(KNull), K(KNull)));
      var h2 := if IsNull(a) then h1 else SetCdr(h1, a, cell);
      StableTrans(h, h1, h2);
      Keeps(h, h2, obj);
      Keeps(h, h2, env);
      var r := MapcarItemOf(h2, obj, env, cell, if IsNull(a) then cell else result, fuel);
      StableTrans(h, h2, r.heap);
      r
  }

  /** The rest of one turn of mapcar_eval: the operand evaluated into its cell, then the operands after it. */
  function MapcarItemOf(h: Heap, obj: Value, env: Value, cell: Value, result: Value, fuel: nat): (r: Res)
    requires Closed(h) && IsPair(h, obj) && IsEnvironment(h, env) && IsPair(h, cell) && Below(result, h)
    requires fuel > 0
    ensures Closed(r.heap) && Stable(h, r.heap)
    ensures r.out.Val? ==> Below(r.out.v, r.heap)
    decreases fuel, 1
  {
    var item := EvalOf(h, h[obj.addr].car, env, fuel - 1);
    if !item.out.Val? then item
    else
      Keeps(h, item.heap, cell);
      Keeps(h, item.heap, obj);
      Keeps(h, item.heap, env);
      var h3 := SetCar(item.heap, cell, item.out.v);
      StableTrans(h, item.heap, h3);
      var r := MapcarOf(h3, h3[obj.addr].cdr, env, cell, result, fuel - 1);
      StableTrans(h, h3, r.heap);
      r
  }

  /** $eval: the first operand evaluated in the second when there is one, else in the calling environment. */
  function EvalPrimOf(h: Heap, obj: Value, env: Value, fuel: nat): (r: Res)
    requires Closed(h) && Below(obj, h) && IsEnvironment(h, env)
    ensures Closed(r.heap) && Stable(h, r.heap)
    ensures r.out.Val? ==> Below(r.out.v, r.heap)
    decreases fuel, 1
  {
    if !IsPair(h, obj) then Res(Fault, h)
    else
      var rest := h[obj.addr].cdr;
      if IsPair(h, rest) then EvalOf(h, h[obj.addr].car, h[rest.addr].car, fuel)
      else EvalOf(h, h[obj.addr].car, env, fuel)
  }

  /** $define!: matches the unevaluated first operand against the value of the second; #inert. */
  function DefineOf(h: Heap, obj: Value, env: Value, fuel: nat): (r: Res)
    requires Closed(h) && Below(obj, h) && IsEnvironment(h, env)
    ensures Closed(r.heap) && Stable(h, r.heap)
    ensures r.out.Val? ==> r.out.v == K(KInert)
    decreases fuel, 1
  {
    match (Arg(h, obj, 0), Arg(h, obj, 1))
    case (Val(ptree), Val(expr)) =>
      var ev := EvalOf(h, expr, env, fuel);
      if !ev.out.Val? then ev
      else
        Keeps(h, ev.heap, env);
        Keeps(h, ev.heap, ptree);
        var m := MatchOf(ev.heap, ptree, ev.out.v, env, fuel);
        StableTrans(h, ev.heap, m.heap);
        m
    case _ => Res(Fault, h)
  }

  /** $if: the test must evaluate to a boolean; then exactly one of the two branches is evaluated. */
  function IfOf(h: Heap, obj: Value, env: Value, fuel: nat): (r: Res)
    requires Closed(h) && Below(obj, h) && IsEnvironment(h, env)
    ensures Closed(r.heap) && Stable(h, r.heap)
    ensures r.out.Val? ==> Below(r.out.v, r.heap)
    decreases fuel, 1
  {
    match Arg(h, obj, 0)
    case Val(test) =>
      var t := EvalOf(h, test, env, fuel);
      if !t.out.Val? then t
      else if !IsBoolean(t.out.v) then Res(Fault, t.heap)
      else
        Keeps(h, t.heap, obj);
        (match (Arg(t.heap, obj, 1), Arg(t.heap, obj, 2))
         case (Val(tb), Val(eb)) =>
           var r := EvalOf(t.heap, if t.out.v == K(KTrue) then tb else eb, env, fuel);
           StableTrans(h, t.heap, r.heap);
           r
         case _ => Res(Fault, t.heap))
    case _ => Res(Fault, h)
  }

  // What the evaluator is proved to do.

  /** An atom: a symbol is looked up in env, anything else that is not a pair is its own value; the heap is untouched. */
  lemma EvalAtom(h: Heap, obj: Value, env: Value, fuel: nat)
    requires Closed(h) && Below(obj, h) && IsEnvironment(h, env) && fuel > 0 && !IsPair(h, obj)
    ensures EvalOf(h, obj, env, fuel) ==
      Res(Val(if IsSymbol(h, obj) then Lookup(h, env, h[obj.addr].name) else obj), h)
  {
  }

  /**
   * $define! with a symbol as its first operand binds that symbol, in the
   * calling environment, to the value of the second operand: the name then
   * looks up that value and every other name what it did before.
   */
  lemma DefineBindsSymbol(h: Heap, obj: Value, env: Value, fuel: nat)
    requires Closed(h) && Below(obj, h) && IsEnvironment(h, env) && fuel > 0
    requires Arg(h, obj, 0).Val? && IsSymbol(h, Arg(h, obj, 0).v) && Arg(h, obj, 1).Val?
    requires EvalOf(h, Arg(h, obj, 1).v, env, fuel).out.Val?
    ensures var sym, ev := Arg(h, obj, 0).v, EvalOf(h, Arg(h, obj, 1).v, env, fuel);
            IsEnvironment(ev.heap, env) && IsSymbol(ev.heap, sym) &&
            DefineOf(h, obj, env, fuel) == Res(Val(K(KInert)), EnvDefine(ev.heap, env, sym, ev.out.v))
    ensures var sym, ev := Arg(h, obj, 0).v, EvalOf(h, Arg(h, obj, 1).v, env, fuel);
            var h' := DefineOf(h, obj, env, fuel).heap;
            IsEnvironment(h', env) && Lookup(h', env, h[sym.addr].name) == ev.out.v &&
            forall name :: name != h[sym.addr].name && IsEnvironment(ev.heap, env) ==>
              Lookup(h', env, name) == Lookup(ev.heap, env, name)
  {
    var sym, ev := Arg(h, obj, 0).v, EvalOf(h, Arg(h, obj, 1).v, env, fuel);
    Keeps(h, ev.heap, env);
    Keeps(h, ev.heap, sym);
    LookupDefined(ev.heap, env, sym, ev.out.v);
    forall name | name != h[sym.addr].name && IsEnvironment(ev.heap, env)
      ensures Lookup(DefineOf(h, obj, env, fuel).heap, env, name) == Lookup(ev.heap, env, name)
    {
      LookupDefinedOther(ev.heap, env, sym, ev.out.v, env, name);
    }
  }

  /**
   * A combination evaluates its head first; a primitive operative then
   * receives the operands unevaluated together with the caller's
   * environment, a compound operative is entered, an applicative's
   * operative is combined with the evaluated operands in the same
   * environment, and any other head is fatal.
   */
  lemma EvalCombination(h: Heap, obj: Value, env: Value, fuel: nat)
    requires Closed(h) && IsPair(h, obj) && IsEnvironment(h, env) && fuel > 0
    requires EvalOf(h, h[obj.addr].car, env, fuel - 1).out.Val?
    ensures var head := EvalOf(h, h[obj.addr].car, env, fuel - 1);
            IsPair(head.heap, obj) && IsEnvironment(head.heap, env) && Below(head.out.v, head.heap)
    ensures var head := EvalOf(h, h[obj.addr].car, env, fuel - 1);
            var f, h1 := head.out.v, head.heap;
            IsPrimOperative(h1, f) ==>
              EvalOf(h, obj, env, fuel) == ApplyPrimOf(h1, h1[f.addr].prim, h1[obj.addr].cdr, env, fuel - 1)
    ensures var head := EvalOf(h, h[obj.addr].car, env, fuel - 1);
            var f, h1 := head.out.v, head.heap;
            IsCompoundOperative(h1, f) ==>
              EvalOf(h, obj, env, fuel) == OperateOf(h1, f, h1[obj.addr].cdr, env, fuel - 1)
    ensures var head := EvalOf(h, h[obj.addr].car, env, fuel - 1);
            var f, h1 := head.out.v, head.heap;
            var args := MapcarOf(h1, h1[obj.addr].cdr, env, K(KNull), K(KNull), fuel - 1);
            IsApplicative(h1, f) && !args.out.Val? ==> EvalOf(h, obj, env, fuel) == args
    ensures var head := EvalOf(h, h[obj.addr].car, env, fuel - 1);
            var f, h1 := head.out.v, head.heap;
            var args := MapcarOf(h1, h1[obj.addr].cdr, env, K(KNull), K(KNull), fuel - 1);
            IsApplicative(h1, f) && args.out.Val? ==>
              (Keeps(h1, args.heap, f);
               var (c, h2) := Alloc(args.heap, Pair(args.heap[f.addr].operative, args.out.v));
               EvalOf(h, obj, env, fuel) == EvalOf(h2, c, env, fuel - 1))
    ensures var head := EvalOf(h, h[obj.addr].car, env, fuel - 1);
            var f, h1 := head.out.v, head.heap;
            !IsPrimOperative(h1, f) && !IsCompoundOperative(h1, f) && !IsApplicative(h1, f) ==>
              EvalOf(h, obj, env, fuel) == Res(Fault, h1)
  {
    var head := EvalOf(h, h[obj.addr].car, env, fuel - 1);
    Keeps(h, head.heap, obj);
    Keeps(h, head.heap, env);
  }

  /**
   * A compound operative whose formals are one symbol and whose eformal is
   * not a symbol: its body is evaluated in a new environment, the next
   * record, whose one binding gives the formal the whole unevaluated
   * operand list and whose parent is the static environment.
   */
  lemma OperateBindsFormals(h: Heap, f: Value, d: Value, env: Value, fuel: nat)
    requires Closed(h) && IsCompoundOperative(h, f) && Below(d, h) && IsEnvironment(h, env) && fuel > 0
    requires IsSymbol(h, h[f.addr].formals) && !IsSymbol(h, h[f.addr].eformal)
    ensures var co := h[f.addr];
            var h' := h + [Environment([Binding(co.formals, d)], co.staticEnv)];
            Closed(h') && Lookup(h', Ref(|h|), h[co.formals.addr].name) == d &&
            OperateOf(h, f, d, env, fuel) == EvalOf(h', co.body, Ref(|h|), fuel)
  {
    var co := h[f.addr];
    var (local, h1) := Alloc(h, Environment([], co.staticEnv));
    var h2 := EnvDefine(h1, local, co.formals, d);
    assert FindKey(h1, [], h[co.formals.addr].name) == -1;
    assert Bind(h1, [], co.formals, d) == [Binding(co.formals, d)];
    assert h2 == h1[|h| := Environment([Binding(co.formals, d)], co.staticEnv)];
    assert h2 == h + [Environment([Binding(co.formals, d)], co.staticEnv)];
    Keeps(h1, h2, co.eformal);
    LookupDefined(h1, local, co.formals, d);
  }

  /**
   * A compound operative whose formals are #ignore and whose eformal is a
   * symbol: the eformal is bound to what that symbol evaluates to in the
   * calling environment (its lookup there), not to the environment itself.
   */
  lemma OperateBindsEformal(h: Heap, f: Value, d: Value, env: Value, fuel: nat)
    requires Closed(h) && IsCompoundOperative(h, f) && Below(d, h) && IsEnvironment(h, env) && fuel > 0
    requires (IsIgnore(h[f.addr].formals) || IsNull(h[f.addr].formals)) && IsSymbol(h, h[f.addr].eformal)
    ensures var co := h[f.addr];
            var v := Lookup(h, env, h[co.eformal.addr].name);
            var h' := h + [Environment([Binding(co.eformal, v)], co.staticEnv)];
            Closed(h') && IsEnvironment(h', Ref(|h|)) &&
            OperateOf(h, f, d, env, fuel) == EvalOf(h', co.body, Ref(|h|), fuel)
  {
    var co := h[f.addr];
    var (local, h1) := Alloc(h, Environment([], co.staticEnv));
    LookupKept(h, h1, env, h[co.eformal.addr].name);
    var v := Lookup(h, env, h[co.eformal.addr].name);
    assert FindKey(h1, [], h[co.eformal.addr].name) == -1;
    assert Bind(h1, [], co.eformal, v) == [Binding(co.eformal, v)];
    assert EnvDefine(h1, local, co.eformal, v) == h1[|h| := Environment([Binding(co.eformal, v)], co.staticEnv)];
    assert EnvDefine(h1, local, co.eformal, v) == h + [Environment([Binding(co.eformal, v)], co.staticEnv)];
  }

  /** $if: a non-boolean test is fatal; otherwise #t evaluates the second operand and #f the third, and only that one. */
  lemma IfChoosesBranch(h: Heap, obj: Value, env: Value, fuel: nat)
    requires Closed(h) && Below(obj, h) && IsEnvironment(h, env) && Arg(h, obj, 0).Val?
    requires EvalOf(h, Arg(h, obj, 0).v, env, fuel).out.Val?
    ensures var t := EvalOf(h, Arg(h, obj, 0).v, env, fuel);
            Below(obj, t.heap) && IsEnvironment(t.heap, env)
    ensures var t := EvalOf(h, Arg(h, obj, 0).v, env, fuel);
            !IsBoolean(t.out.v) ==> IfOf(h, obj, env, fuel) == Res(Fault, t.heap)
    ensures var t := EvalOf(h, Arg(h, obj, 0).v, env, fuel);
            IsBoolean(t.out.v) && !(Arg(t.heap, obj, 1).Val? && Arg(t.heap, obj, 2).Val?) ==>
              IfOf(h, obj, env, fuel) == Res(Fault, t.heap)
    ensures var t := EvalOf(h, Arg(h, obj, 0).v, env, fuel);
            t.out.v == K(KTrue) && Arg(t.heap, obj, 1).Val? && Arg(t.heap, obj, 2).Val? ==>
              IfOf(h, obj, env, fuel) == EvalOf(t.heap, Arg(t.heap, obj, 1).v, env, fuel)
    ensures var t := EvalOf(h, Arg(h, obj, 0).v, env, fuel);
            t.out.v == K(KFalse) && Arg(t.heap, obj, 1).Val? && Arg(t.heap, obj, 2).Val? ==>
              IfOf(h, obj, env, fuel) == EvalOf(t.heap, Arg(t.heap, obj, 2).v, env, fuel)
  {
    var t := EvalOf(h, Arg(h, obj, 0).v, env, fuel);
    Keeps(h, t.heap, obj);
    Keeps(h, t.heap, env);
  }

  /** $quote gives its first operand and changes nothing; cons gives a fresh pair of the first two. */
  lemma QuoteAndCons(h: Heap, obj: Value, env: Value, fuel: nat)
    requires Closed(h) && Below(obj, h) && IsEnvironment(h, env) && Arg(h, obj, 0).Val? && Arg(h, obj, 1).Val?
    ensures ApplyPrimOf(h, QuoteOp, obj, env, fuel) == Res(Val(Arg(h, obj, 0).v), h)
    ensures ApplyPrimOf(h, ConsOp, obj, env, fuel) ==
      Res(Val(Ref(|h|)), h + [Pair(Arg(h, obj, 0).v, Arg(h, obj, 1).v)])
  {
  }

  /** set-car! and set-cdr! rewrite one field of their pair and give #inert; a first operand that is no pair is fatal. */
  lemma SetFields(h: Heap, obj: Value, env: Value, fuel: nat)
    requires Closed(h) && Below(obj, h) && IsEnvironment(h, env) && Arg(h, obj, 0).Val? && Arg(h, obj, 1).Val?
    ensures var p, v := Arg(h, obj, 0).v, Arg(h, obj, 1).v;
            IsPair(h, p) ==>
              ApplyPrimOf(h, SetCarOp, obj, env, fuel) == Res(Val(K(KInert)), h[p.addr := Pair(v, h[p.addr].cdr)]) &&
              ApplyPrimOf(h, SetCdrOp, obj, env, fuel) == Res(Val(K(KInert)), h[p.addr := Pair(h[p.addr].car, v)])
    ensures !IsPair(h, Arg(h, obj, 0).v) ==>
              ApplyPrimOf(h, SetCarOp, obj, env, fuel).out == Fault && ApplyPrimOf(h, SetCdrOp, obj, env, fuel).out == Fault
  {
  }

  /** $vau gives a fresh compound operative over its three operands, closed over the calling environment. */
  lemma VauCloses(h: Heap, obj: Value, env: Value, fuel: nat)
    requires Closed(h) && Below(obj, h) && IsEnvironment(h, env)
    requires Arg(h, obj, 0).Val? && Arg(h, obj, 1).Val? && Arg(h, obj, 2).Val?
    ensures ApplyPrimOf(h, VauOp, obj, env, fuel) ==
      Res(Val(Ref(|h|)), h + [CompoundOperative(Arg(h, obj, 0).v, Arg(h, obj, 1).v, Arg(h, obj, 2).v, env)])
  {
  }

  /**
   * make-environment: with no operands the parent is #null, otherwise the
   * first operand; the fresh environment has no bindings, so it answers
   * every lookup as its parent does.
   */
  lemma MakeEnvironmentParent(h: Heap, obj: Value, env: Value, fuel: nat, name: string)
    requires Closed(h) && Below(obj, h) && IsEnvironment(h, env) && (IsNull(obj) || IsPair(h, obj))
    ensures var parent := if IsNull(obj) then K(KNull) else h[obj.addr].car;
            var r := ApplyPrimOf(h, MakeEnvironmentOp, obj, env, fuel);
            r == Res(Val(Ref(|h|)), h + [Environment([], parent)]) &&
            Lookup(r.heap, Ref(|h|), name) == if IsEnvironment(h, parent) then Lookup(h, parent, name) else K(KNull)
  {
    var parent := if IsNull(obj) then K(KNull) else h[obj.addr].car;
    var (e, h') := Alloc(h, Environment([], parent));
    assert FindKey(h', [], name) == -1;
    if IsEnvironment(h, parent) {
      LookupKept(h, h', parent, name);
    }
  }

  // mapcar_eval over operands that evaluate to themselves.

  /** A value that eval returns unchanged: neither a symbol nor a pair. */
  predicate Literal(h: Heap, v: Value)
  {
    !IsSymbol(h, v) && !IsPair(h, v)
  }

  /** Every operand of the chain is a literal. */
  predicate AllLiteral(h: Heap, v: Value, n: nat)
    requires Closed(h) && Below(v, h) && EndsWithin(h, v, n)
  {
    forall k :: 0 <= k < |Elements(h, v, n)| ==> Literal(h, Elements(h, v, n)[k])
  }

  /** The cells of a fresh proper list of es, the first at address base. */
  function ListCells(es: seq<Value>, base: nat): (cs: seq<Obj>)
    ensures |cs| == |es|
    ensures forall i :: 0 <= i < |es| ==>
      cs[i] == Pair(es[i], if i + 1 < |es| then Ref(base + i + 1) else K(KNull))
  {
    seq(|es|, i requires 0 <= i < |es| => Pair(es[i], if i + 1 < |es| then Ref(base + i + 1) else K(KNull)))
  }

  /** The head of that list: its first cell, or #null when it is empty. */
  function ListHead(es: seq<Value>, base: nat): Value
  {
    if es == [] then K(KNull) else Ref(base)
  }

  /** Its last cell, or #null when it is empty. */
  function ListLast(es: seq<Value>, base: nat): Value
  {
    if es == [] then K(KNull) else Ref(base + |es| - 1)
  }

  lemma ListCellsClosed(h: Heap, es: seq<Value>)
    requires Closed(h) && AllBelow(es, h)
    ensures Closed(h + ListCells(es, |h|)) && Stable(h, h + ListCells(es, |h|))
  {
    var h' := h + ListCells(es, |h|);
    forall i | 0 <= i < |h'|
      ensures ObjBelow(h'[i], h')
    {
      if i < |h| {
        ObjBelowGrows(h[i], h, h');
      }
    }
  }

  /** The fresh cells form a proper list whose elements are es, in order. */
  lemma {:induction false} ListCellsElements(h: Heap, es: seq<Value>, j: nat)
    requires Closed(h + ListCells(es, |h|)) && j <= |es|
    ensures var hp := h + ListCells(es, |h|);
            var v := if j < |es| then Ref(|h| + j) else K(KNull);
            EndsWithin(hp, v, |es| - j) && Elements(hp, v, |es| - j) == es[j..]
    decreases |es| - j
  {
    if j < |es| {
      ListCellsElements(h, es, j + 1);
      var hp := h + ListCells(es, |h|);
      assert hp[|h| + j] == Pair(es[j], if j + 1 < |es| then Ref(|h| + j + 1) else K(KNull));
      assert es[j..] == [es[j]] + es[j + 1..];
    }
  }

  /** The fresh cells after h hold a proper list whose elements are es. */
  lemma ListCellsList(h: Heap, es: seq<Value>)
    requires Closed(h) && AllBelow(es, h)
    ensures var h' := h + ListCells(es, |h|);
            Closed(h') && EndsWithin(h', ListHead(es, |h|), |es|) && Elements(h', ListHead(es, |h|), |es|) == es
  {
    ListCellsClosed(h, es);
    ListCellsElements(h, es, 0);
    assert es[0..] == es;
  }

  lemma Associative(a: seq<Value>, b: seq<Value>, c: seq<Value>)
    ensures (a + b) + c == a + (b + c)
  {
  }

  /** Appending one element to the list: the old last cell now points to a new last cell. */
  lemma ListCellsSnoc(h: Heap, es: seq<Value>, e: Value)
    requires es != []
    ensures (h + ListCells(es, |h|) + [Pair(K(KNull), K(KNull))])
              [|h| + |es| - 1 := Pair(es[|es| - 1], Ref(|h| + |es|))][|h| + |es| := Pair(e, K(KNull))]
            == h + ListCells(es + [e], |h|)
  {
  }

  /** The heap after the first half of a turn: a fresh empty cell, linked after the last one built. */
  function Linked(h: Heap, es: seq<Value>): Heap
  {
    var h1 := h + ListCells(es, |h|) + [Pair(K(KNull), K(KNull))];
    if es == [] then h1 else h1[|h| + |es| - 1 := Pair(es[|es| - 1], Ref(|h| + |es|))]
  }

  /** The linked heap keeps h's records other than the cells, and the fresh cell is an empty pair. */
  lemma LinkedShape(h: Heap, obj: Value, env: Value, es: seq<Value>)
    requires Closed(h) && IsPair(h, obj) && IsEnvironment(h, env)
    requires Closed(h + ListCells(es, |h|)) && Stable(h, h + ListCells(es, |h|))
    ensures var h2 := Linked(h, es);
            Closed(h2) && Stable(h, h2) && IsPair(h2, obj) && IsEnvironment(h2, env) &&
            h2[obj.addr] == h[obj.addr] && h2[|h| + |es|] == Pair(K(KNull), K(KNull))
  {
    var hp := h + ListCells(es, |h|);
    assert hp[obj.addr] == h[obj.addr] && hp[env.addr] == h[env.addr];
    var (cell, h1) := Alloc(hp, Pair(K(KNull), K(KNull)));
    StableTrans(h, hp, h1);
    var h2 := if es == [] then h1 else SetCdr(h1, ListLast(es, |h|), cell);
    if es != [] {
      StableTrans(h, h1, h2);
    }
    assert h2 == Linked(h, es);
    Keeps(h, h2, obj);
    Keeps(h, h2, env);
  }

  /** First half of a turn of mapcar_eval over a list built at the end of h. */
  lemma MapcarLinks(h: Heap, obj: Value, env: Value, es: seq<Value>, fuel: nat)
    requires Closed(h) && IsPair(h, obj) && IsEnvironment(h, env) && fuel > 0
    requires Closed(h + ListCells(es, |h|)) && Stable(h, h + ListCells(es, |h|))
    requires var h2 := Linked(h, es);
             Closed(h2) && IsPair(h2, obj) && IsEnvironment(h2, env) && h2[obj.addr] == h[obj.addr] &&
             IsPair(h2, Ref(|h| + |es|))
    ensures MapcarOf(h + ListCells(es, |h|), obj, env, ListLast(es, |h|), ListHead(es, |h|), fuel)
              == MapcarItemOf(Linked(h, es), obj, env, Ref(|h| + |es|), ListHead(es + [h[obj.addr].car], |h|), fuel)
  {
    var hp := h + ListCells(es, |h|);
    assert hp[obj.addr] == h[obj.addr] && hp[env.addr] == h[env.addr];
    var a := ListLast(es, |h|);
    var (cell, h1) := Alloc(hp, Pair(K(KNull), K(KNull)));
    var h2 := if IsNull(a) then h1 else SetCdr(h1, a, cell);
    var result := if IsNull(a) then cell else ListHead(es, |h|);
    assert h2 == Linked(h, es);
    assert result == ListHead(es + [h[obj.addr].car], |h|);
    assert MapcarOf(hp, obj, env, a, ListHead(es, |h|), fuel) == MapcarItemOf(h2, obj, env, cell, result, fuel);
    MapcarItemSameHeap(h2, Linked(h, es), obj, env, cell, Ref(|h| + |es|), result, ListHead(es + [h[obj.addr].car], |h|), fuel);
  }

  /** Filling the fresh cell completes the list es + [e]. */
  lemma FilledCells(h: Heap, es: seq<Value>, e: Value)
    ensures Linked(h, es)[|h| + |es| := Pair(e, K(KNull))] == h + ListCells(es + [e], |h|)
  {
    if es == [] {
      assert Linked(h, es)[|h| := Pair(e, K(KNull))] == h + ListCells([e], |h|);
    } else {
      ListCellsSnoc(h, es, e);
    }
  }

  /** The operands after the first of a literal chain are a literal chain. */
  lemma LiteralsRest(h: Heap, obj: Value, n: nat)
    requires Closed(h) && IsPair(h, obj) && EndsWithin(h, obj, n)
    requires AllLiteral(h, obj, n)
    ensures Elements(h, obj, n) == [h[obj.addr].car] + Elements(h, h[obj.addr].cdr, n - 1)
    ensures Literal(h, h[obj.addr].car) && AllLiteral(h, h[obj.addr].cdr, n - 1)
  {
    var els := Elements(h, h[obj.addr].cdr, n - 1);
    assert Elements(h, obj, n)[0] == h[obj.addr].car;
    forall k | 0 <= k < |els|
      ensures Literal(h, els[k])
    {
      assert els[k] == Elements(h, obj, n)[k + 1];
    }
  }

  /** Second half: a literal operand is its own value and goes into the fresh cell. */
  lemma MapcarFillsLiteral(h2: Heap, h3: Heap, obj: Value, env: Value, cell: Value, head: Value, e0: Value, rest: Value, fuel: nat, f: nat)
    requires Closed(h2) && IsPair(h2, obj) && IsEnvironment(h2, env) && IsPair(h2, cell) && Below(head, h2)
    requires fuel == f + 1 && f > 0 && h2[obj.addr] == Pair(e0, rest)
    requires Literal(h2, e0) && h2[cell.addr].cdr == K(KNull)
    requires h3 == h2[cell.addr := Pair(e0, K(KNull))]
    ensures Closed(h3) && Below(rest, h3) && IsEnvironment(h3, env) && IsPair(h3, cell) && Below(head, h3)
    ensures MapcarItemOf(h2, obj, env, cell, head, fuel) == MapcarOf(h3, rest, env, cell, head, f)
  {
    EvalAtom(h2, e0, env, f);
    assert h3 == SetCar(h2, cell, e0);
    Keeps(h2, h3, obj);
    Keeps(h2, h3, env);
  }

  /** Equal heaps and equal cursors give the same mapcar_eval run. */
  lemma MapcarSameHeap(h: Heap, h': Heap, obj: Value, env: Value, a: Value, a': Value, result: Value, fuel: nat, fuel': nat)
    requires h == h' && a == a' && fuel == fuel'
    requires Closed(h) && Below(obj, h) && IsEnvironment(h, env) && Below(result, h)
    requires IsNull(a) || IsPair(h, a)
    ensures MapcarOf(h, obj, env, a, result, fuel) == MapcarOf(h', obj, env, a', result, fuel')
  {
  }

  lemma MapcarItemSameHeap(h: Heap, h': Heap, obj: Value, env: Value, cell: Value, cell': Value, result: Value, result': Value, fuel: nat)
    requires h == h' && cell == cell' && result == result'
    requires Closed(h) && IsPair(h, obj) && IsEnvironment(h, env) && IsPair(h, cell) && Below(result, h) && fuel > 0
    ensures MapcarItemOf(h, obj, env, cell, result, fuel) == MapcarItemOf(h', obj, env, cell', result', fuel)
  {
  }

  lemma BelowSnoc(h: Heap, es: seq<Value>, e: Value)
    requires Closed(h) && Below(e, h) && AllBelow(es, h)
    ensures AllBelow(es + [e], h)
  {
  }

  /**
   * One round of mapcar_eval over a literal operand, after the list es:
   * it continues from the list es followed by that operand.
   */
  lemma MapcarLiteralStep(h: Heap, obj: Value, env: Value, es: seq<Value>, fuel: nat, f: nat)
    requires Closed(h) && IsPair(h, obj) && IsEnvironment(h, env) && fuel == f + 1 && f > 0
    requires AllBelow(es, h)
    requires Literal(h, h[obj.addr].car)
    requires Closed(h + ListCells(es, |h|)) && IsEnvironment(h + ListCells(es, |h|), env)
    requires var hq := h + ListCells(es + [h[obj.addr].car], |h|);
             Closed(hq) && IsEnvironment(hq, env)
    ensures var hp, e0 := h + ListCells(es, |h|), h[obj.addr].car;
            var hq := h + ListCells(es + [e0], |h|);
            MapcarOf(hp, obj, env, ListLast(es, |h|), ListHead(es, |h|), fuel)
              == MapcarOf(hq, h[obj.addr].cdr, env, ListLast(es + [e0], |h|), ListHead(es + [e0], |h|), f)
  {
    var e0, rest := h[obj.addr].car, h[obj.addr].cdr;
    MapcarLiteralTurn(h, obj, env, es, fuel, f);
    var h3 := Linked(h, es)[|h| + |es| := Pair(e0, K(KNull))];
    var hq := h + ListCells(es + [e0], |h|);
    FilledCells(h, es, e0);
    assert ListLast(es + [e0], |h|) == Ref(|h| + |es|);
    MapcarSameHeap(h3, hq, rest, env, Ref(|h| + |es|), ListLast(es + [e0], |h|), ListHead(es + [e0], |h|), f, f);
  }

  /** One turn over a literal operand, into the linked heap with the operand stored in the fresh cell. */
  lemma MapcarLiteralTurn(h: Heap, obj: Value, env: Value, es: seq<Value>, fuel: nat, f: nat)
    requires Closed(h) && IsPair(h, obj) && IsEnvironment(h, env) && fuel == f + 1 && f > 0
    requires AllBelow(es, h)
    requires Literal(h, h[obj.addr].car)
    requires Closed(h + ListCells(es, |h|)) && IsEnvironment(h + ListCells(es, |h|), env)
    ensures var h3 := Linked(h, es)[|h| + |es| := Pair(h[obj.addr].car, K(KNull))];
            Closed(h3) && Below(h[obj.addr].cdr, h3) && IsEnvironment(h3, env) && IsPair(h3, Ref(|h| + |es|)) &&
            Below(ListHead(es + [h[obj.addr].car], |h|), h3) &&
            MapcarOf(h + ListCells(es, |h|), obj, env, ListLast(es, |h|), ListHead(es, |h|), fuel)
              == MapcarOf(h3, h[obj.addr].cdr, env, Ref(|h| + |es|), ListHead(es + [h[obj.addr].car], |h|), f)
  {
    ListCellsClosed(h, es);
    var e0, rest := h[obj.addr].car, h[obj.addr].cdr;
    LinkedShape(h, obj, env, es);
    var h2 := Linked(h, es);
    var cell := Ref(|h| + |es|);
    MapcarLinks(h, obj, env, es, fuel);
    if e0.Ref? {
      assert h2[e0.addr] == h[e0.addr];
    }
    var h3 := Linked(h, es)[|h| + |es| := Pair(h[obj.addr].car, K(KNull))];
    MapcarFillsLiteral(h2, h3, obj, env, cell, ListHead(es + [e0], |h|), e0, rest, fuel, f);
  }

  /**
   * mapcar_eval, from a list es already built at the end of h, over
   * literal operands: it goes on to build the list es followed by the
   * operands, in fresh cells, and leaves the rest of the heap as it was.
   */
  lemma {:induction false} MapcarLiteralsFrom(h: Heap, obj: Value, env: Value, es: seq<Value>, n: nat, fuel: nat)
    requires Closed(h) && Below(obj, h) && IsEnvironment(h, env) && EndsWithin(h, obj, n) && n < fuel
    requires AllBelow(es, h)
    requires AllLiteral(h, obj, n)
    requires Closed(h + ListCells(es, |h|)) && IsEnvironment(h + ListCells(es, |h|), env)
    ensures var all := es + Elements(h, obj, n);
            MapcarOf(h + ListCells(es, |h|), obj, env, ListLast(es, |h|), ListHead(es, |h|), fuel)
              == Res(Val(ListHead(all, |h|)), h + ListCells(all, |h|))
    decreases n, 1
  {
    if IsPair(h, obj) {
      var e0, rest := h[obj.addr].car, h[obj.addr].cdr;
      LiteralsRest(h, obj, n);
      BelowSnoc(h, es, e0);
      ListCellsClosed(h, es + [e0]);
      assert (h + ListCells(es + [e0], |h|))[env.addr] == h[env.addr];
      MapcarLiteralsCons(h, obj, env, es, n - 1, fuel, fuel - 1);
      var els := Elements(h, rest, n - 1);
      Associative(es, [e0], els);
      assert (es + [e0]) + els == es + Elements(h, obj, n);
    } else {
      assert Elements(h, obj, n) == [];
      assert es + [] == es;
    }
  }

  /**
   * MapcarLiteralsFrom when the operand chain starts with a pair whose car
   * is a literal and whose cdr is a literal chain ending within m cells.
   */
  lemma {:induction false} MapcarLiteralsCons(h: Heap, obj: Value, env: Value, es: seq<Value>, m: nat, fuel: nat, f: nat)
    requires Closed(h) && IsPair(h, obj) && IsEnvironment(h, env) && fuel == f + 1 && m < f
    requires EndsWithin(h, h[obj.addr].cdr, m) && AllLiteral(h, h[obj.addr].cdr, m)
    requires AllBelow(es, h)
    requires Literal(h, h[obj.addr].car) && Below(h[obj.addr].cdr, h)
    requires AllBelow(es + [h[obj.addr].car], h)
    requires Closed(h + ListCells(es, |h|)) && IsEnvironment(h + ListCells(es, |h|), env)
    requires var hq := h + ListCells(es + [h[obj.addr].car], |h|);
             Closed(hq) && IsEnvironment(hq, env)
    ensures var all := (es + [h[obj.addr].car]) + Elements(h, h[obj.addr].cdr, m);
            MapcarOf(h + ListCells(es, |h|), obj, env, ListLast(es, |h|), ListHead(es, |h|), fuel)
              == Res(Val(ListHead(all, |h|)), h + ListCells(all, |h|))
    decreases m + 1, 0
  {
    MapcarLiteralStep(h, obj, env, es, fuel, f);
    MapcarLiteralsFrom(h, h[obj.addr].cdr, env, es + [h[obj.addr].car], m, f);
  }

  /**
   * mapcar_eval over operands that all evaluate to themselves, the chain of
   * operand pairs ending within n cells: the result is a fresh proper list
   * whose elements are the operands in order (an improper tail dropped),
   * built in new records after h, which is left as it was.
   */
  lemma MapcarLiterals(h: Heap, obj: Value, env: Value, n: nat, fuel: nat)
    requires Closed(h) && Below(obj, h) && IsEnvironment(h, env) && EndsWithin(h, obj, n) && n < fuel
    requires AllLiteral(h, obj, n)
    ensures var es := Elements(h, obj, n);
            MapcarOf(h, obj, env, K(KNull), K(KNull), fuel) == Res(Val(ListHead(es, |h|)), h + ListCells(es, |h|))
  {
    var h0 := h + ListCells([], |h|);
    assert h0 == h;
    var es := Elements(h, obj, n);
    assert [] + es == es;
    MapcarLiteralsFrom(h, obj, env, [], n, fuel);
    MapcarSameHeap(h0, h, obj, env, ListLast([], |h|), K(KNull), ListHead([], |h|), fuel, fuel);
  }

  // prim_init.

  /** A row of the registration table: a name, its primitive (none for the sentinel), and whether it is wrapped. */
  datatype PrimInfo = PrimInfo(name: string, prim: Option<Prim>, wrap: int)

  /** s_prim_infos, closed by its sentinel. */
  const PrimInfos: seq<PrimInfo> := [
    PrimInfo("inert?", Some(InertQ), 1),
    PrimInfo("ignore?", Some(IgnoreQ), 1),
    PrimInfo("boolean?", Some(BooleanQ), 1),
    PrimInfo("null?", Some(NullQ), 1),
    PrimInfo("symbol?", Some(SymbolQ), 1),
    PrimInfo("number?", Some(NumberQ), 1),
    PrimInfo("pair?", Some(PairQ), 1),
    PrimInfo("environment?", Some(EnvironmentQ), 1),
    PrimInfo("operative?", Some(OperativeQ), 1),
    PrimInfo("applicative?", Some(ApplicativeQ), 1),
    PrimInfo("$quote", Some(QuoteOp), 0),
    PrimInfo("eq?", Some(EqOp), 1),
    PrimInfo("equal?", Some(EqualOp), 1),
    PrimInfo("eval", Some(EvalOp), 1),
    PrimInfo("$define!", Some(DefineOp), 0),
    PrimInfo("$if", Some(IfOp), 0),
    PrimInfo("cons", Some(ConsOp), 1),
    PrimInfo("set-car!", Some(SetCarOp), 1),
    PrimInfo("set-cdr!", Some(SetCdrOp), 1),
    PrimInfo("make-environment", Some(MakeEnvironmentOp), 1),
    PrimInfo("$vau", Some(VauOp), 0),
    PrimInfo("", None, 0)
  ]

  /** Only the last row is the sentinel, and the names are distinct. */
  lemma PrimInfosShape()
    ensures |PrimInfos| == 22 && PrimInfos[21].prim.None?
    ensures forall k :: 0 <= k < 21 ==> PrimInfos[k].prim.Some?
    ensures forall k, j :: 0 <= k < j < 21 ==> PrimInfos[k].name != PrimInfos[j].name
  {
  }

  predicate IsPrim(h: Heap, v: Value, p: Prim)
  {
    IsPrimOperative(h, v) && h[v.addr].prim == p
  }

  /** The row's name is bound in genv to its primitive, wrapped in an applicative when the row says so. */
  predicate Registered(h: Heap, genv: Value, info: PrimInfo)
    requires Closed(h) && IsEnvironment(h, genv)
  {
    var v := Lookup(h, genv, info.name);
    info.prim.Some? &&
    if info.wrap != 0 then IsApplicative(h, v) && IsPrim(h, h[v.addr].operative, info.prim.value)
    else IsPrim(h, v, info.prim.value)
  }

  /** A registration survives anything that keeps the name's binding. */
  lemma RegisteredKept(h: Heap, h': Heap, genv: Value, info: PrimInfo)
    requires Closed(h) && Closed(h') && Stable(h, h') && IsEnvironment(h, genv) && IsEnvironment(h', genv)
    requires Registered(h, genv, info) && Lookup(h', genv, info.name) == Lookup(h, genv, info.name)
    ensures Registered(h', genv, info)
  {
    var v := Lookup(h, genv, info.name);
    Keeps(h, h', v);
    if info.wrap != 0 {
      Keeps(h, h', h[v.addr].operative);
    }
  }

  /**
   * The (define symbol op) that prim_init evaluates for a row, once its
   * records are allocated: it registers the row and changes no other name.
   */
  lemma RowDefined(h0: Heap, h5: Heap, genv: Value, info: PrimInfo, symbol: Value, op: Value, c2: Value)
    requires Closed(h0) && IsEnvironment(h0, genv) && Closed(h5) && Stable(h0, h5) && EnvsKept(h0, h5)
    requires IsSymbol(h5, symbol) && h5[symbol.addr].name == info.name
    requires IsPair(h5, c2) && h5[c2.addr].car == symbol && Arg(h5, c2, 1) == Val(op)
    requires info.prim.Some?
    requires if info.wrap != 0 then IsApplicative(h5, op) && IsPrim(h5, h5[op.addr].operative, info.prim.value)
             else IsPrim(h5, op, info.prim.value)
    ensures var h6 := DefineOf(h5, c2, genv, 1).heap;
            Closed(h6) && IsEnvironment(h6, genv) && Stable(h0, h6) && Registered(h6, genv, info) &&
            forall name :: name != info.name ==> Lookup(h6, genv, name) == Lookup(h0, genv, name)
  {
    Keeps(h0, h5, genv);
    EvalAtom(h5, op, genv, 1);
    DefineBindsSymbol(h5, c2, genv, 1);
    var h6 := DefineOf(h5, c2, genv, 1).heap;
    StableTrans(h0, h5, h6);
    Keeps(h5, h6, op);
    if info.wrap != 0 {
      Keeps(h5, h6, h5[op.addr].operative);
    }
    forall name | name != info.name
      ensures Lookup(h6, genv, name) == Lookup(h0, genv, name)
    {
      LookupKept(h0, h5, genv, name);
    }
  }

  /**
   * The interpreter's state: the heap and the global environment. Each
   * method does what the C function of the same name does, one step at a
   * time, and ends in the outcome and heap its specification function gives.
   */
  class Interp {
    var heap: Heap
    var genv: Value

    ghost predicate Valid()
      reads this
    {
      Closed(heap) && IsEnvironment(heap, genv)
    }

    /** A heap holding only the global environment, empty and without parent. */
    constructor ()
      ensures Valid() && heap == [Environment([], K(KNull))] && genv == Ref(0)
    {
      heap := [Environment([], K(KNull))];
      genv := Ref(0);
    }

    /** A fresh record. */
    method New(o: Obj) returns (v: Value)
      requires Closed(heap) && ObjBelow(o, heap)
      modifies this
      ensures (v, heap) == Alloc(old(heap), o) && genv == old(genv)
    {
      var (a, h) := Alloc(heap, o);
      v, heap := a, h;
    }

    /** A pure primitive's outcome, with the heap it leaves. */
    method Perform(res: Res) returns (r: Out)
      modifies this
      ensures heap == res.heap && r == res.out && genv == old(genv)
    {
      r, heap := res.out, res.heap;
    }

    /** DEF_TYPE_PREDICATE: a read-only walk down the operands. */
    method TypeTest(q: Prim, obj: Value, fuel: nat) returns (r: Out)
      requires Closed(heap) && Below(obj, heap) && IsTypePredicate(q)
      ensures r == TypeTestOf(heap, q, obj, fuel)
    {
      var o := obj;
      var n: nat := fuel;
      while IsPair(heap, o)
        invariant Below(o, heap)
        invariant TypeTestOf(heap, q, o, n) == TypeTestOf(heap, q, obj, fuel)
        decreases n
      {
        if n == 0 {
          return NoFuel;
        }
        if !Satisfies(heap, q, heap[o.addr].car) {
          return Val(K(KFalse));
        }
        o, n := heap[o.addr].cdr, n - 1;
      }
      return Val(K(KTrue));
    }

    method Match(ptree: Value, vtree: Value, env: Value, fuel: nat) returns (r: Out)
      requires Closed(heap) && Below(ptree, heap) && Below(vtree, heap) && IsEnvironment(heap, env)
      modifies this
      ensures Res(r, heap) == MatchOf(old(heap), ptree, vtree, env, fuel) && genv == old(genv)
      decreases fuel
    {
      if fuel == 0 {
        return NoFuel;
      } else if IsIgnore(ptree) || IsNull(ptree) {
        return Val(K(KInert));
      } else if IsSymbol(heap, ptree) {
        heap := EnvDefine(heap, env, ptree, vtree);
        return Val(K(KInert));
      } else if IsPair(heap, ptree) && IsPair(heap, vtree) {
        r := Match(heap[ptree.addr].car, heap[vtree.addr].car, env, fuel - 1);
        if r.NoFuel? {
          return;
        }
        r := Match(heap[ptree.addr].cdr, heap[vtree.addr].cdr, env, fuel - 1);
      } else {
        return Val(K(KInert));
      }
    }

    method Eval(obj: Value, env: Value, fuel: nat) returns (r: Out)
      requires Closed(heap) && Below(obj, heap) && Below(env, heap)
      modifies this
      ensures Res(r, heap) == EvalOf(old(heap), obj, env, fuel) && genv == old(genv)
      decreases fuel, 0
    {
      if fuel == 0 {
        return NoFuel;
      } else if !IsEnvironment(heap, env) {
        return Fault;
      } else if IsSymbol(heap, obj) {
        return Val(Lookup(heap, env, heap[obj.addr].name));
      } else if IsPair(heap, obj) {
        ghost var h0 := heap;
        var f := Eval(heap[obj.addr].car, env, fuel - 1);
        if !f.Val? {
          return f;
        }
        Keeps(h0, heap, obj);
        Keeps(h0, heap, env);
        var d := heap[obj.addr].cdr;
        r := Combine(f.v, d, env, fuel - 1);
      } else {
        return Val(obj);
      }
    }

    method Combine(f: Value, d: Value, env: Value, fuel: nat) returns (r: Out)
      requires Closed(heap) && Below(f, heap) && Below(d, heap) && IsEnvironment(heap, env)
      modifies this
      ensures Res(r, heap) == CombineOf(old(heap), f, d, env, fuel) && genv == old(genv)
      decreases fuel, 3
    {
      if IsPrimOperative(heap, f) {
        r := ApplyPrim(heap[f.addr].prim, d, env, fuel);
      } else if IsCompoundOperative(heap, f) {
        r := Operate(f, d, env, fuel);
      } else if IsApplicative(heap, f) {
        ghost var h0 := heap;
        var dd := MapcarEval(d, env, fuel);
        if !dd.Val? {
          return dd;
        }
        Keeps(h0, heap, f);
        var c := New(Pair(heap[f.addr].operative, dd.v));
        r := Eval(c, env, fuel);
      } else {
        return Fault;
      }
    }

    method ApplyPrim(q: Prim, obj: Value, env: Value, fuel: nat) returns (r: Out)
      requires Closed(heap) && Below(obj, heap) && IsEnvironment(heap, env)
      modifies this
      ensures Res(r, heap) == ApplyPrimOf(old(heap), q, obj, env, fuel) && genv == old(genv)
      decreases fuel, 2
    {
      match q
      case InertQ | IgnoreQ | BooleanQ | NullQ | SymbolQ | NumberQ | PairQ
         | EnvironmentQ | OperativeQ | ApplicativeQ =>
        r := TypeTest(q, obj, fuel);
      case QuoteOp => r := Arg(heap, obj, 0);
      case EqOp => r := Perform(EqOf(heap, obj));
      case EqualOp => r := Perform(EqualOf(heap, obj, fuel));
      case EvalOp => r := EvalPrim(obj, env, fuel);
      case DefineOp => r := Define(obj, env, fuel);
      case IfOp => r := If(obj, env, fuel);
      case ConsOp => r := Perform(ConsOf(heap, obj));
      case SetCarOp => r := Perform(SetCarOf(heap, obj));
      case SetCdrOp => r := Perform(SetCdrOf(heap, obj));
      case MakeEnvironmentOp => r := Perform(MakeEnvironmentOf(heap, obj));
      case VauOp => r := Perform(VauOf(heap, obj, env));
    }

    method Operate(f: Value, d: Value, env: Value, fuel: nat) returns (r: Out)
      requires Closed(heap) && IsCompoundOperative(heap, f) && Below(d, heap) && IsEnvironment(heap, env)
      modifies this
      ensures Res(r, heap) == OperateOf(old(heap), f, d, env, fuel) && genv == old(genv)
      decreases fuel, 1
    {
      ghost var h0 := heap;
      var co := heap[f.addr];
      var local := New(Environment([], co.staticEnv));
      ghost var h1 := heap;
      r := Match(co.formals, d, local, fuel);
      if r.NoFuel? {
        return;
      }
      StableTrans(h0, h1, heap);
      Keeps(h1, heap, local);
      Keeps(h0, heap, env);
      if IsSymbol(heap, co.eformal) {
        ghost var h2 := heap;
        var v := Eval(co.eformal, env, fuel);
        if !v.Val? {
          return v;
        }
        Keeps(h2, heap, local);
        Keeps(h2, heap, co.eformal);
        heap := EnvDefine(heap, local, co.eformal, v.v);
      }
      r := Eval(co.body, local, fuel);
    }

    /**
     * mapcar_eval: walks the operands with `a` on the last cell built;
     * each fresh cell is linked in before its operand is evaluated.
     */
    method MapcarEval(obj: Value, env: Value, fuel: nat) returns (r: Out)
      requires Closed(heap) && Below(obj, heap) && IsEnvironment(heap, env)
      modifies this
      ensures Res(r, heap) == MapcarOf(old(heap), obj, env, K(KNull), K(KNull), fuel)
      ensures genv == old(genv)
      decreases fuel, 2
    {
      ghost var goal := MapcarOf(heap, obj, env, K(KNull), K(KNull), fuel);
      var o, a, result := obj, K(KNull), K(KNull);
      var n: nat := fuel;
      while IsPair(heap, o)
        invariant Closed(heap) && Below(o, heap) && IsEnvironment(heap, env) && Below(result, heap)
        invariant IsNull(a) || IsPair(heap, a)
        invariant n <= fuel && genv == old(genv)
        invariant MapcarOf(heap, o, env, a, result, n) == goal
        decreases n
      {
        if n == 0 {
          return NoFuel;
        }
        var v;
        v, o, a, result, n := MapcarStep(o, env, a, result, n);
        if !v.Val? {
          return v;
        }
      }
      return Val(result);
    }

    /** One turn of mapcar_eval's loop: a fresh cell, linked, then filled with the operand's value. */
    method MapcarStep(o: Value, env: Value, a: Value, result: Value, n: nat)
      returns (v: Out, o': Value, pair: Value, result': Value, n': nat)
      requires Closed(heap) && IsPair(heap, o) && IsEnvironment(heap, env) && Below(result, heap)
      requires IsNull(a) || IsPair(heap, a)
      requires n > 0
      modifies this
      ensures Closed(heap) && Stable(old(heap), heap) && genv == old(genv)
      ensures !v.Val? ==> Res(v, heap) == MapcarOf(old(heap), o, env, a, result, n)
      ensures v.Val? ==> Below(o', heap) && IsEnvironment(heap, env) && IsPair(heap, pair) && Below(result', heap)
      ensures v.Val? ==> n' < n && MapcarOf(heap, o', env, pair, result', n') == MapcarOf(old(heap), o, env, a, result, n)
      decreases n, 1
    {
      ghost var h0 := heap;
      pair := New(Pair(K(KNull), K(KNull)));
      result' := result;
      if IsNull(a) {
        result' := pair;
      } else {
        heap := SetCdr(heap, a, pair);
      }
      ghost var h2 := heap;
      StableTrans(h0, h0 + [Pair(K(KNull), K(KNull))], h2);
      Keeps(h0, h2, o);
      Keeps(h0, h2, env);
      Keeps(h0, h2, result);
      assert MapcarOf(h0, o, env, a, result, n) == MapcarItemOf(h2, o, env, pair, result', n);
      v, o', n' := MapcarFill(o, env, pair, result', n);
      StableTrans(h0, h2, heap);
    }

    /** The rest of one turn: the operand evaluated and stored in its cell, and the next operand. */
    method MapcarFill(o: Value, env: Value, pair: Value, result: Value, n: nat) returns (v: Out, o': Value, n': nat)
      requires Closed(heap) && IsPair(heap, o) && IsEnvironment(heap, env) && IsPair(heap, pair) && Below(result, heap)
      requires n > 0
      modifies this
      ensures Closed(heap) && Stable(old(heap), heap) && genv == old(genv)
      ensures !v.Val? ==> Res(v, heap) == MapcarItemOf(old(heap), o, env, pair, result, n)
      ensures v.Val? ==> Below(o', heap) && IsEnvironment(heap, env) && IsPair(heap, pair) && Below(result, heap)
      ensures v.Val? ==> n' < n && MapcarOf(heap, o', env, pair, result, n') == MapcarItemOf(old(heap), o, env, pair, result, n)
      decreases n, 0
    {
      ghost var h2 := heap;
      o', n' := o, n - 1;
      v := Eval(heap[o.addr].car, env, n - 1);
      if !v.Val? {
        return;
      }
      ghost var h3 := heap;
      Keeps(h2, heap, pair);
      Keeps(h2, heap, o);
      Keeps(h2, heap, env);
      Keeps(h2, heap, result);
      heap := SetCar(heap, pair, v.v);
      StableTrans(h2, h3, heap);
      o' := heap[o.addr].cdr;
    }

    method EvalPrim(obj: Value, env: Value, fuel: nat) returns (r: Out)
      requires Closed(heap) && Below(obj, heap) && IsEnvironment(heap, env)
      modifies this
      ensures Res(r, heap) == EvalPrimOf(old(heap), obj, env, fuel) && genv == old(genv)
      decreases fuel, 1
    {
      if !IsPair(heap, obj) {
        return Fault;
      }
      var a, d := heap[obj.addr].car, heap[obj.addr].cdr;
      if IsPair(heap, d) {
        r := Eval(a, heap[d.addr].car, fuel);
      } else {
        r := Eval(a, env, fuel);
      }
    }

    method Define(obj: Value, env: Value, fuel: nat) returns (r: Out)
      requires Closed(heap) && Below(obj, heap) && IsEnvironment(heap, env)
      modifies this
      ensures Res(r, heap) == DefineOf(old(heap), obj, env, fuel) && genv == old(genv)
      decreases fuel, 1
    {
      var ptree, expr := Arg(heap, obj, 0), Arg(heap, obj, 1);
      if !ptree.Val? || !expr.Val? {
        return Fault;
      }
      ghost var h0 := heap;
      var v := Eval(expr.v, env, fuel);
      if !v.Val? {
        return v;
      }
      Keeps(h0, heap, env);
      Keeps(h0, heap, ptree.v);
      r := Match(ptree.v, v.v, env, fuel);
    }

    method If(obj: Value, env: Value, fuel: nat) returns (r: Out)
      requires Closed(heap) && Below(obj, heap) && IsEnvironment(heap, env)
      modifies this
      ensures Res(r, heap) == IfOf(old(heap), obj, env, fuel) && genv == old(genv)
      decreases fuel, 1
    {
      var test := Arg(heap, obj, 0);
      if !test.Val? {
        return Fault;
      }
      ghost var h0 := heap;
      var expr := Eval(test.v, env, fuel);
      if !expr.Val? {
        return expr;
      }
      if !IsBoolean(expr.v) {
        return Fault;
      }
      Keeps(h0, heap, obj);
      var trueBody, elseBody := Arg(heap, obj, 1), Arg(heap, obj, 2);
      if !trueBody.Val? || !elseBody.Val? {
        return Fault;
      }
      if expr.v == K(KTrue) {
        r := Eval(trueBody.v, env, fuel);
      } else {
        r := Eval(elseBody.v, env, fuel);
      }
    }
 
    /**
     * prim_init: walks the table up to its sentinel; each row's symbol is
     * defined in genv, by $define! on the list (symbol value), to its
     * primitive or to an applicative over it.
     */
    method PrimInit()
      requires Valid()
      modifies this
      ensures Valid() && genv == old(genv) && Stable(old(heap), heap)
      ensures forall k :: 0 <= k < |PrimInfos| - 1 ==> Registered(heap, genv, PrimInfos[k])
    {
      PrimInfosShape();
      var i := 0;
      while PrimInfos[i].prim.Some?
        invariant 0 <= i < |PrimInfos|
        invariant Valid() && genv == old(genv) && Stable(old(heap), heap)
        invariant forall k :: 0 <= k < i ==> Registered(heap, genv, PrimInfos[k])
        decreases |PrimInfos| - i
      {
        ghost var h0 := heap;
        var info := PrimInfos[i];
        RegisterRow(info);
        forall k | 0 <= k < i
          ensures Registered(heap, genv, PrimInfos[k])
        {
          assert PrimInfos[k].name != info.name;
          RegisteredKept(h0, heap, genv, PrimInfos[k]);
        }
        i := i + 1;
      }
    }

    /** The body of prim_init's loop for one row. */
    method RegisterRow(info: PrimInfo)
      requires Valid() && info.prim.Some?
      modifies this
      ensures Valid() && genv == old(genv) && Stable(old(heap), heap)
      ensures Registered(heap, genv, info)
      ensures forall name :: name != info.name ==> Lookup(heap, genv, name) == Lookup(old(heap), genv, name)
    {
      ghost var h0 := heap;
      var symbol := New(Symbol(info.name));
      var op := New(PrimOperative(info.prim.value));
      if info.wrap != 0 {
        op := New(Applicative(op));
      }
      var c1 := New(Pair(op, K(KNull)));
      var c2 := New(Pair(symbol, c1));
      assert EnvsKept(h0, heap);
      assert Arg(heap, c2, 1) == Val(op);
      RowDefined(h0, heap, genv, info, symbol, op, c2);
      var r := Define(c2, genv, 1);
    }
  }
}
