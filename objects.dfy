/**
 * The values and records of obj.c, and the read-only operations on a
 * snapshot of the record pool: type predicates, car/cdr, is_eq/is_equal,
 * member, assoc, and the walks behind def and defined.
 *
 * A value is either a tagged immediate (nil or true) or the handle of a
 * record, written `H(index)`; the low tag bit of the C pointer becomes the
 * choice between the two constructors.
 */
module Objects {

  /** Number of records in the static pool (MAX_OBJS). */
  const MAX_OBJS: nat := 10000

  datatype ImmTag = NilTag | TrueTag

  datatype Value = Imm(tag: ImmTag) | H(index: int)

  /** make_nil and make_true: the two immediates. */
  const Nil: Value := Imm(NilTag)
  const True: Value := Imm(TrueTag)

  /**
   * The type and payload of one record. `Blank` is a record no constructor
   * has written yet. A number is an opaque payload compared by equality;
   * a primitive is identified by a code standing for its function pointer.
   */
  datatype Data =
    | Blank
    | Symbol(id: int)
    | Number(num: real)
    | Pair(car: Value, cdr: Value)
    | Prim(code: nat)
    | Closure(args: Value, body: Value, env: Value)
    | Env(plist: Value, parent: Value)

  /** A snapshot of the pool, indexed by record. */
  type Records = seq<Data>

  /** The outcome of code that may stop in a failed C `assert`. */
  datatype Checked<T> = Ok(value: T) | AssertFails

  /** A value that is an immediate or the handle of one of the first n records. */
  predicate Below(v: Value, n: int)
  {
    v.Imm? || 0 <= v.index < n
  }

  /** The values destroy_obj releases when a record dies. */
  function Traced(d: Data): seq<Value>
  {
    match d
    case Pair(a, b) => [a, b]
    case Closure(a, b, e) => [a, b, e]
    case Env(l, par) => [l, par]
    case _ => []
  }

  predicate ChildrenBelow(d: Data, n: int)
  {
    match d
    case Pair(a, b) => Below(a, n) && Below(b, n)
    case Closure(a, b, e) => Below(a, n) && Below(b, n) && Below(e, n)
    case Env(l, par) => Below(l, n) && Below(par, n)
    case _ => true
  }

  /** Every handle stored in a record names a record of the pool. */
  predicate WellFormed(p: Records)
  {
    forall i :: 0 <= i < |p| ==> ChildrenBelow(p[i], |p|)
  }

  /** An environment's parent was built before it (make_env refs an existing parent). */
  predicate ParentsOlder(p: Records)
  {
    forall i :: 0 <= i < |p| && p[i].Env? && p[i].parent.H? ==> p[i].parent.index < i
  }

  // Type predicates (is_immediate .. is_env). A handle must name a record.

  predicate IsImmediate(v: Value) { v.Imm? }
  predicate IsNil(v: Value) { v == Nil }
  predicate IsTrue(v: Value) { v == True }

  predicate IsSymbol(p: Records, v: Value)
    requires Below(v, |p|)
  { v.H? && p[v.index].Symbol? }

  predicate IsNumber(p: Records, v: Value)
    requires Below(v, |p|)
  { v.H? && p[v.index].Number? }

  predicate IsPair(p: Records, v: Value)
    requires Below(v, |p|)
  { v.H? && p[v.index].Pair? }

  predicate IsPrim(p: Records, v: Value)
    requires Below(v, |p|)
  { v.H? && p[v.index].Prim? }

  predicate IsClosure(p: Records, v: Value)
    requires Below(v, |p|)
  { v.H? && p[v.index].Closure? }

  predicate IsEnv(p: Records, v: Value)
    requires Below(v, |p|)
  { v.H? && p[v.index].Env? }

  /** Every value that is not a blank record satisfies exactly one type predicate. */
  lemma ExactlyOneType(p: Records, v: Value)
    requires Below(v, |p|) && !(v.H? && p[v.index].Blank?)
    ensures (if IsNil(v) then 1 else 0) + (if IsTrue(v) then 1 else 0) +
            (if IsSymbol(p, v) then 1 else 0) + (if IsNumber(p, v) then 1 else 0) +
            (if IsPair(p, v) then 1 else 0) + (if IsPrim(p, v) then 1 else 0) +
            (if IsClosure(p, v) then 1 else 0) + (if IsEnv(p, v) then 1 else 0) == 1
    ensures IsImmediate(v) <==> IsNil(v) || IsTrue(v)
  {
    match v
    case Imm(tag) => assert tag == NilTag || tag == TrueTag;
    case H(i) => assert Kind(p[i]) != 0;
  }

  /** car: the first field of a pair; anything else fails the assertion. */
  function Car(p: Records, v: Value): (r: Checked<Value>)
    requires Below(v, |p|)
    ensures r.Ok? <==> IsPair(p, v)
    ensures r.Ok? ==> p[v.index] == Pair(r.value, p[v.index].cdr)
  {
    if IsPair(p, v) then Ok(p[v.index].car) else AssertFails
  }

  /** cdr: the second field of a pair; anything else fails the assertion. */
  function Cdr(p: Records, v: Value): (r: Checked<Value>)
    requires Below(v, |p|)
    ensures r.Ok? <==> IsPair(p, v)
    ensures r.Ok? ==> p[v.index] == Pair(p[v.index].car, r.value)
  {
    if IsPair(p, v) then Ok(p[v.index].cdr) else AssertFails
  }

  /** The type field of a record, as an enumeration value. */
  function Kind(d: Data): nat
  {
    match d
    case Blank => 0
    case Symbol(_) => 1
    case Number(_) => 2
    case Pair(_, _) => 3
    case Prim(_) => 4
    case Closure(_, _, _) => 5
    case Env(_, _) => 6
  }

  /**
   * is_eq as a boolean: immediates by tag, symbols by interned id, numbers
   * by payload, any other two records of one type by identity.
   */
  predicate IsEq(p: Records, a: Value, b: Value)
    requires Below(a, |p|) && Below(b, |p|)
  {
    if a == Nil && b == Nil then true
    else if a == True && b == True then true
    else if a.H? && b.H? && Kind(p[a.index]) == Kind(p[b.index]) then
      match p[a.index]
      case Symbol(id) => id == p[b.index].id
      case Number(x) => x == p[b.index].num
      case _ => a == b
    else false
  }

  lemma ImmediateIsNilOrTrue(v: Value)
    ensures v.Imm? ==> v == Nil || v == True
  {
    if v.Imm? {
      match v.tag
      case NilTag =>
      case TrueTag =>
    }
  }

  /** is_eq is an equivalence on the values of a pool. */
  lemma IsEqEquivalence(p: Records, a: Value, b: Value, c: Value)
    requires Below(a, |p|) && Below(b, |p|) && Below(c, |p|)
    ensures IsEq(p, a, a)
    ensures IsEq(p, a, b) ==> IsEq(p, b, a)
    ensures IsEq(p, a, b) && IsEq(p, b, c) ==> IsEq(p, a, c)
  {
    ImmediateIsNilOrTrue(a);
    ImmediateIsNilOrTrue(b);
    ImmediateIsNilOrTrue(c);
  }

  /** is_eq case by case, read off the C branches. */
  lemma IsEqCases(p: Records, a: Value, b: Value)
    requires Below(a, |p|) && Below(b, |p|)
    ensures IsImmediate(a) || IsImmediate(b) ==> (IsEq(p, a, b) <==> a == b)
    ensures IsSymbol(p, a) && IsSymbol(p, b) ==> (IsEq(p, a, b) <==> p[a.index].id == p[b.index].id)
    ensures IsNumber(p, a) && IsNumber(p, b) ==> (IsEq(p, a, b) <==> p[a.index].num == p[b.index].num)
    ensures a.H? && b.H? && Kind(p[a.index]) != Kind(p[b.index]) ==> !IsEq(p, a, b)
    ensures a.H? && b.H? && Kind(p[a.index]) == Kind(p[b.index]) && !IsSymbol(p, a) && !IsNumber(p, a) ==>
              (IsEq(p, a, b) <==> a == b)
  {
    ImmediateIsNilOrTrue(a);
    ImmediateIsNilOrTrue(b);
  }

  /** Every car/cdr path from v through pairs has fewer than n pairs: is_equal on v stops. */
  predicate Deep(p: Records, v: Value, n: nat)
    requires WellFormed(p) && Below(v, |p|)
    decreases n
  {
    IsPair(p, v) ==>
      n > 0 && Deep(p, p[v.index].car, n - 1) && Deep(p, p[v.index].cdr, n - 1)
  }

  /** A structure with no cycle through car or cdr (so no path can repeat a record). */
  predicate Acyclic(p: Records, v: Value)
    requires WellFormed(p) && Below(v, |p|)
  {
    Deep(p, v, |p|)
  }

  lemma {:induction false} DeepMonotone(p: Records, v: Value, n: nat, m: nat)
    requires WellFormed(p) && Below(v, |p|) && n <= m && Deep(p, v, n)
    ensures Deep(p, v, m)
    decreases n
  {
    if IsPair(p, v) {
      DeepMonotone(p, p[v.index].car, n - 1, m - 1);
      DeepMonotone(p, p[v.index].cdr, n - 1, m - 1);
    }
  }

  /** is_equal with an explicit bound on the depth of a. */
  predicate IsEqualWithin(p: Records, a: Value, b: Value, n: nat)
    requires WellFormed(p) && Below(a, |p|) && Below(b, |p|) && Deep(p, a, n)
    decreases n
  {
    if IsPair(p, a) && IsPair(p, b) then
      IsEqualWithin(p, p[a.index].car, p[b.index].car, n - 1) &&
      IsEqualWithin(p, p[a.index].cdr, p[b.index].cdr, n - 1)
    else IsEq(p, a, b)
  }

  /** is_equal: pairs compared field by field, everything else by is_eq. */
  predicate IsEqual(p: Records, a: Value, b: Value)
    requires WellFormed(p) && Below(a, |p|) && Below(b, |p|) && Acyclic(p, a)
  {
    IsEqualWithin(p, a, b, |p|)
  }

  /** The depth bound only decides whether is_equal stops, never its answer. */
  lemma {:induction false} IsEqualBoundFree(p: Records, a: Value, b: Value, n: nat, m: nat)
    requires WellFormed(p) && Below(a, |p|) && Below(b, |p|) && Deep(p, a, n) && n <= m
    ensures Deep(p, a, m) && IsEqualWithin(p, a, b, n) == IsEqualWithin(p, a, b, m)
    decreases n
  {
    DeepMonotone(p, a, n, m);
    if IsPair(p, a) && IsPair(p, b) {
      IsEqualBoundFree(p, p[a.index].car, p[b.index].car, n - 1, m - 1);
      IsEqualBoundFree(p, p[a.index].cdr, p[b.index].cdr, n - 1, m - 1);
    }
  }

  lemma {:induction false} IsEqualWithinReflexive(p: Records, a: Value, n: nat)
    requires WellFormed(p) && Below(a, |p|) && Deep(p, a, n)
    ensures IsEqualWithin(p, a, a, n)
    decreases n
  {
    ImmediateIsNilOrTrue(a);
    if IsPair(p, a) {
      IsEqualWithinReflexive(p, p[a.index].car, n - 1);
      IsEqualWithinReflexive(p, p[a.index].cdr, n - 1);
    }
  }

  /** Every finite structure is is_equal to itself. */
  lemma IsEqualReflexive(p: Records, a: Value)
    requires WellFormed(p) && Below(a, |p|) && Acyclic(p, a)
    ensures IsEqual(p, a, a)
  {
    IsEqualWithinReflexive(p, a, |p|);
  }

  lemma {:induction false} IsEqualWithinSymmetric(p: Records, a: Value, b: Value, n: nat)
    requires WellFormed(p) && Below(a, |p|) && Below(b, |p|) && Deep(p, a, n) && Deep(p, b, n)
    ensures IsEqualWithin(p, a, b, n) == IsEqualWithin(p, b, a, n)
    decreases n
  {
    if IsPair(p, a) && IsPair(p, b) {
      IsEqualWithinSymmetric(p, p[a.index].car, p[b.index].car, n - 1);
      IsEqualWithinSymmetric(p, p[a.index].cdr, p[b.index].cdr, n - 1);
    }
  }

  /** is_equal does not depend on the order of its arguments. */
  lemma IsEqualSymmetric(p: Records, a: Value, b: Value)
    requires WellFormed(p) && Below(a, |p|) && Below(b, |p|) && Acyclic(p, a) && Acyclic(p, b)
    ensures IsEqual(p, a, b) == IsEqual(p, b, a)
  {
    IsEqualWithinSymmetric(p, a, b, |p|);
  }

  /** Identical values are equal; on non-pairs is_equal is exactly is_eq. */
  lemma IsEqImpliesIsEqual(p: Records, a: Value, b: Value)
    requires WellFormed(p) && Below(a, |p|) && Below(b, |p|) && Acyclic(p, a)
    ensures IsEq(p, a, b) ==> IsEqual(p, a, b)
    ensures !IsPair(p, a) || !IsPair(p, b) ==> (IsEqual(p, a, b) <==> IsEq(p, a, b))
  {
    if IsEq(p, a, b) && IsPair(p, a) && IsPair(p, b) {
      assert a == b;
      IsEqualReflexive(p, a);
    }
  }

  /** is_eq values within a depth bound are is_equal within it: two pairs are is_eq only when identical. */
  lemma IsEqWithinBound(p: Records, a: Value, b: Value, n: nat)
    requires WellFormed(p) && Below(a, |p|) && Below(b, |p|) && Deep(p, a, n) && IsEq(p, a, b)
    ensures IsEqualWithin(p, a, b, n)
  {
    if IsPair(p, a) && IsPair(p, b) {
      IsEqualWithinReflexive(p, a, n);
    }
  }

  // Lists: chains of pairs linked through cdr.

  /** The cdr chain from v leaves the pairs within n cells. */
  predicate EndsWithin(p: Records, v: Value, n: nat)
    requires WellFormed(p) && Below(v, |p|)
    decreases n
  {
    IsPair(p, v) ==> n > 0 && EndsWithin(p, p[v.index].cdr, n - 1)
  }

  /** A chain that does not run round a cycle: member, assoc and def stop on it. */
  predicate Finite(p: Records, v: Value)
    requires WellFormed(p) && Below(v, |p|)
  {
    EndsWithin(p, v, |p|)
  }

  lemma {:induction false} EndsWithinMonotone(p: Records, v: Value, n: nat, m: nat)
    requires WellFormed(p) && Below(v, |p|) && n <= m && EndsWithin(p, v, n)
    ensures EndsWithin(p, v, m)
    decreases n
  {
    if IsPair(p, v) {
      EndsWithinMonotone(p, p[v.index].cdr, n - 1, m - 1);
    }
  }

  /** The indices of the chain's cells, in order. */
  function Cells(p: Records, v: Value, n: nat): (cs: seq<int>)
    requires WellFormed(p) && Below(v, |p|) && EndsWithin(p, v, n)
    ensures forall k :: 0 <= k < |cs| ==> 0 <= cs[k] < |p| && p[cs[k]].Pair?
    ensures |cs| <= n
    decreases n
  {
    if IsPair(p, v) then [v.index] + Cells(p, p[v.index].cdr, n - 1) else []
  }

  lemma {:induction false} CellsBoundFree(p: Records, v: Value, n: nat, m: nat)
    requires WellFormed(p) && Below(v, |p|) && EndsWithin(p, v, n) && EndsWithin(p, v, m)
    ensures Cells(p, v, n) == Cells(p, v, m)
    decreases n
  {
    if IsPair(p, v) {
      CellsBoundFree(p, p[v.index].cdr, n - 1, m - 1);
    }
  }

  lemma {:induction false} CellsSuffice(p: Records, v: Value, n: nat)
    requires WellFormed(p) && Below(v, |p|) && EndsWithin(p, v, n)
    ensures EndsWithin(p, v, |Cells(p, v, n)|)
    decreases n
  {
    if IsPair(p, v) {
      CellsSuffice(p, p[v.index].cdr, n - 1);
    }
  }

  lemma {:induction false} CellsSuffix(p: Records, v: Value, n: nat, i: nat)
    requires WellFormed(p) && Below(v, |p|) && EndsWithin(p, v, n) && i < |Cells(p, v, n)|
    ensures EndsWithin(p, H(Cells(p, v, n)[i]), n - i)
    ensures Cells(p, H(Cells(p, v, n)[i]), n - i) == Cells(p, v, n)[i..]
    decreases i
  {
    if i > 0 {
      var rest := p[v.index].cdr;
      var cs, cs' := Cells(p, v, n), Cells(p, rest, n - 1);
      assert cs == [v.index] + cs';
      CellsSuffix(p, rest, n - 1, i - 1);
      assert cs[i] == cs'[i - 1];
      assert cs[i..] == cs'[i - 1..];
    }
  }

  /** A chain that ends never visits a cell twice. */
  lemma CellsDistinct(p: Records, v: Value, n: nat, i: nat, j: nat)
    requires WellFormed(p) && Below(v, |p|) && EndsWithin(p, v, n) && i < j < |Cells(p, v, n)|
    ensures Cells(p, v, n)[i] != Cells(p, v, n)[j]
  {
    var cs := Cells(p, v, n);
    CellsSuffix(p, v, n, i);
    CellsSuffix(p, v, n, j);
    if cs[i] == cs[j] {
      CellsBoundFree(p, H(cs[i]), n - i, n - j);
      assert false;
    }
  }

  /** A sequence of distinct indices below m has at most m entries. */
  lemma {:induction false} DistinctBelow(cs: seq<int>, m: nat)
    requires forall k :: 0 <= k < |cs| ==> 0 <= cs[k] < m
    requires forall i, j :: 0 <= i < j < |cs| ==> cs[i] != cs[j]
    ensures |cs| <= m
    decreases |cs|
  {
    if cs != [] {
      var x := cs[|cs| - 1];
      var rest := seq(|cs| - 1, i requires 0 <= i < |cs| - 1 => if cs[i] > x then cs[i] - 1 else cs[i]);
      assert forall i, j :: 0 <= i < j < |rest| ==> rest[i] != rest[j] by {
        forall i, j | 0 <= i < j < |rest| ensures rest[i] != rest[j] {
          assert cs[i] != x && cs[j] != x && cs[i] != cs[j];
        }
      }
      DistinctBelow(rest, m - 1);
    }
  }

  /** Any chain that ends within some bound ends within the size of the pool. */
  lemma FiniteFromBound(p: Records, v: Value, n: nat)
    requires WellFormed(p) && Below(v, |p|) && EndsWithin(p, v, n)
    ensures Finite(p, v)
  {
    var cs := Cells(p, v, n);
    forall i, j | 0 <= i < j < |cs| ensures cs[i] != cs[j] {
      CellsDistinct(p, v, n, i, j);
    }
    DistinctBelow(cs, |p|);
    CellsSuffice(p, v, n);
    EndsWithinMonotone(p, v, |cs|, |p|);
  }

  /** The cars along the chain. */
  function Elements(p: Records, v: Value, n: nat): (es: seq<Value>)
    requires WellFormed(p) && Below(v, |p|) && EndsWithin(p, v, n)
    ensures forall k :: 0 <= k < |es| ==> Below(es[k], |p|)
    ensures |es| <= n
    decreases n
  {
    if IsPair(p, v) then [p[v.index].car] + Elements(p, p[v.index].cdr, n - 1) else []
  }

  /** The first non-pair reached through cdr: nil for a proper list. */
  function TailOf(p: Records, v: Value, n: nat): (t: Value)
    requires WellFormed(p) && Below(v, |p|) && EndsWithin(p, v, n)
    ensures Below(t, |p|) && !IsPair(p, t)
    decreases n
  {
    if IsPair(p, v) then TailOf(p, p[v.index].cdr, n - 1) else v
  }

  lemma {:induction false} SameElementsWithin(p: Records, a: Value, b: Value, n: nat, m: nat, k: nat)
    requires WellFormed(p) && Below(a, |p|) && Below(b, |p|) && Deep(p, a, n)
    requires EndsWithin(p, a, m) && EndsWithin(p, b, k)
    requires |Elements(p, a, m)| == |Elements(p, b, k)|
    requires forall i :: 0 <= i < |Elements(p, a, m)| ==> IsEq(p, Elements(p, a, m)[i], Elements(p, b, k)[i])
    requires TailOf(p, a, m) == Nil && TailOf(p, b, k) == Nil
    ensures IsEqualWithin(p, a, b, n)
    decreases m
  {
    if IsPair(p, a) {
      assert IsPair(p, b);
      var ea, eb := Elements(p, a, m), Elements(p, b, k);
      var ra, rb := Elements(p, p[a.index].cdr, m - 1), Elements(p, p[b.index].cdr, k - 1);
      assert ea == [p[a.index].car] + ra && eb == [p[b.index].car] + rb;
      assert IsEq(p, ea[0], eb[0]);
      IsEqWithinBound(p, p[a.index].car, p[b.index].car, n - 1);
      forall i | 0 <= i < |ra|
        ensures IsEq(p, ra[i], rb[i])
      {
        assert ra[i] == ea[i + 1] && rb[i] == eb[i + 1];
      }
      SameElementsWithin(p, p[a.index].cdr, p[b.index].cdr, n - 1, m - 1, k - 1);
    }
  }

  /**
   * Two proper lists built separately, whose elements are pairwise is_eq,
   * are is_equal: is_equal compares the structure, not the cells.
   */
  lemma SameElementsEqual(p: Records, a: Value, b: Value)
    requires WellFormed(p) && Below(a, |p|) && Below(b, |p|) && Acyclic(p, a) && Finite(p, a) && Finite(p, b)
    requires |Elements(p, a, |p|)| == |Elements(p, b, |p|)|
    requires forall i :: 0 <= i < |Elements(p, a, |p|)| ==> IsEq(p, Elements(p, a, |p|)[i], Elements(p, b, |p|)[i])
    requires TailOf(p, a, |p|) == Nil && TailOf(p, b, |p|) == Nil
    ensures IsEqual(p, a, b)
  {
    SameElementsWithin(p, a, b, |p|, |p|, |p|);
  }

  /** member's loop with an explicit bound on the chain. */
  function MemberWithin(p: Records, x: Value, lst: Value, n: nat): Checked<Value>
    requires WellFormed(p) && Below(x, |p|) && Below(lst, |p|) && EndsWithin(p, lst, n)
    decreases n
  {
    if lst == Nil then Ok(Nil)
    else if !IsPair(p, lst) then AssertFails
    else if IsEq(p, x, p[lst.index].car) then Ok(True)
    else MemberWithin(p, x, p[lst.index].cdr, n - 1)
  }

  /** member: true when some element is is_eq to x, nil at the end of a proper list. */
  function MemberOf(p: Records, x: Value, lst: Value): Checked<Value>
    requires WellFormed(p) && Below(x, |p|) && Below(lst, |p|) && Finite(p, lst)
  {
    MemberWithin(p, x, lst, |p|)
  }

  /** Whether some element is is_eq to x. */
  predicate Occurs(p: Records, x: Value, es: seq<Value>)
    requires Below(x, |p|) && forall k :: 0 <= k < |es| ==> Below(es[k], |p|)
  {
    exists k :: 0 <= k < |es| && IsEq(p, x, es[k])
  }

  lemma {:induction false} MemberWithinMeaning(p: Records, x: Value, lst: Value, n: nat)
    requires WellFormed(p) && Below(x, |p|) && Below(lst, |p|) && EndsWithin(p, lst, n)
    ensures MemberWithin(p, x, lst, n) ==
      if Occurs(p, x, Elements(p, lst, n)) then Ok(True)
      else if TailOf(p, lst, n) == Nil then Ok(Nil)
      else AssertFails
    decreases n
  {
    if IsPair(p, lst) {
      var rest := p[lst.index].cdr;
      MemberWithinMeaning(p, x, rest, n - 1);
      var es := Elements(p, lst, n);
      assert es == [p[lst.index].car] + Elements(p, rest, n - 1);
      if !IsEq(p, x, p[lst.index].car) {
        assert Occurs(p, x, es) <==> Occurs(p, x, Elements(p, rest, n - 1)) by {
          if Occurs(p, x, es) {
            var k :| 0 <= k < |es| && IsEq(p, x, es[k]);
            assert IsEq(p, x, Elements(p, rest, n - 1)[k - 1]);
          }
          if Occurs(p, x, Elements(p, rest, n - 1)) {
            var k :| 0 <= k < |Elements(p, rest, n - 1)| && IsEq(p, x, Elements(p, rest, n - 1)[k]);
            assert IsEq(p, x, es[k + 1]);
          }
        }
      } else {
        assert IsEq(p, x, es[0]);
      }
    }
  }

  /**
   * member answers true exactly when an element is is_eq to x; with no such
   * element it answers nil on a proper list and fails on a dotted tail.
   */
  lemma MemberOfMeaning(p: Records, x: Value, lst: Value)
    requires WellFormed(p) && Below(x, |p|) && Below(lst, |p|) && Finite(p, lst)
    ensures MemberOf(p, x, lst) ==
      if Occurs(p, x, Elements(p, lst, |p|)) then Ok(True)
      else if TailOf(p, lst, |p|) == Nil then Ok(Nil)
      else AssertFails
  {
    MemberWithinMeaning(p, x, lst, |p|);
  }

  /** assoc's loop with an explicit bound on the chain. */
  function AssocWithin(p: Records, key: Value, plist: Value, n: nat): (r: Checked<Value>)
    requires WellFormed(p) && Below(key, |p|) && Below(plist, |p|) && Acyclic(p, key)
    requires EndsWithin(p, plist, n)
    ensures r.Ok? ==> Below(r.value, |p|) && (r.value == Nil || IsPair(p, r.value))
    decreases n
  {
    if plist == Nil then Ok(Nil)
    else if !IsPair(p, plist) then AssertFails
    else
      var pair := p[plist.index].car;
      if !IsPair(p, pair) then AssertFails
      else if IsEqual(p, key, p[pair.index].car) then Ok(pair)
      else AssocWithin(p, key, p[plist.index].cdr, n - 1)
  }

  /** assoc: the first element pair whose car is is_equal to the key, or nil. */
  function AssocOf(p: Records, key: Value, plist: Value): Checked<Value>
    requires WellFormed(p) && Below(key, |p|) && Below(plist, |p|) && Acyclic(p, key)
    requires Finite(p, plist)
  {
    AssocWithin(p, key, plist, |p|)
  }

  /** Whether assoc's loop stops at element x: car fails on a non-pair, or its key is is_equal to the key. */
  predicate StopsAssoc(p: Records, key: Value, x: Value)
    requires WellFormed(p) && Below(key, |p|) && Below(x, |p|) && Acyclic(p, key)
  {
    !IsPair(p, x) || IsEqual(p, key, p[x.index].car)
  }

  /** The position of the first element at which assoc stops, or |es| when it stops at none. */
  function FirstStop(p: Records, key: Value, es: seq<Value>): (k: nat)
    requires WellFormed(p) && Below(key, |p|) && Acyclic(p, key)
    requires forall j :: 0 <= j < |es| ==> Below(es[j], |p|)
    ensures k <= |es|
    ensures k < |es| ==> StopsAssoc(p, key, es[k])
    ensures forall j :: 0 <= j < k ==> !StopsAssoc(p, key, es[j])
  {
    if es == [] then 0
    else if StopsAssoc(p, key, es[0]) then 0
    else 1 + FirstStop(p, key, es[1..])
  }

  lemma {:induction false} AssocWithinMeaning(p: Records, key: Value, plist: Value, n: nat)
    requires WellFormed(p) && Below(key, |p|) && Below(plist, |p|) && Acyclic(p, key)
    requires EndsWithin(p, plist, n)
    ensures var es := Elements(p, plist, n); var k := FirstStop(p, key, es);
      AssocWithin(p, key, plist, n) ==
        if k < |es| then (if IsPair(p, es[k]) then Ok(es[k]) else AssertFails)
        else if TailOf(p, plist, n) == Nil then Ok(Nil)
        else AssertFails
    decreases n
  {
    if IsPair(p, plist) {
      var x, rest := p[plist.index].car, p[plist.index].cdr;
      var es, ers := Elements(p, plist, n), Elements(p, rest, n - 1);
      assert es == [x] + ers;
      assert TailOf(p, plist, n) == TailOf(p, rest, n - 1);
      if StopsAssoc(p, key, x) {
        assert FirstStop(p, key, es) == 0;
      } else {
        assert es[1..] == ers;
        assert FirstStop(p, key, es) == 1 + FirstStop(p, key, ers);
        assert AssocWithin(p, key, plist, n) == AssocWithin(p, key, rest, n - 1);
        AssocWithinMeaning(p, key, rest, n - 1);
      }
    }
  }

  /**
   * assoc answers the first element that is a pair whose car is is_equal to
   * the key, provided every earlier element is a pair; it fails at a
   * non-pair element before any match, answers nil on a proper list with
   * no match, and fails on a dotted tail.
   */
  lemma AssocOfMeaning(p: Records, key: Value, plist: Value)
    requires WellFormed(p) && Below(key, |p|) && Below(plist, |p|) && Acyclic(p, key) && Finite(p, plist)
    ensures var es := Elements(p, plist, |p|); var k := FirstStop(p, key, es);
      AssocOf(p, key, plist) ==
        if k < |es| then (if IsPair(p, es[k]) then Ok(es[k]) else AssertFails)
        else if TailOf(p, plist, |p|) == Nil then Ok(Nil)
        else AssertFails
  {
    AssocWithinMeaning(p, key, plist, |p|);
  }

  /** The bound on the chain only decides whether assoc stops, never its answer. */
  lemma {:induction false} AssocWithinBoundFree(p: Records, key: Value, plist: Value, n: nat, m: nat)
    requires WellFormed(p) && Below(key, |p|) && Below(plist, |p|) && Acyclic(p, key)
    requires EndsWithin(p, plist, n) && EndsWithin(p, plist, m)
    ensures AssocWithin(p, key, plist, n) == AssocWithin(p, key, plist, m)
    decreases n
  {
    if plist != Nil && IsPair(p, plist) {
      AssocWithinBoundFree(p, key, p[plist.index].cdr, n - 1, m - 1);
    }
  }

  /** Where def puts a binding: on an existing binding pair, or after the last cell. */
  datatype Slot = Binding(pair: int) | Tail(cell: int)

  /**
   * def's walk over a non-empty plist: the first binding pair whose key is
   * is_eq to the symbol, else the last cell. `prev` is the cell before plist.
   */
  function DefSlot(p: Records, sym: Value, plist: Value, prev: int, n: nat): (r: Checked<Slot>)
    requires WellFormed(p) && Below(sym, |p|) && Below(plist, |p|) && EndsWithin(p, plist, n)
    ensures r.Ok? && r.value.Binding? ==>
              0 <= r.value.pair < |p| && IsPair(p, H(r.value.pair)) && IsEq(p, sym, p[r.value.pair].car)
    ensures r.Ok? && r.value.Tail? && plist != Nil ==>
              0 <= r.value.cell < |p| && IsPair(p, H(r.value.cell)) && p[r.value.cell].cdr == Nil
    ensures r.Ok? && r.value.Tail? && plist == Nil ==> r.value.cell == prev
    decreases n
  {
    if plist == Nil then Ok(Tail(prev))
    else if !IsPair(p, plist) then AssertFails
    else
      var pair := p[plist.index].car;
      if !IsPair(p, pair) then AssertFails
      else if IsEq(p, sym, p[pair.index].car) then Ok(Binding(pair.index))
      else DefSlot(p, sym, p[plist.index].cdr, plist.index, n - 1)
  }

  /** For a symbol key, def's walk and assoc agree: same binding, same failure, nil exactly at Tail. */
  lemma {:induction false} DefSlotAgreesWithAssoc(p: Records, sym: Value, plist: Value, prev: int, n: nat)
    requires WellFormed(p) && Below(sym, |p|) && IsSymbol(p, sym) && Below(plist, |p|)
    requires EndsWithin(p, plist, n)
    ensures Acyclic(p, sym)
    ensures DefSlot(p, sym, plist, prev, n).AssertFails? <==> AssocWithin(p, sym, plist, n).AssertFails?
    ensures DefSlot(p, sym, plist, prev, n).Ok? && DefSlot(p, sym, plist, prev, n).value.Binding? <==>
              AssocWithin(p, sym, plist, n).Ok? && AssocWithin(p, sym, plist, n).value != Nil
    ensures DefSlot(p, sym, plist, prev, n).Ok? && DefSlot(p, sym, plist, prev, n).value.Binding? ==>
              AssocWithin(p, sym, plist, n).value == H(DefSlot(p, sym, plist, prev, n).value.pair)
    decreases n
  {
    assert Deep(p, sym, |p|);
    if plist != Nil && IsPair(p, plist) {
      var pair := p[plist.index].car;
      if IsPair(p, pair) {
        IsEqImpliesIsEqual(p, sym, p[pair.index].car);
        DefSlotAgreesWithAssoc(p, sym, p[plist.index].cdr, plist.index, n - 1);
      }
    }
  }

  /** Each environment on the parent chain from env has a finite plist. */
  predicate EnvsFinite(p: Records, env: Value)
    requires WellFormed(p) && ParentsOlder(p) && Below(env, |p|) && IsEnv(p, env)
    decreases env.index
  {
    var e := p[env.index];
    Finite(p, e.plist) && (IsEnv(p, e.parent) ==> EnvsFinite(p, e.parent))
  }

  /**
   * defined: the value of the first local binding found by assoc, else the
   * lookup in the parent environment, else nil once no parent is an environment.
   */
  function Lookup(p: Records, sym: Value, env: Value): (r: Checked<Value>)
    requires WellFormed(p) && ParentsOlder(p) && Below(sym, |p|) && IsSymbol(p, sym)
    requires Below(env, |p|) && IsEnv(p, env) && EnvsFinite(p, env)
    ensures r.Ok? ==> Below(r.value, |p|)
    decreases env.index
  {
    var e := p[env.index];
    assert Acyclic(p, sym);
    match AssocOf(p, sym, e.plist)
    case AssertFails => AssertFails
    case Ok(pair) =>
      if pair != Nil then Ok(p[pair.index].cdr)
      else if IsEnv(p, e.parent) then Lookup(p, sym, e.parent)
      else Ok(Nil)
  }

  /** def's walk from the start of a non-empty plist, whose first cell is also the first `prev`. */
  function DefWalk(p: Records, sym: Value, plist: Value): Checked<Slot>
    requires WellFormed(p) && Below(sym, |p|) && Below(plist, |p|) && Finite(p, plist)
  {
    DefSlot(p, sym, plist, if plist.H? then plist.index else -1, |p|)
  }

  /** The cells of a chain (its spine). */
  function Spine(p: Records, v: Value, n: nat): (r: set<int>)
    requires WellFormed(p) && Below(v, |p|) && EndsWithin(p, v, n)
    ensures forall k :: k in r ==> 0 <= k < |p| && p[k].Pair?
    ensures v.H? ==> (IsPair(p, v) <==> v.index in r)
    decreases n
  {
    if IsPair(p, v) then {v.index} + Spine(p, p[v.index].cdr, n - 1) else {}
  }

  /** Whether def on sym in environment e has to allocate: the plist is empty or has no binding of sym. */
  predicate Grows(p: Records, sym: Value, e: int)
    requires WellFormed(p) && 0 <= e < |p| && p[e].Env? && Below(sym, |p|) && Finite(p, p[e].plist)
  {
    var plist := p[e].plist;
    plist == Nil || (DefWalk(p, sym, plist).Ok? && DefWalk(p, sym, plist).value.Tail?)
  }

  /** The binding def would replace, if any, is not itself one of the plist's cells. */
  predicate BindingOffSpine(p: Records, sym: Value, e: int)
    requires WellFormed(p) && 0 <= e < |p| && p[e].Env? && Below(sym, |p|) && Finite(p, p[e].plist)
  {
    var plist := p[e].plist;
    plist != Nil && DefWalk(p, sym, plist).Ok? && DefWalk(p, sym, plist).value.Binding? ==>
      DefWalk(p, sym, plist).value.pair !in Spine(p, plist, |p|)
  }

  /** The records after def rebinds the pair b to value. */
  function Rebound(p: Records, b: int, value: Value): Records
    requires 0 <= b < |p| && p[b].Pair?
  {
    p[b := Pair(p[b].car, value)]
  }

  /** The records after def appends the binding f, held by the cell f + 1, to the last cell c. */
  function Appended(p: Records, f: int, sym: Value, value: Value, c: int): Records
    requires 0 <= f && f + 1 < |p| && 0 <= c < |p| && p[c].Pair?
  {
    p[f := Pair(sym, value)][f + 1 := Pair(H(f), Nil)][c := Pair(p[c].car, H(f + 1))]
  }

  /**
   * The records def leaves behind in environment e when it succeeds, with f
   * and f + 1 the records its two conses take: a new plist (sym . value) on
   * an empty one, the cdr of the matching binding replaced, or a new last cell.
   */
  predicate DefWrote(p0: Records, p1: Records, f: int, sym: Value, value: Value, e: int)
    requires WellFormed(p0) && 0 <= e < |p0| && p0[e].Env? && Below(sym, |p0|)
    requires Finite(p0, p0[e].plist)
  {
    var plist := p0[e].plist;
    if plist == Nil then
      0 <= f && f + 1 < |p0| &&
      p1 == p0[f := Pair(sym, value)][f + 1 := Pair(H(f), Nil)][e := Env(H(f + 1), p0[e].parent)]
    else
      match DefWalk(p0, sym, plist)
      case AssertFails => false
      case Ok(Binding(b)) => p1 == Rebound(p0, b, value)
      case Ok(Tail(c)) => 0 <= f && f + 1 < |p0| && p1 == Appended(p0, f, sym, value, c)
  }

  /** Rewriting records off a chain's spine, without changing which records are pairs, keeps the chain. */
  lemma {:induction false} SpineFrame(p0: Records, p1: Records, v: Value, n: nat)
    requires WellFormed(p0) && WellFormed(p1) && |p1| == |p0|
    requires Below(v, |p0|) && EndsWithin(p0, v, n)
    requires forall k :: 0 <= k < |p0| ==> p1[k].Pair? == p0[k].Pair?
    requires forall k :: k in Spine(p0, v, n) ==> p1[k] == p0[k]
    ensures EndsWithin(p1, v, n) && Spine(p1, v, n) == Spine(p0, v, n)
    decreases n
  {
    if IsPair(p0, v) {
      assert v.index in Spine(p0, v, n);
      SpineFrame(p0, p1, p0[v.index].cdr, n - 1);
    }
  }

  /** After def replaced the binding's value, assoc finds the same binding with the new value. */
  lemma {:induction false} AssocAfterRebind(p0: Records, sym: Value, l: Value, prev: int, n: nat, b: int, value: Value)
    requires WellFormed(p0) && Below(sym, |p0|) && IsSymbol(p0, sym) && Below(value, |p0|)
    requires Below(l, |p0|) && EndsWithin(p0, l, n)
    requires DefSlot(p0, sym, l, prev, n) == Ok(Binding(b))
    requires b !in Spine(p0, l, n)
    ensures 0 <= b < |p0| && p0[b].Pair? && WellFormed(Rebound(p0, b, value))
    ensures EndsWithin(Rebound(p0, b, value), l, n)
    ensures Acyclic(Rebound(p0, b, value), sym)
    ensures AssocWithin(Rebound(p0, b, value), sym, l, n) == Ok(H(b))
    decreases n
  {
    var p1 := Rebound(p0, b, value);
    assert WellFormed(p1) by {
      forall k | 0 <= k < |p1| ensures ChildrenBelow(p1[k], |p1|) {
        if k == b { assert ChildrenBelow(p0[b], |p0|); }
      }
    }
    assert Deep(p1, sym, |p1|);
    assert l != Nil && IsPair(p0, l) && l.index != b;
    var pair := p0[l.index].car;
    assert p1[l.index] == p0[l.index];
    if IsEq(p0, sym, p0[pair.index].car) {
      assert pair.index == b;
      SpineFrame(p0, p1, l, n);
      IsEqImpliesIsEqual(p1, sym, p1[pair.index].car);
    } else {
      AssocAfterRebind(p0, sym, p0[l.index].cdr, l.index, n - 1, b, value);
      assert p1[pair.index].car == p0[pair.index].car;
      IsEqImpliesIsEqual(p1, sym, p1[pair.index].car);
    }
  }

  /** After def appended a binding, assoc reaches it past every earlier element. */
  lemma {:induction false} AssocAfterAppend(p0: Records, sym: Value, l: Value, prev: int, n: nat, f: int, value: Value)
    requires WellFormed(p0) && Below(sym, |p0|) && IsSymbol(p0, sym) && Below(value, |p0|)
    requires 0 <= f && f + 1 < |p0| && p0[f] == Blank && p0[f + 1] == Blank
    requires Below(l, |p0|) && l != Nil && EndsWithin(p0, l, n)
    requires DefSlot(p0, sym, l, prev, n).Ok? && DefSlot(p0, sym, l, prev, n).value.Tail?
    ensures var c := DefSlot(p0, sym, l, prev, n).value.cell;
      0 <= c < |p0| && p0[c].Pair? &&
      var p1 := Appended(p0, f, sym, value, c);
      WellFormed(p1) && EndsWithin(p1, l, n + 1) && Acyclic(p1, sym) && AssocWithin(p1, sym, l, n + 1) == Ok(H(f))
    decreases n
  {
    var c := DefSlot(p0, sym, l, prev, n).value.cell;
    var p1 := Appended(p0, f, sym, value, c);
    assert WellFormed(p1) by {
      forall k | 0 <= k < |p1| ensures ChildrenBelow(p1[k], |p1|) {
        assert ChildrenBelow(p0[k], |p0|);
      }
    }
    assert Deep(p1, sym, |p1|);
    var pair := p0[l.index].car;
    var rest := p0[l.index].cdr;
    var key := p0[pair.index].car;
    assert p1[l.index].car == pair && p1[pair.index].car == key && IsPair(p1, pair);
    assert IsEq(p1, sym, key) == IsEq(p0, sym, key);
    IsEqImpliesIsEqual(p1, sym, key);
    if rest == Nil {
      assert c == l.index;
      assert EndsWithin(p1, H(f + 1), n);
      IsEqImpliesIsEqual(p1, sym, sym);
      assert AssocWithin(p1, sym, H(f + 1), n) == Ok(H(f));
    } else {
      AssocAfterAppend(p0, sym, rest, l.index, n - 1, f, value);
      assert p1[l.index] == p0[l.index];
    }
  }

  /** Environment e's own plist is a finite chain in which assoc finds sym bound to value. */
  predicate BindsLocally(p: Records, e: int, sym: Value, value: Value)
  {
    WellFormed(p) && 0 <= e < |p| && p[e].Env? && Below(sym, |p|) &&
    Finite(p, p[e].plist) && Acyclic(p, sym) &&
    var a := AssocOf(p, sym, p[e].plist);
    a.Ok? && a.value != Nil && p[a.value.index].cdr == value
  }

  /** A local binding is what defined answers. */
  lemma LocalBindingIsDefined(p: Records, e: int, sym: Value, value: Value)
    requires BindsLocally(p, e, sym, value) && ParentsOlder(p) && IsSymbol(p, sym)
    requires EnvsFinite(p, H(e))
    ensures Lookup(p, sym, H(e)) == Ok(value)
  {
  }

  lemma DefStartsBinding(p0: Records, p1: Records, f: int, sym: Value, value: Value, e: int)
    requires WellFormed(p0) && 0 <= e < |p0| && p0[e].Env? && p0[e].plist == Nil
    requires Below(sym, |p0|) && IsSymbol(p0, sym) && Below(value, |p0|)
    requires 0 <= f && f + 1 < |p0| && p0[f] == Blank && p0[f + 1] == Blank
    requires p1 == p0[f := Pair(sym, value)][f + 1 := Pair(H(f), Nil)][e := Env(H(f + 1), p0[e].parent)]
    ensures BindsLocally(p1, e, sym, value)
  {
    assert WellFormed(p1) by {
      forall k | 0 <= k < |p1| ensures ChildrenBelow(p1[k], |p1|) {
        assert ChildrenBelow(p0[k], |p0|);
      }
    }
    assert Deep(p1, sym, |p1|);
    IsEqImpliesIsEqual(p1, sym, sym);
    assert EndsWithin(p1, H(f + 1), |p1|) by {
      assert EndsWithin(p1, Nil, |p1| - 2);
    }
    assert AssocWithin(p1, sym, H(f + 1), |p1|) == Ok(H(f));
  }

  lemma DefRebindsBinding(p0: Records, sym: Value, value: Value, e: int, b: int)
    requires WellFormed(p0) && 0 <= e < |p0| && p0[e].Env? && p0[e].plist != Nil
    requires Below(sym, |p0|) && IsSymbol(p0, sym) && Below(value, |p0|) && Finite(p0, p0[e].plist)
    requires DefWalk(p0, sym, p0[e].plist) == Ok(Binding(b))
    requires b !in Spine(p0, p0[e].plist, |p0|)
    ensures 0 <= b < |p0| && p0[b].Pair? && BindsLocally(Rebound(p0, b, value), e, sym, value)
  {
    var plist := p0[e].plist;
    AssocAfterRebind(p0, sym, plist, if plist.H? then plist.index else -1, |p0|, b, value);
    assert Rebound(p0, b, value)[e] == p0[e];
  }

  lemma DefAppendsBinding(p0: Records, f: int, sym: Value, value: Value, e: int, c: int)
    requires WellFormed(p0) && 0 <= e < |p0| && p0[e].Env? && p0[e].plist != Nil
    requires Below(sym, |p0|) && IsSymbol(p0, sym) && Below(value, |p0|) && Finite(p0, p0[e].plist)
    requires 0 <= f && f + 1 < |p0| && p0[f] == Blank && p0[f + 1] == Blank
    requires DefWalk(p0, sym, p0[e].plist) == Ok(Tail(c))
    ensures 0 <= c < |p0| && p0[c].Pair? && Appended(p0, f, sym, value, c)[e] == p0[e]
    ensures BindsLocally(Appended(p0, f, sym, value, c), e, sym, value)
  {
    var plist := p0[e].plist;
    AssocAfterAppend(p0, sym, plist, if plist.H? then plist.index else -1, |p0|, f, value);
    var p1 := Appended(p0, f, sym, value, c);
    assert p1[e] == p0[e];
    FiniteFromBound(p1, plist, |p0| + 1);
    AssocWithinBoundFree(p1, sym, plist, |p0| + 1, |p1|);
  }

  /**
   * After a successful def of sym in environment e, e keeps its parent and
   * binds sym locally to the new value, so defined answers that value. The
   * replace case asks that the binding pair not be a cell of the plist itself.
   */
  lemma DefThenLookup(p0: Records, p1: Records, f: int, sym: Value, value: Value, e: int)
    requires WellFormed(p0) && 0 <= e < |p0| && p0[e].Env? && Below(sym, |p0|) && IsSymbol(p0, sym)
    requires Below(value, |p0|) && Finite(p0, p0[e].plist)
    requires 0 <= f && forall k :: f <= k < |p0| ==> p0[k] == Blank
    requires DefWrote(p0, p1, f, sym, value, e)
    requires BindingOffSpine(p0, sym, e)
    ensures BindsLocally(p1, e, sym, value) && |p1| == |p0| && p1[e].parent == p0[e].parent
    ensures ParentsOlder(p1) && EnvsFinite(p1, H(e)) ==> Lookup(p1, sym, H(e)) == Ok(value)
  {
    var plist := p0[e].plist;
    if plist == Nil {
      DefStartsBinding(p0, p1, f, sym, value, e);
    } else {
      match DefWalk(p0, sym, plist)
      case Ok(Binding(b)) =>
        DefRebindsBinding(p0, sym, value, e, b);
      case Ok(Tail(c)) =>
        DefAppendsBinding(p0, f, sym, value, e, c);
    }
    if ParentsOlder(p1) && EnvsFinite(p1, H(e)) {
      assert IsSymbol(p1, sym);
      LocalBindingIsDefined(p1, e, sym, value);
    }
  }
}
