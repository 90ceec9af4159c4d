/**
 * The record pool of obj.c and the operations that change it: the free and
 * used lists threaded through `next`/`prev`, the two counters whose sum is
 * asserted, reference counting with its cascade of frees, the constructors,
 * set_car/set_cdr and def; plus the read-only loops member, assoc and defined.
 */
module Pool {
  import opened Wrappers
  import opened Objects
  import Symbols

  /** Sum of a sequence of counts. */
  function Sum(s: seq<int>): int
  {
    if s == [] then 0 else s[0] + Sum(s[1..])
  }

  lemma {:induction false} SumNonNegative(s: seq<int>)
    requires forall k :: 0 <= k < |s| ==> 0 <= s[k]
    ensures 0 <= Sum(s)
  {
    if s != [] {
      SumNonNegative(s[1..]);
    }
  }

  lemma {:induction false} SumDecrement(s: seq<int>, i: int)
    requires 0 <= i < |s|
    ensures Sum(s[i := s[i] - 1]) == Sum(s) - 1
  {
    if i > 0 {
      assert s[i := s[i] - 1][1..] == s[1..][i - 1 := s[i] - 1];
      SumDecrement(s[1..], i - 1);
    } else {
      assert s[i := s[i] - 1][1..] == s[1..];
    }
  }

  /** Every count went down or stayed, and none is negative. */
  predicate Decreased(a: seq<int>, b: seq<int>)
  {
    |a| == |b| && forall k :: 0 <= k < |a| ==> 0 <= b[k] <= a[k]
  }

  lemma {:induction false} SumMonotone(a: seq<int>, b: seq<int>)
    requires Decreased(a, b)
    ensures Sum(b) <= Sum(a)
  {
    if a != [] {
      SumMonotone(a[1..], b[1..]);
    }
  }

  /** How many counts went from positive to zero: the records a cascade destroyed. */
  function Dropped(a: seq<int>, b: seq<int>): nat
    requires |a| == |b|
  {
    if a == [] then 0
    else (if a[0] > 0 && b[0] == 0 then 1 else 0) + Dropped(a[1..], b[1..])
  }

  lemma {:induction false} DroppedCompose(a: seq<int>, b: seq<int>, c: seq<int>)
    requires Decreased(a, b) && Decreased(b, c)
    ensures Decreased(a, c)
    ensures Dropped(a, c) == Dropped(a, b) + Dropped(b, c)
  {
    if a != [] {
      DroppedCompose(a[1..], b[1..], c[1..]);
    }
  }

  lemma {:induction false} DroppedNone(a: seq<int>)
    requires forall k :: 0 <= k < |a| ==> 0 <= a[k]
    ensures Decreased(a, a) && Dropped(a, a) == 0
  {
    if a != [] {
      DroppedNone(a[1..]);
    }
  }

  lemma {:induction false} DroppedDecrement(a: seq<int>, i: int)
    requires 0 <= i < |a| && 0 < a[i] && forall k :: 0 <= k < |a| ==> 0 <= a[k]
    ensures Decreased(a, a[i := a[i] - 1])
    ensures Dropped(a, a[i := a[i] - 1]) == if a[i] == 1 then 1 else 0
  {
    if i > 0 {
      assert a[i := a[i] - 1][1..] == a[1..][i - 1 := a[i] - 1];
      DroppedDecrement(a[1..], i - 1);
      DroppedNone([a[0]]);
    } else {
      assert a[i := a[i] - 1][1..] == a[1..];
      DroppedNone(a[1..]);
    }
  }

  /** The counts after ref(v). */
  function Bump(s: seq<int>, v: Value): seq<int>
  {
    if v.H? && 0 <= v.index < |s| then s[v.index := s[v.index] + 1] else s
  }

  predicate NonNegative(c: seq<int>)
  {
    forall k :: 0 <= k < |c| ==> 0 <= c[k]
  }

  /**
   * The counts after unref(v) on records p whose counts are c, or None when
   * a count would fall below zero somewhere in the cascade. A count that
   * reaches zero releases the values the record traces, in field order.
   */
  function UnrefOf(p: Records, c: seq<int>, v: Value): (r: Option<seq<int>>)
    requires |p| == |c| && NonNegative(c)
    ensures r.Some? ==> Decreased(c, r.value)
    ensures v.H? && 0 <= v.index < |c| && r.Some? ==> r.value[v.index] < c[v.index]
    decreases Sum(c), 0, 0
  {
    if v.Imm? || !(0 <= v.index < |c|) then
      DroppedNone(c); Some(c)
    else if c[v.index] == 0 then None
    else if c[v.index] > 1 then
      DroppedDecrement(c, v.index); Some(c[v.index := c[v.index] - 1])
    else
      var b := c[v.index := c[v.index] - 1];
      DroppedDecrement(c, v.index);
      SumDecrement(c, v.index);
      SumNonNegative(b);
      match ReleaseOf(p, b, Traced(p[v.index]))
      case None => None
      case Some(d) => DroppedCompose(c, b, d); Some(d)
  }

  /** The counts after unref'ing each of vs in turn, or None when one of them fails. */
  function ReleaseOf(p: Records, c: seq<int>, vs: seq<Value>): (r: Option<seq<int>>)
    requires |p| == |c| && NonNegative(c)
    ensures r.Some? ==> Decreased(c, r.value)
    decreases Sum(c), 1, |vs|
  {
    if vs == [] then
      DroppedNone(c); Some(c)
    else
      SumNonNegative(c);
      match UnrefOf(p, c, vs[0])
      case None => None
      case Some(b) =>
        SumMonotone(c, b);
        match ReleaseOf(p, b, vs[1..])
        case None => None
        case Some(d) => DroppedCompose(c, b, d); Some(d)
  }

  /** The counts after one count is taken from each record among vs. */
  function Shared(c: seq<int>, vs: seq<Value>): seq<int>
  {
    seq(|c|, k requires 0 <= k < |c| => if H(k) in vs then c[k] - 1 else c[k])
  }

  /** No handle occurs twice among vs. */
  predicate DistinctHandles(vs: seq<Value>)
  {
    forall j, k :: 0 <= j < k < |vs| && vs[j].H? ==> vs[j] != vs[k]
  }

  /**
   * Releasing immediates and distinct records that are each still held
   * elsewhere takes exactly one count from each of those records and frees nothing.
   */
  lemma {:induction false} ReleaseShared(p: Records, c: seq<int>, vs: seq<Value>)
    requires |p| == |c| && NonNegative(c) && DistinctHandles(vs)
    requires forall k :: 0 <= k < |vs| ==> vs[k].Imm? || (0 <= vs[k].index < |c| && c[vs[k].index] > 1)
    ensures ReleaseOf(p, c, vs) == Some(Shared(c, vs))
    ensures Decreased(c, Shared(c, vs)) && Dropped(c, Shared(c, vs)) == 0
    decreases |vs|
  {
    if vs == [] {
      assert Shared(c, vs) == c;
      DroppedNone(c);
    } else {
      var v, rest := vs[0], vs[1..];
      var b := if v.H? && 0 <= v.index < |c| then c[v.index := c[v.index] - 1] else c;
      assert UnrefOf(p, c, v) == Some(b);
      forall k | 0 <= k < |rest|
        ensures rest[k].Imm? || (0 <= rest[k].index < |b| && b[rest[k].index] > 1)
      {
        assert rest[k] == vs[k + 1];
      }
      assert DistinctHandles(rest) by {
        forall j, k | 0 <= j < k < |rest| && rest[j].H? ensures rest[j] != rest[k] {
          assert rest[j] == vs[j + 1] && rest[k] == vs[k + 1];
        }
      }
      ReleaseShared(p, b, rest);
      SharedStep(c, vs);
      NoneDropped(c, Shared(c, vs));
    }
  }

  /** Taking the first value's count, then the rest's, is taking all of theirs. */
  lemma SharedStep(c: seq<int>, vs: seq<Value>)
    requires vs != [] && DistinctHandles(vs)
    ensures Shared(if vs[0].H? && 0 <= vs[0].index < |c| then c[vs[0].index := c[vs[0].index] - 1] else c, vs[1..]) ==
            Shared(c, vs)
  {
    var v, rest := vs[0], vs[1..];
    var b := if v.H? && 0 <= v.index < |c| then c[v.index := c[v.index] - 1] else c;
    forall k | 0 <= k < |c| ensures Shared(b, rest)[k] == Shared(c, vs)[k] {
      assert H(k) in vs <==> H(k) == v || H(k) in rest;
      if v == H(k) {
        assert H(k) !in rest by {
          forall j | 0 <= j < |rest| ensures rest[j] != H(k) {
            assert rest[j] == vs[j + 1];
          }
        }
      }
    }
  }

  /**
   * unref of a record's last count destroys it: the count becomes zero and
   * each value it traces loses one count, which frees nothing more when
   * those values are immediates or distinct records held elsewhere too.
   */
  lemma UnrefLastCount(p: Records, c: seq<int>, i: int)
    requires |p| == |c| && NonNegative(c) && 0 <= i < |c| && c[i] == 1
    requires DistinctHandles(Traced(p[i]))
    requires forall k :: 0 <= k < |Traced(p[i])| ==>
               Traced(p[i])[k].Imm? ||
               (0 <= Traced(p[i])[k].index < |c| && Traced(p[i])[k].index != i && c[Traced(p[i])[k].index] > 1)
    ensures UnrefOf(p, c, H(i)) == Some(Shared(c[i := 0], Traced(p[i])))
    ensures Dropped(c, Shared(c[i := 0], Traced(p[i]))) == 1
  {
    var b := c[i := 0];
    ReleaseShared(p, b, Traced(p[i]));
    DroppedDecrement(c, i);
    DroppedCompose(c, b, Shared(b, Traced(p[i])));
  }

  /**
   * The counts def leaves behind in environment e, with f and f + 1 the
   * records its two conses take. A new binding refs sym, value and the
   * binding pair, and a new last cell is ref'd once more by set_cdr; a found
   * binding has value ref'd and its old value unref'd, which may cascade.
   * None when the walk or that unref fails.
   */
  function DefCounts(p: Records, c: seq<int>, f: int, sym: Value, value: Value, e: int): (r: Option<seq<int>>)
    requires WellFormed(p) && |p| == |c| && NonNegative(c)
    requires 0 <= e < |p| && p[e].Env? && Below(sym, |p|) && Finite(p, p[e].plist)
  {
    var plist := p[e].plist;
    if plist == Nil then Some(Bump(Bump(Bump(c, sym), value), H(f)))
    else
      match DefWalk(p, sym, plist)
      case AssertFails => None
      case Ok(Binding(b)) => UnrefOf(p, Bump(c, value), p[b].cdr)
      case Ok(Tail(_)) => Some(Bump(Bump(Bump(Bump(c, sym), value), H(f)), H(f + 1)))
  }

  /** Counts that fell without reaching zero drop nothing. */
  lemma {:induction false} NoneDropped(a: seq<int>, b: seq<int>)
    requires |a| == |b| && forall k :: 0 <= k < |a| ==> 0 < b[k] <= a[k] || 0 == b[k] == a[k]
    ensures Decreased(a, b) && Dropped(a, b) == 0
  {
    if a != [] {
      NoneDropped(a[1..], b[1..]);
    }
  }

  /**
   * The first n records are written and refer only to one another, every
   * environment's parent is older, and g_env (once set) is among them.
   */
  predicate RecordsOk(p: Records, n: int, g: Option<Value>)
  {
    |p| == MAX_OBJS && 0 <= n <= |p| && WellFormed(p) && ParentsOlder(p) &&
    (forall k :: 0 <= k < n ==> p[k] != Blank && ChildrenBelow(p[k], n)) &&
    (g.Some? ==> g.value.H? && 0 <= g.value.index < n && p[g.value.index].Env?)
  }

  /** A record an object may hold at index i: written, its children allocated, its parent older. */
  predicate Fits(d: Data, i: int, n: int)
  {
    d != Blank && ChildrenBelow(d, n) && (d.Env? && d.parent.H? ==> d.parent.index < i)
  }

  lemma ChildrenBelowMonotone(d: Data, n: int, m: int)
    requires ChildrenBelow(d, n) && n <= m
    ensures ChildrenBelow(d, m)
  {
  }

  /** Writing the next record keeps the records in order. */
  lemma RecordsGrow(p: Records, n: int, g: Option<Value>, d: Data)
    requires RecordsOk(p, n, g) && n < |p| && Fits(d, n, n)
    ensures RecordsOk(p[n := d], n + 1, g)
  {
    var q := p[n := d];
    forall k | 0 <= k < |q|
      ensures ChildrenBelow(q[k], |q|)
    {
      if k < n { ChildrenBelowMonotone(p[k], n, |q|); }
      else if k == n { ChildrenBelowMonotone(d, n, |q|); }
    }
    forall k | 0 <= k < n + 1
      ensures q[k] != Blank && ChildrenBelow(q[k], n + 1)
    {
      if k < n { ChildrenBelowMonotone(p[k], n, n + 1); }
      else { ChildrenBelowMonotone(d, n, n + 1); }
    }
  }

  /** Every allocated record fits its place. */
  lemma RecordFits(p: Records, n: int, g: Option<Value>, i: int)
    requires RecordsOk(p, n, g) && 0 <= i < n
    ensures Fits(p[i], i, n)
  {
  }

  /** Overwriting an allocated record keeps the records in order. */
  lemma RecordsRewrite(p: Records, n: int, g: Option<Value>, i: int, d: Data)
    requires RecordsOk(p, n, g) && 0 <= i < n && Fits(d, i, n)
    requires g == Some(H(i)) ==> d.Env?
    ensures RecordsOk(p[i := d], n, g)
  {
    var q := p[i := d];
    forall k | 0 <= k < |q|
      ensures ChildrenBelow(q[k], |q|)
    {
      if k < n { ChildrenBelowMonotone(q[k], n, |q|); }
    }
  }

  /** A link that is NULL or names one of the first n records. */
  predicate LinkBelow(o: Option<int>, n: int)
  {
    o.None? || 0 <= o.value < n
  }

  /** `next` after lines 70-71 of pool_free unlink record i from its predecessor. */
  function NextUnlinked(n0: seq<Option<int>>, p0: seq<Option<int>>, i: int): seq<Option<int>>
    requires |n0| == |p0| && 0 <= i < |n0| && LinkBelow(p0[i], |n0|)
  {
    if p0[i].Some? then n0[p0[i].value := n0[i]] else n0
  }

  /** `prev` after lines 72-73 of pool_free unlink record i from its successor. */
  function PrevUnlinked(n0: seq<Option<int>>, p0: seq<Option<int>>, i: int): seq<Option<int>>
    requires |n0| == |p0| && 0 <= i < |n0| && LinkBelow(n0[i], |n0|)
  {
    if n0[i].Some? then p0[n0[i].value := p0[i]] else p0
  }

  /**
   * The next and prev links: the free suffix from ff is threaded in index
   * order with NULL prev fields, and every allocated record links only to
   * allocated records.
   */
  predicate Links(nx: seq<Option<int>>, pv: seq<Option<int>>, ff: int)
  {
    |nx| == MAX_OBJS && |pv| == MAX_OBJS && 0 <= ff <= MAX_OBJS &&
    (forall i :: ff <= i < MAX_OBJS ==>
       pv[i] == None && nx[i] == (if i + 1 < MAX_OBJS then Some(i + 1) else None)) &&
    (forall i :: 0 <= i < ff ==> LinkBelow(nx[i], ff) && LinkBelow(pv[i], ff))
  }

  /** pool_init's links: the whole pool is the free list, in index order, and nothing is used. */
  lemma InitLinks(nx: seq<Option<int>>, pv: seq<Option<int>>)
    requires |nx| == MAX_OBJS && |pv| == MAX_OBJS
    requires forall i :: 0 <= i < MAX_OBJS - 1 ==> nx[i] == Some(i + 1)
    requires nx[MAX_OBJS - 1] == None && forall i :: 0 <= i < MAX_OBJS ==> pv[i] == None
    ensures Links(nx, pv, 0)
  {
  }

  /** Taking record ff off the free list and pushing it on the used list headed by u. */
  lemma AllocLinks(nx: seq<Option<int>>, pv: seq<Option<int>>, ff: int, u: Option<int>)
    requires Links(nx, pv, ff) && ff < MAX_OBJS && LinkBelow(u, ff)
    ensures Links(nx[ff := u], if u.Some? then pv[u.value := Some(ff)] else pv, ff + 1)
  {
  }

  /** Unlinking allocated record i and pushing it on the used list headed by u. */
  lemma FreeLinks(nx: seq<Option<int>>, pv: seq<Option<int>>, ff: int, i: int, u: Option<int>)
    requires Links(nx, pv, ff) && 0 <= i < ff && u.Some? && LinkBelow(u, ff)
    ensures Links(NextUnlinked(nx, pv, i)[i := u], PrevUnlinked(nx, pv, i)[u.value := Some(i)], ff)
  {
  }

  /**
   * The pool and its globals: g_obj_pool split into one array per field,
   * the list heads g_free_objs and g_used_objs, the two counters and g_env.
   * `firstFree` is the index of the free-list head: records are never put
   * back on the free list, so the free list is always the untouched suffix
   * of the pool, threaded in index order.
   */
  class Heap {
    const recs: array<Data>
    const refCount: array<int>
    const next: array<Option<int>>
    const prev: array<Option<int>>
    var freeHead: Option<int>
    var usedHead: Option<int>
    var numFree: int
    var numUsed: int
    var globalEnv: Option<Value>
    ghost var firstFree: int

    /** The lists and counters: the free suffix is intact, every link stays among the allocated records. */
    ghost predicate Shape()
      reads this, recs, refCount, next, prev
    {
      recs.Length == MAX_OBJS && refCount.Length == MAX_OBJS &&
      next.Length == MAX_OBJS && prev.Length == MAX_OBJS && next != prev &&
      0 <= firstFree <= MAX_OBJS &&
      freeHead == (if firstFree < MAX_OBJS then Some(firstFree) else None) &&
      numUsed + numFree == MAX_OBJS &&
      (forall i :: firstFree <= i < MAX_OBJS ==> recs[i] == Blank && refCount[i] == 0) &&
      (forall i :: 0 <= i < firstFree ==> 0 <= refCount[i]) &&
      Links(next[..], prev[..], firstFree) &&
      (if firstFree == 0 then usedHead == None else usedHead.Some? && LinkBelow(usedHead, firstFree))
    }

    /** Shape, and every allocated record is written and refers only to allocated records. */
    ghost predicate Intact()
      reads this, recs, refCount, next, prev
    {
      Shape() && RecordsOk(recs[..], firstFree, globalEnv)
    }

    /**
     * Since a state whose counts were `a` and whose counters were u0 and f0,
     * counts only fell, and one record went back for each count that reached zero.
     */
    ghost predicate Accounted(a: seq<int>, u0: int, f0: int)
      reads this, refCount
    {
      Decreased(a, refCount[..]) &&
      numUsed == u0 - Dropped(a, refCount[..]) && numFree == f0 + Dropped(a, refCount[..])
    }

    /** A value a caller may hold: an immediate or an allocated record. */
    ghost predicate Live(v: Value)
      reads this
    {
      Below(v, firstFree)
    }

    /** The environment def and defined use: g_env in place of nil. */
    ghost function Target(env: Value): Value
      reads this
    {
      if env == Nil && globalEnv.Some? then globalEnv.value else env
    }

    /** Lines 50-53 of pool_alloc: record r pushed on the front of the used list. */
    ghost predicate PushedOnUsed(n0: seq<Option<int>>, p0: seq<Option<int>>, u0: Option<int>, r: int)
      reads this, next, prev
      requires 0 <= r < |n0| && |p0| == |n0| && LinkBelow(u0, |n0|)
    {
      next[..] == n0[r := u0] &&
      prev[..] == (if u0.Some? then p0[u0.value := Some(r)] else p0) &&
      usedHead == Some(r)
    }

    /**
     * pool_init: every record but the last points at the next one, the free
     * list starts at record 0 and holds all MAX_OBJS records; the last
     * record's next and every prev are NULL from static zero-initialisation.
     */
    constructor PoolInit()
      ensures Intact() && fresh(recs) && fresh(refCount) && fresh(next) && fresh(prev)
      ensures firstFree == 0 && freeHead == Some(0) && usedHead == None && globalEnv == None
      ensures numFree == MAX_OBJS && numUsed == 0
      ensures forall i :: 0 <= i < MAX_OBJS - 1 ==> next[i] == Some(i + 1)
      ensures next[MAX_OBJS - 1] == None
      ensures forall i :: 0 <= i < MAX_OBJS ==> recs[i] == Blank && refCount[i] == 0 && prev[i] == None
    {
      recs := new Data[MAX_OBJS](_ => Blank);
      refCount := new int[MAX_OBJS](_ => 0);
      next := new Option<int>[MAX_OBJS](_ => None);
      prev := new Option<int>[MAX_OBJS](_ => None);
      usedHead := None;
      globalEnv := None;
      firstFree := 0;
      freeHead := Some(0);
      numFree := MAX_OBJS;
      numUsed := 0;
      new;
      var i := 0;
      while i < MAX_OBJS - 1
        modifies next
        invariant 0 <= i <= MAX_OBJS - 1
        invariant forall k :: 0 <= k < i ==> next[k] == Some(k + 1)
        invariant forall k :: i <= k < MAX_OBJS ==> next[k] == None
        invariant forall k :: 0 <= k < MAX_OBJS ==> recs[k] == Blank
      {
        next[i] := Some(i + 1);
        i := i + 1;
      }
      InitLinks(next[..], prev[..]);
    }

    /**
     * pool_alloc exactly as written: line 46 clears the prev field of the new
     * free-list head without checking that there is one, so taking the last
     * free record writes through NULL.
     */
    method PoolAllocAsWritten() returns (r: int, faulted: bool)
      requires Shape() && freeHead.Some?
      modifies this, next, prev
      ensures faulted <==> old(firstFree) == MAX_OBJS - 1
      ensures !faulted ==> Shape() && r == old(firstFree) && firstFree == r + 1
      ensures !faulted ==> numFree == old(numFree) - 1 && numUsed == old(numUsed) + 1
      ensures !faulted ==> freeHead == Some(r + 1) && globalEnv == old(globalEnv)
      ensures !faulted ==> PushedOnUsed(old(next[..]), old(prev[..]), old(usedHead), r)
    {
      ghost var n0, p0 := next[..], prev[..];
      r := freeHead.value;
      freeHead := next[r];
      if freeHead.None? {
        return r, true;
      }
      prev[freeHead.value] := None;
      assert prev[..] == p0;
      AllocLinks(n0, p0, r, usedHead);
      numFree := numFree - 1;
      next[r] := usedHead;
      if usedHead.Some? {
        prev[usedHead.value] := Some(r);
      }
      usedHead := Some(r);
      numUsed := numUsed + 1;
      firstFree := firstFree + 1;
      faulted := false;
    }

    /**
     * pool_alloc with line 46 guarded: the head of the free list moves to
     * the used list, and the new free head (if any) gets a NULL prev.
     */
    method PoolAlloc() returns (r: int)
      requires Shape() && freeHead.Some?
      modifies this, next, prev
      ensures Shape() && r == old(firstFree) && firstFree == r + 1
      ensures numFree == old(numFree) - 1 && numUsed == old(numUsed) + 1
      ensures freeHead == old(next[r]) && globalEnv == old(globalEnv)
      ensures PushedOnUsed(old(next[..]), old(prev[..]), old(usedHead), r)
    {
      ghost var n0, p0 := next[..], prev[..];
      r := freeHead.value;
      freeHead := next[r];
      if freeHead.Some? {
        prev[freeHead.value] := None;
      }
      assert prev[..] == p0;
      AllocLinks(n0, p0, r, usedHead);
      numFree := numFree - 1;
      next[r] := usedHead;
      if usedHead.Some? {
        prev[usedHead.value] := Some(r);
      }
      usedHead := Some(r);
      numUsed := numUsed + 1;
      firstFree := firstFree + 1;
    }

    /**
     * pool_free as written: record i is unlinked from its neighbours and then
     * pushed on the front of the used list (not the free list), and the used
     * head is not moved off a removed head first, so freeing the used head
     * links it to itself. Only the counters move as the comments intend.
     */
    method PoolFree(i: int)
      requires Shape() && 0 <= i < firstFree
      modifies this, next, prev
      ensures Shape()
      ensures numUsed == old(numUsed) - 1 && numFree == old(numFree) + 1
      ensures freeHead == old(freeHead) && firstFree == old(firstFree) && usedHead == Some(i)
      ensures globalEnv == old(globalEnv)
      ensures next[..] == NextUnlinked(old(next[..]), old(prev[..]), i)[i := old(usedHead)]
      ensures prev[..] == PrevUnlinked(old(next[..]), old(prev[..]), i)[old(usedHead).value := Some(i)]
      ensures old(usedHead) == Some(i) ==> next[i] == Some(i) && prev[i] == Some(i)
    {
      ghost var n0, p0 := next[..], prev[..];
      if prev[i].Some? {
        next[prev[i].value] := next[i];
      }
      assert next[..] == NextUnlinked(n0, p0, i);
      if next[i].Some? {
        prev[next[i].value] := prev[i];
      }
      assert prev[..] == PrevUnlinked(n0, p0, i);
      FreeLinks(n0, p0, firstFree, i, usedHead);
      numUsed := numUsed - 1;
      next[i] := usedHead;
      prev[usedHead.value] := Some(i);
      usedHead := Some(i);
      numFree := numFree + 1;
    }

    /** ref: one more count on a record; immediates are untouched. */
    method Ref(v: Value)
      requires Intact() && Live(v)
      modifies refCount
      ensures Intact()
      ensures refCount[..] == Bump(old(refCount[..]), v)
    {
      if v.H? {
        refCount[v.index] := refCount[v.index] + 1;
      }
    }

    /**
     * unref: one count less on a record; a count that would fall below zero
     * fails the assertion, and a count that reaches zero destroys the record
     * (releasing what it traces) and returns it to the pool. When it
     * succeeds, the records freed are exactly those whose count reached zero.
     */
    method Unref(v: Value) returns (ok: bool)
      requires Intact() && Below(v, MAX_OBJS)
      modifies this, refCount, next, prev
      ensures ok ==> Intact()
      ensures firstFree == old(firstFree) && freeHead == old(freeHead) && globalEnv == old(globalEnv)
      ensures v.Imm? ==> ok && refCount[..] == old(refCount[..]) && next[..] == old(next[..]) &&
                         prev[..] == old(prev[..]) && numUsed == old(numUsed) && usedHead == old(usedHead)
      ensures v.H? && old(refCount[v.index]) == 0 ==> !ok
      ensures v.H? && old(refCount[v.index]) > 1 ==>
                ok && refCount[..] == old(refCount[..])[v.index := old(refCount[v.index]) - 1] &&
                next[..] == old(next[..]) && prev[..] == old(prev[..]) &&
                numUsed == old(numUsed) && usedHead == old(usedHead)
      ensures ok && v.H? && old(refCount[v.index]) == 1 ==> refCount[v.index] == 0 && numUsed < old(numUsed)
      ensures ok ==> Accounted(old(refCount[..]), old(numUsed), old(numFree))
      ensures ok <==> UnrefOf(recs[..], old(refCount[..]), v).Some?
      ensures ok ==> refCount[..] == UnrefOf(recs[..], old(refCount[..]), v).value
      decreases Sum(refCount[..]), 0
    {
      CountsNonNegative();
      if v.Imm? {
        DroppedNone(refCount[..]);
        return true;
      }
      var i := v.index;
      ghost var a, u0, f0 := refCount[..], numUsed, numFree;
      if refCount[i] <= 0 {
        refCount[i] := refCount[i] - 1;
        return false;
      }
      DroppedDecrement(a, i);
      SumDecrement(a, i);
      refCount[i] := refCount[i] - 1;
      assert refCount[..] == a[i := a[i] - 1];
      if refCount[i] != 0 {
        return true;
      }
      ghost var b := refCount[..];
      SumNonNegative(b);
      ok := DestroyObj(i);
      if !ok {
        return false;
      }
      PoolFree(i);
      DroppedCompose(a, b, refCount[..]);
    }

    /** destroy_obj: releases the values a pair, closure or environment holds, in field order. */
    method DestroyObj(i: int) returns (ok: bool)
      requires Intact() && 0 <= i < firstFree
      modifies this, refCount, next, prev
      ensures ok ==> Intact()
      ensures firstFree == old(firstFree) && freeHead == old(freeHead) && globalEnv == old(globalEnv)
      ensures ok ==> Accounted(old(refCount[..]), old(numUsed), old(numFree))
      ensures Traced(recs[i]) == [] ==> ok && refCount[..] == old(refCount[..]) && numUsed == old(numUsed)
      ensures NonNegative(old(refCount[..])) && (ok <==> ReleaseOf(recs[..], old(refCount[..]), Traced(recs[i])).Some?)
      ensures ok ==> refCount[..] == ReleaseOf(recs[..], old(refCount[..]), Traced(recs[i])).value
      decreases Sum(refCount[..]), 2
    {
      RecordFits(recs[..], firstFree, globalEnv, i);
      CountsNonNegative();
      DroppedNone(refCount[..]);
      match recs[i]
      case Pair(car, cdr) =>
        ok := UnrefEach([car, cdr]);
      case Closure(args, body, env) =>
        ok := UnrefEach([args, body, env]);
      case Env(plist, parent) =>
        ok := UnrefEach([plist, parent]);
      case _ =>
        ok := true;
    }

    /** destroy_obj's unref calls, one value after another. */
    method UnrefEach(vs: seq<Value>) returns (ok: bool)
      requires Intact() && forall k :: 0 <= k < |vs| ==> Below(vs[k], MAX_OBJS)
      modifies this, refCount, next, prev
      ensures ok ==> Intact()
      ensures firstFree == old(firstFree) && freeHead == old(freeHead) && globalEnv == old(globalEnv)
      ensures ok ==> Accounted(old(refCount[..]), old(numUsed), old(numFree))
      ensures vs == [] ==> ok && refCount[..] == old(refCount[..]) && numUsed == old(numUsed)
      ensures NonNegative(old(refCount[..])) && (ok <==> ReleaseOf(recs[..], old(refCount[..]), vs).Some?)
      ensures ok ==> refCount[..] == ReleaseOf(recs[..], old(refCount[..]), vs).value
      decreases Sum(refCount[..]), 1, |vs|
    {
      ghost var a, u0, f0 := refCount[..], numUsed, numFree;
      CountsNonNegative();
      DroppedNone(a);
      if vs == [] {
        return true;
      }
      SumNonNegative(a);
      ok := Unref(vs[0]);
      if !ok {
        return;
      }
      ghost var b, u1, f1 := refCount[..], numUsed, numFree;
      SumBelow(a);
      ok := UnrefEach(vs[1..]);
      if ok {
        Chain(a, u0, f0, b, u1, f1);
      }
    }

    /** Every count in an intact pool is non-negative. */
    lemma CountsNonNegative()
      requires Intact()
      ensures NonNegative(refCount[..])
    {
      forall k | 0 <= k < refCount.Length ensures 0 <= refCount[k] {
        if k >= firstFree { }
      }
    }

    /** Two accounts in a row make one. */
    lemma Chain(a: seq<int>, u0: int, f0: int, b: seq<int>, u1: int, f1: int)
      requires Decreased(a, b) && u1 == u0 - Dropped(a, b) && f1 == f0 + Dropped(a, b)
      requires Accounted(b, u1, f1)
      ensures Accounted(a, u0, f0)
    {
      DroppedCompose(a, b, refCount[..]);
    }

    /** Counts that only fell from non-negative `a` have a smaller, non-negative sum. */
    lemma SumBelow(a: seq<int>)
      requires Decreased(a, refCount[..])
      ensures 0 <= Sum(refCount[..]) <= Sum(a)
    {
      SumMonotone(a, refCount[..]);
      SumNonNegative(refCount[..]);
    }

    /** The record a constructor has just taken from the pool gets its contents. */
    method Fill(i: int, d: Data)
      requires Shape() && i == firstFree - 1 && RecordsOk(recs[..], i, globalEnv) && Fits(d, i, i)
      modifies recs
      ensures Intact() && recs[..] == old(recs[..])[i := d]
    {
      RecordsGrow(recs[..], i, globalEnv, d);
      recs[i] := d;
    }

    /** obj->ref_count = 0 on a record taken from the pool, whose count is still the initial 0. */
    method ZeroCount(i: int)
      requires Intact() && 0 <= i < firstFree && refCount[i] == 0
      modifies refCount
      ensures Intact() && refCount[..] == old(refCount[..])
    {
      refCount[i] := 0;
      assert refCount[..] == old(refCount[..]);
    }

    /** Overwrites an allocated record in place. */
    method Store(i: int, d: Data)
      requires Intact() && 0 <= i < firstFree && Fits(d, i, firstFree) && (globalEnv == Some(H(i)) ==> d.Env?)
      modifies recs
      ensures Intact() && recs[..] == old(recs[..])[i := d]
    {
      RecordsRewrite(recs[..], firstFree, globalEnv, i, d);
      recs[i] := d;
    }

    // Constructors (make_*). Each refs its children, takes the head of the
    // free list and writes the record; all but make_prim set the count to 0.

    /** make_symbol: interns the name (find, then add) and wraps its id in a fresh record. */
    method MakeSymbol(name: string, table: Symbols.SymbolTable) returns (r: Value)
      requires Intact() && freeHead.Some?
      requires table.Valid() && (name in table.entries || table.count < Symbols.MAX_SYMBOLS)
      modifies this, recs, refCount, next, prev, table, table.names, table.lengths
      ensures Intact() && table.Valid()
      ensures table.entries == if name in old(table.entries) then old(table.entries) else old(table.entries) + [name]
      ensures r == H(old(firstFree)) && firstFree == old(firstFree) + 1
      ensures recs[..] == old(recs[..])[r.index := Symbol(Symbols.FirstIndexOf(table.entries, name))]
      ensures table.entries[Symbols.FirstIndexOf(table.entries, name)] == name
      ensures refCount[..] == old(refCount[..])
      ensures numUsed == old(numUsed) + 1 && numFree == old(numFree) - 1 && globalEnv == old(globalEnv)
      ensures PushedOnUsed(old(next[..]), old(prev[..]), old(usedHead), r.index)
    {
      var id := table.Intern(name);
      r := SymbolRecord(id);
    }

    /** The allocation shared by make_symbol and make_symbol2: a fresh record for an interned id. */
    method SymbolRecord(id: int) returns (r: Value)
      requires Intact() && freeHead.Some?
      modifies this, recs, refCount, next, prev
      ensures Intact()
      ensures r == H(old(firstFree)) && firstFree == old(firstFree) + 1
      ensures recs[..] == old(recs[..])[r.index := Symbol(id)]
      ensures refCount[..] == old(refCount[..])
      ensures numUsed == old(numUsed) + 1 && numFree == old(numFree) - 1 && globalEnv == old(globalEnv)
      ensures PushedOnUsed(old(next[..]), old(prev[..]), old(usedHead), r.index)
    {
      var i := PoolAlloc();
      Fill(i, Symbol(id));
      ZeroCount(i);
      r := H(i);
    }

    /** make_number: a fresh record holding the payload. */
    method MakeNumber(num: real) returns (r: Value)
      requires Intact() && freeHead.Some?
      modifies this, recs, refCount, next, prev
      ensures Intact()
      ensures r == H(old(firstFree)) && firstFree == old(firstFree) + 1
      ensures recs[..] == old(recs[..])[r.index := Number(num)]
      ensures refCount[..] == old(refCount[..])
      ensures numUsed == old(numUsed) + 1 && numFree == old(numFree) - 1 && globalEnv == old(globalEnv)
      ensures PushedOnUsed(old(next[..]), old(prev[..]), old(usedHead), r.index)
    {
      var i := PoolAlloc();
      Fill(i, Number(num));
      ZeroCount(i);
      r := H(i);
    }

    /** make_pair (and cons): refs car and cdr, then a fresh pair with count 0. */
    method MakePair(car: Value, cdr: Value) returns (r: Value)
      requires Intact() && freeHead.Some? && Live(car) && Live(cdr)
      modifies this, recs, refCount, next, prev
      ensures Intact()
      ensures r == H(old(firstFree)) && firstFree == old(firstFree) + 1
      ensures recs[..] == old(recs[..])[r.index := Pair(car, cdr)]
      ensures refCount[..] == Bump(Bump(old(refCount[..]), car), cdr)
      ensures numUsed == old(numUsed) + 1 && numFree == old(numFree) - 1 && globalEnv == old(globalEnv)
      ensures PushedOnUsed(old(next[..]), old(prev[..]), old(usedHead), r.index)
    {
      Ref(car);
      Ref(cdr);
      var i := PoolAlloc();
      Fill(i, Pair(car, cdr));
      ZeroCount(i);
      r := H(i);
    }

    /**
     * make_prim: never writes the count. Records are never recycled, so the
     * count it inherits is the 0 of static initialisation.
     */
    method MakePrim(code: nat) returns (r: Value)
      requires Intact() && freeHead.Some?
      modifies this, recs, next, prev
      ensures Intact()
      ensures r == H(old(firstFree)) && firstFree == old(firstFree) + 1
      ensures recs[..] == old(recs[..])[r.index := Prim(code)]
      ensures refCount[r.index] == 0
      ensures numUsed == old(numUsed) + 1 && numFree == old(numFree) - 1 && globalEnv == old(globalEnv)
      ensures PushedOnUsed(old(next[..]), old(prev[..]), old(usedHead), r.index)
    {
      var i := PoolAlloc();
      Fill(i, Prim(code));
      r := H(i);
    }

    /** make_closure: refs args, body and env, then a fresh closure with count 0. */
    method MakeClosure(args: Value, body: Value, env: Value) returns (r: Value)
      requires Intact() && freeHead.Some? && Live(args) && Live(body) && Live(env)
      modifies this, recs, refCount, next, prev
      ensures Intact()
      ensures r == H(old(firstFree)) && firstFree == old(firstFree) + 1
      ensures recs[..] == old(recs[..])[r.index := Closure(args, body, env)]
      ensures refCount[..] == Bump(Bump(Bump(old(refCount[..]), args), body), env)
      ensures numUsed == old(numUsed) + 1 && numFree == old(numFree) - 1 && globalEnv == old(globalEnv)
      ensures PushedOnUsed(old(next[..]), old(prev[..]), old(usedHead), r.index)
    {
      Ref(args);
      Ref(body);
      Ref(env);
      var i := PoolAlloc();
      Fill(i, Closure(args, body, env));
      ZeroCount(i);
      r := H(i);
    }

    /** make_env: refs plist and parent, then a fresh environment with count 0. */
    method MakeEnv(plist: Value, parent: Value) returns (r: Value)
      requires Intact() && freeHead.Some? && Live(plist) && Live(parent)
      modifies this, recs, refCount, next, prev
      ensures Intact()
      ensures r == H(old(firstFree)) && firstFree == old(firstFree) + 1
      ensures recs[..] == old(recs[..])[r.index := Env(plist, parent)]
      ensures refCount[..] == Bump(Bump(old(refCount[..]), plist), parent)
      ensures numUsed == old(numUsed) + 1 && numFree == old(numFree) - 1 && globalEnv == old(globalEnv)
      ensures PushedOnUsed(old(next[..]), old(prev[..]), old(usedHead), r.index)
    {
      Ref(plist);
      Ref(parent);
      var i := PoolAlloc();
      Fill(i, Env(plist, parent));
      ZeroCount(i);
      r := H(i);
    }

    /** The line of init that sets g_env: a fresh environment with an empty plist and no parent. */
    method InitGlobalEnv()
      requires Intact() && freeHead.Some? && globalEnv.None?
      modifies this, recs, refCount, next, prev
      ensures Intact() && globalEnv == Some(H(old(firstFree))) && firstFree == old(firstFree) + 1
      ensures recs[..] == old(recs[..])[old(firstFree) := Env(Nil, Nil)]
      ensures refCount[..] == old(refCount[..])
      ensures EnvArg(Nil) && Target(Nil) == H(old(firstFree))
    {
      var g := MakeEnv(Nil, Nil);
      globalEnv := Some(g);
    }

    /**
     * set_car: a non-pair fails the assertion; otherwise refs the new value,
     * unrefs the old one (which may cascade), then stores. Because the ref
     * comes first, storing the value already there changes nothing.
     */
    method SetCar(pair: Value, value: Value) returns (ok: bool)
      requires Intact() && Below(pair, MAX_OBJS) && Live(value)
      modifies this, recs, refCount, next, prev
      ensures firstFree == old(firstFree) && freeHead == old(freeHead) && globalEnv == old(globalEnv)
      ensures !IsPair(old(recs[..]), pair) ==> !ok && refCount[..] == old(refCount[..]) && numUsed == old(numUsed)
      ensures !ok ==> recs[..] == old(recs[..])
      ensures ok ==> IsPair(old(recs[..]), pair) && Intact() &&
                     recs[..] == old(recs[..])[pair.index := Pair(value, old(recs[pair.index]).cdr)]
      ensures ok ==> Accounted(Bump(old(refCount[..]), value), old(numUsed), old(numFree))
      ensures IsPair(old(recs[..]), pair) ==>
                (NonNegative(Bump(old(refCount[..]), value)) &&
                 (ok <==> UnrefOf(old(recs[..]), Bump(old(refCount[..]), value), old(recs[pair.index]).car).Some?))
      ensures ok ==> refCount[..] == UnrefOf(old(recs[..]), Bump(old(refCount[..]), value), old(recs[pair.index]).car).value
      ensures IsPair(old(recs[..]), pair) && value == old(recs[pair.index]).car && (value.Imm? || old(refCount[value.index]) >= 1) ==>
                ok && refCount[..] == old(refCount[..]) && numUsed == old(numUsed) &&
                next[..] == old(next[..]) && prev[..] == old(prev[..]) && usedHead == old(usedHead)
      ensures IsPair(old(recs[..]), pair) && old(recs[pair.index]).car.Imm? ==>
                ok && refCount[..] == Bump(old(refCount[..]), value) && numUsed == old(numUsed) &&
                next[..] == old(next[..]) && prev[..] == old(prev[..]) && usedHead == old(usedHead)
    {
      if !IsPair(recs[..], pair) {
        return false;
      }
      var d := recs[pair.index];
      Ref(value);
      CountsNonNegative();
      ok := Unref(d.car);
      if !ok {
        return;
      }
      Store(pair.index, Pair(value, d.cdr));
    }

    /** set_cdr: like set_car, on the second field. */
    method SetCdr(pair: Value, value: Value) returns (ok: bool)
      requires Intact() && Below(pair, MAX_OBJS) && Live(value)
      modifies this, recs, refCount, next, prev
      ensures firstFree == old(firstFree) && freeHead == old(freeHead) && globalEnv == old(globalEnv)
      ensures !IsPair(old(recs[..]), pair) ==> !ok && refCount[..] == old(refCount[..]) && numUsed == old(numUsed)
      ensures !ok ==> recs[..] == old(recs[..])
      ensures ok ==> IsPair(old(recs[..]), pair) && Intact() &&
                     recs[..] == old(recs[..])[pair.index := Pair(old(recs[pair.index]).car, value)]
      ensures ok ==> Accounted(Bump(old(refCount[..]), value), old(numUsed), old(numFree))
      ensures IsPair(old(recs[..]), pair) ==>
                (NonNegative(Bump(old(refCount[..]), value)) &&
                 (ok <==> UnrefOf(old(recs[..]), Bump(old(refCount[..]), value), old(recs[pair.index]).cdr).Some?))
      ensures ok ==> refCount[..] == UnrefOf(old(recs[..]), Bump(old(refCount[..]), value), old(recs[pair.index]).cdr).value
      ensures IsPair(old(recs[..]), pair) && value == old(recs[pair.index]).cdr && (value.Imm? || old(refCount[value.index]) >= 1) ==>
                ok && refCount[..] == old(refCount[..]) && numUsed == old(numUsed) &&
                next[..] == old(next[..]) && prev[..] == old(prev[..]) && usedHead == old(usedHead)
      ensures IsPair(old(recs[..]), pair) && old(recs[pair.index]).cdr.Imm? ==>
                ok && refCount[..] == Bump(old(refCount[..]), value) && numUsed == old(numUsed) &&
                next[..] == old(next[..]) && prev[..] == old(prev[..]) && usedHead == old(usedHead)
    {
      if !IsPair(recs[..], pair) {
        return false;
      }
      var d := recs[pair.index];
      Ref(value);
      CountsNonNegative();
      ok := Unref(d.cdr);
      if !ok {
        return;
      }
      Store(pair.index, Pair(d.car, value));
    }

    /** member: walks the list and answers true at the first element is_eq to x. */
    method Member(x: Value, lst: Value) returns (r: Checked<Value>)
      requires Intact() && Below(x, MAX_OBJS) && Below(lst, MAX_OBJS) && Finite(recs[..], lst)
      ensures r == MemberOf(recs[..], x, lst)
    {
      var p := recs[..];
      var l := lst;
      ghost var n: nat := MAX_OBJS;
      while l != Nil
        invariant Below(l, |p|) && EndsWithin(p, l, n)
        invariant MemberWithin(p, x, l, n) == MemberOf(p, x, lst)
        decreases n
      {
        if !IsPair(p, l) {
          return AssertFails;
        }
        if IsEq(p, x, p[l.index].car) {
          return Ok(True);
        }
        l := p[l.index].cdr;
        n := n - 1;
      }
      return Ok(Nil);
    }

    /** assoc: walks the plist and returns the first element pair whose car is is_equal to the key. */
    method Assoc(key: Value, plist: Value) returns (r: Checked<Value>)
      requires Intact() && Below(key, MAX_OBJS) && Below(plist, MAX_OBJS)
      requires Acyclic(recs[..], key) && Finite(recs[..], plist)
      ensures r == AssocOf(recs[..], key, plist)
    {
      var p := recs[..];
      var l := plist;
      ghost var n: nat := MAX_OBJS;
      while l != Nil
        invariant Below(l, |p|) && EndsWithin(p, l, n)
        invariant AssocWithin(p, key, l, n) == AssocOf(p, key, plist)
        decreases n
      {
        if !IsPair(p, l) {
          return AssertFails;
        }
        var pair := p[l.index].car;
        if !IsPair(p, pair) {
          return AssertFails;
        }
        if IsEqual(p, key, p[pair.index].car) {
          return Ok(pair);
        }
        l := p[l.index].cdr;
        n := n - 1;
      }
      return Ok(Nil);
    }

    /** An environment argument def and defined accept: nil once g_env is set, or an environment. */
    ghost predicate EnvArg(env: Value)
      reads this, recs
    {
      (env == Nil && globalEnv.Some?) ||
      (env.H? && 0 <= env.index < recs.Length && recs[env.index].Env?)
    }

    /** defined: a non-symbol fails the assertion; otherwise assoc in the local plist, then the parent environment, then nil. */
    method Defined(sym: Value, env: Value) returns (r: Checked<Value>)
      requires Intact() && Below(sym, MAX_OBJS) && EnvArg(env)
      requires EnvsFinite(recs[..], Target(env))
      ensures !IsSymbol(recs[..], sym) ==> r == AssertFails
      ensures IsSymbol(recs[..], sym) ==> r == Lookup(recs[..], sym, Target(env))
      decreases Target(env).index
    {
      if !IsSymbol(recs[..], sym) {
        return AssertFails;
      }
      var e := if env == Nil then globalEnv.value else env;
      var p := recs[..];
      assert Acyclic(p, sym);
      var pair := Assoc(sym, p[e.index].plist);
      if pair.AssertFails? {
        return AssertFails;
      }
      if pair.value != Nil {
        return Ok(p[pair.value.index].cdr);
      }
      var parent := p[e.index].parent;
      if IsEnv(p, parent) {
        r := Defined(sym, parent);
      } else {
        r := Ok(Nil);
      }
    }
 
    /** def's loop: the slot for sym in a non-empty plist, or the fault car raises on the way. */
    method FindSlot(sym: Value, plist: Value) returns (r: Checked<Slot>)
      requires Intact() && Below(sym, MAX_OBJS) && Below(plist, MAX_OBJS) && Finite(recs[..], plist)
      ensures r == DefWalk(recs[..], sym, plist)
    {
      var p := recs[..];
      var l := plist;
      var prevCell := if plist.H? then plist.index else -1;
      ghost var n: nat := MAX_OBJS;
      while l != Nil
        invariant Below(l, |p|) && EndsWithin(p, l, n)
        invariant DefSlot(p, sym, l, prevCell, n) == DefWalk(p, sym, plist)
        decreases n
      {
        if !IsPair(p, l) {
          return AssertFails;
        }
        var pair := p[l.index].car;
        if !IsPair(p, pair) {
          return AssertFails;
        }
        if IsEq(p, sym, p[pair.index].car) {
          return Ok(Binding(pair.index));
        }
        prevCell := l.index;
        l := p[l.index].cdr;
        n := n - 1;
      }
      return Ok(Tail(prevCell));
    }

    /** def past the last cell c: set_cdr(c, cons(cons(sym, value), nil)), faulting if the pool runs out. */
    method AppendBinding(sym: Value, value: Value, e: int, c: int) returns (ok: bool)
      requires Intact() && Live(sym) && IsSymbol(recs[..], sym) && Live(value)
      requires 0 <= e < MAX_OBJS && recs[e].Env? && recs[e].plist != Nil && Finite(recs[..], recs[e].plist)
      requires DefWalk(recs[..], sym, recs[e].plist) == Ok(Tail(c))
      modifies this, recs, refCount, next, prev
      ensures globalEnv == old(globalEnv)
      ensures ok <==> old(firstFree) + 2 <= MAX_OBJS
      ensures ok ==> Intact() && firstFree == old(firstFree) + 2
      ensures ok ==> recs[..] == Appended(old(recs[..]), old(firstFree), sym, value, c)
      ensures ok ==> refCount[old(firstFree) + 1] == 1
      ensures ok ==>
        refCount[..] == Bump(Bump(Bump(Bump(old(refCount[..]), sym), value), H(old(firstFree))), H(old(firstFree) + 1))
      ensures ok ==> BindsLocally(recs[..], e, sym, value) && recs[e] == old(recs[e])
    {
      ghost var p0, f := recs[..], firstFree;
      var cell;
      ok, cell := ConsBinding(sym, value);
      if !ok {
        return;
      }
      ok := SetCdr(H(c), cell);
      DefAppendsBinding(p0, f, sym, value, e, c);
    }

    /** def on a binding it found: set_cdr of the binding pair b, which may fault in the cascade of frees. */
    method Rebind(sym: Value, value: Value, e: int, b: int) returns (ok: bool)
      requires Intact() && Live(sym) && IsSymbol(recs[..], sym) && Live(value)
      requires 0 <= e < MAX_OBJS && recs[e].Env? && recs[e].plist != Nil && Finite(recs[..], recs[e].plist)
      requires DefWalk(recs[..], sym, recs[e].plist) == Ok(Binding(b))
      modifies this, recs, refCount, next, prev
      ensures firstFree == old(firstFree) && globalEnv == old(globalEnv)
      ensures ok ==> Intact() && recs[..] == Rebound(old(recs[..]), b, value)
      ensures ok && b !in Spine(old(recs[..]), old(recs[e].plist), MAX_OBJS) ==> BindsLocally(recs[..], e, sym, value)
      ensures NonNegative(Bump(old(refCount[..]), value)) &&
              (ok <==> UnrefOf(old(recs[..]), Bump(old(refCount[..]), value), old(recs[b]).cdr).Some?)
      ensures ok ==> refCount[..] == UnrefOf(old(recs[..]), Bump(old(refCount[..]), value), old(recs[b]).cdr).value
      ensures ok ==> Accounted(Bump(old(refCount[..]), value), old(numUsed), old(numFree))
    {
      ghost var p0 := recs[..];
      assert IsPair(p0, H(b));
      ok := SetCdr(H(b), value);
      if ok && b !in Spine(p0, p0[e].plist, MAX_OBJS) {
        DefRebindsBinding(p0, sym, value, e, b);
      }
    }

    /** cons(cons(sym, value), nil), faulting when fewer than two records are free. */
    method ConsBinding(sym: Value, value: Value) returns (ok: bool, cell: Value)
      requires Intact() && Live(sym) && Live(value)
      modifies this, recs, refCount, next, prev
      ensures globalEnv == old(globalEnv)
      ensures ok <==> old(firstFree) + 2 <= MAX_OBJS
      ensures ok ==> Intact() && firstFree == old(firstFree) + 2 && cell == H(old(firstFree) + 1)
      ensures ok ==> recs[..] == old(recs[..])[old(firstFree) := Pair(sym, value)]
                                              [old(firstFree) + 1 := Pair(H(old(firstFree)), Nil)]
      ensures ok ==> refCount[..] == Bump(Bump(Bump(old(refCount[..]), sym), value), H(old(firstFree)))
      ensures ok ==> refCount[old(firstFree) + 1] == 0
    {
      if freeHead.None? {
        return false, Nil;
      }
      var binding := MakePair(sym, value);
      if freeHead.None? {
        return false, Nil;
      }
      cell := MakePair(binding, Nil);
      ok := true;
    }

    /** def on an empty plist: stores cons(cons(sym, value), nil) in the environment without a ref. */
    method StartPlist(sym: Value, value: Value, e: int) returns (ok: bool)
      requires Intact() && Live(sym) && IsSymbol(recs[..], sym) && Live(value)
      requires 0 <= e < MAX_OBJS && recs[e].Env? && recs[e].plist == Nil
      modifies this, recs, refCount, next, prev
      ensures globalEnv == old(globalEnv)
      ensures ok <==> old(firstFree) + 2 <= MAX_OBJS
      ensures ok ==> Intact() && firstFree == old(firstFree) + 2
      ensures ok ==> recs[..] == old(recs[..])[old(firstFree) := Pair(sym, value)]
                                      [old(firstFree) + 1 := Pair(H(old(firstFree)), Nil)]
                                      [e := Env(H(old(firstFree) + 1), old(recs[e]).parent)]
      ensures ok ==> refCount[old(firstFree) + 1] == 0
      ensures ok ==> refCount[..] == Bump(Bump(Bump(old(refCount[..]), sym), value), H(old(firstFree)))
      ensures ok ==> BindsLocally(recs[..], e, sym, value) && recs[e].parent == old(recs[e].parent)
    {
      ghost var p0, f := recs[..], firstFree;
      assert e < f;
      RecordFits(p0, f, globalEnv, e);
      var par := recs[e].parent;
      var cell;
      ok, cell := ConsBinding(sym, value);
      if !ok {
        return;
      }
      ghost var p2 := recs[..];
      assert p2[e] == p0[e];
      var d := Env(cell, par);
      assert Fits(d, e, firstFree);
      Store(e, d);
      ok := true;
      assert recs[..] == p2[e := Env(H(f + 1), p0[e].parent)];
      DefStartsBinding(p0, recs[..], f, sym, value, e);
    }

    /**
     * def: in the environment (g_env for nil), walks the plist with car, so a
     * dotted plist or a non-pair element faults; replaces the value of the
     * first binding whose key is is_eq to sym, or conses (sym . value) onto
     * a new last cell. An empty plist gets the new list stored directly,
     * without a ref, so its first cell keeps count 0. The conses fault when
     * the pool runs out.
     */
    method Def(sym: Value, value: Value, env: Value) returns (r: Value, ok: bool)
      requires Intact() && Below(sym, MAX_OBJS) && Live(value) && EnvArg(env)
      requires Finite(recs[..], recs[Target(env).index].plist)
      modifies this, recs, refCount, next, prev
      ensures r == value && globalEnv == old(globalEnv)
      ensures !IsSymbol(old(recs[..]), sym) ==> !ok && recs[..] == old(recs[..]) && refCount[..] == old(refCount[..])
      ensures ok ==> Intact()
      ensures ok ==> DefWrote(old(recs[..]), recs[..], old(firstFree), sym, value, old(Target(env)).index)
      ensures IsSymbol(old(recs[..]), sym) && Grows(old(recs[..]), sym, old(Target(env)).index) ==>
                (ok <==> old(firstFree) + 2 <= MAX_OBJS)
      ensures var plist := old(recs[Target(env).index].plist);
        plist != Nil && DefWalk(old(recs[..]), sym, plist).AssertFails? ==> !ok
      ensures ok && BindingOffSpine(old(recs[..]), sym, old(Target(env)).index) ==>
        BindsLocally(recs[..], old(Target(env)).index, sym, value) &&
        recs[old(Target(env)).index].parent == old(recs[Target(env).index].parent)
      ensures NonNegative(old(refCount[..]))
      ensures IsSymbol(old(recs[..]), sym) && ok ==>
        DefCounts(old(recs[..]), old(refCount[..]), old(firstFree), sym, value, old(Target(env)).index) == Some(refCount[..])
      ensures IsSymbol(old(recs[..]), sym) && !Grows(old(recs[..]), sym, old(Target(env)).index) ==>
        (ok <==> DefCounts(old(recs[..]), old(refCount[..]), old(firstFree), sym, value, old(Target(env)).index).Some?)
    {
      CountsNonNegative();
      r := value;
      if !IsSymbol(recs[..], sym) {
        return r, false;
      }
      var e := if env == Nil then globalEnv.value else env;
      if recs[e.index].plist == Nil {
        ok := StartPlist(sym, value, e.index);
      } else {
        ok := DefInPlist(sym, value, e.index);
      }
    }

    /** def on a non-empty plist: the walk, then the rebinding or the appended binding. */
    method DefInPlist(sym: Value, value: Value, e: int) returns (ok: bool)
      requires Intact() && Below(sym, MAX_OBJS) && IsSymbol(recs[..], sym) && Live(value)
      requires 0 <= e < MAX_OBJS && recs[e].Env? && recs[e].plist != Nil && Finite(recs[..], recs[e].plist)
      modifies this, recs, refCount, next, prev
      ensures globalEnv == old(globalEnv)
      ensures ok ==> Intact()
      ensures ok ==> DefWrote(old(recs[..]), recs[..], old(firstFree), sym, value, e)
      ensures Grows(old(recs[..]), sym, e) ==> (ok <==> old(firstFree) + 2 <= MAX_OBJS)
      ensures DefWalk(old(recs[..]), sym, old(recs[e].plist)).AssertFails? ==> !ok
      ensures ok && BindingOffSpine(old(recs[..]), sym, e) ==>
        BindsLocally(recs[..], e, sym, value) && recs[e].parent == old(recs[e].parent)
      ensures NonNegative(old(refCount[..]))
      ensures ok ==> DefCounts(old(recs[..]), old(refCount[..]), old(firstFree), sym, value, e) == Some(refCount[..])
      ensures !Grows(old(recs[..]), sym, e) ==>
        (ok <==> DefCounts(old(recs[..]), old(refCount[..]), old(firstFree), sym, value, e).Some?)
    {
      CountsNonNegative();
      ghost var p0, c0, f0 := recs[..], refCount[..], firstFree;
      var slot := FindSlot(sym, recs[e].plist);
      assert slot == DefWalk(p0, sym, p0[e].plist);
      match slot
      case AssertFails =>
        ok := false;
        assert DefCounts(p0, c0, f0, sym, value, e) == None;
      case Ok(Binding(b)) =>
        assert DefCounts(p0, c0, f0, sym, value, e) == UnrefOf(p0, Bump(c0, value), p0[b].cdr);
        assert !Grows(p0, sym, e);
        ok := Rebind(sym, value, e, b);
        assert ok ==> recs[e] == p0[e];
      case Ok(Tail(c)) =>
        assert DefCounts(p0, c0, f0, sym, value, e) == Some(Bump(Bump(Bump(Bump(c0, sym), value), H(f0)), H(f0 + 1)));
        assert Grows(p0, sym, e);
        ok := AppendBinding(sym, value, e, c);
    }
  }
}
