/** The three scopes of the program's driver, each on a fresh pool of
    integers (a value-initialised `int` is 0). Each scenario returns the
    handles and values the driver's comments and assertions name. */
module Driver {
  import opened Chains
  import opened PoolSpec
  import opened StackPools

  /** Scope 1: one push onto a new stack lands in slot 1 of a pool that has
      just grown to one slot; writing through `value` replaces the value. */
  method ScopeOne() returns (empty: nat, l: nat, v: int, cap: nat, dump: seq<int>)
    ensures empty == 0 && l == 1 && v == 77 && cap == 1
    ensures dump == [77]
  {
    var pool := new StackPool<int>(0);
    empty := pool.NewStack();
    l := pool.Push(42, empty);
    assert pool.pool == [Node(42, 0)];
    pool.SetValue(l, 77);
    v := pool.Value(l);
    cap := pool.Capacity();
    dump := Dump(pool);
  }

  /** The first half of scope 2: stack `l` receives 10 and 11 (slots 1
      and 2, the pool growing to 1 and then 2 slots) and a second stack `l2`
      receives 20 (slot 3, the pool doubling to 4 slots). */
  method ScopeTwoPushes() returns (pool: StackPool<int>, l: nat, l2: nat)
    ensures fresh(pool) && pool.Valid() && pool.zero == 0
    ensures l == 2 && l2 == 3
    ensures pool.pool == [Node(10, 0), Node(11, 1), Node(20, 0), Node(0, 0)]
    ensures pool.freeNodes == 4 && pool.freeList == [4]
  {
    pool := new StackPool<int>(0);
    l := pool.NewStack();
    l := pool.Push(10, l);
    assert l == 1 && pool.pool == [Node(10, 0)] && pool.freeNodes == 0 && pool.freeList == [];
    l := pool.Push(11, l);
    assert l == 2 && pool.pool == [Node(10, 0), Node(11, 1)] && pool.freeNodes == 0 && pool.freeList == [];
    l2 := pool.NewStack();
    l2 := pool.Push(20, l2);
  }

  /** The second half of scope 2: popping the top of `l` (slot 2) makes
      slot 2 the free head, so the next push onto `l2` reuses it. */
  method ScopeTwoReuse(pool: StackPool<int>, l: nat, l2: nat) returns (l': nat, l2': nat)
    requires pool.Valid() && pool.zero == 0 && l == 2 && l2 == 3
    requires pool.pool == [Node(10, 0), Node(11, 1), Node(20, 0), Node(0, 0)]
    requires pool.freeNodes == 4 && pool.freeList == [4]
    modifies pool
    ensures l' == 1 && l2' == 2
    ensures pool.pool == [Node(10, 0), Node(21, 3), Node(20, 0), Node(0, 0)]
  {
    l' := pool.Pop(l);
    assert pool.pool == [Node(10, 0), Node(11, 4), Node(20, 0), Node(0, 0)] && pool.freeNodes == 2;
    l2' := pool.Push(21, l2);
  }

  /** Scope 2: two stacks share the pool; popping the top of the first
      makes its slot the next one the second stack receives. */
  method ScopeTwo() returns (l: nat, l2: nat, cap: nat, a: seq<int>, b: seq<int>, dump: seq<int>)
    ensures l == 1 && l2 == 2 && cap == 4
    ensures a == [10] && b == [21, 20]
    ensures dump == [0, 20, 21, 10]
  {
    var pool;
    pool, l, l2 := ScopeTwoPushes();
    l, l2 := ScopeTwoReuse(pool, l, l2);
    cap := pool.Capacity();
    a := Traverse(pool, l, [1]);
    b := Traverse(pool, l2, [2, 3]);
    dump := Dump(pool);
  }

  /** The eleven pushes of each stack in scope 3, one value after another:
      the stack ends up holding `vs` last first above what it held, and a
      second stack `other`, which holds no free slot, keeps its links and
      values. */
  method PushAll<T>(pool: StackPool<T>, vs: seq<T>, head: nat, ghost hs: seq<nat>, ghost other: nat, ghost os: seq<nat>)
    returns (h: nat, ghost hs': seq<nat>)
    requires pool.Valid() && Chain(pool.pool, head, hs) && Disjoint(hs, pool.freeList)
    requires Chain(pool.pool, other, os) && Disjoint(os, pool.freeList)
    modifies pool
    ensures pool.Valid() && Chain(pool.pool, h, hs') && Disjoint(hs', pool.freeList)
    ensures Values(pool.pool, hs') == Reverse(vs) + old(Values(pool.pool, hs))
    ensures Chain(pool.pool, other, os) && Disjoint(os, pool.freeList)
    ensures Values(pool.pool, os) == old(Values(pool.pool, os))
  {
    h, hs' := head, hs;
    var k := 0;
    while k < |vs|
      invariant 0 <= k <= |vs| && pool.Valid() && Chain(pool.pool, h, hs') && Disjoint(hs', pool.freeList)
      invariant Values(pool.pool, hs') == Reverse(vs[..k]) + old(Values(pool.pool, hs))
      invariant Chain(pool.pool, other, os) && Disjoint(os, pool.freeList)
      invariant Values(pool.pool, os) == old(Values(pool.pool, os))
    {
      PushStep(pool.State(), vs, k, h, pool.zero, pool.freeList, hs', old(Values(pool.pool, hs)), other, os);
      h := pool.Push(vs[k], h);
      hs' := [h] + hs';
      k := k + 1;
    }
    assert vs[..k] == vs;
  }

  /** One round of `PushAll`: the push of `vs[k]` extends the stack, whose
      values were the first `k` of `vs` last first, by `vs[k]` on top, and
      leaves the other stack as it was. */
  lemma PushStep<T>(p: Pool<T>, vs: seq<T>, k: nat, head: nat, zero: T, fl: seq<nat>, hs: seq<nat>, base: seq<T>,
                    other: nat, os: seq<nat>)
    requires k < |vs| && Chain(p.slots, p.free, fl)
    requires Chain(p.slots, head, hs) && Disjoint(hs, fl) && Values(p.slots, hs) == Reverse(vs[..k]) + base
    requires Chain(p.slots, other, os) && Disjoint(os, fl)
    ensures p.free <= |p.slots|
    ensures var (q, t) := Push(p, vs[k], head, zero); var fl' := (Grown(p, zero) + fl)[1..];
      && Chain(q.slots, q.free, fl')
      && Chain(q.slots, t, [t] + hs) && Disjoint([t] + hs, fl')
      && Values(q.slots, [t] + hs) == Reverse(vs[..k + 1]) + base
      && Chain(q.slots, other, os) && Disjoint(os, fl') && Values(q.slots, os) == Values(p.slots, os)
  {
    PushFreeList(p, vs[k], head, zero, fl);
    PushOntoStack(p, vs[k], head, zero, fl, hs);
    PushKeepsOtherStack(p, vs[k], head, zero, fl, other, os);
    assert vs[..k + 1] == vs[..k] + [vs[k]];
    ReverseSnoc(vs[..k], vs[k]);
  }

  /** `std::max_element` over a non-empty range: the position of the first
      largest value. */
  function MaxElement(s: seq<int>): (k: nat)
    requires s != []
    ensures k < |s| && forall i :: 0 <= i < |s| ==> s[i] <= s[k]
    ensures forall i :: 0 <= i < k ==> s[i] < s[k]
  {
    if |s| == 1 then 0
    else
      var r := MaxElement(s[1..]) + 1;
      assert forall i :: 1 <= i < |s| ==> s[i] == s[1..][i - 1];
      if s[0] >= s[r] then 0 else r
  }

  /** `std::min_element` over a non-empty range: the position of the first
      smallest value. */
  function MinElement(s: seq<int>): (k: nat)
    requires s != []
    ensures k < |s| && forall i :: 0 <= i < |s| ==> s[k] <= s[i]
    ensures forall i :: 0 <= i < k ==> s[k] < s[i]
  {
    if |s| == 1 then 0
    else
      var r := MinElement(s[1..]) + 1;
      assert forall i :: 1 <= i < |s| ==> s[i] == s[1..][i - 1];
      if s[0] <= s[r] then 0 else r
  }

  /** The pushes of scope 3: in a pool reserved with 22 slots, stack `l1`
      receives the digits 3 1 4 1 5 9 2 6 5 3 5 and then stack `l2` the
      digits 8 9 7 9 3 1 1 5 9 9 7; each holds its digits last first. */
  method ScopeThreeStacks() returns (pool: StackPool<int>, l1: nat, l2: nat, ghost l1s: seq<nat>, ghost l2s: seq<nat>)
    ensures fresh(pool)
    ensures Chain(pool.pool, l1, l1s) && Values(pool.pool, l1s) == [5, 3, 5, 6, 2, 9, 5, 1, 4, 1, 3]
    ensures Chain(pool.pool, l2, l2s) && Values(pool.pool, l2s) == [7, 9, 9, 5, 1, 1, 3, 9, 7, 9, 8]
  {
    pool := new StackPool<int>.WithCapacity(22, 0);
    var digits1 := [3, 1, 4, 1, 5, 9, 2, 6, 5, 3, 5];
    var digits2 := [8, 9, 7, 9, 3, 1, 1, 5, 9, 9, 7];
    l1 := pool.NewStack();
    assert Values(pool.pool, []) == [];
    l1, l1s := PushAll(pool, digits1, l1, [], 0, []);
    assert Values(pool.pool, l1s) == Reverse(digits1) == [5, 3, 5, 6, 2, 9, 5, 1, 4, 1, 3];
    l2 := pool.NewStack();
    assert Values(pool.pool, []) == [];
    l2, l2s := PushAll(pool, digits2, l2, [], l1, l1s);
    assert Values(pool.pool, l2s) == Reverse(digits2) == [7, 9, 9, 5, 1, 1, 3, 9, 7, 9, 8];
  }

  /** Scope 3: iterating over each stack yields its digits last first; the
      largest value of the first is 9 and the smallest of the second is 1. */
  method ScopeThree() returns (a: seq<int>, b: seq<int>, largest: int, smallest: int)
    ensures a == [5, 3, 5, 6, 2, 9, 5, 1, 4, 1, 3]
    ensures b == [7, 9, 9, 5, 1, 1, 3, 9, 7, 9, 8]
    ensures largest == 9 && smallest == 1
  {
    var pool, l1, l2, l1s, l2s := ScopeThreeStacks();
    a := Traverse(pool, l1, l1s);
    b := Traverse(pool, l2, l2s);
    var m1 := MaxElement(a);
    assert a[5] == 9 && m1 <= 5;
    largest := a[m1];
    var m2 := MinElement(b);
    assert b[4] == 1 && m2 <= 4;
    smallest := b[m2];
  }

  /** The handles that each scope's diagnostic loop reads, as written: from
      `capacity() + 1` down to 1. */
  function DumpHandlesAsWritten(cap: nat): seq<nat>
  {
    seq(cap + 1, k requires 0 <= k < cap + 1 => cap + 1 - k)
  }

  /** The diagnostic loop as written reads one handle past the storage: its
      first handle is above the capacity for every capacity, so `value` is
      read outside the pool (in scope 1, handle 2 of a 1-slot pool). */
  lemma DumpReadsPastEnd(cap: nat)
    ensures DumpHandlesAsWritten(cap) != []
    ensures DumpHandlesAsWritten(cap)[0] == cap + 1
    ensures !(0 < DumpHandlesAsWritten(cap)[0] <= cap)
  {
  }

  /** The diagnostic loop as evidently intended: read the value of every
      handle from `capacity()` down to 1, the highest handle first. */
  method Dump<T>(pool: StackPool<T>) returns (vs: seq<T>)
    ensures |vs| == |pool.pool|
    ensures forall k :: 0 <= k < |vs| ==> vs[k] == pool.pool[|pool.pool| - 1 - k].value
  {
    var i := pool.Capacity();
    vs := [];
    while i > 0
      invariant 0 <= i <= |pool.pool| && |vs| == |pool.pool| - i
      invariant forall k :: 0 <= k < |vs| ==> vs[k] == pool.pool[|pool.pool| - 1 - k].value
    {
      vs := vs + [pool.Value(i)];
      i := i - 1;
    }
  }
}
