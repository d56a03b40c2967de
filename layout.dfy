/** How the slots of a pool are shared out between the free list and the
    stacks that callers hold.

    The pool itself only records the free head; a stack is a head handle in
    the caller's hands. `Layout` states the design's invariant for a given
    collection of caller stacks: every slot lies on exactly one chain, the
    free list or one stack, and every chain ends at the sentinel. */
module PoolLayout {
  import opened Chains
  import opened PoolSpec

  /** `heads[i]` is the head of caller stack `i`, whose slots are `chains[i]`;
      the free list and the stacks partition the handles `1..capacity`. */
  ghost predicate Layout<T>(p: Pool<T>, fl: seq<nat>, heads: seq<nat>, chains: seq<seq<nat>>)
  {
    && |heads| == |chains|
    && Chain(p.slots, p.free, fl)
    && (forall i :: 0 <= i < |chains| ==> Chain(p.slots, heads[i], chains[i]))
    && Separated(fl, chains)
    && Covered(|p.slots|, fl, chains)
  }

  /** No slot is on two of the chains: the free list `fl` and the stacks. */
  ghost predicate Separated(fl: seq<nat>, chains: seq<seq<nat>>)
  {
    && (forall i :: 0 <= i < |chains| ==> Disjoint(chains[i], fl))
    && (forall i, j :: 0 <= i < |chains| && 0 <= j < |chains| && i != j ==> Disjoint(chains[i], chains[j]))
  }

  /** Every handle `1..n` is on the free list `fl` or on one of the stacks. */
  ghost predicate Covered(n: nat, fl: seq<nat>, chains: seq<seq<nat>>)
  {
    forall k :: 0 < k <= n ==> k in fl || exists i :: 0 <= i < |chains| && k in chains[i]
  }

  /** Total number of slots on the given chains. */
  function SumLen(chains: seq<seq<nat>>): nat
  {
    if chains == [] then 0 else |chains[0]| + SumLen(chains[1..])
  }

  /** The default-constructed pool: no storage, no free slot, no stack. */
  lemma LayoutEmpty<T>()
    ensures Layout(Pool<T>.Pool([], 0), [], [], [])
  {
  }

  /** `new_stack()` hands out the sentinel: a new, empty stack joins the layout. */
  lemma LayoutNewStack<T>(p: Pool<T>, fl: seq<nat>, heads: seq<nat>, chains: seq<seq<nat>>)
    requires Layout(p, fl, heads, chains)
    ensures Layout(p, fl, heads + [0], chains + [[]])
  {
    var chains' := chains + [[]];
    forall k | 0 < k <= |p.slots| && k !in fl
      ensures exists i :: 0 <= i < |chains'| && k in chains'[i]
    {
      var i :| 0 <= i < |chains| && k in chains[i];
      assert chains'[i] == chains[i];
    }
  }

  /** Handles appended in front of the free list keep the chains separated
      and cover the grown range, when no stack uses a handle above `n`. */
  lemma GrowCover(n: nat, n': nat, fl: seq<nat>, chains: seq<seq<nat>>)
    requires n <= n' && Separated(fl, chains) && Covered(n, fl, chains)
    requires forall i, k :: 0 <= i < |chains| && k in chains[i] ==> k <= n
    ensures Separated(Range(n + 1, n' + 1) + fl, chains)
    ensures Covered(n', Range(n + 1, n' + 1) + fl, chains)
  {
    var fl' := Range(n + 1, n' + 1) + fl;
    forall k | n < k <= n' ensures k in fl' {
      assert fl'[k - n - 1] == k;
    }
  }

  /** Moving the free head onto stack `i` keeps the chains separated and covering. */
  lemma MoveFreeHead(n: nat, fl: seq<nat>, chains: seq<seq<nat>>, i: nat)
    requires fl != [] && Distinct(fl) && i < |chains|
    requires Separated(fl, chains) && Covered(n, fl, chains)
    ensures Separated(fl[1..], chains[i := [fl[0]] + chains[i]])
    ensures Covered(n, fl[1..], chains[i := [fl[0]] + chains[i]])
  {
    var t := fl[0];
    var fl' := fl[1..];
    var chains' := chains[i := [t] + chains[i]];
    forall j | 0 <= j < |chains'| ensures Disjoint(chains'[j], fl') {
      forall k | k in chains'[j] ensures k !in fl' {
      }
    }
    forall k | 0 < k <= n && k !in fl'
      ensures exists j :: 0 <= j < |chains'| && k in chains'[j]
    {
      if k == t {
        assert k in chains'[i];
      } else {
        assert k !in fl;
        var j :| 0 <= j < |chains| && k in chains[j];
        assert k in chains'[j];
      }
    }
  }

  /** Moving the top of stack `i` onto the free list keeps the chains
      separated and covering. */
  lemma MoveStackHead(n: nat, fl: seq<nat>, chains: seq<seq<nat>>, i: nat)
    requires i < |chains| && chains[i] != [] && Distinct(chains[i])
    requires Separated(fl, chains) && Covered(n, fl, chains)
    ensures Separated([chains[i][0]] + fl, chains[i := chains[i][1..]])
    ensures Covered(n, [chains[i][0]] + fl, chains[i := chains[i][1..]])
  {
    var x := chains[i][0];
    var fl' := [x] + fl;
    var chains' := chains[i := chains[i][1..]];
    forall j | 0 <= j < |chains'| ensures Disjoint(chains'[j], fl') {
      forall k | k in chains'[j] ensures k !in fl' {
        if j == i {
          var m :| 0 <= m < |chains[i][1..]| && chains[i][1..][m] == k;
          assert chains[i][m + 1] == k;
        }
      }
    }
    forall j1, j2 | 0 <= j1 < |chains'| && 0 <= j2 < |chains'| && j1 != j2
      ensures Disjoint(chains'[j1], chains'[j2])
    {
      forall k | k in chains'[j1] ensures k !in chains'[j2] {
        if j1 == i {
          var m :| 0 <= m < |chains[i][1..]| && chains[i][1..][m] == k;
          assert chains[i][m + 1] == k;
        }
      }
    }
    forall k | 0 < k <= n && k !in fl'
      ensures exists j :: 0 <= j < |chains'| && k in chains'[j]
    {
      var j :| 0 <= j < |chains| && k in chains[j];
      if j == i {
        var m :| 0 <= m < |chains[i]| && chains[i][m] == k;
        assert chains'[i][m - 1] == k;
      } else {
        assert k in chains'[j];
      }
    }
  }

  /** `reserve(n)` keeps the layout: the new slots join the free list, and no
      stack changes in links or values. */
  lemma LayoutReserve<T>(p: Pool<T>, n: nat, zero: T, fl: seq<nat>, heads: seq<nat>, chains: seq<seq<nat>>)
    requires Layout(p, fl, heads, chains) && |p.slots| < n
    ensures Layout(Reserve(p, n, zero), Range(|p.slots| + 1, n + 1) + fl, heads, chains)
    ensures forall i :: 0 <= i < |chains| ==> Values(Reserve(p, n, zero).slots, chains[i]) == Values(p.slots, chains[i])
  {
    var r := Reserve(p, n, zero);
    ReserveFreeChain(p, n, zero, fl);
    forall i | 0 <= i < |chains|
      ensures Chain(r.slots, heads[i], chains[i]) && Values(r.slots, chains[i]) == Values(p.slots, chains[i])
    {
      forall m | 0 <= m < |chains[i]| ensures chains[i][m] <= |r.slots| && r.slots[chains[i][m] - 1] == p.slots[chains[i][m] - 1] {
        assert r.slots[..|p.slots|][chains[i][m] - 1] == r.slots[chains[i][m] - 1];
      }
      ChainFrame(p.slots, r.slots, heads[i], chains[i]);
      ValuesFrame(p.slots, r.slots, chains[i]);
    }
    GrowCover(|p.slots|, n, fl, chains);
  }

  /** `push(v, heads[i])` keeps the layout: stack `i` gains the taken slot on
      top and `v` in front of its values, the free list loses its head, and
      no other stack changes in links or values. */
  lemma LayoutPush<T>(p: Pool<T>, fl: seq<nat>, heads: seq<nat>, chains: seq<seq<nat>>, i: nat, v: T, zero: T)
    requires Layout(p, fl, heads, chains) && i < |chains|
    ensures p.free <= |p.slots|
    ensures var (q, t) := Push(p, v, heads[i], zero);
      && Layout(q, (Grown(p, zero) + fl)[1..], heads[i := t], chains[i := [t] + chains[i]])
      && Values(q.slots, [t] + chains[i]) == [v] + Values(p.slots, chains[i])
      && forall j :: 0 <= j < |chains| && j != i ==> Values(q.slots, chains[j]) == Values(p.slots, chains[j])
  {
    var g := CheckCapacity(p, zero);
    var gfl := Grown(p, zero) + fl;
    PushFreeList(p, v, heads[i], zero, fl);
    CheckCapacityFreeChain(p, zero, fl);
    var (q, t) := Push(p, v, heads[i], zero);
    PushOntoStack(p, v, heads[i], zero, fl, chains[i]);
    forall j | 0 <= j < |chains| && j != i
      ensures Chain(q.slots, heads[j], chains[j])
      ensures Values(q.slots, chains[j]) == Values(p.slots, chains[j])
    {
      PushKeepsOtherStack(p, v, heads[i], zero, fl, heads[j], chains[j]);
    }
    GrowCover(|p.slots|, |g.slots|, fl, chains);
    MoveFreeHead(|q.slots|, gfl, chains, i);
  }

  /** `pop(heads[i])` on a non-empty stack keeps the layout: the stack loses
      its top, which becomes the free head, and no other stack changes. */
  lemma LayoutPop<T>(p: Pool<T>, fl: seq<nat>, heads: seq<nat>, chains: seq<seq<nat>>, i: nat)
    requires Layout(p, fl, heads, chains) && i < |chains| && chains[i] != []
    ensures 0 < heads[i] <= |p.slots|
    ensures var (q, r) := Pop(p, heads[i]);
      && Layout(q, [heads[i]] + fl, heads[i := r], chains[i := chains[i][1..]])
      && Values(q.slots, chains[i][1..]) == Values(p.slots, chains[i])[1..]
      && forall j :: 0 <= j < |chains| && j != i ==> Values(q.slots, chains[j]) == Values(p.slots, chains[j])
  {
    var x := heads[i];
    var (q, r) := Pop(p, x);
    PopFromStack(p, x, chains[i]);
    PopFreeList(p, x, fl);
    forall j | 0 <= j < |chains| && j != i
      ensures Chain(q.slots, heads[j], chains[j])
      ensures Values(q.slots, chains[j]) == Values(p.slots, chains[j])
    {
      assert x !in chains[j];
      PopKeepsOtherStack(p, x, heads[j], chains[j]);
    }
    MoveStackHead(|p.slots|, fl, chains, i);
  }

  /** Conservation: the free slots and the slots of the stacks add up to the
      capacity. */
  lemma LayoutCount<T>(p: Pool<T>, fl: seq<nat>, heads: seq<nat>, chains: seq<seq<nat>>)
    requires Layout(p, fl, heads, chains)
    ensures |fl| + SumLen(chains) == |p.slots|
  {
    var used := Union(chains);
    var all := Elems(fl) + used;
    var handles := Elems(Range(1, |p.slots| + 1));
    UnionCard(chains);
    DistinctCard(fl);
    DistinctCard(Range(1, |p.slots| + 1));
    forall k | k in all ensures k in handles {
      if k !in Elems(fl) {
        UnionMember(chains, k);
        var i :| 0 <= i < |chains| && k in chains[i];
        assert Chain(p.slots, heads[i], chains[i]);
      }
      assert Range(1, |p.slots| + 1)[k - 1] == k;
    }
    forall k | k in handles ensures k in all {
      if k !in fl {
        UnionMember(chains, k);
      }
    }
    assert all == handles;
    forall k | k in Elems(fl) * used ensures false {
      UnionMember(chains, k);
    }
    assert Elems(fl) * used == {};
  }

  /** The handles on `hs`, as a set. */
  ghost function Elems(hs: seq<nat>): set<nat>
  {
    set k | k in hs
  }

  /** Every handle on any of the chains. */
  ghost function Union(chains: seq<seq<nat>>): set<nat>
  {
    if chains == [] then {} else Elems(chains[0]) + Union(chains[1..])
  }

  lemma {:induction false} DistinctCard(hs: seq<nat>)
    requires Distinct(hs)
    ensures |Elems(hs)| == |hs|
  {
    if hs != [] {
      var t := hs[1..];
      assert Distinct(t) by {
        forall i, j | 0 <= i < j < |t| ensures t[i] != t[j] {
          assert t[i] == hs[i + 1] && t[j] == hs[j + 1];
        }
      }
      DistinctCard(t);
      assert Elems(hs) == {hs[0]} + Elems(t);
    }
  }

  lemma {:induction false} UnionMember(chains: seq<seq<nat>>, k: nat)
    ensures k in Union(chains) <==> exists i :: 0 <= i < |chains| && k in chains[i]
  {
    if chains != [] {
      UnionMember(chains[1..], k);
      if k in Union(chains[1..]) {
        var i :| 0 <= i < |chains[1..]| && k in chains[1..][i];
        assert k in chains[i + 1];
      }
      if exists i :: 0 <= i < |chains| && k in chains[i] {
        var i :| 0 <= i < |chains| && k in chains[i];
        if i > 0 {
          assert k in chains[1..][i - 1];
        }
      }
    }
  }

  lemma {:induction false} UnionCard(chains: seq<seq<nat>>)
    requires forall i :: 0 <= i < |chains| ==> Distinct(chains[i])
    requires forall i, j :: 0 <= i < |chains| && 0 <= j < |chains| && i != j ==> Disjoint(chains[i], chains[j])
    ensures |Union(chains)| == SumLen(chains)
  {
    if chains != [] {
      var rest := chains[1..];
      assert forall i :: 0 <= i < |rest| ==> rest[i] == chains[i + 1];
      UnionCard(rest);
      DistinctCard(chains[0]);
      forall k | k in Elems(chains[0]) * Union(rest) ensures false {
        UnionMember(rest, k);
      }
      assert Elems(chains[0]) * Union(rest) == {};
    }
  }

  /** Pushing the values `vs`, one after another, onto a stack: `ps[m]` and
      `heads[m]` are the pool and the stack's head after the first `m` pushes. */
  ghost predicate PushTrace<T>(ps: seq<Pool<T>>, heads: seq<nat>, vs: seq<T>, zero: T)
  {
    && |ps| == |heads| == |vs| + 1
    && forall m :: 0 <= m < |vs| ==>
         ps[m].free <= |ps[m].slots| && (ps[m + 1], heads[m + 1]) == Push(ps[m], vs[m], heads[m], zero)
  }

  /** Last in, first out: after pushing `vs` in order, the stack holds them
      in reverse order above what it held before, and the free list is still
      a chain apart from it. */
  lemma {:induction false} PushesReverse<T>(ps: seq<Pool<T>>, heads: seq<nat>, vs: seq<T>, zero: T, fl: seq<nat>, hs: seq<nat>)
    returns (fl': seq<nat>, hs': seq<nat>)
    requires PushTrace(ps, heads, vs, zero)
    requires Chain(ps[0].slots, ps[0].free, fl) && Chain(ps[0].slots, heads[0], hs) && Disjoint(hs, fl)
    ensures Chain(ps[|vs|].slots, ps[|vs|].free, fl') && Chain(ps[|vs|].slots, heads[|vs|], hs') && Disjoint(hs', fl')
    ensures Values(ps[|vs|].slots, hs') == Reverse(vs) + Values(ps[0].slots, hs)
    decreases |vs|
  {
    if vs == [] {
      fl', hs' := fl, hs;
    } else {
      var p := ps[0];
      PushFreeList(p, vs[0], heads[0], zero, fl);
      PushOntoStack(p, vs[0], heads[0], zero, fl, hs);
      var (q, t) := Push(p, vs[0], heads[0], zero);
      var fl1, hs1 := (Grown(p, zero) + fl)[1..], [t] + hs;
      assert PushTrace(ps[1..], heads[1..], vs[1..], zero) by {
        forall m | 0 <= m < |vs| - 1
          ensures ps[1..][m].free <= |ps[1..][m].slots|
          ensures (ps[1..][m + 1], heads[1..][m + 1]) == Push(ps[1..][m], vs[1..][m], heads[1..][m], zero)
        {
          assert ps[1..][m] == ps[m + 1] && ps[1..][m + 1] == ps[m + 2];
          assert heads[1..][m] == heads[m + 1] && heads[1..][m + 1] == heads[m + 2];
          assert vs[1..][m] == vs[m + 1];
        }
      }
      assert ps[1..][0] == q && heads[1..][0] == t;
      fl', hs' := PushesReverse(ps[1..], heads[1..], vs[1..], zero, fl1, hs1);
      assert ps[1..][|vs| - 1] == ps[|vs|] && heads[1..][|vs| - 1] == heads[|vs|];
      assert Reverse(vs) == Reverse(vs[1..]) + [vs[0]];
    }
  }
}
