/** The pool object and its iterator, as the program updates them in place.

    `StackPool` holds the storage `pool` (slot of handle `h` at position
    `h - 1`) and the free head `freeNodes`; the ghost field `freeList`
    records the handles of the free chain. Every method is proved against
    the functions of `PoolSpec`, so the lemmas about those functions (and
    about `PoolLayout`) apply to the object's state before and after. */
module StackPools {
  import opened Chains
  import opened PoolSpec

  /** The failure that the bounds check on `next` reports. */
  datatype Error = InvalidIndex

  datatype Result<R> = Ok(value: R) | Err(error: Error)

  class StackPool<T> {
    var pool: seq<Node<T>>
    var freeNodes: nat
    /** The value a freshly appended slot holds (a value-initialised `T`). */
    const zero: T
    ghost var freeList: seq<nat>

    /** The free list is a chain through the storage that ends at the sentinel. */
    ghost predicate Valid()
      reads this
    {
      Chain(pool, freeNodes, freeList)
    }

    /** The object's state as a `PoolSpec.Pool` value. */
    function State(): Pool<T>
      reads this
    {
      Pool(pool, freeNodes)
    }

    /** The default constructor: no storage and an empty free list. */
    constructor (zero: T)
      ensures Valid() && this.zero == zero
      ensures pool == [] && freeNodes == 0 && freeList == []
    {
      this.zero := zero;
      pool, freeNodes := [], 0;
      freeList := [];
    }

    /** The constructor that reserves `n` slots up front. */
    constructor WithCapacity(n: nat, zero: T)
      requires 0 < n
      ensures Valid() && this.zero == zero
      ensures State() == PoolSpec.Reserve(Pool([], 0), n, zero)
      ensures freeList == Range(1, n + 1)
    {
      this.zero := zero;
      pool, freeNodes := [], 0;
      freeList := [];
      new;
      Reserve(n);
    }

    function Capacity(): nat
      reads this
    {
      |pool|
    }

    /** The sentinel handle. */
    function End(): nat
    {
      0
    }

    /** `new_stack()`: the handle of a new stack, on which no slot lies. */
    function NewStack(): (h: nat)
      reads this
      ensures forall hs :: Chain(pool, h, hs) <==> hs == []
    {
      End()
    }

    /** `empty(x)`: holds exactly when the stack headed by `x` has no slot. */
    function Empty(x: nat): (b: bool)
      reads this
      ensures forall hs :: Chain(pool, x, hs) ==> (b <==> hs == [])
    {
      x == End()
    }

    /** `value(x)`: the value held by slot `x`, which for a stack headed by
        `x` is its top value. */
    function Value(x: nat): (v: T)
      reads this
      requires 0 < x <= |pool|
      ensures forall hs :: Chain(pool, x, hs) ==> Values(pool, hs)[0] == v
    {
      pool[x - 1].value
    }

    /** `next(x)`, with its bounds check: an error unless `0 < x <= capacity`;
        from the top of a stack it leads to the head of the rest of it. */
    function Next(x: nat): (r: Result<nat>)
      reads this
      ensures r.Err? <==> !(0 < x <= |pool|)
      ensures forall hs :: Chain(pool, x, hs) && x != 0 ==> r.Ok? && Chain(pool, r.value, hs[1..])
    {
      if 0 < x <= |pool| then
        ChainNext(pool, x);
        Ok(pool[x - 1].next)
      else
        Err(InvalidIndex)
    }

    /** Writing through `value(x)`: slot `x` takes the value `v`. */
    method SetValue(x: nat, v: T)
      requires Valid() && 0 < x <= |pool|
      modifies this
      ensures Valid() && freeNodes == old(freeNodes) && freeList == old(freeList)
      ensures pool == old(pool)[x - 1 := Node(v, old(pool)[x - 1].next)]
    {
      pool := pool[x - 1 := pool[x - 1].(value := v)];
      ChainFrame(old(pool), pool, freeNodes, freeList);
    }

    /** `reserve(n)` for `n` above the capacity. */
    method Reserve(n: nat)
      requires Valid() && |pool| < n
      modifies this
      ensures Valid() && State() == PoolSpec.Reserve(old(State()), n, zero)
      ensures freeList == Range(old(|pool|) + 1, n + 1) + old(freeList)
    {
      var start := |pool| + 1;
      EmplaceBack(start, n);
    }

    /** `_emplace_back(start, end)`: append the slots of handles `start` to
        `end`, each linked to the next and the last to the free head, and make
        `start` the free head. */
    method EmplaceBack(start: nat, end: nat)
      requires Valid() && start == |pool| + 1 && start <= end
      modifies this
      ensures Valid() && State() == PoolSpec.Reserve(old(State()), end, zero)
      ensures freeList == Range(start, end + 1) + old(freeList)
    {
      var i := start;
      while i < end
        invariant start <= i <= end && |pool| == i - 1
        invariant pool[..start - 1] == old(pool)
        invariant forall j :: start - 1 <= j < i - 1 ==> pool[j] == Node(zero, j + 2)
        invariant freeNodes == old(freeNodes) && freeList == old(freeList)
      {
        pool := pool + [Node(zero, i + 1)];
        i := i + 1;
      }
      pool := pool + [Node(zero, freeNodes)];
      ReserveSlots(old(State()), end, zero, pool);
      freeNodes := start;
      ReserveFreeChain(old(State()), end, zero, freeList);
      freeList := Range(start, end + 1) + freeList;
    }

    /** `check_capacity()`: reserve one slot in an empty pool, and double the
        capacity when the free list is empty. */
    method CheckCapacity()
      requires Valid()
      modifies this
      ensures Valid() && State() == PoolSpec.CheckCapacity(old(State()), zero)
      ensures freeList == Grown(old(State()), zero) + old(freeList)
    {
      if |pool| == 0 {
        Reserve(1);
      }
      if freeNodes != 0 {
        assert old(|pool|) != 0 ==> Grown(old(State()), zero) == [];
        return;
      }
      Reserve(2 * |pool|);
    }

    /** `push(v, head)`: the free head (after growth) takes `v` and links to
        `head`, and is returned as the new head. What this does to the stacks
        (the pushed one gains `v` on top, every other keeps its links and
        values) is stated about `PoolSpec.Push` by `PushOntoStack` and
        `PushKeepsOtherStack`. */
    method Push(v: T, head: nat) returns (t: nat)
      requires Valid()
      modifies this
      ensures Valid() && (State(), t) == PoolSpec.Push(old(State()), v, head, zero)
      ensures freeList == (Grown(old(State()), zero) + old(freeList))[1..]
    {
      CheckCapacity();
      TakeFree(State(), v, head, freeList);
      t := freeNodes;
      freeNodes := pool[t - 1].next;
      pool := pool[t - 1 := Node(v, head)];
      freeList := freeList[1..];
    }

    /** `pop(x)`: return `next(x)` and make slot `x`, which must not be free,
        the free head. What this does to the stacks (the rest of the popped
        stack, and every stack without `x`, keep their links and values) is
        stated about `PoolSpec.Pop` by `PopFromStack` and `PopKeepsOtherStack`. */
    method Pop(x: nat) returns (r: nat)
      requires Valid() && 0 < x <= |pool| && x !in freeList
      modifies this
      ensures Valid() && (State(), r) == PoolSpec.Pop(old(State()), x)
      ensures freeList == [x] + old(freeList)
    {
      ghost var p, fl := State(), freeList;
      r := pool[x - 1].next;
      pool := pool[x - 1 := pool[x - 1].(next := freeNodes)];
      freeNodes := x;
      PopFreeList(p, x, fl);
      freeList := [x] + freeList;
    }

    /** `free_stack(x)`: pop until the stack is empty and return the sentinel.
        The stack's slots join the free list, last slot first; values stay,
        and every stack apart from it keeps its links. */
    method FreeStack(x: nat, ghost hs: seq<nat>) returns (r: nat)
      requires Valid() && Chain(pool, x, hs) && Disjoint(hs, freeList)
      modifies this
      ensures Valid() && r == End()
      ensures freeList == Reverse(hs) + old(freeList)
      ensures Relinked(old(pool), pool, hs)
      ensures forall h, hs2 :: Chain(old(pool), h, hs2) && Disjoint(hs2, hs) ==>
        Chain(pool, h, hs2) && Values(pool, hs2) == Values(old(pool), hs2)
    {
      r := x;
      ghost var k := 0;
      assert hs[..k] == [];
      while !Empty(r)
        invariant Valid() && 0 <= k <= |hs| && Chain(pool, r, hs[k..]) && Disjoint(hs[k..], freeList)
        invariant freeList == Reverse(hs[..k]) + old(freeList)
        invariant Relinked(old(pool), pool, hs[..k])
        decreases |hs| - k
      {
        FreeStackStep(State(), freeList, hs, k, old(freeList), old(pool));
        r := Pop(r);
        k := k + 1;
      }
      assert hs[k..] == [] && hs[..k] == hs;
      forall h, hs2 | Chain(old(pool), h, hs2) && Disjoint(hs2, hs)
        ensures Chain(pool, h, hs2) && Values(pool, hs2) == Values(old(pool), hs2)
      {
        RelinkedChain(old(pool), pool, hs, h, hs2);
      }
    }

    /** `begin(x)`: an iterator at handle `x`. */
    method Begin(x: nat) returns (it: Cursor<T>)
      ensures fresh(it) && it.pool == this && it.index == x
    {
      it := new Cursor(this, x);
    }

    /** `end(x)`: the iterator at the sentinel, whatever the stack. */
    method EndIterator(x: nat) returns (it: Cursor<T>)
      ensures fresh(it) && it.pool == this && it.index == End()
    {
      it := new Cursor(this, End());
    }
  }

  /** The forward iterator: a pool and a handle. */
  class Cursor<T> {
    const pool: StackPool<T>
    var index: nat

    constructor (pool: StackPool<T>, x: nat)
      ensures this.pool == pool && index == x
    {
      this.pool := pool;
      index := x;
    }

    /** `*it`: the value at the iterator's handle. */
    function Deref(): (v: T)
      reads this, pool
      requires 0 < index <= |pool.pool|
      ensures forall hs :: Chain(pool.pool, index, hs) ==> Values(pool.pool, hs)[0] == v
    {
      pool.Value(index)
    }

    /** `++it`: move to the next handle of the chain. */
    method Advance()
      requires 0 < index <= |pool.pool|
      modifies this
      ensures index == pool.pool[old(index) - 1].next
    {
      index := pool.pool[index - 1].next;
    }

    /** `it == other`: iterators are equal when their handles are. */
    function Equals(other: Cursor<T>): bool
      reads this, other
    {
      index == other.index
    }
  }

  /** The step `next` takes from the top of any chain through `x`. */
  lemma ChainNext<T>(s: seq<Node<T>>, x: nat)
    requires 0 < x <= |s|
    ensures forall hs :: Chain(s, x, hs) ==> Chain(s, s[x - 1].next, hs[1..])
  {
    forall hs | Chain(s, x, hs) ensures Chain(s, s[x - 1].next, hs[1..]) {
      ChainTail(s, x, hs);
    }
  }

  /** One step of an iteration along the chain `hs`, at its `k`-th handle `x`:
      the rest of the chain starts at `next`, and the value read extends the
      values read so far. */
  lemma TraverseStep<T>(s: seq<Node<T>>, x: nat, hs: seq<nat>, k: nat)
    requires InBounds(s, hs) && k <= |hs| && Chain(s, x, hs[k..]) && x != 0
    ensures k < |hs| && 0 < x <= |s| && Chain(s, s[x - 1].next, hs[k + 1..])
    ensures InBounds(s, hs[..k]) && InBounds(s, hs[..k + 1])
    ensures Values(s, hs[..k + 1]) == Values(s, hs[..k]) + [s[x - 1].value]
  {
    EmptyChain(s, x, hs[k..]);
    ChainTail(s, x, hs[k..]);
    assert hs[k + 1..] == hs[k..][1..];
    ValuesSnoc(s, hs, k);
  }

  /** Iterating from `begin(h)` until the iterator equals `end(h)`, reading
      each value: the values of the stack headed by `h`, top first. */
  method Traverse<T>(p: StackPool<T>, h: nat, ghost hs: seq<nat>) returns (vs: seq<T>)
    requires Chain(p.pool, h, hs)
    ensures vs == Values(p.pool, hs)
  {
    var it := p.Begin(h);
    var last := p.EndIterator(h);
    vs := [];
    ghost var k := 0;
    while !it.Equals(last)
      invariant it.pool == p && it != last && last.index == 0
      invariant 0 <= k <= |hs| && Chain(p.pool, it.index, hs[k..])
      invariant vs == Values(p.pool, hs[..k])
      decreases |hs| - k
    {
      TraverseStep(p.pool, it.index, hs, k);
      vs := vs + [it.Deref()];
      it.Advance();
      k := k + 1;
    }
  }
}
