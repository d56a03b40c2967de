/** The pool as a value, and what each of its operations does to it.

    A `Pool` is the storage (one slot per handle, position `h - 1` for
    handle `h`, so `|slots|` is the capacity) together with the head of the
    intrusive free list. The functions below are the specification of the
    `StackPool` methods; the lemmas state what they do to the free list and
    to the stacks that callers hold as head handles. */
module PoolSpec {
  import opened Chains

  datatype Pool<T> = Pool(slots: seq<Node<T>>, free: nat)

  /** The slots appended when capacity `c` grows to `n`: handle `h` links to
      `h + 1` for `c < h < n`, and handle `n` to the former free head. */
  function FreshSlots<T>(c: nat, n: nat, oldFree: nat, zero: T): seq<Node<T>>
    requires c < n
  {
    seq(n - c, i requires 0 <= i < n - c => Node(zero, if c + 1 + i < n then c + 2 + i else oldFree))
  }

  /** `reserve(n)` for `n` above the capacity: the new slots are appended
      and prepended to the free list. (Position `i` holds handle `i + 1`.) */
  function Reserve<T>(p: Pool<T>, n: nat, zero: T): (r: Pool<T>)
    requires |p.slots| < n
    ensures |r.slots| == n
    ensures r.slots[..|p.slots|] == p.slots
    ensures forall i :: |p.slots| <= i < n - 1 ==> r.slots[i] == Node(zero, i + 2)
    ensures r.slots[n - 1] == Node(zero, p.free)
    ensures r.free == |p.slots| + 1
  {
    Pool(p.slots + FreshSlots(|p.slots|, n, p.free, zero), |p.slots| + 1)
  }

  /** Storage that keeps the old slots, links each new one to the next and
      the last to the old free head is exactly what `Reserve` builds. */
  lemma ReserveSlots<T>(p: Pool<T>, n: nat, zero: T, s: seq<Node<T>>)
    requires |p.slots| < n && |s| == n && s[..|p.slots|] == p.slots
    requires forall j :: |p.slots| <= j < n - 1 ==> s[j] == Node(zero, j + 2)
    requires s[n - 1] == Node(zero, p.free)
    ensures s == Reserve(p, n, zero).slots
  {
    var r := Reserve(p, n, zero).slots;
    forall j | 0 <= j < n ensures s[j] == r[j] {
      if j < |p.slots| {
        assert s[j] == s[..|p.slots|][j] && r[j] == r[..|p.slots|][j];
      }
    }
  }

  /** `check_capacity`: the growth rule applied before every push. */
  function CheckCapacity<T>(p: Pool<T>, zero: T): (r: Pool<T>)
    ensures r.free != 0
    ensures |r.slots| == if |p.slots| == 0 then 1 else if p.free != 0 then |p.slots| else 2 * |p.slots|
    ensures r.slots[..|p.slots|] == p.slots
    ensures |p.slots| > 0 && p.free != 0 ==> r == p
    ensures |r.slots| > |p.slots| ==> r.free == |p.slots| + 1
    ensures p.free <= |p.slots| ==> r.free <= |r.slots|
  {
    var p1 := if |p.slots| == 0 then Reserve(p, 1, zero) else p;
    if p1.free != 0 then p1 else Reserve(p1, 2 * |p1.slots|, zero)
  }

  /** `push(v, head)`: take the free head `t` (after growth), store `v` and
      `head` in it, and return `t` as the new head of the caller's stack. */
  function Push<T>(p: Pool<T>, v: T, head: nat, zero: T): (r: (Pool<T>, nat))
    requires p.free <= |p.slots|
    ensures var g := CheckCapacity(p, zero);
      && r.1 == g.free && 0 < r.1 <= |r.0.slots| == |g.slots|
      && r.0.slots[r.1 - 1] == Node(v, head)
      && r.0.free == g.slots[r.1 - 1].next
      && forall i :: 0 <= i < |g.slots| && i != r.1 - 1 ==> r.0.slots[i] == g.slots[i]
  {
    var g := CheckCapacity(p, zero);
    var t := g.free;
    (Pool(g.slots[t - 1 := Node(v, head)], g.slots[t - 1].next), t)
  }

  /** `pop(x)`: return `next(x)` and put slot `x` at the head of the free list. */
  function Pop<T>(p: Pool<T>, x: nat): (r: (Pool<T>, nat))
    requires 0 < x <= |p.slots|
    ensures r.1 == p.slots[x - 1].next
    ensures r.0.free == x && |r.0.slots| == |p.slots|
    ensures r.0.slots[x - 1] == Node(p.slots[x - 1].value, p.free)
    ensures forall i :: 0 <= i < |p.slots| && i != x - 1 ==> r.0.slots[i] == p.slots[i]
  {
    (Pool(p.slots[x - 1 := p.slots[x - 1].(next := p.free)], x), p.slots[x - 1].next)
  }

  /** The handles that `check_capacity` adds to the front of the free list. */
  function Grown<T>(p: Pool<T>, zero: T): seq<nat>
  {
    Range(|p.slots| + 1, |CheckCapacity(p, zero).slots| + 1)
  }

  /** Growth keeps the free list a chain: the new handles, ascending, in front
      of the former free list. */
  lemma ReserveFreeChain<T>(p: Pool<T>, n: nat, zero: T, fl: seq<nat>)
    requires |p.slots| < n && Chain(p.slots, p.free, fl)
    ensures Chain(Reserve(p, n, zero).slots, |p.slots| + 1, Range(|p.slots| + 1, n + 1) + fl)
  {
    var s := Reserve(p, n, zero).slots;
    forall i | 0 <= i < |fl| ensures fl[i] <= |s| && s[fl[i] - 1].next == p.slots[fl[i] - 1].next {
      assert s[..|p.slots|][fl[i] - 1] == s[fl[i] - 1];
    }
    ChainFrame(p.slots, s, p.free, fl);
    AddedChain(p, n, zero, fl, |p.slots| + 1);
  }

  /** The grown handles from `k` up to `n`, then the former free list, form a
      chain in the grown storage. */
  lemma {:induction false} AddedChain<T>(p: Pool<T>, n: nat, zero: T, fl: seq<nat>, k: nat)
    requires |p.slots| < k <= n
    requires Chain(Reserve(p, n, zero).slots, p.free, fl) && forall i :: 0 <= i < |fl| ==> fl[i] <= |p.slots|
    ensures Chain(Reserve(p, n, zero).slots, k, Range(k, n + 1) + fl)
    decreases n - k
  {
    var s := Reserve(p, n, zero).slots;
    if k == n {
      assert Range(k, n + 1) + fl == [n] + fl;
      ChainCons(s, n, p.free, fl);
    } else {
      AddedChain(p, n, zero, fl, k + 1);
      assert Range(k, n + 1) + fl == [k] + (Range(k + 1, n + 1) + fl);
      ChainCons(s, k, k + 1, Range(k + 1, n + 1) + fl);
    }
  }

  /** The growth rule keeps the free list a chain, with the grown handles in front. */
  lemma CheckCapacityFreeChain<T>(p: Pool<T>, zero: T, fl: seq<nat>)
    requires Chain(p.slots, p.free, fl)
    ensures var g := CheckCapacity(p, zero);
      Chain(g.slots, g.free, Grown(p, zero) + fl) && Grown(p, zero) + fl != []
  {
    var g := CheckCapacity(p, zero);
    if |p.slots| == 0 {
      assert fl == [];
      ReserveFreeChain(p, 1, zero, fl);
    } else if p.free != 0 {
      assert Grown(p, zero) == [];
      assert Grown(p, zero) + fl == fl;
    } else {
      ReserveFreeChain(p, 2 * |p.slots|, zero, fl);
    }
  }

  /** Growth leaves every existing chain, and the values on it, as they were. */
  lemma CheckCapacityKeepsChain<T>(p: Pool<T>, zero: T, h: nat, hs: seq<nat>)
    requires Chain(p.slots, h, hs)
    ensures var g := CheckCapacity(p, zero);
      Chain(g.slots, h, hs) && Values(g.slots, hs) == Values(p.slots, hs)
  {
    var g := CheckCapacity(p, zero);
    forall i | 0 <= i < |hs| ensures hs[i] <= |g.slots| && g.slots[hs[i] - 1] == p.slots[hs[i] - 1] {
      assert g.slots[..|p.slots|][hs[i] - 1] == g.slots[hs[i] - 1];
    }
    ChainFrame(p.slots, g.slots, h, hs);
    ValuesFrame(p.slots, g.slots, hs);
  }

  /** Taking the head slot of a non-empty free list, and storing a value
      and a link in it, leaves the rest of the free list a chain. */
  lemma TakeFree<T>(g: Pool<T>, v: T, head: nat, gfl: seq<nat>)
    requires Chain(g.slots, g.free, gfl) && g.free != 0
    ensures 0 < g.free <= |g.slots|
    ensures Chain(g.slots[g.free - 1 := Node(v, head)], g.slots[g.free - 1].next, gfl[1..])
  {
    ChainTail(g.slots, g.free, gfl);
    ChainFrame(g.slots, g.slots[g.free - 1 := Node(v, head)], g.slots[g.free - 1].next, gfl[1..]);
  }

  /** A push takes the head of the (grown) free list and leaves its rest as
      the free list. */
  lemma PushFreeList<T>(p: Pool<T>, v: T, head: nat, zero: T, fl: seq<nat>)
    requires Chain(p.slots, p.free, fl)
    ensures p.free <= |p.slots|
    ensures var (q, t) := Push(p, v, head, zero); var gfl := Grown(p, zero) + fl;
      gfl != [] && t == gfl[0] && Chain(q.slots, q.free, gfl[1..])
  {
    var g := CheckCapacity(p, zero);
    var gfl := Grown(p, zero) + fl;
    CheckCapacityFreeChain(p, zero, fl);
    TakeFree(g, v, head, gfl);
  }

  /** A push leaves any stack without free slots unchanged, in links and values. */
  lemma PushKeepsOtherStack<T>(p: Pool<T>, v: T, head: nat, zero: T, fl: seq<nat>, h: nat, hs: seq<nat>)
    requires Chain(p.slots, p.free, fl) && Chain(p.slots, h, hs) && Disjoint(hs, fl)
    ensures p.free <= |p.slots|
    ensures var (q, t) := Push(p, v, head, zero);
      && t !in hs && Chain(q.slots, h, hs) && Values(q.slots, hs) == Values(p.slots, hs)
      && Disjoint(hs, (Grown(p, zero) + fl)[1..])
  {
    var g := CheckCapacity(p, zero);
    PushFreeList(p, v, head, zero, fl);
    var (q, t) := Push(p, v, head, zero);
    CheckCapacityKeepsChain(p, zero, h, hs);
    assert t !in hs by {
      if t in Grown(p, zero) {
        assert t > |p.slots|;
      } else {
        assert t in fl;
      }
    }
    ChainFrame(g.slots, q.slots, h, hs);
    ValuesFrame(g.slots, q.slots, hs);
    var gfl := Grown(p, zero) + fl;
    forall k | k in hs ensures k !in gfl[1..] {
      assert k <= |p.slots| && k !in fl;
      assert k !in gfl;
    }
  }

  /** A push onto a stack puts `v` on top of it: the new head's chain is the
      old one with the taken slot in front, and its values gain `v` in front. */
  lemma PushOntoStack<T>(p: Pool<T>, v: T, head: nat, zero: T, fl: seq<nat>, hs: seq<nat>)
    requires Chain(p.slots, p.free, fl) && Chain(p.slots, head, hs) && Disjoint(hs, fl)
    ensures p.free <= |p.slots|
    ensures var (q, t) := Push(p, v, head, zero);
      && Chain(q.slots, t, [t] + hs)
      && Values(q.slots, [t] + hs) == [v] + Values(p.slots, hs)
      && Disjoint([t] + hs, (Grown(p, zero) + fl)[1..])
  {
    PushKeepsOtherStack(p, v, head, zero, fl, head, hs);
    PushFreeList(p, v, head, zero, fl);
    var (q, t) := Push(p, v, head, zero);
    ChainCons(q.slots, t, head, hs);
    ValuesCons(q.slots, t, hs);
    var gfl := Grown(p, zero) + fl;
    forall k | k in [t] + hs ensures k !in gfl[1..] {
      if k != t {
        assert k in hs && k <= |p.slots| && k !in fl;
        assert k !in gfl;
      }
    }
  }

  /** A pop makes the popped slot the new free head, in front of the old free list. */
  lemma PopFreeList<T>(p: Pool<T>, x: nat, fl: seq<nat>)
    requires Chain(p.slots, p.free, fl) && 0 < x <= |p.slots| && x !in fl
    ensures var (q, r) := Pop(p, x); Chain(q.slots, x, [x] + fl)
  {
    var (q, r) := Pop(p, x);
    ChainFrame(p.slots, q.slots, p.free, fl);
    ChainCons(q.slots, x, p.free, fl);
  }

  /** A pop of slot `x` leaves any chain without `x` unchanged, in links and values. */
  lemma PopKeepsOtherStack<T>(p: Pool<T>, x: nat, h: nat, hs: seq<nat>)
    requires 0 < x <= |p.slots| && Chain(p.slots, h, hs) && x !in hs
    ensures var (q, r) := Pop(p, x);
      Chain(q.slots, h, hs) && Values(q.slots, hs) == Values(p.slots, hs)
  {
    var (q, r) := Pop(p, x);
    ChainFrame(p.slots, q.slots, h, hs);
    ValuesFrame(p.slots, q.slots, hs);
  }

  /** A pop of a non-empty stack returns the head of the rest of it, whose
      links and values are unchanged. */
  lemma PopFromStack<T>(p: Pool<T>, x: nat, hs: seq<nat>)
    requires Chain(p.slots, x, hs) && hs != []
    ensures 0 < x <= |p.slots|
    ensures var (q, r) := Pop(p, x);
      Chain(q.slots, r, hs[1..]) && Values(q.slots, hs[1..]) == Values(p.slots, hs)[1..]
  {
    ChainTail(p.slots, x, hs);
    PopKeepsOtherStack(p, x, p.slots[x - 1].next, hs[1..]);
    ValuesTail(p.slots, hs);
  }

  /** One round of `free_stack`: popping the top `hs[k]` of the stack that
      remains moves it to the head of the free list, whose tail then lists
      the popped handles last first; it leaves the rest of the stack a chain
      that still shares no handle with the free list, and relinks no slot
      but the popped ones. */
  lemma FreeStackStep<T>(p: Pool<T>, fl: seq<nat>, hs: seq<nat>, k: nat, fl0: seq<nat>, s0: seq<Node<T>>)
    requires Chain(p.slots, p.free, fl) && k < |hs| && Chain(p.slots, hs[k], hs[k..])
    requires Disjoint(hs[k..], fl) && fl == Reverse(hs[..k]) + fl0
    requires Relinked(s0, p.slots, hs[..k])
    ensures 0 < hs[k] <= |p.slots|
    ensures var (q, r) := Pop(p, hs[k]);
      && Chain(q.slots, q.free, [hs[k]] + fl)
      && Chain(q.slots, r, hs[k + 1..])
      && Disjoint(hs[k + 1..], [hs[k]] + fl)
      && [hs[k]] + fl == Reverse(hs[..k + 1]) + fl0
      && Relinked(s0, q.slots, hs[..k + 1])
  {
    var x := hs[k];
    ChainTail(p.slots, x, hs[k..]);
    assert hs[k..][1..] == hs[k + 1..];
    assert x in hs[k..];
    PopFreeList(p, x, fl);
    PopFromStack(p, x, hs[k..]);
    forall m | m in hs[k + 1..] ensures m !in [x] + fl {
      assert m in hs[k..];
    }
    assert hs[..k + 1] == hs[..k] + [x];
    ReverseSnoc(hs[..k], x);
    RelinkOne(s0, p.slots, hs[..k], x, p.free);
  }
}
