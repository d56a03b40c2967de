/** Slots, handles and the chains that `next` links form through them.

    A handle names a slot of the pool's storage: handle `h` (with `h > 0`)
    is the slot at position `h - 1`, and handle 0 is the sentinel that ends
    every chain and names the empty stack. */
module Chains {

  /** One storage slot: a value and the handle of the next slot of its chain. */
  datatype Node<T> = Node(value: T, next: nat)

  /** The handles `a, a + 1, ..., b - 1`, in ascending order. */
  function Range(a: nat, b: nat): seq<nat>
    requires a <= b
  {
    seq(b - a, i requires 0 <= i < b - a => a + i)
  }

  /** Every handle of `hs` names a slot of `s`. */
  ghost predicate InBounds<T>(s: seq<Node<T>>, hs: seq<nat>)
  {
    forall i :: 0 <= i < |hs| ==> 0 < hs[i] <= |s|
  }

  /** No handle occurs twice in `hs`. */
  ghost predicate Distinct(hs: seq<nat>)
  {
    forall i, j :: 0 <= i < j < |hs| ==> hs[i] != hs[j]
  }

  /** No handle occurs in both `a` and `b`. */
  ghost predicate Disjoint(a: seq<nat>, b: seq<nat>)
  {
    forall k :: k in a ==> k !in b
  }

  /** Following `next` from `h` through `s` visits exactly the distinct,
      in-range handles `hs`, in order, and then reaches the sentinel 0. */
  ghost predicate Chain<T>(s: seq<Node<T>>, h: nat, hs: seq<nat>)
  {
    && InBounds(s, hs)
    && Distinct(hs)
    && h == (if hs == [] then 0 else hs[0])
    && (forall i :: 0 <= i < |hs| ==> s[hs[i] - 1].next == if i + 1 < |hs| then hs[i + 1] else 0)
  }

  /** The values stored at the handles `hs`, in order: for a stack, top first. */
  ghost function Values<T>(s: seq<Node<T>>, hs: seq<nat>): seq<T>
    requires InBounds(s, hs)
  {
    seq(|hs|, i requires 0 <= i < |hs| => s[hs[i] - 1].value)
  }

  /** Reversal of a sequence: its last element first. */
  function Reverse<T>(s: seq<T>): (r: seq<T>)
    ensures |r| == |s| && forall i :: 0 <= i < |s| ==> r[i] == s[|s| - 1 - i]
  {
    seq(|s|, i requires 0 <= i < |s| => s[|s| - 1 - i])
  }

  /** Reversing a sequence with one more element at the end puts it first. */
  lemma ReverseSnoc<T>(s: seq<T>, x: T)
    ensures Reverse(s + [x]) == [x] + Reverse(s)
  {
  }

  /** A chain starts at the sentinel exactly when it is empty. */
  lemma EmptyChain<T>(s: seq<Node<T>>, h: nat, hs: seq<nat>)
    requires Chain(s, h, hs)
    ensures h == 0 <==> hs == []
  {
  }

  /** The chain from a handle is unique: `next` determines it. */
  lemma {:induction false} ChainUnique<T>(s: seq<Node<T>>, h: nat, hs1: seq<nat>, hs2: seq<nat>)
    requires Chain(s, h, hs1) && Chain(s, h, hs2)
    ensures hs1 == hs2
    decreases |hs1|
  {
    if hs1 != [] {
      assert hs2 != [] && hs1[0] == hs2[0] == h;
      ChainTail(s, h, hs1);
      ChainTail(s, h, hs2);
      ChainUnique(s, s[h - 1].next, hs1[1..], hs2[1..]);
      assert hs1 == [hs1[0]] + hs1[1..];
      assert hs2 == [hs2[0]] + hs2[1..];
    }
  }

  /** Dropping the top of a chain leaves the chain that starts at its `next`. */
  lemma ChainTail<T>(s: seq<Node<T>>, h: nat, hs: seq<nat>)
    requires Chain(s, h, hs) && hs != []
    ensures Chain(s, s[h - 1].next, hs[1..])
    ensures h !in hs[1..]
  {
    var t := hs[1..];
    forall i, j | 0 <= i < j < |t| ensures t[i] != t[j] {
      assert t[i] == hs[i + 1] && t[j] == hs[j + 1];
    }
    forall i | 0 <= i < |t| ensures t[i] != h {
      assert t[i] == hs[i + 1];
    }
    assert s[hs[0] - 1].next == if 1 < |hs| then hs[1] else 0;
  }

  /** A slot whose `next` is the head of a chain, and which is not on it,
      extends the chain by one at the front. */
  lemma ChainCons<T>(s: seq<Node<T>>, t: nat, h: nat, hs: seq<nat>)
    requires Chain(s, h, hs)
    requires 0 < t <= |s| && t !in hs && s[t - 1].next == h
    ensures Chain(s, t, [t] + hs)
  {
    var c := [t] + hs;
    assert c[0] == t;
    assert forall i :: 0 < i < |c| ==> c[i] == hs[i - 1];
    assert InBounds(s, c);
    assert Distinct(c);
    forall i | 0 <= i < |c| ensures s[c[i] - 1].next == if i + 1 < |c| then c[i + 1] else 0 {
      if i == 0 {
        assert h == if hs == [] then 0 else hs[0];
      } else {
        var j := i - 1;
        assert 0 <= j < |hs| && c[i] == hs[j];
        assert s[hs[j] - 1].next == if j + 1 < |hs| then hs[j + 1] else 0;
        assert i + 1 < |c| ==> c[i + 1] == hs[j + 1];
      }
    }
  }

  /** A chain survives any change of storage that appends slots or rewrites
      slots off the chain, as long as the links of its own slots stay. */
  lemma ChainFrame<T>(s: seq<Node<T>>, s': seq<Node<T>>, h: nat, hs: seq<nat>)
    requires Chain(s, h, hs)
    requires forall i :: 0 <= i < |hs| ==> hs[i] <= |s'| && s'[hs[i] - 1].next == s[hs[i] - 1].next
    ensures Chain(s', h, hs)
  {
  }

  /** Likewise the values along a chain, when its slots keep their values. */
  lemma ValuesFrame<T>(s: seq<Node<T>>, s': seq<Node<T>>, hs: seq<nat>)
    requires InBounds(s, hs)
    requires forall i :: 0 <= i < |hs| ==> 0 < hs[i] <= |s'| && s'[hs[i] - 1].value == s[hs[i] - 1].value
    ensures Values(s', hs) == Values(s, hs)
  {
  }

  /** The values of a chain with a slot in front: that slot's value first. */
  lemma ValuesCons<T>(s: seq<Node<T>>, t: nat, hs: seq<nat>)
    requires InBounds(s, hs) && 0 < t <= |s|
    ensures InBounds(s, [t] + hs)
    ensures Values(s, [t] + hs) == [s[t - 1].value] + Values(s, hs)
  {
    var c := [t] + hs;
    assert forall i :: 0 < i < |c| ==> c[i] == hs[i - 1];
  }

  /** The values of the tail of a chain are the tail of its values. */
  lemma ValuesTail<T>(s: seq<Node<T>>, hs: seq<nat>)
    requires InBounds(s, hs) && hs != []
    ensures InBounds(s, hs[1..])
    ensures Values(s, hs[1..]) == Values(s, hs)[1..]
  {
    assert forall i :: 0 <= i < |hs| - 1 ==> hs[1..][i] == hs[i + 1];
  }

  /** The values of a chain's first `k + 1` handles: those of its first `k`,
      then the value at handle `hs[k]`. */
  lemma ValuesSnoc<T>(s: seq<Node<T>>, hs: seq<nat>, k: nat)
    requires InBounds(s, hs) && k < |hs|
    ensures InBounds(s, hs[..k]) && InBounds(s, hs[..k + 1])
    ensures Values(s, hs[..k + 1]) == Values(s, hs[..k]) + [s[hs[k] - 1].value]
  {
    assert forall i :: 0 <= i <= k ==> hs[..k + 1][i] == hs[i];
  }

  /** `s'` is `s` with the links of the slots `hs`, and nothing else, rewritten. */
  ghost predicate Relinked<T>(s: seq<Node<T>>, s': seq<Node<T>>, hs: seq<nat>)
  {
    && |s'| == |s|
    && forall i :: 0 <= i < |s| ==> s'[i].value == s[i].value && (s'[i].next == s[i].next || i + 1 in hs)
  }

  /** Rewriting one more link extends the set of rewritten slots by that one. */
  lemma RelinkOne<T>(s0: seq<Node<T>>, s: seq<Node<T>>, hs: seq<nat>, x: nat, n: nat)
    requires Relinked(s0, s, hs) && 0 < x <= |s|
    ensures Relinked(s0, s[x - 1 := s[x - 1].(next := n)], hs + [x])
  {
    var s' := s[x - 1 := s[x - 1].(next := n)];
    forall i | 0 <= i < |s0| ensures s'[i].value == s0[i].value && (s'[i].next == s0[i].next || i + 1 in hs + [x]) {
      if i != x - 1 {
        assert s'[i] == s[i];
        assert i + 1 in hs ==> i + 1 in hs + [x];
      }
    }
  }

  /** A chain none of whose slots was relinked is still a chain, with the same values. */
  lemma RelinkedChain<T>(s0: seq<Node<T>>, s: seq<Node<T>>, hs: seq<nat>, h: nat, hs2: seq<nat>)
    requires Relinked(s0, s, hs) && Chain(s0, h, hs2) && Disjoint(hs2, hs)
    ensures Chain(s, h, hs2) && Values(s, hs2) == Values(s0, hs2)
  {
    forall m | 0 <= m < |hs2| ensures hs2[m] <= |s| && s[hs2[m] - 1].next == s0[hs2[m] - 1].next {
      assert hs2[m] in hs2;
    }
    ChainFrame(s0, s, h, hs2);
    ValuesFrame(s0, s, hs2);
  }
}
