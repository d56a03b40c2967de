# stack_pool: many stacks in one arena

This project models `stack_pool<T, N>` from `exam/stack_exam.cpp` in Dafny, together with its forward iterator `_iterator`. A `stack_pool` keeps any number of independent singly-linked stacks in one growable vector of `node_t{value, next}` slots:

- **Handles.** A stack is named by the handle of its top slot. Handle `h` is the slot at position `h - 1`, and handle `0` is the sentinel that ends every chain and names the empty stack.
- **Free list.** Unused slots form an intrusive free list headed by `free_nodes`.
- **Growth.** Growing the storage appends slots linked in ascending order and puts them in front of the free list.
- **Push and pop.** `push` takes the free head and links it in front of the caller's head. `pop` hands the top slot back to the free list.
- **Freeing a stack.** `free_stack` pops until the stack is empty.

The files are:

- `chains.dfy`, module `Chains`:
  - slots (`Node`) and handle ranges;
  - the ghost predicate `Chain(s, h, hs)`: following `next` from `h` visits exactly the distinct handles `hs` and then reaches 0;
  - `Values`, the values along a chain;
  - frame lemmas for chains and values.
- `pool_spec.dfy`, module `PoolSpec`:
  - the pool as a value (`Pool(slots, free)`);
  - each state change as a pure function: `Reserve`, `CheckCapacity`, `Push`, `Pop`;
  - lemmas on what each step does to the free list and to the caller's stacks.
- `layout.dfy`, module `PoolLayout`:
  - the whole-pool invariant: every slot lies on exactly one chain, either the free list or one caller stack;
  - proofs that this invariant is preserved;
  - conservation: free slots plus stacked slots equal capacity;
  - last in, first out over any number of pushes.
- `stack_pool.dfy`, module `StackPools`:
  - the class `StackPool`, which updates its fields `pool` (a `seq` of slots) and `freeNodes` in place, plus a ghost field `freeList` holding the free chain;
  - the class `Cursor`, the iterator whose `index` field is advanced in place;
  - `Traverse`, the `begin(h)` … `end(h)` loop.
  - Every method is proved against the matching `PoolSpec` function, so the `PoolSpec` and `PoolLayout` lemmas apply to the object's states.
- `driver.dfy`, module `Driver`: the three scopes of `main`, each as a method with concrete postconditions:
  - the handles 1, 1, 2, 3, 2 named in the driver's comments;
  - the contents of every stack;
  - the largest value 9 and the smallest value 1 asserted in scope 3.

Modelling choices:

- The element type stays generic. A constructor parameter `zero` stands for the value-initialised `T{}` that fresh slots hold.
- `capacity()` is the number of slots. The program relies on `std::vector::capacity()` equalling the size after every `reserve`.
- The eleven literal pushes per stack in scope 3 are modelled as a loop (`Driver.PushAll`) over the same digits in the same order.

## Model

| member | source | states |
|---|---|---|
| Chains.EmptyChain | exam/stack_exam.cpp:125-127 | a chain starts at the sentinel 0 exactly when it has no slot |
| Chains.ChainUnique | exam/stack_exam.cpp:132-139 | the `next` links determine the chain from a handle: two chains from the same handle are equal |
| Chains.ChainTail | exam/stack_exam.cpp:132-139 | from the top of a non-empty chain, `next` leads to the chain of the remaining handles, and the top is not among them |
| Chains.ChainCons | exam/stack_exam.cpp:92 | a slot off a chain whose `next` is the chain's head extends the chain by one at the front |
| PoolSpec.Reserve | exam/stack_exam.cpp:65-77 | growth to `n` slots keeps every old slot, links the new handles `c+1 .. n-1` each to the next, links handle `n` to the old free head, and makes `c+1` the free head |
| PoolSpec.ReserveSlots | exam/stack_exam.cpp:71-77 | storage built by the append loop of `_emplace_back` (old slots, each new slot linked to the next, the last to the old free head) is exactly the storage `Reserve` describes |
| PoolSpec.ReserveFreeChain | exam/stack_exam.cpp:71-77 | after growth the free list is a chain: the new handles in ascending order, then the former free list |
| PoolSpec.AddedChain | exam/stack_exam.cpp:72-75 | the appended handles from any `k` up to `n`, followed by the old free list, form a chain in the grown storage |
| PoolSpec.CheckCapacity | exam/stack_exam.cpp:79-84 | the growth rule: afterwards the free list is non-empty; capacity goes from 0 to 1, doubles when the free list was empty, and otherwise the pool is unchanged; old slots are kept |
| PoolSpec.CheckCapacityFreeChain | exam/stack_exam.cpp:79-84 | the growth rule keeps the free list a chain, with the grown handles in front, and leaves it non-empty |
| PoolSpec.CheckCapacityKeepsChain | exam/stack_exam.cpp:79-84 | growth leaves every existing chain and its values as they were (handles are stable across growth) |
| PoolSpec.Push | exam/stack_exam.cpp:86-94 | push returns the post-growth free head `t`; slot `t` holds `v` and links to `head`; the free head becomes the old `next(t)`; no other slot changes |
| PoolSpec.Pop | exam/stack_exam.cpp:96-101 | pop of `x` returns the old `next(x)`, links `x` to the old free head and makes `x` the free head; `value(x)` and every other slot are unchanged |
| PoolSpec.TakeFree | exam/stack_exam.cpp:89-92 | taking the head of a non-empty free list and storing a value and link in it leaves the rest of the free list a chain |
| PoolSpec.PushFreeList | exam/stack_exam.cpp:88-90 | the handle a push returns is the head of the grown free list, and the rest of that list is the new free list |
| PoolSpec.PushKeepsOtherStack | exam/stack_exam.cpp:86-94 | a push never returns a slot of a caller's stack, and it leaves that stack's links and values unchanged |
| PoolSpec.PushOntoStack | exam/stack_exam.cpp:86-94 | after a push the returned handle heads the old stack with one slot in front, and the stack's values gain `v` on top |
| PoolSpec.PopFreeList | exam/stack_exam.cpp:96-101 | after a pop of a slot that is not free, the free list is that slot followed by the old free list |
| PoolSpec.PopKeepsOtherStack | exam/stack_exam.cpp:96-101 | a pop of `x` leaves every chain without `x` unchanged in links and values |
| PoolSpec.PopFromStack | exam/stack_exam.cpp:96-101 | a pop of a non-empty stack returns the head of the rest of the stack, whose values are the old values minus the top |
| PoolSpec.FreeStackStep | exam/stack_exam.cpp:146-152 | one round of `free_stack`: the popped top joins the front of the free list, so the free list lists the freed handles last first; the rest of the stack stays a chain disjoint from the free list; only the popped slots are relinked |
| PoolLayout.LayoutEmpty | exam/stack_exam.cpp:104 | the default-constructed pool (no slots, free head 0, no stacks) satisfies the whole-pool layout |
| PoolLayout.LayoutNewStack | exam/stack_exam.cpp:119 | handing out the sentinel as a new, empty stack keeps the layout |
| PoolLayout.LayoutReserve | exam/stack_exam.cpp:65-77 | growth keeps the layout, with the new slots on the free list, and leaves the values of every stack unchanged |
| PoolLayout.LayoutPush | exam/stack_exam.cpp:86-94 | push onto stack `i` keeps every slot on exactly one chain; stack `i` gains `v` on top; every other stack keeps its links and values |
| PoolLayout.LayoutPop | exam/stack_exam.cpp:96-101 | pop of a non-empty stack `i` keeps the layout with its top moved to the free list; every other stack keeps its links and values |
| PoolLayout.LayoutCount | exam/stack_exam.cpp:86-101 | conservation: free slots plus the slots of all stacks equal the capacity |
| PoolLayout.PushesReverse | exam/stack_exam.cpp:142 | last in, first out: after pushing `v1 .. vk` one after another, the stack's values are `vk .. v1` above what it held before |
| StackPools.StackPool.constructor | exam/stack_exam.cpp:104 | a default pool has no slots, free head 0 and an empty free list |
| StackPools.StackPool.WithCapacity | exam/stack_exam.cpp:105 | a pool constructed with `n` slots is `Reserve` applied to the empty pool, and its free list is `1 .. n` in order |
| StackPools.StackPool.NewStack | exam/stack_exam.cpp:119 | `new_stack` returns a handle whose only chain is the empty one (the sentinel) |
| StackPools.StackPool.Empty | exam/stack_exam.cpp:125 | `empty(x)` holds exactly when the stack headed by `x` has no slot |
| StackPools.StackPool.Value | exam/stack_exam.cpp:129-130 | `value(x)` is the top value of the stack headed by `x` |
| StackPools.StackPool.Next | exam/stack_exam.cpp:132-139 | `next(x)` is an error exactly when `x` is not in `1 .. capacity`; from the top of a stack it leads to the head of the rest of the stack |
| StackPools.StackPool.SetValue | exam/stack_exam.cpp:129 | writing through `value(x)` replaces the value of slot `x` only, and keeps its link and the free list |
| StackPools.StackPool.Reserve | exam/stack_exam.cpp:65-69 | `reserve(n)` leaves the pool as `PoolSpec.Reserve` describes, with the free list still a chain: the new handles, then the old free list |
| StackPools.StackPool.EmplaceBack | exam/stack_exam.cpp:71-77 | the append loop and the final link leave the pool as `PoolSpec.Reserve` describes and keep the free list a chain |
| StackPools.StackPool.CheckCapacity | exam/stack_exam.cpp:79-84 | the object's new state is the growth rule `PoolSpec.CheckCapacity` of the old one, and the grown handles are in front of the free list |
| StackPools.StackPool.Push | exam/stack_exam.cpp:86-94 | the new state and the returned handle are `PoolSpec.Push` of the old state; the free list loses its grown head |
| StackPools.StackPool.Pop | exam/stack_exam.cpp:96-101 | the new state and the returned handle are `PoolSpec.Pop` of the old state; the popped slot heads the free list |
| StackPools.StackPool.FreeStack | exam/stack_exam.cpp:146-152 | `free_stack` terminates on a stack, returns 0, and moves all of its slots onto the free list (last slot first); values stay, and every other stack keeps its links and values |
| StackPools.StackPool.Begin | exam/stack_exam.cpp:110 | `begin(x)` is a fresh iterator over this pool at handle `x` |
| StackPools.StackPool.EndIterator | exam/stack_exam.cpp:111 | `end(x)` is a fresh iterator at the sentinel, whatever `x` is |
| StackPools.Cursor.constructor | exam/stack_exam.cpp:22 | an iterator holds its pool and its handle |
| StackPools.Cursor.Deref | exam/stack_exam.cpp:23 | `*it` is the top value of the chain from the iterator's handle |
| StackPools.Cursor.Advance | exam/stack_exam.cpp:24-27 | `++it` moves the handle to `next` of the current one |
| StackPools.ChainNext | exam/stack_exam.cpp:132-139 | from the top of any chain through `x`, `next(x)` heads the rest of that chain |
| StackPools.TraverseStep | exam/stack_exam.cpp:23-25 | one step of an iteration reads the value at the current handle and moves to the head of the rest of the chain |
| StackPools.Traverse | exam/stack_exam.cpp:22-39 | iterating from `begin(h)` until the iterator equals `end(h)` yields exactly the values of the stack headed by `h`, top first |
| Driver.ScopeOne | exam/stack_exam.cpp:157-162 | in scope 1, the new stack is 0; the first push returns handle 1 in a pool of one slot; writing 77 through `value` reads back as 77 |
| Driver.ScopeTwoPushes | exam/stack_exam.cpp:172-178 | in scope 2, pushes of 10 and 11 return handles 1 and 2, and the push of 20 onto a second stack returns 3, doubling the pool to 4 slots |
| Driver.ScopeTwoReuse | exam/stack_exam.cpp:180-182 | the pop returns 1, and the next push reuses the freed slot 2 |
| Driver.ScopeTwo | exam/stack_exam.cpp:172-189 | scope 2 ends with handles 1 and 2 and capacity 4; stacks hold [10] and [21, 20]; the other stack is untouched by the pop and the reuse |
| Driver.PushAll | exam/stack_exam.cpp:195-218 | pushing `vs` in order leaves the stack holding `vs` last first above its old values; a second stack is unchanged |
| Driver.PushStep | exam/stack_exam.cpp:195-218 | one push of the sequence extends the stack's values by the next value on top and leaves the second stack and the free list as chains |
| Driver.MaxElement | exam/stack_exam.cpp:220 | the position `std::max_element` returns: the first position of a largest value |
| Driver.MinElement | exam/stack_exam.cpp:223 | the position `std::min_element` returns: the first position of a smallest value |
| Driver.ScopeThreeStacks | exam/stack_exam.cpp:192-218 | in a pool reserved with 22 slots, the two stacks hold their eleven digits each, last first |
| Driver.ScopeThree | exam/stack_exam.cpp:192-224 | iterating the two stacks yields their digits last first; the largest of the first is 9 and the smallest of the second is 1, as the driver asserts |
| Driver.DumpReadsPastEnd | exam/stack_exam.cpp:166-168 | the diagnostic loop as written starts at handle `capacity() + 1`, which is outside the storage for every capacity |
| Driver.Dump | exam/stack_exam.cpp:166-168 | the diagnostic loop with the bound corrected reads every slot's value, from the highest handle down to 1 |

## Left out

- Console output: the `std::cout` lines of `free_stack` (exam/stack_exam.cpp:148) and of `main`. The diagnostic loops are modelled as `Driver.Dump`, which returns the values it would print.
- `ap_error.hpp` and `instrumented.hpp` are not part of this model. The `AP_ERROR` bounds check on `next` is modelled as an `Err` result on `StackPools.StackPool.Next`. Where the check would abort the program (inside `pop`, `++` and `push`), the model states it as a precondition instead.
- `std::vector` internals, that is, reallocation and `capacity()` against `size()`: storage is an append-only sequence whose length is the capacity.
- StackPools.StackPool.Reserve: requires `n` above the capacity. With `n <= capacity()` the source's `_emplace_back` still appends one slot, a quirk no internal call reaches, so it is not modelled.
- StackPools.StackPool.Pop: requires the popped slot to be in range and not already free. The source does not check this. Popping a free slot corrupts the free list into a cycle, and the model does not describe that corruption.
- StackPools.Cursor.Advance: requires the handle to be in range, where the source's `next` would abort; advancing the end iterator is therefore outside the model.
- StackPools.StackPool.Value: requires the handle to be in range. The source reads outside the vector otherwise, which is undefined behaviour.
- StackPools.StackPool.FreeStack: requires the stack to be a chain (acyclic and 0-terminated) that shares no slot with the free list. On a cyclic chain the source loops forever.
- `StackPools.StackPool.Capacity` (the slot count) and `StackPools.Cursor.Equals` (handles compared, `operator!=` its negation) are plain accessors and carry no contract of their own.
- Fixed-width `size_t` arithmetic: handles and capacities are unbounded, so overflow when doubling is not modelled.
- C++-only mechanics are not modelled: `const_iterator` and `cbegin`/`cend`, postfix `++`, perfect forwarding into `node_t`, iterator traits. Also not modelled is writing through `next()`'s returned reference from outside the class.
- `std::max_element` and `std::min_element` are modelled as functions over the sequence the iteration produces, not over iterators.

## Findings

| source | as written | input that shows it | evidently intended | confidence | as-written member | corrected member |
|---|---|---|---|---|---|---|
| exam/stack_exam.cpp:166-168 (also 186-188 and 228-230) | the diagnostic loop starts at `i = capacity() + 1` and reads `value(i)` | scope 1: the pool has 1 slot, and the loop's first read is `value(2)`, position 1 of a one-slot vector | start at `capacity()` and read handles `capacity() .. 1` | not executed | Driver.DumpReadsPastEnd | Driver.Dump |
