# c-adts containers in Dafny

A model of the three containers of the c-adts library: the stack
(`src/stack_adt.c`), the queue (`src/queue_adt.c`) and the separate-chaining
hash table (`src/hashtable_adt.c`). Each container is an immutable Dafny value,
and each C function is a pure function from the old value to the new value
and the returned element or error. A caller reference (`Element`, a `void *`
that the containers never dereference) is `Common.Element`: the address it
holds, a natural number that is never 0. A NULL reference is `Option.None`,
so a NULL can never pass for a stored element. `errno` becomes
the `Fault` of a `Result`.

Each container has an abstraction function, and the contracts are stated
against it:

- `StackAdt.Contents`: the elements on the stack, bottom first.
- `QueueAdt.Elements`: the queue's window of the ring buffer, read oldest
  first.
- `HashTableAdt.Contents`: the key-to-item map that the chains represent.

A storage array is a `seq<Option<Element>>` whose length is the number of allocated
slots. A slot is `None` until it is written. The capacity field of the C
struct is kept separately from that length, so an array that is shorter than
its recorded capacity shows up in the model.

Modules:

- `Common` (`common.dfy`): the fault kinds, `Option`, `Result`, and the
  `Step` that a mutating operation returns (new state plus output).
- `Arith` (`arith.dfy`): multiplication and Euclidean-division facts.
- `Primes` (`primes.dfy`): `is_prime` and `get_next_prime`.
- `HashTableAdt` (`hashtable.dfy`), `StackAdt` (`stack.dfy`), `QueueAdt`
  (`queue.dfy`).

The model follows the code where the header comments say something else:

- The zero-size error of `cadtqueue_new` is `EPERM` in the code, while
  include/queue_adt.h:25 says `EINVAL`. The model has one fault kind,
  `InvalidArgument`, for a refused argument. The stack and queue signal it for
  a zero size (as `EPERM`), and the hash table signals it for a bad argument
  (as `EINVAL`). `Overflow` and `Underflow` are the stack's and queue's other
  `EPERM` cases. `KeyExists` is the hash table's `EEXIST`.
- The headers promise that a dynamic stack or queue halves only if the
  result is at least its creation size (include/stack_adt.h:21-23,
  include/queue_adt.h:22-23). The code checks only the usage ratio, so
  the model does the same. `StackAdt.ShrinksBelowMinimum` shows `new(5)`,
  one push and one pop leaving 2 slots. For the queue, the same path is the
  first step of `QueueAdt.ClearAsWrittenOverrunsBuffer`.
- The usage test `(double) n / (double) cap < 0.25` is modelled as
  `4 * n < cap`. The two agree for every size below 2^53.

## Model

| member | source | states |
|---|---|---|
| StackAdt.New | src/stack_adt.c:47-78 | size 0 is refused; otherwise an empty, valid, variable-size stack with capacity and minimum size equal to the request |
| StackAdt.NewFix | src/stack_adt.c:83-93 | as `New`, but the stack is fixed-size |
| StackAdt.Nelems | src/stack_adt.c:108-111 | the count is the length of the stack's contents |
| StackAdt.Clear | src/stack_adt.c:116-137 | the result is valid and empty, with the same minimum size and kind; a stack grown past its minimum becomes exactly a fresh `New(minSize)`; any other stack keeps its capacity |
| StackAdt.Push | src/stack_adt.c:142-165 | overflow exactly when the stack is fixed and full, and then the state is unchanged; otherwise returns `e`, contents become old contents + [e], and capacity doubles exactly when the stack was full; validity is preserved |
| StackAdt.Pop | src/stack_adt.c:170-194 | underflow exactly when empty, and then the state is unchanged; otherwise returns the last element and drops it from the contents; capacity halves exactly when the stack is dynamic and 4·count < cap before the removal; validity is preserved |
| StackAdt.PopUndoesPush | src/stack_adt.c:142-194 | a pop after a successful push returns the pushed element and restores the earlier contents (LIFO) |
| StackAdt.GrowablePushSucceeds | src/stack_adt.c:150-161 | a push on a variable-size stack never overflows |
| StackAdt.ClearIdempotent | src/stack_adt.c:116-137 | clearing twice equals clearing once |
| StackAdt.PushAll | src/stack_adt.c:142-165 | pushing a sequence onto a variable-size stack appends it to the contents |
| StackAdt.PopN | src/stack_adt.c:170-194 | popping k elements removes the last k |
| StackAdt.PushAllCapacity | src/stack_adt.c:150-161 | a stack created with size 1 and only pushed keeps as capacity the least power of two that holds its elements |
| StackAdt.PopNWithoutShrink | src/stack_adt.c:181-192 | pops that each find the stack at least a quarter used leave the capacity unchanged |
| StackAdt.DoublingOnPush | tests/test_stack_adt_priv.c:78-89 | the capacities from `new(1)` over five pushes are 1, 1, 2, 4, 4, 8 |
| StackAdt.HalvingOnPop | tests/test_stack_adt_priv.c:94-111 | 50 pushes onto `new(1)` give capacity 64, and 36 pops then give 32 |
| StackAdt.ShrinksBelowMinimum | src/stack_adt.c:181-192 | `new(5)`, one push and one pop leave capacity 2, below the minimum size 5 |
| QueueAdt.WrapIsRemainder | src/queue_adt.c:266-270 | the wrap-around index equals `(head + i) % cap`, so the tail is `(head + count - 1) % cap` |
| QueueAdt.Advance | src/queue_adt.c:269 | the conditional step `i == cap-1 ? 0 : i+1` is the wrap of `i + 1` |
| QueueAdt.New | src/queue_adt.c:122-155 | size 0 is refused; otherwise an empty, valid, dynamic queue with head = tail = 0 and capacity and minimum size equal to the request |
| QueueAdt.NewCircular | src/queue_adt.c:160-170 | as `New`, but the queue is fixed-size |
| QueueAdt.Nelems | src/queue_adt.c:185-188 | the count is the length of the queue's elements |
| QueueAdt.ShiftElements | src/queue_adt.c:52-76 | the new array has the requested length; its first `count` slots are the queue's window in order, for both the wrapped and the unwrapped layout; the rest are unwritten |
| QueueAdt.Resize | src/queue_adt.c:82-115 | relocation keeps the elements and validity, and sets head 0, tail count - 1 and capacity 2·cap or cap/2 |
| QueueAdt.PutAtTail | src/queue_adt.c:266-275 | storing at the advanced tail appends the element and keeps validity |
| QueueAdt.TakeHead | src/queue_adt.c:302-312 | reading at the head returns the first element and leaves the rest, keeping validity |
| QueueAdt.Enqueue | src/queue_adt.c:249-276 | overflow exactly when the queue is fixed and full, and then the state is unchanged; otherwise returns `e`, elements become old elements + [e], and capacity doubles exactly when the queue was full; validity is preserved |
| QueueAdt.Dequeue | src/queue_adt.c:281-313 | underflow exactly when empty, and then the state is unchanged; otherwise returns the first element and drops it; capacity halves exactly when the queue is dynamic and 4·count < cap before the removal; validity is preserved |
| QueueAdt.PeekFirst | src/queue_adt.c:219-229 | underflow exactly when empty; otherwise the first element |
| QueueAdt.PeekRear | src/queue_adt.c:234-244 | underflow exactly when empty; otherwise the last element |
| QueueAdt.ClearAsWritten | src/queue_adt.c:193-214 | the result records capacity minSize and is empty; its array keeps the old length unless the queue had grown; it is valid exactly when the old capacity was at least the minimum |
| QueueAdt.Clear | src/queue_adt.c:193-214 | the result is valid and empty, has capacity minSize and head = tail = 0, and keeps its kind |
| QueueAdt.ClearAgreesUnlessShrunk | src/queue_adt.c:193-214 | the corrected clear and the clear as written agree on every queue that has not shrunk below its minimum |
| QueueAdt.ClearIdempotent | src/queue_adt.c:193-214 | clearing twice equals clearing once |
| QueueAdt.ClearAsWrittenOverrunsBuffer | src/queue_adt.c:193-214 | `new(5)`, one enqueue and one dequeue give capacity 2; the clear as written then records 5 slots over a 2-slot array, which is invalid |
| QueueAdt.EnqueueAll | src/queue_adt.c:249-276 | enqueueing a sequence onto a dynamic queue appends it to the elements |
| QueueAdt.DequeueAll | src/queue_adt.c:281-313 | dequeueing until empty returns the elements in order |
| QueueAdt.FirstInFirstOut | src/queue_adt.c:249-313 | whatever is enqueued onto a new dynamic queue is dequeued in the same order |
| QueueAdt.DynamicEnqueueSucceeds | src/queue_adt.c:257-264 | an enqueue on a dynamic queue never overflows |
| QueueAdt.CircularWrapAround | tests/test_queue_adt_priv.c:128-159 | for any five element references a to e, the size-3 circular walk reaches head 2, tail 0 with d written over a, and then head 0, tail 1 with d, e in the first two slots |
| QueueAdt.DoublingUnwraps | tests/test_queue_adt_priv.c:164-196 | doubling the wrapped queue d, b, c (head 1, tail 0) lays out b, c, d from slot 0, with head 0, tail 2 and capacity 6 |
| QueueAdt.DynamicDoubling | tests/test_queue_adt_priv.c:231-240 | five enqueues onto `new(1)` give capacities 1, 2, 4, 4, 8 and keep the elements in order |
| QueueAdt.DequeueN | src/queue_adt.c:281-313 | dequeueing k elements removes the first k |
| QueueAdt.DequeueNWithoutShrink | src/queue_adt.c:293-300 | dequeues that each find the queue at least a quarter used leave the capacity unchanged |
| QueueAdt.HalvingOnDequeue | tests/test_queue_adt_priv.c:246-312 | a 48-slot queue of 12 elements halves to 24; seven dequeues keep 24 slots, and the eighth halves to 12 before removing, leaving the last four elements with head 1 and tail 4 |
| Primes.IsPrime | src/hashtable_adt.c:56-79 | true exactly when n is prime |
| Primes.TrialDivision | src/hashtable_adt.c:70-78 | the 6k±1 loop from a candidate `i` ≥ 5 answers false only after finding a proper divisor (`i` or `i + 2`, below n since `i * i <= n`), so false means n is not prime; the converse is `TrialDivisionCorrect` |
| Primes.TrialDivisionCorrect | src/hashtable_adt.c:70-78 | for n not divisible by 2 or 3 and without divisors below a candidate 6k-1, the 6k±1 loop from there answers exactly whether n is prime |
| Primes.NextPrimeFrom | src/hashtable_adt.c:84-91 | the upward search stops at the first prime at or after n |
| Primes.NextPrime | src/hashtable_adt.c:84-91 | the result is a prime, at least n, with no prime between n and it |
| Primes.Prime10007 | tests/test_hashtable_adt_priv.c:53 | 10007 is prime |
| Primes.Composite10001 | tests/test_hashtable_adt_priv.c:53 | 10001 is not prime |
| Primes.NextPrimeExamples | tests/test_hashtable_adt_priv.c:49-54 | the next prime from 1, 2, 31 and 10000 is 2, 2, 31 and 10007 |
| HashTableAdt.BucketIndex | src/hashtable_adt.c:43-51 | the bucket index is below the bucket count |
| HashTableAdt.FirstMatch | src/hashtable_adt.c:213-220 | the position of the first entry with the key, or the chain length when no entry has it |
| HashTableAdt.ChainLookup | src/hashtable_adt.c:205-229 | the walk finds the item of the first entry with the key, or nothing |
| HashTableAdt.Unlink | src/hashtable_adt.c:249-268 | agrees with the reference `RemoveFirstMatch`: removes exactly the first entry with the key, keeping the order of the rest, and returns its item; a chain without the key is returned unchanged |
| HashTableAdt.UnlinkOtherKey | src/hashtable_adt.c:252-266 | unlinking one key leaves every other key's lookup unchanged |
| HashTableAdt.UnlinkRemovesKey | src/hashtable_adt.c:252-266 | in a chain of distinct keys, the unlinked key is no longer found |
| HashTableAdt.ContentsAt | src/hashtable_adt.c:205-229 | a key is in the table's map exactly when the walk of its bucket finds it, and the map holds the item the walk finds |
| HashTableAdt.New | src/hashtable_adt.c:98-131 | a zero request or a missing hash function is refused; otherwise an empty valid table with nbuckets = nbucketsinitial = the next prime from the request, and every key's bucket inside the array (array sized to the rounded count) |
| HashTableAdt.NewAsWritten | src/hashtable_adt.c:115-126 | a zero request or missing hash is refused; otherwise a valid empty table (nelems 0, empty map) whose array has the requested length while nbuckets is the next prime, so the two agree exactly when the request is prime |
| HashTableAdt.NewAsWrittenBucketOverrun | src/hashtable_adt.c:115-126 | `new(1)` gives a 1-slot array with nbuckets 2, where a key hashing to 1 selects a slot outside the array |
| HashTableAdt.Lookup | src/hashtable_adt.c:194-230 | a NULL or empty key is refused; otherwise the item the key maps to, or nothing |
| HashTableAdt.PrependKeepsInvariant | src/hashtable_adt.c:178-186 | prepending an absent key's entry to its bucket keeps the invariant and adds the key to the map |
| HashTableAdt.Insert | src/hashtable_adt.c:146-189 | bad arguments are refused and a present key is refused as existing, both leaving the table unchanged; otherwise returns `e`, the map gains key ↦ e, nelems grows by 1, and only the key's bucket changes, by a prepend |
| HashTableAdt.UnlinkKeepsInvariant | src/hashtable_adt.c:252-266 | unlinking a present key keeps the invariant and removes exactly that key from the map |
| HashTableAdt.Delete | src/hashtable_adt.c:236-269 | bad arguments are refused; an absent key returns nothing and leaves the table unchanged; a present key returns its item, leaves the map without it, lowers nelems by 1, and changes only its bucket by removing the first match |
| HashTableAdt.DeleteKey | src/hashtable_adt.c:249-268 | the walk after the argument checks: an absent key leaves the table as it was; a present key's item is returned, the key leaves the map, nelems drops by 1, and only its bucket changes |
| HashTableAdt.LookupAfterInsert | src/hashtable_adt.c:146-230 | after an insert, the inserted key finds the new item and every other key finds what it found before |
| HashTableAdt.InsertTwiceRefused | src/hashtable_adt.c:158-162 | inserting a key that is present is refused as existing and changes nothing |
| HashTableAdt.DeleteUndoesInsert | src/hashtable_adt.c:146-269 | deleting a key just inserted returns its item and restores the earlier map and count |
| HashTableAdt.NelemsCountsKeys | src/hashtable_adt.c:180-186 | on a valid table, nelems is the number of keys in the map |

## Left out

- Allocation failure (`malloc`, `calloc`, `realloc` returning NULL) is not modelled; every allocation succeeds. Also left out: the `perror` output, and the `ENOMEM` paths that leave a half-updated struct or skip a dequeue.
- `cadtstack_destroy`, `cadtqueue_destroy` and `cadthashtable_destroy` only free memory. Memory ownership and leaks are not modelled.
- A NULL hash-table handle is not modelled, because a Dafny value cannot be NULL. NULL keys and NULL items are modelled with `Option`.
- Width of `size_t`: indices, sizes and `i * i` in `is_prime` are unbounded integers, so overflow of `cap * 2` or `i * i` is not modelled.
- The caller's hash function is an arbitrary total function from key bytes to naturals; its `size_t` result width is not modelled, since only its remainder modulo `nbuckets` is used.
- Primes.NextPrimeExamples: it proves the examples 1, 2, 31 and 10000 but not 524287 → 524287 or 2147483630 → 2147483647 from the same test, because evaluating those trial divisions step by step is too costly for the verifier.
- HashTableAdt.Lookup, HashTableAdt.Insert and HashTableAdt.Delete require that the key's bucket lies inside the allocated array. The source indexes the array without that check. The corrected `New` establishes it for every key, and `NewAsWrittenBucketOverrun` shows that creation as written does not.
- `src/main.c` calls functions the library does not have and is not part of this model. `include/common/data_types.h` only defines `Element`, which is `Common.Element` here, a non-zero address.
- Storing a NULL element in a stack or queue is not modelled: `cadtstack_push` (src/stack_adt.c:163) and `cadtqueue_enqueue` (src/queue_adt.c:272) store `e` without checking it, and a later pop or dequeue then returns NULL, which a caller cannot tell from underflow. `Push` and `Enqueue` take a non-NULL `Element`.
- `resize_contents_array` is modelled only for the two factors it is called with (2.0 and 0.5). It is modelled only on a dynamic queue with at least one element and no more elements than the new array holds, which is how both callers use it.

## Findings

| source | as written | input that shows it | evidently intended | confidence | as-written member | corrected member |
|---|---|---|---|---|---|---|
| src/queue_adt.c:196-212 | `cadtqueue_clear` reallocates only when `curr_max_size > min_size`, but then always sets `curr_max_size = min_size` | `cadtqueue_new(5)`, enqueue, dequeue (capacity halves to 2, since 1 < 5/4), then clear: the 2-slot array is recorded as having 5 slots, and the third enqueue writes past its end | reallocate whenever the capacity differs from `min_size` | high, not executed | QueueAdt.ClearAsWritten, QueueAdt.ClearAsWrittenOverrunsBuffer | QueueAdt.Clear |
| src/hashtable_adt.c:115-126 | the chain-head array is allocated with the requested count, and `nbuckets` is raised to the next prime afterwards | `cadthashtable_new(1, h)` with `h` returning 1: the array has 1 slot, `nbuckets` is 2, and any insert or lookup indexes slot 1 | allocate the array after rounding the count up to a prime | high, not executed | HashTableAdt.NewAsWritten, HashTableAdt.NewAsWrittenBucketOverrun | HashTableAdt.New |
