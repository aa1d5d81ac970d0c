# lab0-c queue: a verified model

This project models the string queue of lab0-c's `queue.c`. The queue is a
circular doubly-linked list built from the kernel-style `list_head`. A bare
sentinel node anchors it, and each `element_t` embeds its own links next to
a copied string. The model covers these operations:

- creating a queue (`q_new`)
- inserting at the head or tail (`q_insert_head`, `q_insert_tail`)
- unlinking the head or tail element with a bounded copy of its value
  (`q_remove_head`, `q_remove_tail`)
- counting (`q_size`)
- deleting the middle element with the slow/fast walk (`q_delete_mid`)
- freeing the queue (`q_free`)
- the `list.h` primitives these call: `INIT_LIST_HEAD`, `list_add`,
  `list_add_tail`, `list_del` and `list_empty`

`list.h` is not part of this model. Its primitives are modelled with their
standard Linux-kernel meaning:

- `list_add` inserts after the head.
- `list_add_tail` inserts before the head.
- `list_del` joins a node's two neighbours. It is modelled without
  `LIST_POISONING`, so the node's own links are left stale.
- `list_empty` tests `head->next == head`.

Memory is an arena, `Heap = map<Ptr, Node>`, and `Null` (0) is never
allocated. A `Head` node is a sentinel. An `Elem` node is an element: its
links and its value live at one address, so `container_of` is the identity.

The abstract queue is the sequence of element nodes met walking `next` from
the sentinel. Each operation takes this sequence as a ghost argument.
`ListHead.Valid` ties the sequence to the links:

- `next` and `prev` agree at every node.
- The ring closes at the sentinel.
- Every listed node is an allocated element.

`ListHead.OrderDetermined` proves that the links fix this sequence uniquely.
`ListHead.Contents` gives the queue's strings.

Allocation is an input:

- `malloc` supplies a fresh block, or `Null` when it fails.
- `strdup` either succeeds or fails, given as a boolean.
- `free` and `q_release_element` remove a block from the arena.

A stored string is a `CStr`, a character sequence with no NUL; its
terminator is implicit. The bytes written into a caller's buffer are modelled
as the sequence stored from `sp[0]` on. `bufsize` is a `size_t`, so it is
below 2^64. The remove operations return two copies:

- `written` is what the code stores into the buffer.
- `copied` is the corrected bounded copy.

Where the code and its description disagree, the model follows the code:

- `q_delete_mid` removes the element at 0-based index `(n - 1) / 2`. For six
  elements that is the third, index 2, which matches the six-element example
  in its comment.
- It is not index `n / 2`, which the comment's first sentence names (index 3
  for six elements).
- The model proves the index the code computes.

## Model

| member | source | states |
|---|---|---|
| `Queue.New` | queue.c:18-25 | A failed allocation yields NULL and leaves the arena unchanged. Otherwise the block becomes a valid queue with no elements, its sentinel linked to itself, and every other block is unchanged. |
| `ListHead.InitListHead` | queue.c:23 | The initialised block is a valid empty queue: next and prev are the sentinel itself. No other block changes. |
| `Queue.InsertHead` | queue.c:52-79 | Success happens exactly when the queue is non-NULL and both allocations succeed. The values then become `[s] + old`: the new element holds a copy of `s` and is linked first. Exactly one block is added, and nodes off the queue are untouched. On failure the arena is exactly as before, so nothing stays allocated. |
| `Queue.InsertTail` | queue.c:88-115 | The same as `InsertHead`, except that on success the values become `old + [s]`. |
| `Queue.Fresh` | queue.c:60-69 | A successful `malloc` of the element and `strdup` of `s` add exactly one block. It is an element holding `s`, and every existing block is unchanged. |
| `ListHead.Link` | queue.c:77 | `__list_add` only relinks: blocks, kinds and values are kept. Only the new node and its two neighbours change, and each gets the expected links. |
| `ListHead.ListAdd` | queue.c:77 | `list_add` only relinks. For a node distinct from the sentinel and its successor, it is placed between them: `head->next` is the node, and the old first node's `prev` is the node. `ListAddValid` states what this does to the queue. |
| `ListHead.ListAddTail` | queue.c:113 | `list_add_tail` only relinks. For a node distinct from the sentinel and its predecessor, it is placed between them: `head->prev` is the node, and the old last node's `next` is the node. `ListAddTailValid` states what this does to the queue. |
| `ListHead.ListAddValid` | queue.c:77 | `list_add` of a fresh element onto a valid queue gives a valid queue with order `[node] + order` and values `[value] + old`. Nodes outside the ring are unchanged. |
| `ListHead.ListAddTailValid` | queue.c:113 | `list_add_tail` of a fresh element gives a valid queue with order `order + [node]` and values `old + [value]`. Nodes outside the ring are unchanged. |
| `ListHead.ListDel` | queue.c:137 | `list_del` only relinks. Only the node's two neighbours change: `prev->next` becomes `next` and `next->prev` becomes `prev`. |
| `ListHead.ListDelValid` | queue.c:137 | Unlinking the i-th element of a valid queue leaves a valid queue. It holds the other elements in order, and their values are the old values without the i-th. The unlinked node itself is untouched, so it stays allocated. |
| `ListHead.ListDelSelfLinked` | queue.c:227 | `list_del` on a node linked only to itself, such as the sentinel of an empty queue, changes nothing. |
| `ListHead.ReleaseValid` | queue.c:40 | Releasing a block that is not on the ring keeps the queue valid, with the same values. |
| `ListHead.ListEmpty` | queue.c:133 | The `list_empty` test `head->next == head`. It has no contract of its own; `ListEmptyIffNoElements` states its meaning. |
| `ListHead.ListEmptyIffNoElements` | queue.c:133 | On a valid queue, `list_empty` holds exactly when the queue has no elements. |
| `ListHead.LinksAgree` | queue.c:135-137 | The link invariant holds at every node of the ring: `next(prev(x)) == x` and `prev(next(x)) == x`, and both neighbours are allocated. |
| `ListHead.OrderDetermined` | queue.c:201 | Two element orders that are both valid for one sentinel are equal, so the traversal order is determined by the links. |
| `Queue.RemoveHead` | queue.c:131-152 | An empty queue yields NULL and nothing changes. Otherwise the first element is returned still allocated with its value, and the queue becomes `order[1..]` with values `old[1..]`. When `sp` is given, `written` is the code's copy of that value. It is `bufsize + 1` bytes when the value is exactly `bufsize` long. For `bufsize > 0` and any other length it equals the corrected copy `copied`, which never exceeds `bufsize` bytes. No block is added or freed. |
| `Queue.RemoveTail` | queue.c:158-178 | The same as `RemoveHead` for the last element: the queue becomes `order[..n-1]` with values `old[..n-1]`, and the buffer copies are those of the last value. |
| `CStrings.CopyToBuffer` | queue.c:140-148 | The copy step measures the value, then copies it as the code does. The result is the coded copy with its terminator. It overruns by one byte when the value is exactly `bufsize` long. For `bufsize > 0` and any other length it is identical to the corrected copy. |
| `CStrings.StrLen` | queue.c:140-142 | The length loop stops at the terminator, so it returns exactly the stored string's length. |
| `CStrings.Strncpy` | queue.c:144-147 | `strncpy` stores exactly `n` bytes: the source's characters up to its end, then NUL padding. The padding makes a wrapped count of `SIZE_MAX` fill `SIZE_MAX` bytes. |
| `CStrings.CopyOut` | queue.c:121-122 | The corrected copy writes at most `bufsize` bytes. For `bufsize > 0` it writes the first `min(len, bufsize-1)` characters of the value and then a terminator. It writes the whole value when the value fits, and nothing into a zero-byte buffer. |
| `CStrings.CopyAsWritten` | queue.c:139-149 | The copy as coded writes the `strncpy` region and puts the terminator right after it. That region is a prefix of the value unless it is longer than the value. |
| `CStrings.CopyOverrunsAtFullLength` | queue.c:143-148 | When `len == bufsize`, the code writes the terminator at `sp[bufsize]`, one byte past the buffer. |
| `CStrings.CopyOverrunsAtZeroSize` | queue.c:143-148 | With `bufsize == 0` the code always writes outside the buffer. For a non-empty value, `bufsize - 1` wraps to the largest `size_t`. |
| `CStrings.CopyAsWrittenAgreesElsewhere` | queue.c:143-148 | For `bufsize > 0` and `len != bufsize`, the coded copy stays in bounds and equals the corrected copy. |
| `Queue.Size` | queue.c:194-204 | A NULL queue counts 0. Otherwise the walk from the sentinel back to itself counts exactly the number of elements. |
| `Queue.WalkGuard` | queue.c:220 | With `fast` at ring position f, the loop guard holds exactly when 0 < f < n, that is when neither `fast` nor `fast->next` is the sentinel. |
| `Queue.WalkStep` | queue.c:221 | One round moves `slow` from ring position s to s + 1, and moves `fast` from 2s to 2s + 2, wrapping to the sentinel. |
| `Queue.MidNode` | queue.c:218-222 | The slow/fast walk stops with `slow` on element `(n - 1) / 2`, and on the sentinel itself for an empty queue. |
| `Queue.DeleteMidAsWritten` | queue.c:213-229 | The code as written returns false only for a NULL queue. A non-empty queue loses exactly element `(n - 1) / 2`: it is freed, the rest stay valid and in order, and nothing else changes. An empty queue has its sentinel, a bare `list_head` and not an element, handed to `q_release_element`. The model records that the sentinel block leaves the arena. |
| `Queue.DeleteMid` | queue.c:206-229 | Success happens exactly for a non-NULL, non-empty queue, and on failure nothing changes. On success exactly element `(n - 1) / 2` is removed and freed, and the other elements keep their order and values. |
| `Queue.ReleaseFirst` | queue.c:38-40 | Unlinking and releasing the first element of a valid queue leaves a valid queue of the others. Only that block leaves the arena, and no node off the ring changes. The saved successor is the new first node. |
| `Queue.FreeStep` | queue.c:37-41 | One round of the `list_for_each_safe` walk keeps its invariant. The remaining elements form a valid queue, exactly the elements already visited have left the arena, and nothing off the ring changes. |
| `Queue.Free` | queue.c:28-43 | Exactly the queue's blocks, the sentinel and every element, leave the arena. Every other block is kept unchanged. |

## Left out

- `q_delete_dup`, `q_swap`, `q_reverse` and `q_sort` (queue.c:241-269) are empty stubs. Modelling an intended behaviour for them would be invented.
- k-group reversal, ascend/descend filtering and the multi-queue merge have no code in `queue.c`.
- `q_release_element` (queue.c:184-188) and `free` are modelled only as removing a block from the arena. `strdup`'s separate string block is folded into the element.
- The `#if DEBUG` `printf` output is not modelled.
- The test harness and its allocation-failure injection are not modelled. The allocation outcome is an input instead.
- `Queue.RemoveHead` and `Queue.RemoveTail` require a valid, non-NULL queue, because the code reads `head->next` unconditionally (queue.c:133, queue.c:160).
- `Queue.Free` requires a valid, non-NULL queue for the same reason (queue.c:37).
- `Queue.RemoveHead`: the bound `|copied| <= bufsize` belongs to the corrected copy `CStrings.CopyOut`, not to the code at queue.c:143-148. What the code stores is `written`, and it overruns the buffer as the first two Findings rows show.
- `Queue.RemoveTail`: the same holds for the copy at queue.c:170-175.
- `Queue.DeleteMidAsWritten`: on an empty queue the code hands the bare sentinel to `q_release_element` (queue.c:223-228). `container_of` on the sentinel does not yield an `element_t`. So `q_release_element` reads `value` from outside the sentinel's block and passes `free` pointers that `malloc` did not return, which is undefined behaviour. The model abstracts this as removing the sentinel block. Only `released`, a `Head` node, shows that the released node is not an element.
- The `int` counters in `q_size` and in the length loop are unbounded in the model. Overflow past 2^31 - 1 elements or characters is not modelled.
- The stale links left in an unlinked node are kept as they were. List poisoning is not modelled, because `list.h` is not part of this model.
- Strings with embedded NUL bytes cannot be stored in C, so `CStr` excludes them.
- A `CStr` character stands for one byte of the C string. The model does not restrict characters to byte values, which is harmless because the operations only compare against NUL and copy.
- `size_t` is taken as 64 bits wide, as on an LP64 platform (`SizeTModulus` is 2^64). Other widths are not modelled.
- The bytes of a caller's buffer beyond those written are not modelled.

## Findings

| source | as written | input that shows it | evidently intended | confidence | as-written member | corrected member |
|---|---|---|---|---|---|---|
| queue.c:143-148 | truncates only when `len > bufsize`; otherwise copies `len` characters and writes `sp[len] = '\0'` | value `"ab"`, `bufsize` 2: the terminator goes to `sp[2]`, one past the buffer | truncate when `len >= bufsize`, so at most `bufsize - 1` characters plus a terminator are written (queue.c:121-122) | high, not executed | `CStrings.CopyOverrunsAtFullLength` | `CStrings.CopyOut` |
| queue.c:143-145 | computes `bufsize - 1` in `size_t` with no check for 0 | value `"ab"`, `bufsize` 0: `strncpy` is given the largest `size_t`, and the terminator goes to `sp[SIZE_MAX]` | a zero-byte buffer receives nothing | medium, not executed | `CStrings.CopyOverrunsAtZeroSize` | `CStrings.CopyOut` |
| queue.c:216-228 | checks only for a NULL queue, then unlinks and releases whatever `slow` reaches | an empty queue: `slow` is the sentinel, which is unlinked and released as if it were an element | return false for an empty queue, as the comment says (queue.c:211) | high, not executed | `Queue.DeleteMidAsWritten` | `Queue.DeleteMid` |

The remove operations return both copies: the coded one as `written`, and the corrected `CStrings.CopyOut` as `copied`.
