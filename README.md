# Sequential model of `threadsafe_list` and `lock_free_stack`

Two small in-place linked structures from a repository of concurrency notes, with their
locks and atomics erased and their single-threaded meaning verified in Dafny.

- `threadsafe_list<T>` is a singly linked list of heap nodes. Its first node, `head`, is a
  sentinel that is part of the list object and holds no user data. `push_front` splices a
  node in right after the sentinel. `for_each` calls a callback on every element, front to
  back. `find_first_if` returns the data of the first element matching a predicate, or a
  newly made default-constructed value when none matches. `remove_if` unlinks every
  matching node. After an unlink it stays on the same predecessor, so runs of adjacent
  matches all go.
- `lock_free_stack<T>` has only `push`. It allocates a node, points it at the current
  `head`, and retries `compare_exchange_weak` until `head` is the new node. Each failed
  attempt refreshes the node's `next` from `head`.

Files:

- `list_spec.dfy` (module `ListSpec`) gives the value-level meaning of the traversals.
  `RemoveMatching` is what `remove_if` leaves. `IndexOfFirst` is where `find_first_if`
  stops. The module also proves lemmas about both.
- `threadsafe_list.dfy` (module `ThreadsafeList`) models the list.
  - Heap classes: `Cell` is the pointee of a node's `shared_ptr<T>`. `Node` has a
    constant `data` cell (null for the sentinel) and a mutable `next`. `List` has the
    sentinel `head`.
  - Ghost state: a `nodes` sequence and a `Contents` sequence.
  - `Valid()` says that following `next` from the sentinel visits exactly `nodes` and
    ends in null, and that node `i` holds `Contents[i]`.
  - `Acyclic` proves that no node occurs twice.
  - `PushFront`, `ForEach`, `FindFirstIf` and `RemoveIf` are the operations. The three
    traversals are `while` loops stepping a `pcurrent` pointer, as in the source.
- `lock_free_stack.dfy` (module `LockFreeStack`) models the stack.
  - `Chain` ties `head` to a ghost `nodes` and `Contents`.
  - `CompareExchangeWeak` is compare-and-set executed alone, with a `spurious` flag for
    the failures `compare_exchange_weak` may have even when the values are equal.
  - `Push` holds the retry loop.
- `scenarios.dfy` (module `Scenarios`) holds client scenarios with contracts:
  - three `push_front` calls are visited newest first;
  - `remove_if` removes both runs of matches, and a following `find_first_if` finds
    nothing;
  - `find_first_if` returns the first match's own cell;
  - three stack pushes stack up in order, whatever the number of retries.

Two points about the start and end states:

- When nothing matches, `find_first_if` returns `std::make_shared<T>()`
  (threadsafe_list.h:90), not an absent result. The model returns a newly made cell
  holding `defaultValue`, which stands for `T()`. The contract proves this cell is fresh
  and none of the list's stored cells.
- The stack declares no constructor (lock_free_stack.h:19), so whether `head` starts null
  depends on how the object is created. It starts null under value-initialisation
  (`lock_free_stack<T>{}`), for an object with static storage, and since C++20, where
  `std::atomic`'s default constructor value-initialises its value. Before C++20, plain
  default-initialisation of an automatic or dynamic object leaves `head` indeterminate.
  The model's constructor starts from null, the empty stack.

Inputs that the model takes as parameters:

- The callback of `for_each` is a pure function `f: T -> R`. The model returns the
  sequence of its results, one per call, in call order.
- Predicates are pure functions `T -> bool`.
- `T()` is the value `defaultValue`.
- Spurious CAS failures are given as a count, `spuriousFailures`. The count is only a
  termination measure: `Push`'s postcondition is proved for every count.

## Model

| member | source | states |
|---|---|---|
| ListSpec.RemoveMatching | threadsafe_list.h:98-116 | the elements left by removing matches are never more than the original ones |
| ListSpec.IndexOfFirst | threadsafe_list.h:76-90 | the search position lies within the list; if it is inside, that element matches `p`; no element before it matches |
| ListSpec.RemoveMatchingAppend | threadsafe_list.h:98-116 | removing the matches from a concatenation gives the removal from the first part followed by the removal from the second |
| ListSpec.RemoveMatchingNoneLeft | threadsafe_list.h:101-109 | no surviving element satisfies `p`, including later members of a run of adjacent matches |
| ListSpec.RemoveMatchingMembers | threadsafe_list.h:98-116 | a value survives exactly when it was present and does not satisfy `p` |
| ListSpec.RemoveMatchingNothing | threadsafe_list.h:110-115 | the removal changes nothing exactly when no element satisfies `p` (both directions) |
| ListSpec.RemoveMatchingIdempotent | threadsafe_list.h:94-117 | a second `remove_if` with the same predicate removes nothing |
| ListSpec.SearchAfterRemoveFindsNothing | threadsafe_list.h:71-117 | after `remove_if(p)`, the search for `p` runs to the end of the list |
| ThreadsafeList.Cell.constructor | threadsafe_list.h:19 | a new pointee holds exactly the value copied into it |
| ThreadsafeList.Node.Sentinel | threadsafe_list.h:18 | the default-constructed node has no data and no successor |
| ThreadsafeList.Node.constructor | threadsafe_list.h:19-20 | a data node holds a fresh copy of the value and has no successor |
| ThreadsafeList.LinkedNodesDistinct | threadsafe_list.h:12-25 | in a chain that ends in null, no node appears at two positions |
| ThreadsafeList.List.Acyclic | threadsafe_list.h:23-25 | a valid list's chain from the sentinel has no cycle |
| ThreadsafeList.List.constructor | threadsafe_list.h:25-30 | a new list is just the sentinel: valid and empty |
| ThreadsafeList.List.PushFront | threadsafe_list.h:38-45 | a fresh node with a newly made data cell holding `value` becomes the first after the sentinel; contents become `[value] + old contents`; the other nodes are kept in order |
| ThreadsafeList.List.ForEach | threadsafe_list.h:47-68 | `f` is applied once to every element, front to back, in list order; nothing is modified |
| ThreadsafeList.List.FindFirstIf | threadsafe_list.h:70-91 | the result is the data cell of the first node satisfying `p`; if none does, it is a newly made cell holding the default value, none of the stored cells; nothing is modified |
| ThreadsafeList.List.UnlinkAfter | threadsafe_list.h:104-105 | setting `pcurrent->next` to the successor's `next` drops exactly that one node and its value; the list stays valid |
| ThreadsafeList.List.RemoveIf | threadsafe_list.h:94-117 | the contents become exactly the old contents with the matches filtered out, in order; the surviving nodes are exactly the old nodes whose data does not match, in their old order, so each kept value stays in its own cell; the sentinel stays; the loop ends because each pass unlinks a node or advances `pcurrent` |
| ThreadsafeList.RemoveStep | threadsafe_list.h:101-115 | one pass of the loop keeps the final outcome: dropping a match without advancing, or advancing past a non-match |
| LockFreeStack.Node.constructor | lock_free_stack.h:13-16 | a new node holds the data and has a null `next` |
| LockFreeStack.Stack.constructor | lock_free_stack.h:19 | the stack starts empty with a null `head`; the source gets this state from value-initialisation, static storage or C++20's `std::atomic` default constructor |
| LockFreeStack.Stack.Acyclic | lock_free_stack.h:9-19 | the chain from `head` has no cycle |
| LockFreeStack.ChainNodesDistinct | lock_free_stack.h:9-19 | in a chain that ends in null, no node appears at two positions |
| LockFreeStack.ChainPrepend | lock_free_stack.h:26-31 | a node whose `next` is the top of a chain is the top of a chain one longer, whose old part is intact and in order |
| LockFreeStack.Stack.CompareExchangeWeak | lock_free_stack.h:31 | it succeeds exactly when `head` equals `expected` and the failure is not spurious; on success `head` becomes `desired`; on failure `head` is unchanged and the current `head` is handed back |
| LockFreeStack.Stack.Push | lock_free_stack.h:22-32 | afterwards `head` is a fresh node holding `data` whose `next` is the old head; the chain is one longer and stays valid; contents become `[data] + old contents`, for any number of spurious retries |
| Scenarios.ListVisitsNewestFirst | threadsafe_list.h:38-68 | after `push_front` of 1, 2, 3, `for_each` visits 3, 2, 1 |
| Scenarios.OnesAroundTwo | threadsafe_list.h:38-45 | five `push_front` calls build the list 1, 1, 2, 1, 1 out of fresh nodes |
| Scenarios.RemoveOnes | threadsafe_list.h:98-116 | removing the 1s from 1, 1, 2, 1, 1 leaves 2 |
| Scenarios.ListRemovesRunsThenFindsNothing | threadsafe_list.h:71-117 | `remove_if(v == 1)` on 1, 1, 2, 1, 1 leaves only 2; `find_first_if(v == 1)` afterwards returns a default-valued cell that is not the list's own |
| Scenarios.ListFindsFirstMatch | threadsafe_list.h:76-84 | on 1, 2, 2 the first even value is found in the second node, and the returned cell is that node's own |
| Scenarios.DefaultCellIsNotPushedCell | threadsafe_list.h:38-90 | the default cell a failed `find_first_if` returns holds the same value as a later `push_front(0)` but is a different cell, since both are newly made |
| Scenarios.StackPushOrder | lock_free_stack.h:22-32 | pushing 1, 2, 3 leaves 3 on top of 2 on top of 1 and then null, for any retry counts |

## Left out

- The per-node mutexes, `lock_guard` and `unique_lock`, and the hand-over-hand lock order (threadsafe_list.h:14, 42, 51-66, 74-87, 96-114). They provide mutual exclusion and deadlock freedom between threads, which a sequential model cannot express.
- The atomicity of `std::atomic<node*>`, memory ordering, lock-freedom and behaviour under interleavings (lock_free_stack.h:19, 31). The compare-and-swap is modelled as a sequential compare-and-set that may fail spuriously.
- Memory reclamation, because Dafny's heap is garbage-collected. This covers the destruction of unlinked nodes through `unique_ptr`, the unlock-before-destroy step (threadsafe_list.h:104-108), and the stack's lack of any deallocation.
- The reference counting of `shared_ptr` data (threadsafe_list.h:9, 15, 19). A cell stands for the shared pointee, and comparing cells compares pointers.
- Exceptions thrown by callbacks, the deleted copy operations (threadsafe_list.h:34-35) and the defaulted destructor (threadsafe_list.h:32).
- ThreadsafeList.List.ForEach: `f` is a pure function, so a callback that changes the element through the `shared_ptr` it receives, or has other side effects, is not modelled. Only the order and number of calls, and what each call receives, are captured.
- ThreadsafeList.Cell: `value` is constant, but the pointee of a `shared_ptr<T>` is mutable. A caller can change a stored element in place through the `shared_ptr` that `find_first_if` returns (threadsafe_list.h:83). Such writes, and the changed contents they would cause, are not modelled.
- ThreadsafeList.List.FindFirstIf: `p` is a pure function of the stored value, not of the `shared_ptr`. `T()` is the parameter `defaultValue`, because `T`'s default constructor is code outside this model.
- LockFreeStack.Stack.Push: the retries are bounded by the `spuriousFailures` parameter. A run that fails spuriously forever is not modelled. Single-threaded, a non-spurious failure cannot happen, so the branch where another thread moves `head` is reachable only inside `CompareExchangeWeak`.
- A `pop` for the stack is not modelled, because the source defines none.
