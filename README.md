# Toast queue

A model of the toast store of matrix-react-sdk (`src/stores/ToastStore.ts`): the
in-memory, ordered list of "toast" notices that producers show, replace and hide by
key, and that the view layer reads to render the front toast.

- `toast_queue.dfy`, module `ToastQueue`: the records (`ToastRequest` as a caller hands
  it in, with an optional priority; `Toast` as the store holds it), the priorities
  0 (realtime), 1 (default) and 2 (low), and the add-or-replace and dismiss steps as
  functions on sequences (`IndexOfKey` for `findIndex`, `InsertionPoint` for the
  backwards scan, `Upsert`, `Without` for `filter`), with the lemmas that state the
  queue's policy: unique keys, band-append insertion, replace-in-place, dismissal that
  keeps order, and what a run of calls keeps.
- `toast_store.dfy`, module `Stores`: the class `ToastStore` with the `toasts` list as
  a field that its methods reassign, and `updateCount`, the number of `update`
  notifications emitted so far. `AddOrReplaceToast` keeps the source's `while` loop
  that walks back from the end to find the insertion index; its loop invariant proves
  the index is `InsertionPoint`. Each mutating method's postcondition ties the new list
  to the specification function of the old one and states the new emission count.
- `scenarios.dfy`, module `Scenarios`: four call sequences on the class, with the list
  each one is proved to leave (an urgent toast jumps ahead; one band keeps arrival order; a
  replacement with a new priority stays where it is; dismissing the middle toast and
  then an absent key, and a reset that does not emit).

Points where the code's behaviour is easy to misread:

- `dismissToast` removes every toast with the key (a `filter`), not just one; with
  unique keys the two agree (`DismissRemovesOne`).
- "Priorities are non-decreasing" is not kept by every call: a replacement with a
  different priority stays in place (`ReplaceCanUnsort`). It is kept by every new key
  (`UpsertNewKeepsSorted`), by a replacement with the same priority
  (`ReplaceSamePriorityKeepsSorted`) and by every dismissal (`WithoutKeepsSorted`).
- The code does not check a priority at all: the parameter of `addOrReplaceToast` is
  untyped, and only a missing (`undefined`) priority is replaced by the default.
  Restricting priorities to 0, 1 and 2 (the `Priority` subset type) is a modelling
  choice; see "## Left out".

## Model

| member | source | states |
|---|---|---|
| `ToastQueue.WithDefaultPriority` | src/stores/ToastStore.ts:56-57 | a missing priority becomes 1 (the default); a given priority, the key and the payload are kept |
| `ToastQueue.IndexOfKey` | src/stores/ToastStore.ts:59 | the result is -1 exactly when no toast has the key; otherwise the toast there has the key and none before it does |
| `ToastQueue.InsertionPoint` | src/stores/ToastStore.ts:60-62 | the index is within the list, the toast before it (if any) has priority at most p, and every toast from it on has priority strictly greater than p |
| `ToastQueue.InsertionPointCharacterized` | src/stores/ToastStore.ts:61-62 | an index is the insertion point if and only if it has those two properties |
| `ToastQueue.InsertionPointIsLeast` | src/stores/ToastStore.ts:61-62 | the insertion point is the smallest index from which every toast has a strictly greater priority |
| `ToastQueue.InsertionPointSplitsSorted` | src/stores/ToastStore.ts:47-52 | on a sorted list, a toast has priority at most p if and only if it stands before the insertion point |
| `ToastQueue.Upsert` | src/stores/ToastStore.ts:56-66 | the new toast is in the result; the length grows by one exactly when the key was absent; every other toast of the result was already there |
| `ToastQueue.UpsertNewKey` | src/stores/ToastStore.ts:60-63 | a new key grows the list by one; the toast sits at the insertion point with the old toasts unchanged and in order before and after it; the one before is at most as low in priority, all after are strictly lower |
| `ToastQueue.UpsertExistingKey` | src/stores/ToastStore.ts:64-65 | a known key keeps the length; the new record sits at the old index and every other toast is untouched, whatever its priority |
| `ToastQueue.UpsertNewKeepsSorted` | src/stores/ToastStore.ts:60-63 | inserting a new key into a list sorted by priority leaves it sorted |
| `ToastQueue.UpsertAppendsToBand` | src/stores/ToastStore.ts:47-52 | on a sorted list a new toast goes behind every toast of equal or more urgent priority and in front of every less urgent one, all keeping their order |
| `ToastQueue.ReplaceSamePriorityKeepsSorted` | src/stores/ToastStore.ts:64-65 | a replacement with an unchanged priority keeps a sorted list sorted |
| `ToastQueue.ReplaceCanUnsort` | src/stores/ToastStore.ts:64-65 | a replacement with a different priority does not move, and can leave the list unsorted |
| `ToastQueue.UpsertKeepsUniqueKeys` | src/stores/ToastStore.ts:59-66 | if keys are unique before add-or-replace, they are unique after it |
| `ToastQueue.SpliceKeepsUniqueKeys` | src/stores/ToastStore.ts:63 | splicing a toast with an absent key into a list with unique keys keeps them unique |
| `ToastQueue.UpsertIdempotent` | src/stores/ToastStore.ts:59-66 | adding the same record a second time changes nothing |
| `ToastQueue.Without` | src/stores/ToastStore.ts:70-71 | the result is no longer than the list and holds no toast with the key |
| `ToastQueue.WithoutMembers` | src/stores/ToastStore.ts:71 | every toast of the result was in the list, and every toast of another key is in the result |
| `ToastQueue.WithoutAppend` | src/stores/ToastStore.ts:71 | dismissal distributes over concatenation, so the kept toasts stay in their order |
| `ToastQueue.WithoutAbsent` | src/stores/ToastStore.ts:71 | dismissing an absent key leaves the list unchanged |
| `ToastQueue.CountKey` | src/stores/ToastStore.ts:71 | the number of toasts with the key is zero exactly when the key is absent |
| `ToastQueue.WithoutLength` | src/stores/ToastStore.ts:71 | dismissal shortens the list by exactly the number of toasts carrying the key |
| `ToastQueue.WithoutAroundMatch` | src/stores/ToastStore.ts:71 | dismissing the one toast with the key between two parts without it leaves the two parts joined |
| `ToastQueue.DismissRemovesOne` | src/stores/ToastStore.ts:70-71 | with unique keys, dismissing a present key removes exactly that toast and keeps the rest in order |
| `ToastQueue.WithoutKeepsUniqueKeys` | src/stores/ToastStore.ts:70-71 | dismissal keeps keys unique |
| `ToastQueue.WithoutKeepsSorted` | src/stores/ToastStore.ts:70-71 | dismissal keeps a sorted list sorted |
| `ToastQueue.AddThenDismiss` | src/stores/ToastStore.ts:56-71 | adding a new key and then dismissing it gives back the old list |
| `ToastQueue.RunKeepsUniqueKeys` | src/stores/ToastStore.ts:43-72 | after any sequence of add, dismiss and reset calls from a list with unique keys (the empty one included), keys are unique |
| `Stores.ToastStore.constructor` | src/stores/ToastStore.ts:41 | a new store is empty and has emitted nothing |
| `Stores.ToastStore.Reset` | src/stores/ToastStore.ts:43-45 | the list is empty afterwards and no notification is emitted |
| `Stores.ToastStore.AddOrReplaceToast` | src/stores/ToastStore.ts:56-68 | the new list is the add-or-replace of the old one with the defaulted record; exactly one notification is emitted; unique keys stay unique |
| `Stores.ToastStore.DismissToast` | src/stores/ToastStore.ts:70-73 | the new list is the old one without the key's toasts; exactly one notification is emitted, even for an absent key; unique keys stay unique |
| `Stores.ToastStore.GetToasts` | src/stores/ToastStore.ts:75-77 | returns the current list in queue order |

## Left out

- Priorities outside 0, 1 and 2, and non-numeric ones such as `null`: the untyped
  parameter of `addOrReplaceToast` (src/stores/ToastStore.ts:56) lets the code store
  and compare them, but the model's `Priority` type admits only 0, 1 and 2.
- `sharedInstance` (src/stores/ToastStore.ts:36-39): a lazily created global on the
  browser's `window`; host plumbing with no queue logic.
- The event emitter's subscriber registration and handler calls: only the number of
  `update` emissions is modelled (`updateCount`); handlers that call back into the
  store while it emits are not modelled.
- Aliasing: the source writes the default priority into the caller's own object and
  stores that object, and `getToasts` hands out the internal array itself, so a
  caller can change the queue from outside. The model copies values and has no such
  sharing.
- The payload (`title`, `icon`, `component`, `props`) is a type parameter the queue
  never inspects.
- `src/toasts/SetPasswordToast.ts` is not part of this model: it only adds the fixed
  key `set-password` at low priority and dismisses it, which the store model covers,
  and it imports a `Priority` export that `ToastStore.ts` does not define.
