# Buffer pool and Wait-Die lock table, modelled in Dafny

This project models two components of a small teaching database engine in the
SimpleDB style, and proves properties about them.

- **The buffer manager** (`PA2/BufferMgr.java`) owns a fixed array of buffers
  and an index from resident blocks to the buffers holding them. It also keeps
  an LRU list of the unpinned buffers, where the front is the buffer unpinned
  longest ago, and a counter of available buffers. `pin` reuses a resident
  buffer or evicts the front of the LRU list. `unpin` puts a buffer whose pin
  count reaches zero at the back of the list. `flushAll` writes back what one
  transaction modified.
- **The lock table** (`PA2/LockTable.java`) maps every locked block to a list
  of holders. A positive entry `t` is a shared lock of transaction `t`, and
  `-t` is its exclusive lock. Conflicts follow Wait-Die: a younger
  transaction (larger id) that conflicts with an older holder aborts, and an
  older one waits.

Files:

- `wrappers.dfy` (module `Wrappers`) holds `Option` and `Result`, which stand
  for Java's `null` and exceptions.
- `file_ids.dfy` (module `FileIds`) holds `BlockId`, a value made of a file
  name and a block number.
- `seqs.dfy` (module `Seqs`) holds `NoDup`, plus `Remove`, which is Java's
  `List.remove(Object)`. It also holds the facts about `Remove` that both
  components rely on.
- `buffer_mgr.dfy` (module `BufferPool`):
  - `Buffer` is a small class with a pin count, the bound block, the
    modifying transaction and a flush counter.
  - `BufferMgr` is a class whose `blockBufferMap`, `unpinnedBuffers` and
    `numAvailable` fields its methods update in place.
  - `Valid()` is the pool invariant:
    - the LRU list holds, once each, exactly the buffers with pin count 0;
    - the counter equals the list's length;
    - the index is the inverse of the buffers' bindings.
- `lock_table.dfy` (module `Concurrency`):
  - The pure functions `SLockStep`, `XLockStep` and `UnlockStep` give the
    outcome of one attempt and the table it leaves behind.
  - The class `LockTable` performs the same attempts with the source's scan
    loops. Each method is proved equal to its step function.
  - The lemmas about the step functions carry the Wait-Die properties and
    the table invariant `TableOk`: no empty list, no duplicate, no zero
    entry, and an exclusive entry is always alone.

Transaction ids are required to be positive, because the sign encoding cannot
represent transaction 0. A blocking call is modelled as one attempt:
- `pin` returns `Failure(BufferAbort)` where the source would wait and then
  throw;
- `sLock` and `xLock` return `MustWait` where the source would call `wait()`
  and retry, and `Abort` where it throws `LockAbortException`.

## Model

| member | source | states |
|---|---|---|
| BufferPool.BufferMgr.constructor | PA2/BufferMgr.java:32-45 | A new pool has `numbuffs` fresh buffers. All of them are unpinned, unbound and unmodified, and each is numbered by its slot. The LRU list is the buffer array in index order, the counter is `numbuffs`, the index is empty, and the invariant holds. |
| BufferPool.BufferMgr.Valid | PA2/BufferMgr.java:18-21 | The pool invariant. The ghost set `Pool` is exactly the array's buffers. Each slot holds the buffer numbered by it, and the counter is the LRU list's length. The list holds, once each, exactly the buffers with pin count 0. A pinned buffer is bound to a block. The index maps each block to the one buffer bound to it, and every bound buffer is indexed under its block. |
| BufferPool.BufferMgr.Available | PA2/BufferMgr.java:52-54 | The returned counter equals the number of buffers whose pin count is 0. |
| BufferPool.BufferMgr.FlushAll | PA2/BufferMgr.java:61-65 | Every buffer whose modifying transaction is `txId` is written back exactly once and its modifier is cleared, so a second `flushAll(txId)` writes nothing. A negative `txId` is the "unmodified" marker, so it selects no buffer to write. No other buffer is written back or loses its modifier. Pins and bindings are unchanged, and the invariant holds. |
| BufferPool.BufferMgr.Unpin | PA2/BufferMgr.java:75-87 | Unpinning a buffer with pin count 0 changes nothing. A buffer going from 1 to 0 is appended to the back of the LRU list and the counter goes up by one. A buffer above 1 only loses one pin. The invariant is kept. |
| BufferPool.BufferMgr.ChooseUnpinnedBuffer | PA2/BufferMgr.java:161-165 | With an empty list it returns null and changes nothing. Otherwise it returns the front of the list and removes it. |
| BufferPool.BufferMgr.TryToPin | PA2/BufferMgr.java:135-152 | A resident block returns its own buffer, and the index is unchanged. That buffer gains one pin. If it was unpinned, it leaves the LRU list and the counter drops by one. A non-resident block evicts the front of the LRU list: the victim's old block leaves the index, `blk` maps to the victim, and the victim ends with pin count 1 and no modifier. If the list is empty, the result is null and nothing changes. In every case no other buffer changes and the invariant holds. |
| BufferPool.BufferMgr.Rebind | PA2/BufferMgr.java:141-144 | The victim's old block is removed from the index and `blk` is mapped to the victim. The victim is bound to `blk` with no pins and no modifier. |
| BufferPool.BufferMgr.PinTracked | PA2/BufferMgr.java:146-150 | A buffer with pin count 0 is removed from the LRU list and the counter drops by one. In every case the pin count rises by one. |
| BufferPool.BufferMgr.PinKeepsValid | PA2/BufferMgr.java:135-152 | The pool invariant holds again after a buffer is bound to a block and pinned, provided three things: the list lost only that buffer, the index moved only that binding, and no other buffer changed. |
| BufferPool.BufferMgr.Pin | PA2/BufferMgr.java:98-112 | One attempt fails with `BufferAbort` exactly when `blk` is not resident and no buffer is unpinned, and a failure changes nothing. On success the returned buffer is indexed under `blk` and bound to it, and its pin count rose by exactly one. A resident block keeps its buffer and the index. That buffer leaves the LRU list, and the counter drops, only if it was unpinned. Otherwise the front of the LRU list is evicted from its old block, rebound to `blk` and pinned once, and the list and counter lose it. No other buffer changes, and the invariant holds. |
| BufferPool.Buffer.constructor | PA2/BufferMgr.java:42 | A new buffer carries its slot number, has no pins and no block, and is unmodified. |
| BufferPool.Buffer.Pin | PA2/BufferMgr.java:150 | The pin count goes up by one. |
| BufferPool.Buffer.Unpin | PA2/BufferMgr.java:81 | The pin count goes down by one. |
| BufferPool.Buffer.AssignToBlock | PA2/BufferMgr.java:143 | The buffer is bound to the new block with pin count 0 and no modifier. |
| BufferPool.Buffer.Flush | PA2/BufferMgr.java:64 | A modified buffer is written back once and its modifier is cleared. An unmodified buffer is left as it is, so flushing twice writes once. |
| Seqs.Remove | PA2/LockTable.java:153-154 | Removing an absent element leaves the list as it is. Otherwise the list becomes one shorter. |
| Seqs.RemoveCutsFirstOccurrence | PA2/BufferMgr.java:148 | `remove(x)` deletes exactly the first occurrence of `x` and keeps the elements before and after it in order. |
| Seqs.RemoveFromDistinct | PA2/LockTable.java:153-154 | On a duplicate-free list, `remove(x)` leaves exactly the other elements, and the list stays duplicate-free. |
| Seqs.DistinctCardinality | PA2/BufferMgr.java:52-54 | A duplicate-free list has as many elements as distinct members, so the LRU list's length counts the unpinned buffers. |
| Seqs.AppendFresh | PA2/BufferMgr.java:84 | Appending an element that is not yet present keeps a list duplicate-free. |
| Seqs.RemoveLastAppended | PA2/LockTable.java:153 | Removing an element that was just appended and did not occur before restores the list. |
| Concurrency.FirstExclusive | PA2/LockTable.java:57-66 | The `sLock` scan finds an exclusive entry of the list if there is one. It finds none exactly when every entry is shared. |
| Concurrency.FirstOther | PA2/LockTable.java:111-121 | The `xLock` scan returns the first entry of the list that differs from `txId`: every entry before it is `txId`. It finds none exactly when every entry is `txId`. |
| Concurrency.FirstOtherIsUnique | PA2/LockTable.java:111-121 | Only one position can be the first entry different from `txId`, so the entry the scan compares is determined. |
| Concurrency.ExclusiveIsAlone | PA2/LockTable.java:22-28 | Under the table invariant, a list that holds an exclusive entry holds only that entry. |
| Concurrency.HoldersOk | PA2/LockTable.java:22-28 | One block's holder list is well-formed: it is non-empty, has no duplicate and no zero entry, and an exclusive entry is the only entry. |
| Concurrency.TableOk | PA2/LockTable.java:22-28 | Every block in the table has a well-formed holder list. |
| Concurrency.SLockStep | PA2/LockTable.java:38-81 | One `sLock` attempt. An absent block gets `[txId]`. A caller already holding either mode is granted with no change. Otherwise the first exclusive entry decides: an older holder means abort and a younger one means wait. With no exclusive entry, `txId` is appended. |
| Concurrency.XLockStep | PA2/LockTable.java:92-137 | One `xLock` attempt. An absent block gets `[-txId]`. A caller already holding `-txId` is granted with no change. Otherwise the first entry other than `txId` decides: an older holder means abort and a younger one means wait. With no such entry, the caller's shared entry is replaced by `-txId`. |
| Concurrency.UnlockStep | PA2/LockTable.java:147-162 | `unlock` deletes the first `txId` and the first `-txId` from the block's list. The block is removed once its list is empty, and an absent block is left as it is. |
| Concurrency.StepsTouchOnlyTheirBlock | PA2/LockTable.java:38-162 | Every lock attempt leaves `blk` present in the table. `unlock` adds no block. No operation adds, removes or changes any other block. |
| Concurrency.AllSameIsSingleton | PA2/LockTable.java:123-127 | A duplicate-free, non-empty list whose entries all equal `txId` is `[txId]`. |
| Concurrency.SLockKeepsTableOk | PA2/LockTable.java:42-71 | `sLock` keeps the table invariant. |
| Concurrency.SLockOutcome | PA2/LockTable.java:57-66 | `sLock` aborts exactly when an older transaction holds the exclusive lock. It waits exactly when a younger one holds it. Abort and wait leave the table unchanged. |
| Concurrency.SLockGrant | PA2/LockTable.java:42-71 | After a granted `sLock`, the caller holds a lock on the block. Every earlier holder is kept, so shared holders coexist, and no other block changes. |
| Concurrency.XLockKeepsTableOk | PA2/LockTable.java:96-127 | `xLock` keeps the table invariant. |
| Concurrency.XLockGrantIsExclusive | PA2/LockTable.java:123-127 | A granted `xLock` leaves exactly `[-txId]` on the block, which upgrades the caller's own shared lock, and touches no other block. |
| Concurrency.XLockOutcome | PA2/LockTable.java:92-137 | `xLock` grants exactly when nobody but the caller holds the block. Otherwise it compares the caller only with the first entry other than the caller's own shared entry. It aborts exactly when that holder is older and waits exactly when it is younger. Abort and wait leave the table unchanged. |
| Concurrency.XLockComparesFirstHolderOnly | PA2/LockTable.java:111-121 | With shared holders `[5, 3]`, transaction 4 waits. With `[3, 5]` it aborts. |
| Concurrency.XLockStepWaitDie | PA2/LockTable.java:83-92 | The documented rule for one attempt. An absent block gets `[-txId]`, and a caller already holding `-txId` is granted. Any older other holder means abort. Any other holder left, all younger, means wait. Otherwise the caller's shared entry is upgraded. |
| Concurrency.XLockWaitDieOutcome | PA2/LockTable.java:83-92 | The documented rule aborts exactly when some other holder is older. It waits exactly when other holders remain and all of them are younger. It grants exactly when nobody but the caller holds the block, and a grant leaves `[-txId]`. Abort and wait change nothing. |
| Concurrency.XLockRulesAgreeOnOneConflict | PA2/LockTable.java:111-121 | When at most one entry differs from the caller's, the code's rule and the documented rule give the same outcome and table. |
| Concurrency.RemoveKeepsHoldersOk | PA2/LockTable.java:153-157 | Removing an entry from a well-formed holder list keeps it well-formed, unless the list becomes empty. |
| Concurrency.UnlockKeepsTableOk | PA2/LockTable.java:147-162 | `unlock` keeps the table invariant, and no empty list is ever stored. |
| Concurrency.UnlockReleases | PA2/LockTable.java:147-162 | After `unlock` the caller holds neither lock mode on the block. Every other holder is kept, and other blocks are untouched. An absent block stays absent. |
| Concurrency.SLockThenUnlockRestores | PA2/LockTable.java:147-159 | A granted `sLock` followed by `unlock` restores the table, for a caller that held nothing on the block. |
| Concurrency.XLockThenUnlockFreesBlock | PA2/LockTable.java:147-159 | A granted `xLock` followed by `unlock` removes the block from the table, for a caller without an exclusive lock on it before. Such a grant on a held block means the caller held exactly `[txId]` and upgraded it. A block nobody held is restored to absent. |
| Concurrency.LockTable.constructor | PA2/LockTable.java:28 | The table starts empty, which satisfies the invariant. |
| Concurrency.LockTable.SLock | PA2/LockTable.java:38-81 | One attempt, with the source's loop, returns the result of `SLockStep` on the old table and leaves its table. The invariant is kept. |
| Concurrency.LockTable.XLock | PA2/LockTable.java:92-137 | One attempt, with the source's loop, returns the result of `XLockStep` on the old table and leaves its table. The invariant is kept. |
| Concurrency.XLockWaitDieKeepsTableOk | PA2/LockTable.java:83-92 | The documented rule also keeps the table invariant. |
| Concurrency.LockTable.XLockWaitDie | PA2/LockTable.java:111-121 | One attempt under the documented rule, with the scan comparing every other holder. It returns the result of `XLockStepWaitDie` on the old table and leaves its table. The invariant is kept. |
| Concurrency.LockTable.Unlock | PA2/LockTable.java:147-162 | The new table is `UnlockStep` of the old one, and the invariant is kept. |

## Left out

- BufferPool.BufferMgr.Pin: models one `tryToPin` attempt. The retry loop with `wait(MAX_TIME)`, the 10-second `waitingTooLong` clock test and the `InterruptedException` path are concurrency and wall-clock time. A `null` from the attempt becomes `Failure(BufferAbort)`.
- Concurrency.LockTable.SLock: returns `MustWait` instead of blocking in `wait()` and retrying. The `InterruptedException` path is not modelled.
- Concurrency.LockTable.XLock: returns `MustWait` instead of blocking in `wait()` and retrying. The `InterruptedException` path is not modelled.
- `notifyAll()` in `unpin` and `unlock`, and `synchronized`: the model is single-threaded, so every call is atomic.
- `printStatus`: console output only.
- `Buffer`, `FileMgr` and `LogMgr` are not shown in the source. `Buffer` is modelled in reduced form, and `FileMgr` and `LogMgr` are not part of this model.
  - `Buffer` keeps only its pin count, bound block, modifying transaction and a count of write-backs.
  - Page contents, log sequence numbers, and the disk and log writes of `flush` and `assignToBlock` are not modelled.
  - A write-back by `flush` is recorded only as a count.
- BufferPool.BufferMgr.Unpin: requires the buffer to belong to this pool. The source accepts any `Buffer` object.
- Java `int` overflow: ids and counters are unbounded integers.
- BufferPool.BufferMgr.constructor: `numbuffs` is a `nat`, so the `NegativeArraySizeException` that `new Buffer[numbuffs]` throws for a negative argument (PA2/BufferMgr.java:37) is not modelled.
- Aliasing of the lock table's `ArrayList`s: each block's holder list is a value in the map, and an update replaces it.
- Concurrency.LockTable.XLock: keeps the conflict rule as written. `Concurrency.LockTable.XLockWaitDie` gives the documented rule next to it (see Findings).

## Findings

| source | as written | input that shows it | evidently intended | confidence | as-written member | corrected member |
|---|---|---|---|---|---|---|
| PA2/LockTable.java:111-121 | `xLock` compares the requester only with the first entry other than its own. The `break` ends the scan after that entry. | Shared holders `[5, 3]` and requester 4 give "wait", although the older transaction 3 holds the block. So the younger transaction 4 waits while the older transaction 3 holds the block, which the documented rule forbids. The request then ends in an abort if 5 leaves first, or in a grant once both 3 and 5 have unlocked. The defect delays or skips the abort. It does not cause a deadlock, because every wait is still on a younger entry. | Abort when any other holder is older, as the comments at lines 85-86 and 114 say. Wait exactly when other holders remain and every one of them is younger. | medium (not executed) | Concurrency.XLockComparesFirstHolderOnly | Concurrency.XLockWaitDieOutcome |
