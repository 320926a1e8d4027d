/**
 * The Wait-Die lock table of the concurrency manager.
 *
 * The table maps each locked block to the list of its holders, encoded by
 * sign: `t` (positive) means transaction `t` holds a shared lock and `-t`
 * means it holds the exclusive lock. Lower transaction ids are older and have
 * priority. A request that conflicts with an older holder aborts ("dies"); one
 * that conflicts with a younger holder waits. Each request is modelled as one
 * attempt whose outcome is `Granted`, `Abort` or `MustWait`; the monitor
 * `wait()` that the source performs on `MustWait` before retrying is left to
 * the caller.
 */
module Concurrency {
  import opened Wrappers
  import opened Seqs
  import opened FileIds

  /** The lock table's contents: block -> holder entries in insertion order. */
  type Table = map<BlockId, seq<int>>

  /** Outcome of one lock attempt; `Abort` is the source's `LockAbortException`. */
  datatype LockResult = Granted | MustWait | Abort

  /** Outcome of one attempt together with the table it leaves behind. */
  datatype Step = Step(result: LockResult, locks: Table)

  /** The transaction an entry belongs to, whatever its mode. */
  function HolderId(e: int): nat {
    if e < 0 then -e else e
  }

  /**
   * The invariant of one block's holder list: never empty, no entry twice,
   * no zero entry (the sign encoding needs non-zero ids), and an exclusive
   * entry is the only entry of its list.
   */
  predicate HoldersOk(s: seq<int>) {
    s != [] && NoDup(s) &&
    (forall k :: 0 <= k < |s| ==> s[k] != 0) &&
    (forall k :: 0 <= k < |s| && s[k] < 0 ==> |s| == 1)
  }

  /** The invariant of the whole table. */
  predicate TableOk(locks: Table) {
    forall blk :: blk in locks ==> HoldersOk(locks[blk])
  }

  /** The first exclusive entry of a holder list, as `sLock`'s scan finds it. */
  function FirstExclusive(s: seq<int>): (r: Option<int>)
    ensures r.Some? ==> r.value < 0 && r.value in s
    ensures r.None? <==> forall k :: 0 <= k < |s| ==> s[k] >= 0
  {
    if s == [] then None
    else if s[0] < 0 then Some(s[0])
    else
      var r := FirstExclusive(s[1..]);
      assert forall k :: 1 <= k < |s| ==> s[k] == s[1..][k - 1];
      r
  }

  /** `k` is the position of the first entry of `s` different from `txId`. */
  predicate IsFirstOther(s: seq<int>, txId: int, k: int) {
    0 <= k < |s| && s[k] != txId && forall j :: 0 <= j < k ==> s[j] == txId
  }

  /** The first entry different from `txId`, as `xLock`'s scan finds it. */
  function FirstOther(s: seq<int>, txId: int): (r: Option<int>)
    ensures r.Some? ==> exists k :: IsFirstOther(s, txId, k) && s[k] == r.value
    ensures r.None? <==> forall k :: 0 <= k < |s| ==> s[k] == txId
  {
    if s == [] then None
    else if s[0] != txId then
      assert IsFirstOther(s, txId, 0);
      Some(s[0])
    else
      var r := FirstOther(s[1..], txId);
      assert forall k :: 1 <= k < |s| ==> s[k] == s[1..][k - 1];
      assert r.Some? ==> exists k :: IsFirstOther(s, txId, k) && s[k] == r.value by {
        if r.Some? {
          var k :| IsFirstOther(s[1..], txId, k) && s[1..][k] == r.value;
          assert IsFirstOther(s, txId, k + 1);
        }
      }
      r
  }

  /** There is only one first entry different from `txId`. */
  lemma FirstOtherIsUnique(s: seq<int>, txId: int, k: int, m: int)
    requires IsFirstOther(s, txId, k) && IsFirstOther(s, txId, m)
    ensures k == m
  {
  }

  /** One attempt of `sLock(blk, txId)`. */
  function SLockStep(locks: Table, blk: BlockId, txId: int): Step {
    if blk !in locks then Step(Granted, locks[blk := [txId]])
    else if txId in locks[blk] || -txId in locks[blk] then Step(Granted, locks)
    else match FirstExclusive(locks[blk])
      case Some(x) => Step(if txId > -x then Abort else MustWait, locks)
      case None => Step(Granted, locks[blk := locks[blk] + [txId]])
  }

  /** One attempt of `xLock(blk, txId)`: only the first entry other than the caller's own shared one is compared. */
  function XLockStep(locks: Table, blk: BlockId, txId: int): Step {
    if blk !in locks then Step(Granted, locks[blk := [-txId]])
    else if -txId in locks[blk] then Step(Granted, locks)
    else match FirstOther(locks[blk], txId)
      case Some(e) => Step(if txId > HolderId(e) then Abort else MustWait, locks)
      case None => Step(Granted, locks[blk := Remove(locks[blk], txId) + [-txId]])
  }

  /** `unlock(blk, txId)`: drop the caller's shared and exclusive entries, and the block once nobody holds it. */
  function UnlockStep(locks: Table, blk: BlockId, txId: int): Table {
    if blk !in locks then locks
    else
      var rest := Remove(Remove(locks[blk], txId), -txId);
      if rest == [] then locks - {blk} else locks[blk := rest]
  }

  /**
   * Each operation touches the table at `blk` only: a lock attempt leaves
   * `blk` present and every other block as it was, and `unlock` adds no
   * block and leaves every other block as it was.
   */
  lemma StepsTouchOnlyTheirBlock(locks: Table, blk: BlockId, txId: int, other: BlockId)
    requires other != blk
    ensures blk in SLockStep(locks, blk, txId).locks && blk in XLockStep(locks, blk, txId).locks &&
            blk in XLockStepWaitDie(locks, blk, txId).locks
    ensures other in SLockStep(locks, blk, txId).locks <==> other in locks
    ensures other in XLockStep(locks, blk, txId).locks <==> other in locks
    ensures other in XLockStepWaitDie(locks, blk, txId).locks <==> other in locks
    ensures other in UnlockStep(locks, blk, txId) <==> other in locks
    ensures blk in UnlockStep(locks, blk, txId) ==> blk in locks
    ensures other in locks ==>
              SLockStep(locks, blk, txId).locks[other] == locks[other] &&
              XLockStep(locks, blk, txId).locks[other] == locks[other] &&
              XLockStepWaitDie(locks, blk, txId).locks[other] == locks[other] &&
              UnlockStep(locks, blk, txId)[other] == locks[other]
  {
  }

  /** A list that holds an exclusive entry holds nothing else. */
  lemma ExclusiveIsAlone(s: seq<int>, x: int)
    requires HoldersOk(s) && x in s && x < 0
    ensures s == [x]
  {
  }

  /** A duplicate-free, non-empty list all of whose entries are `txId` is `[txId]`. */
  lemma AllSameIsSingleton(s: seq<int>, txId: int)
    requires NoDup(s) && s != []
    requires forall k :: 0 <= k < |s| ==> s[k] == txId
    ensures s == [txId]
  {
    assert s[0] == txId;
    assert (set x | x in s) == {txId};
    DistinctCardinality(s);
  }

  // ---------------------------------------------------------------------
  // sLock

  /** `sLock` keeps the table invariant. */
  lemma SLockKeepsTableOk(locks: Table, blk: BlockId, txId: int)
    requires TableOk(locks) && txId > 0
    ensures TableOk(SLockStep(locks, blk, txId).locks)
  {
  }

  /**
   * The Wait-Die rule of `sLock`: it aborts exactly when an older transaction
   * holds the exclusive lock, waits exactly when a younger one does, and
   * changes nothing unless it grants.
   */
  lemma SLockOutcome(locks: Table, blk: BlockId, txId: int)
    requires TableOk(locks) && txId > 0
    ensures SLockStep(locks, blk, txId).result == Abort <==>
              blk in locks && |locks[blk]| == 1 && locks[blk][0] < 0 && txId > -locks[blk][0]
    ensures SLockStep(locks, blk, txId).result == MustWait <==>
              blk in locks && |locks[blk]| == 1 && locks[blk][0] < 0 && txId < -locks[blk][0]
    ensures SLockStep(locks, blk, txId).result != Granted ==> SLockStep(locks, blk, txId).locks == locks
  {
  }

  /**
   * A granted `sLock` leaves the caller holding a lock on the block, keeps
   * every earlier holder of that block, and touches no other block.
   */
  lemma SLockGrant(locks: Table, blk: BlockId, txId: int)
    requires TableOk(locks) && txId > 0
    requires SLockStep(locks, blk, txId).result == Granted
    ensures var after := SLockStep(locks, blk, txId).locks;
      blk in after && (txId in after[blk] || -txId in after[blk]) &&
      (blk in locks ==> forall e :: e in locks[blk] ==> e in after[blk]) &&
      after == locks[blk := after[blk]]
  {
  }

  // ---------------------------------------------------------------------
  // xLock

  /** `xLock` keeps the table invariant. */
  lemma XLockKeepsTableOk(locks: Table, blk: BlockId, txId: int)
    requires TableOk(locks) && txId > 0
    ensures TableOk(XLockStep(locks, blk, txId).locks)
  {
    if XLockStep(locks, blk, txId).result == Granted {
      XLockGrantIsExclusive(locks, blk, txId);
    }
  }

  /**
   * A granted `xLock` leaves the block held by the caller alone, exclusively
   * (a shared entry of its own is upgraded), and touches no other block.
   */
  lemma XLockGrantIsExclusive(locks: Table, blk: BlockId, txId: int)
    requires TableOk(locks) && txId > 0
    requires XLockStep(locks, blk, txId).result == Granted
    ensures XLockStep(locks, blk, txId).locks == locks[blk := [-txId]]
  {
    if blk in locks {
      var s := locks[blk];
      if -txId in s {
        ExclusiveIsAlone(s, -txId);
      } else {
        AllSameIsSingleton(s, txId);
        assert Remove(s, txId) + [-txId] == [-txId];
      }
    }
  }

  /**
   * When `xLock` grants, aborts and waits, as the code decides it: it grants
   * exactly when no other transaction holds the block; otherwise it compares
   * the caller with the FIRST entry that is not its own shared entry only,
   * aborting exactly when that holder is older and waiting exactly when it is
   * younger; and it changes nothing unless it grants.
   */
  lemma XLockOutcome(locks: Table, blk: BlockId, txId: int)
    requires TableOk(locks) && txId > 0
    ensures XLockStep(locks, blk, txId).result == Granted <==>
              blk !in locks || forall k :: 0 <= k < |locks[blk]| ==> HolderId(locks[blk][k]) == txId
    ensures XLockStep(locks, blk, txId).result == Abort <==>
              blk in locks && -txId !in locks[blk] &&
              exists k :: IsFirstOther(locks[blk], txId, k) && txId > HolderId(locks[blk][k])
    ensures XLockStep(locks, blk, txId).result == MustWait <==>
              blk in locks && -txId !in locks[blk] &&
              exists k :: IsFirstOther(locks[blk], txId, k) && txId < HolderId(locks[blk][k])
    ensures XLockStep(locks, blk, txId).result != Granted ==> XLockStep(locks, blk, txId).locks == locks
    ensures XLockStep(locks, blk, txId).result == Granted && blk in locks ==>
              txId in locks[blk] || -txId in locks[blk]
  {
    if blk in locks {
      var s := locks[blk];
      if -txId in s {
        ExclusiveIsAlone(s, -txId);
      } else {
        match FirstOther(s, txId)
        case Some(e) =>
          var k :| IsFirstOther(s, txId, k) && s[k] == e;
          assert HolderId(s[k]) != txId;
          forall m | IsFirstOther(s, txId, m) ensures s[m] == e {
            FirstOtherIsUnique(s, txId, k, m);
          }
        case None =>
          assert s[0] in s;
      }
    }
  }

  /**
   * The code's conflict rule compares only the first other entry: with shared
   * holders `[5, 3]` transaction 4 waits although the older transaction 3
   * holds the block, while with `[3, 5]` it aborts.
   */
  lemma XLockComparesFirstHolderOnly(blk: BlockId)
    ensures TableOk(map[blk := [5, 3]]) && TableOk(map[blk := [3, 5]])
    ensures XLockStep(map[blk := [5, 3]], blk, 4).result == MustWait
    ensures XLockStep(map[blk := [3, 5]], blk, 4).result == Abort
  {
  }

  /** Some holder other than `txId` is older than `txId`. */
  predicate HasOlderHolder(s: seq<int>, txId: int) {
    exists k | 0 <= k < |s| :: s[k] != txId && txId > HolderId(s[k])
  }

  /** Some holder other than `txId` exists. */
  predicate HasOtherHolder(s: seq<int>, txId: int) {
    exists k | 0 <= k < |s| :: s[k] != txId
  }

  /**
   * The Wait-Die rule `xLock` is documented to follow: abort when any other
   * holder is older, otherwise wait while any other holder remains.
   */
  function XLockStepWaitDie(locks: Table, blk: BlockId, txId: int): Step {
    if blk !in locks then Step(Granted, locks[blk := [-txId]])
    else if -txId in locks[blk] then Step(Granted, locks)
    else if HasOlderHolder(locks[blk], txId) then Step(Abort, locks)
    else if HasOtherHolder(locks[blk], txId) then Step(MustWait, locks)
    else Step(Granted, locks[blk := Remove(locks[blk], txId) + [-txId]])
  }

  /**
   * The documented rule: abort exactly when some other holder is older, wait
   * exactly when other holders remain and all of them are younger, grant
   * exactly when nobody else holds the block, leaving it to the caller alone,
   * and change nothing unless granting.
   */
  lemma XLockWaitDieOutcome(locks: Table, blk: BlockId, txId: int)
    requires TableOk(locks) && txId > 0
    ensures XLockStepWaitDie(locks, blk, txId).result == Abort <==>
              blk in locks && exists k :: 0 <= k < |locks[blk]| && HolderId(locks[blk][k]) < txId
    ensures XLockStepWaitDie(locks, blk, txId).result == MustWait <==>
              blk in locks && (exists k :: 0 <= k < |locks[blk]| && HolderId(locks[blk][k]) != txId) &&
              forall k :: 0 <= k < |locks[blk]| && HolderId(locks[blk][k]) != txId ==> HolderId(locks[blk][k]) > txId
    ensures XLockStepWaitDie(locks, blk, txId).result == Granted <==>
              blk !in locks || forall k :: 0 <= k < |locks[blk]| ==> HolderId(locks[blk][k]) == txId
    ensures XLockStepWaitDie(locks, blk, txId).result == Granted ==>
              XLockStepWaitDie(locks, blk, txId).locks == locks[blk := [-txId]]
    ensures XLockStepWaitDie(locks, blk, txId).result != Granted ==> XLockStepWaitDie(locks, blk, txId).locks == locks
  {
    if blk in locks {
      var s := locks[blk];
      if -txId in s {
        ExclusiveIsAlone(s, -txId);
      } else if !HasOlderHolder(s, txId) && !HasOtherHolder(s, txId) {
        AllSameIsSingleton(s, txId);
        assert Remove(s, txId) + [-txId] == [-txId];
      }
    }
  }

  /** The documented rule keeps the table invariant too. */
  lemma XLockWaitDieKeepsTableOk(locks: Table, blk: BlockId, txId: int)
    requires TableOk(locks) && txId > 0
    ensures TableOk(XLockStepWaitDie(locks, blk, txId).locks)
  {
    XLockWaitDieOutcome(locks, blk, txId);
  }

  /** With at most one other holder on the block, the code's rule and the documented rule agree. */
  lemma XLockRulesAgreeOnOneConflict(locks: Table, blk: BlockId, txId: int)
    requires TableOk(locks) && txId > 0 && blk in locks
    requires forall i, j ::
               (0 <= i < |locks[blk]| && 0 <= j < |locks[blk]| && locks[blk][i] != txId && locks[blk][j] != txId) ==> i == j
    ensures XLockStep(locks, blk, txId) == XLockStepWaitDie(locks, blk, txId)
  {
  }

  // ---------------------------------------------------------------------
  // unlock

  /** Dropping an entry from a well-formed holder list that does not empty it leaves a well-formed list. */
  lemma RemoveKeepsHoldersOk(s: seq<int>, x: int)
    requires HoldersOk(s) && Remove(s, x) != []
    ensures HoldersOk(Remove(s, x))
  {
    RemoveFromDistinct(s, x);
    var r := Remove(s, x);
    forall k | 0 <= k < |r| ensures r[k] != 0 && (r[k] < 0 ==> |r| == 1) {
      assert r[k] in s;
      if r[k] < 0 {
        ExclusiveIsAlone(s, r[k]);
      }
    }
  }

  /** `unlock` keeps the table invariant. */
  lemma UnlockKeepsTableOk(locks: Table, blk: BlockId, txId: int)
    requires TableOk(locks)
    ensures TableOk(UnlockStep(locks, blk, txId))
  {
    if blk in locks {
      var once := Remove(locks[blk], txId);
      var rest := Remove(once, -txId);
      if rest != [] {
        RemoveKeepsHoldersOk(locks[blk], txId);
        RemoveKeepsHoldersOk(once, -txId);
      }
    }
  }

  /**
   * After `unlock` the caller holds nothing on the block, every other holder
   * of it is kept, the block's entry is gone once nobody holds it, and no
   * other block changes.
   */
  lemma UnlockReleases(locks: Table, blk: BlockId, txId: int)
    requires blk in locks ==> NoDup(locks[blk])
    ensures blk in UnlockStep(locks, blk, txId) ==>
              blk in locks && txId !in UnlockStep(locks, blk, txId)[blk] && -txId !in UnlockStep(locks, blk, txId)[blk]
    ensures blk in locks ==> forall e :: e in locks[blk] && e != txId && e != -txId ==>
              blk in UnlockStep(locks, blk, txId) && e in UnlockStep(locks, blk, txId)[blk]
    ensures UnlockStep(locks, blk, txId) - {blk} == locks - {blk}
  {
    if blk in locks {
      var s := locks[blk];
      var once := Remove(s, txId);
      RemoveFromDistinct(s, txId);
      RemoveFromDistinct(once, -txId);
      var rest := Remove(once, -txId);
      if rest == [] {
        assert UnlockStep(locks, blk, txId) == locks - {blk};
      } else {
        assert UnlockStep(locks, blk, txId) == locks[blk := rest];
      }
    }
  }

  /**
   * A shared lock taken by a transaction that held nothing on the block, then
   * released, leaves the table exactly as it was.
   */
  lemma SLockThenUnlockRestores(locks: Table, blk: BlockId, txId: int)
    requires blk in locks ==> locks[blk] != [] && txId !in locks[blk] && -txId !in locks[blk]
    requires SLockStep(locks, blk, txId).result == Granted
    ensures UnlockStep(SLockStep(locks, blk, txId).locks, blk, txId) == locks
  {
    if blk in locks {
      var s := locks[blk];
      RemoveLastAppended(s, txId);
      assert Remove(s, -txId) == s;
      assert SLockStep(locks, blk, txId).locks == locks[blk := s + [txId]];
      assert locks[blk := s] == locks;
    } else {
      assert Remove(Remove([txId], txId), -txId) == [];
      assert locks[blk := [txId]] - {blk} == locks;
    }
  }

  /**
   * A granted `xLock` followed by `unlock` frees the block altogether: the
   * caller was, or became, its only holder. This covers both a block nobody
   * held, which the pair restores to absent, and the upgrade of the caller's
   * own shared lock, which the pair releases.
   */
  lemma XLockThenUnlockFreesBlock(locks: Table, blk: BlockId, txId: int)
    requires TableOk(locks) && txId > 0
    requires blk in locks ==> -txId !in locks[blk]
    requires XLockStep(locks, blk, txId).result == Granted
    ensures UnlockStep(XLockStep(locks, blk, txId).locks, blk, txId) == locks - {blk}
    ensures blk in locks ==> locks[blk] == [txId]
  {
    XLockGrantIsExclusive(locks, blk, txId);
    assert Remove(Remove([-txId], txId), -txId) == [];
    if blk in locks {
      XLockOutcome(locks, blk, txId);
      AllSameIsSingleton(locks[blk], txId);
    }
  }

  /**
   * The lock table. One instance is shared by all transactions; each public
   * call runs as one critical section, so each method here is atomic.
   */
  class LockTable {
    var locks: Table

    ghost predicate Valid()
      reads this
    {
      TableOk(locks)
    }

    constructor ()
      ensures Valid() && locks == map[]
    {
      locks := map[];
    }

    /** One attempt to take a shared lock on `blk` for transaction `txId`. */
    method SLock(blk: BlockId, txId: int) returns (r: LockResult)
      requires Valid() && txId > 0
      modifies this
      ensures Valid()
      ensures Step(r, locks) == SLockStep(old(locks), blk, txId)
    {
      SLockKeepsTableOk(locks, blk, txId);
      if blk !in locks {
        locks := locks[blk := [txId]];
        return Granted;
      }
      var txList := locks[blk];
      if txId in txList || -txId in txList {
        return Granted;
      }
      var shouldWait := false;
      var i := 0;
      while i < |txList|
        invariant 0 <= i <= |txList| && !shouldWait
        invariant FirstExclusive(txList[i..]) == FirstExclusive(txList)
      {
        var tid := txList[i];
        if tid < 0 {
          if txId > -tid {
            return Abort;
          }
          shouldWait := true;
          break;
        }
        assert txList[i..] == [tid] + txList[i + 1..];
        i := i + 1;
      }
      if !shouldWait {
        locks := locks[blk := txList + [txId]];
        return Granted;
      }
      return MustWait;
    }

    /** One attempt to take the exclusive lock on `blk` for transaction `txId`. */
    method XLock(blk: BlockId, txId: int) returns (r: LockResult)
      requires Valid() && txId > 0
      modifies this
      ensures Valid()
      ensures Step(r, locks) == XLockStep(old(locks), blk, txId)
    {
      XLockKeepsTableOk(locks, blk, txId);
      if blk !in locks {
        locks := locks[blk := [-txId]];
        return Granted;
      }
      var txList := locks[blk];
      if -txId in txList {
        return Granted;
      }
      var shouldWait := false;
      var i := 0;
      while i < |txList|
        invariant 0 <= i <= |txList| && !shouldWait
        invariant FirstOther(txList[i..], txId) == FirstOther(txList, txId)
      {
        var tid := txList[i];
        if tid != txId {
          var holderTx := if tid < 0 then -tid else tid;
          if txId > holderTx {
            return Abort;
          }
          shouldWait := true;
          break;
        }
        assert txList[i..] == [tid] + txList[i + 1..];
        i := i + 1;
      }
      if !shouldWait {
        locks := locks[blk := Remove(txList, txId) + [-txId]];
        return Granted;
      }
      return MustWait;
    }

    /**
     * One attempt at the exclusive lock under the documented Wait-Die rule:
     * the scan of `xLock` without its `break`, so that every other holder
     * is compared.
     */
    method XLockWaitDie(blk: BlockId, txId: int) returns (r: LockResult)
      requires Valid() && txId > 0
      modifies this
      ensures Valid()
      ensures Step(r, locks) == XLockStepWaitDie(old(locks), blk, txId)
    {
      XLockWaitDieKeepsTableOk(locks, blk, txId);
      if blk !in locks {
        locks := locks[blk := [-txId]];
        return Granted;
      }
      var txList := locks[blk];
      if -txId in txList {
        return Granted;
      }
      var shouldWait := false;
      for i := 0 to |txList|
        invariant !HasOlderHolder(txList[..i], txId)
        invariant shouldWait == HasOtherHolder(txList[..i], txId)
      {
        var tid := txList[i];
        assert txList[..i + 1] == txList[..i] + [tid];
        if tid != txId {
          var holderTx := if tid < 0 then -tid else tid;
          if txId > holderTx {
            assert HasOlderHolder(txList, txId) by {
              assert txList[i] != txId && txId > HolderId(txList[i]);
            }
            return Abort;
          }
          shouldWait := true;
        }
      }
      assert txList[..|txList|] == txList;
      if !shouldWait {
        locks := locks[blk := Remove(txList, txId) + [-txId]];
        return Granted;
      }
      return MustWait;
    }

    /** Releases every lock `txId` holds on `blk`. */
    method Unlock(blk: BlockId, txId: int)
      requires Valid()
      modifies this
      ensures Valid()
      ensures locks == UnlockStep(old(locks), blk, txId)
    {
      UnlockKeepsTableOk(locks, blk, txId);
      if blk !in locks {
        return;
      }
      var txList := locks[blk];
      txList := Remove(txList, txId);
      txList := Remove(txList, -txId);
      if txList == [] {
        locks := locks - {blk};
      } else {
        locks := locks[blk := txList];
      }
    }
  }
}
