/**
 * The buffer pool of the storage engine: a fixed set of in-memory buffers,
 * an index from resident blocks to the buffer holding each, and an LRU list
 * of the unpinned buffers whose front is the buffer unpinned longest ago and
 * is the next to be replaced.
 */
module BufferPool {
  import opened Wrappers
  import opened Seqs
  import opened FileIds

  /**
   * One buffer of the pool, reduced to the state the buffer manager looks at:
   * its pin count, the block it is bound to (none while never used), the
   * transaction that last modified it (-1 for none) and a count of the
   * write-backs performed on it, which stands for the disk and log writes of
   * `flush`. Page contents and the log sequence number are not modelled.
   */
  class Buffer {
    const id: nat
    var pins: nat
    var block: Option<BlockId>
    var modifyingTx: int
    var flushes: nat

    constructor (id: nat)
      ensures this.id == id && pins == 0 && block == None && modifyingTx == -1 && flushes == 0
    {
      this.id := id;
      pins := 0;
      block := None;
      modifyingTx := -1;
      flushes := 0;
    }

    predicate IsPinned()
      reads this
    {
      pins > 0
    }

    method Pin()
      modifies this`pins
      ensures pins == old(pins) + 1
    {
      pins := pins + 1;
    }

    method Unpin()
      requires pins > 0
      modifies this`pins
      ensures pins == old(pins) - 1
    {
      pins := pins - 1;
    }

    /** Rebinds the buffer to `b`: no pins and no pending modification. */
    method AssignToBlock(b: BlockId)
      modifies this`block, this`pins, this`modifyingTx
      ensures block == Some(b) && pins == 0 && modifyingTx == -1
    {
      block := Some(b);
      pins := 0;
      modifyingTx := -1;
    }

    /**
     * Writes a modified buffer back and clears its modifier; only the fact
     * that a write happened is recorded. An unmodified buffer is left alone,
     * so a second flush does nothing.
     */
    method Flush()
      modifies this`flushes, this`modifyingTx
      ensures old(modifyingTx) >= 0 ==> flushes == old(flushes) + 1 && modifyingTx == -1
      ensures old(modifyingTx) < 0 ==> flushes == old(flushes) && modifyingTx == old(modifyingTx)
    {
      if modifyingTx >= 0 {
        flushes := flushes + 1;
        modifyingTx := -1;
      }
    }
  }

  /** Why `pin` fails: no buffer could be freed (the source's `BufferAbortException`). */
  datatype PinError = BufferAbort

  /** The buffer manager with LRU replacement among unpinned buffers. */
  class BufferMgr {
    const allBuffers: array<Buffer>
    ghost const Pool: set<Buffer>
    var blockBufferMap: map<BlockId, Buffer>
    var unpinnedBuffers: seq<Buffer>
    var numAvailable: int

    /** `b` is this pool's buffer number `b.id`. */
    predicate Owns(b: Buffer)
      reads allBuffers
    {
      b.id < allBuffers.Length && allBuffers[b.id] == b
    }

    /**
     * The pool invariant: every buffer is numbered by its slot; the counter
     * is the length of the LRU list; the list holds, once each, exactly the
     * buffers with pin count 0; a pinned buffer is bound to a block; and the
     * block index is the inverse of the buffers' bindings, so no two
     * buffers hold the same block.
     */
    ghost predicate Valid()
      reads this, allBuffers, Pool
    {
      Pool == (set i | 0 <= i < allBuffers.Length :: allBuffers[i]) &&
      (forall i :: 0 <= i < allBuffers.Length ==> allBuffers[i].id == i) &&
      numAvailable == |unpinnedBuffers| &&
      NoDup(unpinnedBuffers) &&
      (forall b :: b in unpinnedBuffers ==> Owns(b)) &&
      (forall i :: 0 <= i < allBuffers.Length ==> (allBuffers[i].pins == 0 <==> allBuffers[i] in unpinnedBuffers)) &&
      (forall i :: 0 <= i < allBuffers.Length && allBuffers[i].pins > 0 ==> allBuffers[i].block.Some?) &&
      (forall blk :: blk in blockBufferMap ==> Owns(blockBufferMap[blk]) && blockBufferMap[blk].block == Some(blk)) &&
      (forall i :: 0 <= i < allBuffers.Length && allBuffers[i].block.Some? ==>
         allBuffers[i].block.value in blockBufferMap && blockBufferMap[allBuffers[i].block.value] == allBuffers[i])
    }

    /** The buffers whose pin count is 0. */
    ghost function Unpinned(): set<Buffer>
      reads this, allBuffers, Pool
      requires Valid()
    {
      set i | 0 <= i < allBuffers.Length && allBuffers[i].pins == 0 :: allBuffers[i]
    }

    /** A pool of `numbuffs` fresh, unbound buffers, all unpinned, listed in slot order. */
    constructor (numbuffs: nat)
      ensures Valid() && fresh(allBuffers) && fresh(Pool)
      ensures allBuffers.Length == numbuffs && numAvailable == numbuffs
      ensures unpinnedBuffers == allBuffers[..] && blockBufferMap == map[]
      ensures forall i :: 0 <= i < numbuffs ==>
                allBuffers[i].pins == 0 && allBuffers[i].block == None &&
                allBuffers[i].modifyingTx == -1 && allBuffers[i].flushes == 0
    {
      var bufs: seq<Buffer> := [];
      for i := 0 to numbuffs
        invariant |bufs| == i
        invariant forall k :: 0 <= k < i ==>
                    fresh(bufs[k]) && bufs[k].id == k && bufs[k].pins == 0 && bufs[k].block == None &&
                    bufs[k].modifyingTx == -1 && bufs[k].flushes == 0
      {
        var b := new Buffer(i);
        bufs := bufs + [b];
      }
      allBuffers := new Buffer[numbuffs](k requires 0 <= k < numbuffs => bufs[k]);
      Pool := set k | 0 <= k < numbuffs :: bufs[k];
      blockBufferMap := map[];
      unpinnedBuffers := bufs;
      numAvailable := numbuffs;
      new;
      assert allBuffers[..] == bufs;
      assert NoDup(unpinnedBuffers) by {
        forall i, j | 0 <= i < j < |bufs| ensures bufs[i] != bufs[j] {
          assert bufs[i].id != bufs[j].id;
        }
      }
      forall i | 0 <= i < numbuffs ensures allBuffers[i] in unpinnedBuffers {
        assert unpinnedBuffers[i] == allBuffers[i];
      }
    }

    /** `available()`: the number of buffers with pin count 0. */
    method Available() returns (n: int)
      requires Valid()
      ensures n == |Unpinned()|
    {
      n := numAvailable;
      assert (set b | b in unpinnedBuffers) == Unpinned() by {
        forall b | b in unpinnedBuffers ensures b in Unpinned() {
          assert Owns(b);
        }
      }
      DistinctCardinality(unpinnedBuffers);
    }

    /**
     * `flushAll(txId)`: writes back exactly the buffers last modified by
     * `txId`, each once, and clears their modifier, so that calling it again
     * writes nothing; pins and bindings do not change.
     */
    method FlushAll(txId: int)
      requires Valid()
      modifies Pool
      ensures Valid()
      ensures forall i :: 0 <= i < allBuffers.Length ==>
                if old(allBuffers[i].modifyingTx) == txId && txId >= 0
                then allBuffers[i].flushes == old(allBuffers[i].flushes) + 1 && allBuffers[i].modifyingTx == -1
                else allBuffers[i].flushes == old(allBuffers[i].flushes) && allBuffers[i].modifyingTx == old(allBuffers[i].modifyingTx)
      ensures forall i :: 0 <= i < allBuffers.Length ==>
                allBuffers[i].pins == old(allBuffers[i].pins) && allBuffers[i].block == old(allBuffers[i].block)
    {
      for i := 0 to allBuffers.Length
        invariant forall k :: 0 <= k < i ==>
                    if old(allBuffers[k].modifyingTx) == txId && txId >= 0
                    then allBuffers[k].flushes == old(allBuffers[k].flushes) + 1 && allBuffers[k].modifyingTx == -1
                    else allBuffers[k].flushes == old(allBuffers[k].flushes) && allBuffers[k].modifyingTx == old(allBuffers[k].modifyingTx)
        invariant forall k :: i <= k < allBuffers.Length ==>
                    allBuffers[k].flushes == old(allBuffers[k].flushes) && allBuffers[k].modifyingTx == old(allBuffers[k].modifyingTx)
        invariant forall k :: 0 <= k < allBuffers.Length ==>
                    allBuffers[k].pins == old(allBuffers[k].pins) && allBuffers[k].block == old(allBuffers[k].block)
      {
        var buff := allBuffers[i];
        if buff.modifyingTx == txId {
          buff.Flush();
        }
      }
    }

    /**
     * `unpin(buff)`: an unpinned buffer is left alone; otherwise the pin
     * count drops by one, and a buffer that reaches 0 joins the back of the
     * LRU list (most recently unpinned) and is counted as available.
     */
    method Unpin(buff: Buffer)
      requires Valid() && Owns(buff)
      modifies this`unpinnedBuffers, this`numAvailable, buff`pins
      ensures Valid()
      ensures old(buff.pins) == 0 ==>
                buff.pins == 0 && unpinnedBuffers == old(unpinnedBuffers) && numAvailable == old(numAvailable)
      ensures old(buff.pins) == 1 ==>
                buff.pins == 0 && unpinnedBuffers == old(unpinnedBuffers) + [buff] && numAvailable == old(numAvailable) + 1
      ensures old(buff.pins) > 1 ==>
                buff.pins == old(buff.pins) - 1 && unpinnedBuffers == old(unpinnedBuffers) && numAvailable == old(numAvailable)
    {
      if !buff.IsPinned() {
        return;
      }
      assert buff !in unpinnedBuffers;
      buff.Unpin();
      if !buff.IsPinned() {
        AppendFresh(unpinnedBuffers, buff);
        numAvailable := numAvailable + 1;
        unpinnedBuffers := unpinnedBuffers + [buff];
      }
    }

    /** `chooseUnpinnedBuffer()`: takes the least recently unpinned buffer off the front of the LRU list. */
    method ChooseUnpinnedBuffer() returns (buff: Buffer?)
      modifies this`unpinnedBuffers
      ensures old(unpinnedBuffers) == [] ==> buff == null && unpinnedBuffers == []
      ensures old(unpinnedBuffers) != [] ==>
                buff == old(unpinnedBuffers)[0] && unpinnedBuffers == old(unpinnedBuffers)[1..]
    {
      if unpinnedBuffers == [] {
        return null;
      }
      buff := unpinnedBuffers[0];
      unpinnedBuffers := unpinnedBuffers[1..];
    }

    /**
     * `tryToPin(blk)`: one attempt to pin `blk`. A resident block keeps its
     * buffer, which leaves the LRU list if it was unpinned. Otherwise the
     * front of the LRU list is evicted from its old block and bound to `blk`;
     * with an empty list the attempt returns null and changes nothing. No
     * buffer other than the returned one changes.
     */
    method TryToPin(blk: BlockId) returns (buff: Buffer?)
      requires Valid()
      modifies this`blockBufferMap, this`unpinnedBuffers, this`numAvailable, Pool
      ensures Valid()
      ensures blk in old(blockBufferMap) ==>
                buff == old(blockBufferMap[blk]) && blockBufferMap == old(blockBufferMap) &&
                buff.block == Some(blk) && buff.pins == old(buff.pins) + 1 &&
                buff.modifyingTx == old(buff.modifyingTx) && buff.flushes == old(buff.flushes) &&
                (old(buff.pins) == 0 ==>
                   unpinnedBuffers == Remove(old(unpinnedBuffers), old(blockBufferMap[blk])) && numAvailable == old(numAvailable) - 1) &&
                (old(buff.pins) > 0 ==>
                   unpinnedBuffers == old(unpinnedBuffers) && numAvailable == old(numAvailable))
      ensures blk !in old(blockBufferMap) && old(unpinnedBuffers) == [] ==>
                buff == null && blockBufferMap == old(blockBufferMap) &&
                unpinnedBuffers == old(unpinnedBuffers) && numAvailable == old(numAvailable)
      ensures blk !in old(blockBufferMap) && old(unpinnedBuffers) != [] ==>
                buff == old(unpinnedBuffers)[0] &&
                unpinnedBuffers == old(unpinnedBuffers)[1..] && numAvailable == old(numAvailable) - 1 &&
                blockBufferMap == (if old(buff.block).Some? then old(blockBufferMap) - {old(buff.block).value}
                                   else old(blockBufferMap))[blk := buff] &&
                buff.block == Some(blk) && buff.pins == 1 && buff.modifyingTx == -1 && buff.flushes == old(buff.flushes)
      ensures forall i :: 0 <= i < allBuffers.Length && allBuffers[i] != buff ==> unchanged(allBuffers[i])
    {
      var b: Buffer;
      if blk in blockBufferMap {
        b := blockBufferMap[blk];
        assert allBuffers[b.id] == b;
      } else {
        buff := ChooseUnpinnedBuffer();
        if buff == null {
          return;
        }
        b := buff;
        assert old(unpinnedBuffers)[0] in old(unpinnedBuffers);
        RemoveFromDistinct(old(unpinnedBuffers), b);
        assert b !in unpinnedBuffers;
        Rebind(b, blk);
      }
      PinTracked(b);
      buff := b;
      PinKeepsValid(b);
    }

    /**
     * Lines 141-144 of `tryToPin`: the victim's old block leaves the index,
     * the victim is reassigned to `blk` and indexed under it.
     */
    method Rebind(b: Buffer, blk: BlockId)
      modifies this`blockBufferMap, b`block, b`pins, b`modifyingTx
      ensures blockBufferMap == (if old(b.block).Some? then old(blockBufferMap) - {old(b.block).value}
                                 else old(blockBufferMap))[blk := b]
      ensures b.block == Some(blk) && b.pins == 0 && b.modifyingTx == -1
    {
      if b.block.Some? {
        blockBufferMap := blockBufferMap - {b.block.value};
      }
      b.AssignToBlock(blk);
      blockBufferMap := blockBufferMap[blk := b];
    }

    /**
     * Lines 146-150 of `tryToPin`: a buffer that was unpinned leaves the LRU
     * list and the free count, then its pin count goes up.
     */
    method PinTracked(b: Buffer)
      modifies this`unpinnedBuffers, this`numAvailable, b`pins
      ensures old(b.pins) == 0 ==>
                unpinnedBuffers == Remove(old(unpinnedBuffers), b) && numAvailable == old(numAvailable) - 1
      ensures old(b.pins) > 0 ==>
                unpinnedBuffers == old(unpinnedBuffers) && numAvailable == old(numAvailable)
      ensures b.pins == old(b.pins) + 1
    {
      if !b.IsPinned() {
        numAvailable := numAvailable - 1;
        unpinnedBuffers := Remove(unpinnedBuffers, b);
      }
      b.Pin();
    }

    /**
     * The invariant survives binding `b` to a block (unless it already was)
     * and pinning it: the new LRU list is the old one without `b`, the index
     * maps the new block to `b` instead of `b`'s old block, and no other
     * buffer changed.
     */
    twostate lemma PinKeepsValid(b: Buffer)
      requires old(Valid()) && Owns(b) && unchanged(allBuffers)
      requires forall i :: 0 <= i < allBuffers.Length && allBuffers[i] != b ==>
                 allBuffers[i].pins == old(allBuffers[i].pins) && allBuffers[i].block == old(allBuffers[i].block)
      requires b.pins > 0 && b.block.Some?
      requires b.block.value in old(blockBufferMap) ==> old(blockBufferMap)[b.block.value] == b
      requires blockBufferMap == (if old(b.block).Some? then old(blockBufferMap) - {old(b.block).value}
                                  else old(blockBufferMap))[b.block.value := b]
      requires unpinnedBuffers == Remove(old(unpinnedBuffers), b) && numAvailable == |unpinnedBuffers|
      ensures Valid()
    {
      RemoveFromDistinct(old(unpinnedBuffers), b);
    }

    /**
     * `pin(blk)` reduced to one attempt: a buffer bound to `blk` and pinned,
     * or `BufferAbort` exactly when `blk` is not resident and no buffer is
     * unpinned, in which case nothing changes.
     */
    method Pin(blk: BlockId) returns (r: Result<Buffer, PinError>)
      requires Valid()
      modifies this`blockBufferMap, this`unpinnedBuffers, this`numAvailable, Pool
      ensures Valid()
      ensures r.Failure? <==> blk !in old(blockBufferMap) && old(unpinnedBuffers) == []
      ensures r.Failure? ==>
                blockBufferMap == old(blockBufferMap) && unpinnedBuffers == old(unpinnedBuffers) &&
                numAvailable == old(numAvailable)
      ensures r.Success? ==>
                Owns(r.value) && blk in blockBufferMap && blockBufferMap[blk] == r.value &&
                r.value.block == Some(blk) && r.value.pins == old(r.value.pins) + 1 &&
                r.value.flushes == old(r.value.flushes)
      ensures r.Success? && blk in old(blockBufferMap) ==>
                r.value == old(blockBufferMap[blk]) && blockBufferMap == old(blockBufferMap) &&
                r.value.modifyingTx == old(r.value.modifyingTx) &&
                (old(r.value.pins) == 0 ==>
                   unpinnedBuffers == Remove(old(unpinnedBuffers), r.value) && numAvailable == old(numAvailable) - 1) &&
                (old(r.value.pins) > 0 ==>
                   unpinnedBuffers == old(unpinnedBuffers) && numAvailable == old(numAvailable))
      ensures r.Success? && blk !in old(blockBufferMap) ==>
                r.value == old(unpinnedBuffers)[0] &&
                unpinnedBuffers == old(unpinnedBuffers)[1..] && numAvailable == old(numAvailable) - 1 &&
                blockBufferMap == (if old(r.value.block).Some? then old(blockBufferMap) - {old(r.value.block).value}
                                   else old(blockBufferMap))[blk := r.value] &&
                old(r.value.pins) == 0 && r.value.modifyingTx == -1
      ensures forall i :: 0 <= i < allBuffers.Length && (r.Failure? || allBuffers[i] != r.value) ==>
                unchanged(allBuffers[i])
    {
      var buff := TryToPin(blk);
      if buff == null {
        return Failure(BufferAbort);
      }
      return Success(buff);
    }
  }
}
