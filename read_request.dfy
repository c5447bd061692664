/** FSeekAndReadRequest: a read of one block of a tablespace into a destination block,
    served from the node block buffer when the block is cached there and from the store
    otherwise, after which the request's latch is counted down. */
module ReadRequest {
  import opened Common
  import opened Storage
  import opened PageLayout
  import opened BlockBuffer

  class FSeekAndReadRequest {
    /** The store and the buffer are transient: setIoInterface supplies both, the buffer
        being the one that belongs to the store. */
    var ioUnit: Store?
    var blockBuffer: NodeBlockBuffer?
    var offset: i64
    var dblk: Datablock
    var tablespace: int
    var barrierCount: Latch

    /** The request records its latch, the block offset and the destination block. */
    constructor (barrierCount: Latch, offset: i64, dblk: Datablock)
      ensures this.barrierCount == barrierCount && this.offset == offset && this.dblk == dblk
      ensures ioUnit == null && blockBuffer == null
    {
      this.barrierCount := barrierCount;
      this.offset := offset;
      this.dblk := dblk;
      tablespace := 0;
      ioUnit := null;
      blockBuffer := null;
    }

    /** The state process needs: setIoInterface has run, so the store and the buffer
        are set and the buffer is the store's own. */
    ghost predicate Wired()
      reads this, blockBuffer
    {
      ioUnit != null && blockBuffer != null && blockBuffer.rawStore == ioUnit
    }

    /** process: FseekAndRead, then the latch is counted down. An exception from the
        read skips the countdown.
        A destination block that is still in-core is refused before anything else
        happens. A block the buffer holds at the offset is cloned into the destination
        and the store is left alone. Otherwise the store is positioned at the offset,
        the used bytes are read into the destination, and the destination block itself
        is entered into the buffer under the offset. */
    method Process(keys: seq<i64>) returns (r: Outcome)
      requires Wired() && blockBuffer.Valid() && blockBuffer.Enumerates(keys)
      modifies ioUnit, blockBuffer, dblk, barrierCount
      ensures ioUnit == old(ioUnit) && blockBuffer == old(blockBuffer) && blockBuffer.Valid()
      ensures dblk.incore == old(dblk.incore)
      // the in-core guard
      ensures old(dblk.incore) ==> r == Fail(InCoreRead)
      ensures old(dblk.incore) ==> unchanged(ioUnit, blockBuffer, dblk)
      // a cache hit
      ensures !old(dblk.incore) && old(offset in blockBuffer.blockBuffer) ==>
                r.Pass? && unchanged(ioUnit, blockBuffer)
                && dblk.data == old(blockBuffer.blockBuffer[offset].data)
                && dblk.bytesused == old(blockBuffer.blockBuffer[offset].bytesused)
      // a cache miss
      ensures !old(dblk.incore) && old(offset !in blockBuffer.blockBuffer) ==>
                (r.Pass? <==> old(ioUnit.isOpen) && offset as int in old(ioUnit.image)
                              && |old(ioUnit.image)[offset as int]| <= DATASIZE
                              && (|old(blockBuffer.blockBuffer)| < NODEPOOLBLOCKS
                                  || CleanVictim(keys, old(blockBuffer.InCoreMap())).Some?))
      ensures !old(dblk.incore) && old(offset !in blockBuffer.blockBuffer) && r.Pass? ==>
                dblk.Used() == old(ioUnit.image)[offset as int]
                && ioUnit.trace == old(ioUnit.trace) + [SeekTo(offset as int), ReadAt(offset as int)]
                && blockBuffer.Get(offset) == Some(dblk)
      ensures ioUnit.image == old(ioUnit.image) && ioUnit.durable == old(ioUnit.durable)
      ensures ioUnit.isOpen == old(ioUnit.isOpen)
      // the latch
      ensures r.Pass? ==> barrierCount.count == if old(barrierCount.count) > 0 then old(barrierCount.count) - 1 else 0
      ensures r.Fail? ==> barrierCount.count == old(barrierCount.count)
    {
      r := FseekAndRead(keys);
      if r.Pass? {
        barrierCount.CountDown();
      }
    }

    /** FseekAndRead: the guarded, cached read of the block at `offset` into `dblk`. */
    method FseekAndRead(keys: seq<i64>) returns (r: Outcome)
      requires Wired() && blockBuffer.Valid() && blockBuffer.Enumerates(keys)
      modifies ioUnit, blockBuffer, dblk
      ensures blockBuffer.Valid() && dblk.incore == old(dblk.incore)
      ensures old(dblk.incore) ==> r == Fail(InCoreRead) && unchanged(ioUnit, blockBuffer, dblk)
      ensures !old(dblk.incore) && old(offset in blockBuffer.blockBuffer) ==>
                r.Pass? && unchanged(ioUnit, blockBuffer)
                && dblk.data == old(blockBuffer.blockBuffer[offset].data)
                && dblk.bytesused == old(blockBuffer.blockBuffer[offset].bytesused)
      ensures !old(dblk.incore) && old(offset !in blockBuffer.blockBuffer) ==>
                (r.Pass? <==> old(ioUnit.isOpen) && offset as int in old(ioUnit.image)
                              && |old(ioUnit.image)[offset as int]| <= DATASIZE
                              && (|old(blockBuffer.blockBuffer)| < NODEPOOLBLOCKS
                                  || CleanVictim(keys, old(blockBuffer.InCoreMap())).Some?))
      ensures !old(dblk.incore) && old(offset !in blockBuffer.blockBuffer) && r.Pass? ==>
                dblk.Used() == old(ioUnit.image)[offset as int]
                && ioUnit.trace == old(ioUnit.trace) + [SeekTo(offset as int), ReadAt(offset as int)]
                && blockBuffer.Get(offset) == Some(dblk)
      ensures ioUnit.image == old(ioUnit.image) && ioUnit.durable == old(ioUnit.durable)
      ensures ioUnit.isOpen == old(ioUnit.isOpen)
    {
      if dblk.incore {
        return Fail(InCoreRead);
      }
      var cached := blockBuffer.Get(offset);
      if cached.Some? {
        cached.value.DoClone(dblk);
        return Pass;
      }
      r := ReadMiss(keys);
    }

    /** The miss path: seek, read the used bytes, then cache the destination block. */
    method ReadMiss(keys: seq<i64>) returns (r: Outcome)
      requires Wired() && blockBuffer.Valid() && blockBuffer.Enumerates(keys)
      modifies ioUnit, blockBuffer, dblk
      ensures blockBuffer.Valid() && dblk.incore == old(dblk.incore)
      ensures r.Pass? <==> old(ioUnit.isOpen) && offset as int in old(ioUnit.image)
                           && |old(ioUnit.image)[offset as int]| <= DATASIZE
                           && (|old(blockBuffer.blockBuffer)| < NODEPOOLBLOCKS
                               || CleanVictim(keys, old(blockBuffer.InCoreMap())).Some?)
      ensures r.Pass? ==> dblk.Used() == old(ioUnit.image)[offset as int]
                          && ioUnit.trace == old(ioUnit.trace) + [SeekTo(offset as int), ReadAt(offset as int)]
                          && blockBuffer.Get(offset) == Some(dblk)
      ensures ioUnit.image == old(ioUnit.image) && ioUnit.durable == old(ioUnit.durable)
      ensures ioUnit.isOpen == old(ioUnit.isOpen)
    {
      var store := ioUnit;
      var buffer := blockBuffer;
      r := store.Fseek(offset as int);
      if r.Fail? {
        return;
      }
      r := dblk.ReadUsed(store);
      if r.Fail? {
        return;
      }
      assert buffer.InCoreMap() == old(buffer.InCoreMap());
      r := buffer.Put(offset, dblk, keys);
    }

    /** getLongReturn: the block offset. */
    function LongReturn(): (v: i64)
      reads this
      ensures v == offset
    {
      offset
    }

    /** getObjectReturn: the destination block. */
    function ObjectReturn(): (b: Datablock)
      reads this
      ensures b == dblk
    {
      dblk
    }

    /** getCountDownLatch: the latch process counts down. */
    function CountDownLatch(): (l: Latch)
      reads this
      ensures l == barrierCount
    {
      barrierCount
    }

    /** setLongReturn: the offset is replaced and nothing else. */
    method SetLongReturn(v: i64)
      modifies this
      ensures LongReturn() == v
      ensures dblk == old(dblk) && barrierCount == old(barrierCount) && tablespace == old(tablespace)
      ensures ioUnit == old(ioUnit) && blockBuffer == old(blockBuffer)
    {
      offset := v;
    }

    /** setObjectReturn: the destination block is replaced and nothing else. */
    method SetObjectReturn(b: Datablock)
      modifies this
      ensures ObjectReturn() == b
      ensures offset == old(offset) && barrierCount == old(barrierCount) && tablespace == old(tablespace)
      ensures ioUnit == old(ioUnit) && blockBuffer == old(blockBuffer)
    {
      dblk := b;
    }

    /** setCountDownLatch: the latch is replaced and nothing else. */
    method SetCountDownLatch(l: Latch)
      modifies this
      ensures CountDownLatch() == l
      ensures offset == old(offset) && dblk == old(dblk) && tablespace == old(tablespace)
      ensures ioUnit == old(ioUnit) && blockBuffer == old(blockBuffer)
    {
      barrierCount := l;
    }

    /** setTablespace: the tablespace number is recorded and nothing else changes. */
    method SetTablespace(ts: int)
      modifies this
      ensures tablespace == ts
      ensures offset == old(offset) && dblk == old(dblk) && barrierCount == old(barrierCount)
      ensures ioUnit == old(ioUnit) && blockBuffer == old(blockBuffer)
    {
      tablespace := ts;
    }

    /** setIoInterface: the store is set together with the buffer that belongs to it,
        which is what process needs. */
    method SetIoInterface(buffer: NodeBlockBuffer)
      modifies this
      ensures Wired() && ioUnit == buffer.rawStore && blockBuffer == buffer
      ensures offset == old(offset) && dblk == old(dblk) && barrierCount == old(barrierCount)
      ensures tablespace == old(tablespace)
    {
      ioUnit := buffer.rawStore;
      blockBuffer := buffer;
    }
  }
}
