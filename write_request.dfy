/** FSeekAndWriteRequest: a write-through of one block's used bytes to its offset in a
    tablespace, after which the block is no longer in-core and the request's latch is
    counted down. */
module WriteRequest {
  import opened Common
  import opened Storage

  class FSeekAndWriteRequest {
    /** The store is supplied by setIoInterface before the request is processed. */
    var ioUnit: Store?
    var offset: i64
    var dblk: Datablock
    var tablespace: int
    var barrierCount: Latch

    /** The request records its latch, the block offset and the block to write. */
    constructor (barrierCount: Latch, offset: i64, dblk: Datablock)
      ensures this.barrierCount == barrierCount && this.offset == offset && this.dblk == dblk
      ensures ioUnit == null
    {
      this.barrierCount := barrierCount;
      this.offset := offset;
      this.dblk := dblk;
      tablespace := 0;
      ioUnit := null;
    }

    /** process: FseekAndWrite, then the latch is counted down. An exception from the
        write skips the countdown. */
    method Process() returns (r: Outcome)
      requires ioUnit != null
      modifies ioUnit, dblk, barrierCount
      ensures r.Pass? <==> old(ioUnit.isOpen)
      ensures r.Fail? ==> r.fault == IoFault && unchanged(ioUnit, dblk, barrierCount)
      ensures r.Pass? ==> ioUnit.image == old(ioUnit.image)[offset as int := old(dblk.Used())]
      ensures r.Pass? ==> ioUnit.durable == ioUnit.image
      ensures r.Pass? ==> ioUnit.trace == old(ioUnit.trace) + [SeekTo(offset as int), WriteUsedAt(offset as int, old(dblk.Used())), Forced]
      ensures r.Pass? ==> !dblk.incore
      ensures r.Pass? ==> barrierCount.count == if old(barrierCount.count) > 0 then old(barrierCount.count) - 1 else 0
      ensures dblk.data == old(dblk.data) && dblk.bytesused == old(dblk.bytesused)
      ensures ioUnit.isOpen == old(ioUnit.isOpen)
    {
      r := FseekAndWrite();
      if r.Pass? {
        barrierCount.CountDown();
      }
    }

    /** FseekAndWrite: seek to the offset, write the used bytes there, force the store,
        and only then clear the block's in-core flag. The used bytes are the only thing
        written, and the block's contents are left as they were. */
    method FseekAndWrite() returns (r: Outcome)
      requires ioUnit != null
      modifies ioUnit, dblk
      ensures r.Pass? <==> old(ioUnit.isOpen)
      ensures r.Fail? ==> r.fault == IoFault && unchanged(ioUnit, dblk)
      ensures r.Pass? ==> ioUnit.image == old(ioUnit.image)[offset as int := old(dblk.Used())]
      ensures r.Pass? ==> ioUnit.durable == ioUnit.image
      ensures r.Pass? ==> ioUnit.trace == old(ioUnit.trace) + [SeekTo(offset as int), WriteUsedAt(offset as int, old(dblk.Used())), Forced]
      ensures r.Pass? ==> !dblk.incore
      ensures dblk.data == old(dblk.data) && dblk.bytesused == old(dblk.bytesused)
      ensures ioUnit.isOpen == old(ioUnit.isOpen)
    {
      var store := ioUnit;
      r := store.Fseek(offset as int);
      if r.Fail? {
        return;
      }
      r := dblk.WriteUsed(store);
      if r.Fail? {
        return;
      }
      r := store.Fforce();
      if r.Fail? {
        return;
      }
      dblk.incore := false;
    }

    /** getLongReturn: the block offset. */
    function LongReturn(): (v: i64)
      reads this
      ensures v == offset
    {
      offset
    }

    /** getObjectReturn: the block the request writes. */
    function ObjectReturn(): (b: Datablock)
      reads this
      ensures b == dblk
    {
      dblk
    }

    /** setIoInterface: the store is recorded and nothing else changes. */
    method SetIoInterface(ioi: Store)
      modifies this
      ensures ioUnit == ioi
      ensures offset == old(offset) && dblk == old(dblk) && barrierCount == old(barrierCount)
      ensures tablespace == old(tablespace)
    {
      ioUnit := ioi;
    }

    /** setTablespace: the tablespace number is recorded and nothing else changes. */
    method SetTablespace(ts: int)
      modifies this
      ensures tablespace == ts
      ensures offset == old(offset) && dblk == old(dblk) && barrierCount == old(barrierCount)
      ensures ioUnit == old(ioUnit)
    {
      tablespace := ts;
    }
  }
}
