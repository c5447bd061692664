/** The two requests working on one tablespace: what a write request makes durable at an
    offset is what a later read request of that offset, missing the buffer, brings back. */
module Protocol {
  import opened Common
  import opened Storage
  import opened BlockBuffer
  import opened ReadRequest
  import opened WriteRequest

  /** A write request followed by a read request of the same offset against the same
      store: with the store open, the offset not cached and room in the buffer, both
      succeed, the written bytes are durable, the destination holds exactly the bytes
      that were written, and the buffer now caches the destination under the offset. */
  method WriteThenRead(w: FSeekAndWriteRequest, rq: FSeekAndReadRequest, keys: seq<i64>)
      returns (wr: Outcome, rr: Outcome)
    requires rq.Wired() && w.ioUnit == rq.ioUnit && w.offset == rq.offset
    requires rq.blockBuffer.Valid() && rq.blockBuffer.Enumerates(keys)
    requires rq.ioUnit.isOpen && !rq.dblk.incore
    requires rq.offset !in rq.blockBuffer.blockBuffer && |rq.blockBuffer.blockBuffer| < NODEPOOLBLOCKS
    modifies w.ioUnit, w.dblk, w.barrierCount, rq.blockBuffer, rq.dblk, rq.barrierCount
    ensures wr.Pass? && rr.Pass?
    ensures !w.dblk.incore
    ensures rq.offset as int in rq.ioUnit.durable && rq.ioUnit.durable[rq.offset as int] == old(w.dblk.Used())
    ensures rq.dblk.Used() == old(w.dblk.Used())
    ensures rq.blockBuffer.Get(rq.offset) == Some(rq.dblk)
  {
    ghost var written := w.dblk.Used();
    wr := w.Process();
    assert w.ioUnit.image[w.offset as int] == written;
    rr := rq.Process(keys);
  }
}
