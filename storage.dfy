/** The collaborators the core talks to, reduced to what the core relies on: a block
    (Datablock) with its in-core flag, the tablespace store behind an IoInterface, the
    CountDownLatch a request signals, and the ObjectDBIO that owns the buffer pool and
    the serialized keys and values. */
module Storage {
  import opened Common
  import opened PageLayout

  /** The payload of a block: always DATASIZE bytes. */
  type Payload = s: seq<byte> | |s| == DATASIZE witness seq(DATASIZE, _ => 0)

  /** Every block payload has room for a page image. */
  lemma PayloadFits(d: Payload)
    ensures Fits(d)
  {
  }

  /** One store operation, as recorded in the store's trace. */
  datatype IoEvent =
    | SeekTo(pos: int)
    | ReadAt(pos: int)
    | WriteUsedAt(pos: int, bytes: seq<byte>)
    | WriteBlockAt(pos: int, bytes: seq<byte>)
    | Forced

  /** The tablespace file behind an IoInterface: the bytes last written at each block
      offset, the snapshot the last Fforce made durable, and a cursor set by Fseek that
      each read or write advances past the bytes it moved. Every operation fails with
      an IOException once the store is closed. */
  class Store {
    var isOpen: bool
    var cursor: int
    var image: map<int, seq<byte>>
    var durable: map<int, seq<byte>>
    ghost var trace: seq<IoEvent>

    constructor (contents: map<int, seq<byte>>)
      ensures isOpen && cursor == 0 && image == contents && durable == contents && trace == []
    {
      isOpen, cursor, image, durable, trace := true, 0, contents, contents, [];
    }

    /** IoInterface.Fseek */
    method Fseek(offset: int) returns (r: Outcome)
      modifies this
      ensures r.Pass? <==> old(isOpen)
      ensures r.Fail? ==> r.fault == IoFault && unchanged(this)
      ensures r.Pass? ==> cursor == offset && trace == old(trace) + [SeekTo(offset)]
      ensures isOpen == old(isOpen) && image == old(image) && durable == old(durable)
    {
      if !isOpen {
        return Fail(IoFault);
      }
      cursor := offset;
      trace := trace + [SeekTo(offset)];
      r := Pass;
    }

    /** IoInterface.Fforce: everything written so far becomes durable. */
    method Fforce() returns (r: Outcome)
      modifies this
      ensures r.Pass? <==> old(isOpen)
      ensures r.Fail? ==> r.fault == IoFault && unchanged(this)
      ensures r.Pass? ==> durable == image && trace == old(trace) + [Forced]
      ensures isOpen == old(isOpen) && cursor == old(cursor) && image == old(image)
    {
      if !isOpen {
        return Fail(IoFault);
      }
      durable := image;
      trace := trace + [Forced];
      r := Pass;
    }
  }

  /** A block of the buffer pool: payload bytes, how many of them are in use, and the
      in-core flag that marks changes not yet written to the store. */
  class Datablock {
    var data: Payload
    var bytesused: nat
    var incore: bool

    /** A cleared block of DATASIZE bytes. */
    constructor ()
      ensures data == seq(DATASIZE, _ => 0) && bytesused == 0 && !incore
    {
      data, bytesused, incore := seq(DATASIZE, _ => 0), 0, false;
    }

    /** The bytes in use. */
    function Used(): (r: seq<byte>)
      reads this
      ensures |r| <= |data|
      ensures bytesused <= |data| ==> r == data[..bytesused]
    {
      if bytesused <= |data| then data[..bytesused] else data
    }

    /** doClone: the target takes this block's contents; its in-core flag is its own. */
    method DoClone(target: Datablock)
      modifies target
      ensures target.data == old(data) && target.bytesused == old(bytesused)
      ensures target.incore == old(target.incore)
      ensures target.Used() == old(Used())
    {
      target.data := data;
      target.bytesused := bytesused;
    }

    /** readUsed: the used bytes become what the store holds at its cursor; bytes the
        store lacks, or more than a block holds, are an IOException. */
    method ReadUsed(store: Store) returns (r: Outcome)
      modifies this, store
      ensures r.Pass? <==> old(store.isOpen) && old(store.cursor) in old(store.image)
                           && |old(store.image)[old(store.cursor)]| <= DATASIZE
      ensures r.Fail? ==> r.fault == IoFault && unchanged(this) && unchanged(store)
      ensures r.Pass? ==> Used() == old(store.image)[old(store.cursor)] && incore == old(incore)
      ensures r.Pass? ==> store.trace == old(store.trace) + [ReadAt(old(store.cursor))]
      ensures r.Pass? ==> store.cursor == old(store.cursor) + |Used()|
      ensures store.isOpen == old(store.isOpen)
      ensures store.image == old(store.image) && store.durable == old(store.durable)
    {
      if !store.isOpen || store.cursor !in store.image || |store.image[store.cursor]| > |data| {
        return Fail(IoFault);
      }
      var img := store.image[store.cursor];
      data := img + data[|img|..];
      bytesused := |img|;
      assert data[..bytesused] == img;
      store.trace := store.trace + [ReadAt(store.cursor)];
      store.cursor := store.cursor + |img|;
      r := Pass;
    }

    /** writeUsed: the used bytes, and nothing else, are written at the store's cursor. */
    method WriteUsed(store: Store) returns (r: Outcome)
      modifies store
      ensures r.Pass? <==> old(store.isOpen)
      ensures r.Fail? ==> r.fault == IoFault && unchanged(store)
      ensures r.Pass? ==> store.image == old(store.image)[old(store.cursor) := Used()]
      ensures r.Pass? ==> store.trace == old(store.trace) + [WriteUsedAt(old(store.cursor), Used())]
      ensures r.Pass? ==> store.cursor == old(store.cursor) + |Used()|
      ensures store.isOpen == old(store.isOpen) && store.durable == old(store.durable)
    {
      if !store.isOpen {
        return Fail(IoFault);
      }
      store.image := store.image[store.cursor := Used()];
      store.trace := store.trace + [WriteUsedAt(store.cursor, Used())];
      store.cursor := store.cursor + |Used()|;
      r := Pass;
    }

    /** write: the whole block is written at the store's cursor. */
    method Write(store: Store) returns (r: Outcome)
      modifies store
      ensures r.Pass? <==> old(store.isOpen)
      ensures r.Fail? ==> r.fault == IoFault && unchanged(store)
      ensures r.Pass? ==> store.image == old(store.image)[old(store.cursor) := data]
      ensures r.Pass? ==> store.trace == old(store.trace) + [WriteBlockAt(old(store.cursor), data)]
      ensures r.Pass? ==> store.cursor == old(store.cursor) + DATASIZE
      ensures store.isOpen == old(store.isOpen) && store.durable == old(store.durable)
    {
      if !store.isOpen {
        return Fail(IoFault);
      }
      store.image := store.image[store.cursor := data];
      store.trace := store.trace + [WriteBlockAt(store.cursor, data)];
      store.cursor := store.cursor + DATASIZE;
      r := Pass;
    }
  }

  /** A CountDownLatch: countDown lowers the count and never below zero. */
  class Latch {
    var count: nat

    constructor (n: nat)
      ensures count == n
    {
      count := n;
    }

    method CountDown()
      modifies this
      ensures count == if old(count) > 0 then old(count) - 1 else 0
    {
      if count > 0 {
        count := count - 1;
      }
    }
  }

  /** ObjectDBIO as the key page sees it: the buffer pool (block id to block), the
      serialized keys and values by location, and a block allocator. The allocator is a
      counter standing in for the free-chain and insert-position logic, which are not
      part of this model; it only promises locations never handed out before. */
  class ObjectDBIO {
    var blocks: map<i64, Datablock>
    var objects: map<Optr, int>
    var nextFree: int

    ghost predicate Valid()
      reads this
    {
      && 0 <= nextFree
      && (forall p :: p in objects ==> p.block < nextFree)
      && (forall id :: id in blocks ==> id < nextFree)
    }

    constructor ()
      ensures Valid() && blocks == map[] && objects == map[]
    {
      blocks, objects, nextFree := map[], map[], 0;
    }

    /** deserializeObject: the object stored at p; an unknown location is an IOException. */
    function Deserialize(p: Optr): (r: Result<int>)
      reads this
      ensures r.Ok? <==> p in objects
      ensures r.Ok? ==> r.value == objects[p]
      ensures r.Err? ==> r.fault == IoFault
    {
      if p in objects then Ok(objects[p]) else Err(IoFault)
    }

    /** getNewInsertPosition: a location that holds no object and is not the empty
        pointer; fails once the block ids are exhausted. */
    method NewInsertPosition() returns (r: Result<Optr>)
      requires Valid()
      modifies this
      ensures Valid() && objects == old(objects) && blocks == old(blocks)
      ensures r.Ok? ==> r.value !in objects && r.value != EmptyPointer && r.value.block < nextFree
      ensures r.Err? ==> r.fault == IoFault
    {
      if nextFree >= 0x7FFF_FFFF_FFFF_FFFF {
        return Err(IoFault);
      }
      r := Ok(Optr(nextFree, 0));
      nextFree := nextFree + 1;
    }

    /** add_object: store a serialized object at a location handed out before. */
    method AddObject(p: Optr, obj: int)
      requires Valid() && p.block < nextFree
      modifies this
      ensures Valid() && objects == old(objects)[p := obj]
      ensures blocks == old(blocks) && nextFree == old(nextFree)
    {
      objects := objects[p := obj];
    }

    /** delete_object: the location no longer holds an object. */
    method DeleteObject(p: Optr)
      requires Valid()
      modifies this
      ensures Valid() && objects == old(objects) - {p}
      ensures blocks == old(blocks) && nextFree == old(nextFree)
    {
      objects := objects - {p};
    }

    /** findOrAddBlock: the pool's block for an id; an id the pool cannot supply is a
        failed lookup. */
    method FindBlock(id: i64) returns (r: Option<Datablock>)
      ensures r.Some? <==> id in blocks
      ensures r.Some? ==> r.value == blocks[id]
    {
      if id in blocks {
        return Some(blocks[id]);
      }
      return None;
    }

    /** stealblk: a fresh, cleared block under an id never used before. */
    method StealBlock() returns (r: Result<(i64, Datablock)>)
      requires Valid()
      modifies this
      ensures Valid() && objects == old(objects)
      ensures r.Ok? ==> r.value.0 !in old(blocks) && r.value.0 != NoPage
      ensures r.Ok? ==> fresh(r.value.1) && blocks == old(blocks)[r.value.0 := r.value.1]
      ensures r.Ok? ==> r.value.1.data == seq(DATASIZE, _ => 0) && !r.value.1.incore
      ensures r.Err? ==> r.fault == IoFault && blocks == old(blocks)
    {
      if nextFree >= 0x7FFF_FFFF_FFFF_FFFF {
        return Err(IoFault);
      }
      var id: i64 := nextFree;
      var blk := new Datablock();
      blocks := blocks[id := blk];
      nextFree := nextFree + 1;
      r := Ok((id, blk));
    }
  }
}
