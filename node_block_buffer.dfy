/** NodeBlockBuffer: the block cache of a worker node, a bounded map from block offset
    to block. When the map is full, `put` evicts one entry and means to spare blocks
    still in-core (changed and not yet written). `force` writes every in-core block
    through the raw store, clears its flag and then syncs the store once. The map's
    enumeration order (a ConcurrentHashMap's) is not specified, so the operations that
    walk it take that order as a parameter `keys`. */
module BlockBuffer {
  import opened Common
  import opened PageLayout
  import opened Storage

  /** The number of entries the buffer holds before `put` must evict one. */
  const NODEPOOLBLOCKS: nat := 10000

  /** The eviction victim the comment at the eviction loop asks for: the first key in
      enumeration order that is not 0 and whose block is not in-core; None when every
      entry is key 0 or in-core. */
  function CleanVictim(keys: seq<i64>, incore: map<i64, bool>): (v: Option<i64>)
    requires forall i :: 0 <= i < |keys| ==> keys[i] in incore
    ensures v.None? <==> forall i :: 0 <= i < |keys| ==> keys[i] == 0 || incore[keys[i]]
    ensures v.Some? ==> exists i :: 0 <= i < |keys| && keys[i] == v.value
                                    && (forall j :: 0 <= j < i ==> keys[j] == 0 || incore[keys[j]])
    ensures v.Some? ==> v.value != 0 && !incore[v.value]
  {
    if |keys| == 0 then None
    else if keys[0] != 0 && !incore[keys[0]] then Some(keys[0])
    else
      var v := CleanVictim(keys[1..], incore);
      assert forall i :: 1 <= i < |keys| ==> keys[i] == keys[1..][i - 1];
      v
  }

  /** The eviction loop as written: `rec` starts at -1, takes each enumerated key in
      turn and the loop stops at the first non-zero key whose block is not in-core.
      When no key stops it, `rec` is left at the last key, whatever its state. */
  function ScanAsWritten(keys: seq<i64>, incore: map<i64, bool>, rec: i64): (v: i64)
    requires forall i :: 0 <= i < |keys| ==> keys[i] in incore
    ensures |keys| == 0 ==> v == rec
    ensures |keys| > 0 ==> v in keys
  {
    if |keys| == 0 then rec
    else if keys[0] != 0 && !incore[keys[0]] then keys[0]
    else ScanAsWritten(keys[1..], incore, keys[0])
  }

  /** The key the eviction loop as written leaves in `rec`; `put` throws when it is
      -1 and removes that key otherwise. The loop runs only on a full map. */
  function EvictAsWritten(keys: seq<i64>, incore: map<i64, bool>): (v: i64)
    requires forall i :: 0 <= i < |keys| ==> keys[i] in incore
    ensures v == -1 <== |keys| == 0
    ensures |keys| > 0 ==> v in keys
  {
    ScanAsWritten(keys, incore, -1)
  }

  /** Where a clean victim exists, the loop as written finds exactly it. */
  lemma {:induction false} AsWrittenAgreesWhenClean(keys: seq<i64>, incore: map<i64, bool>, rec: i64)
    requires forall i :: 0 <= i < |keys| ==> keys[i] in incore
    requires CleanVictim(keys, incore).Some?
    ensures ScanAsWritten(keys, incore, rec) == CleanVictim(keys, incore).value
  {
    if keys[0] != 0 && !incore[keys[0]] {
    } else {
      AsWrittenAgreesWhenClean(keys[1..], incore, keys[0]);
    }
  }

  /** Where no clean victim exists, the loop as written leaves `rec` at the last key
      and `put` removes that entry although it is key 0 or still in-core. */
  lemma {:induction false} AsWrittenEvictsLastWhenNoneClean(keys: seq<i64>, incore: map<i64, bool>, rec: i64)
    requires forall i :: 0 <= i < |keys| ==> keys[i] in incore
    requires |keys| > 0 && CleanVictim(keys, incore).None?
    ensures ScanAsWritten(keys, incore, rec) == keys[|keys| - 1]
    ensures keys[|keys| - 1] == 0 || incore[keys[|keys| - 1]]
  {
    if |keys| > 1 {
      assert forall i :: 0 <= i < |keys| - 1 ==> keys[1..][i] == keys[i + 1];
      AsWrittenEvictsLastWhenNoneClean(keys[1..], incore, keys[0]);
    }
  }

  /** The loop as written over the enumeration [5] whose block is in-core: it picks
      key 5, the guard `rec == -1` lets it through, and the unwritten block would be
      dropped. In a full buffer the same happens whenever every entry is key 0 or
      in-core and the last enumerated key is an in-core block. */
  lemma AsWrittenDropsInCoreBlock()
    ensures EvictAsWritten([5], map[5 := true]) == 5
    ensures CleanVictim([5], map[5 := true]).None?
  {
    AsWrittenEvictsLastWhenNoneClean([5], map[5 := true], -1);
  }

  /** On a non-empty enumeration, `put` as written throws exactly when the loop stops
      on key -1: either -1 is the first key that is not 0 and not in-core, or there is
      no such key and -1 is the last key. */
  lemma AsWrittenThrows(keys: seq<i64>, incore: map<i64, bool>)
    requires forall i :: 0 <= i < |keys| ==> keys[i] in incore
    requires |keys| > 0
    ensures EvictAsWritten(keys, incore) == -1 <==>
      CleanVictim(keys, incore) == Some(-1) || (CleanVictim(keys, incore).None? && keys[|keys| - 1] == -1)
  {
    if CleanVictim(keys, incore).Some? {
      AsWrittenAgreesWhenClean(keys, incore, -1);
    } else {
      AsWrittenEvictsLastWhenNoneClean(keys, incore, -1);
    }
  }

  /** No entry listed at the positions `idx` is the block `b`. */
  ghost predicate Unwritten(entries: seq<Datablock>, idx: seq<int>, b: Datablock)
  {
    forall k :: 0 <= k < |idx| && 0 <= idx[k] < |entries| ==> entries[idx[k]] != b
  }

  /** The positions, among the first `n` enumerated blocks, that `force` writes, in
      order: each position whose block was in-core at the start (`wasInCore`), unless
      the same block was already written from an earlier position (a block cached
      under two keys has its flag cleared by the first write). */
  ghost function FlushOrder(entries: seq<Datablock>, wasInCore: seq<bool>, n: nat): (idx: seq<int>)
    requires n <= |entries| == |wasInCore|
    ensures forall k :: 0 <= k < |idx| ==> 0 <= idx[k] < n
  {
    if n == 0 then []
    else
      var idx := FlushOrder(entries, wasInCore, n - 1);
      if wasInCore[n - 1] && Unwritten(entries, idx, entries[n - 1]) then idx + [n - 1] else idx
  }

  /** One more enumerated position extends the order by that position exactly when
      its block was in-core and is not yet written. */
  lemma FlushOrderNext(entries: seq<Datablock>, wasInCore: seq<bool>, i: nat)
    requires i < |entries| == |wasInCore|
    ensures var idx := FlushOrder(entries, wasInCore, i);
            FlushOrder(entries, wasInCore, i + 1)
            == if wasInCore[i] && Unwritten(entries, idx, entries[i]) then idx + [i] else idx
  {
  }

  /** Force writes only blocks that were in-core, and no block twice. */
  lemma {:induction false} FlushOrderWritesOnce(entries: seq<Datablock>, wasInCore: seq<bool>, n: nat)
    requires n <= |entries| == |wasInCore|
    ensures var idx := FlushOrder(entries, wasInCore, n);
            && (forall k :: 0 <= k < |idx| ==> wasInCore[idx[k]])
            && (forall k, l :: 0 <= k < l < |idx| ==> entries[idx[k]] != entries[idx[l]])
  {
    if n > 0 {
      var idx := FlushOrder(entries, wasInCore, n - 1);
      FlushOrderWritesOnce(entries, wasInCore, n - 1);
      FlushOrderNext(entries, wasInCore, n - 1);
      if wasInCore[n - 1] && Unwritten(entries, idx, entries[n - 1]) {
        var idx' := idx + [n - 1];
        assert FlushOrder(entries, wasInCore, n) == idx';
        assert idx'[|idx|] == n - 1;
        assert forall k :: 0 <= k < |idx| ==> idx'[k] == idx[k] && entries[idx[k]] != entries[n - 1];
      }
    }
  }

  /** Force writes every block that was in-core: each such position's block is written
      from that position or an earlier one. */
  lemma {:induction false} FlushOrderCovers(entries: seq<Datablock>, wasInCore: seq<bool>, n: nat)
    requires n <= |entries| == |wasInCore|
    ensures forall j :: 0 <= j < n && wasInCore[j] ==> !Unwritten(entries, FlushOrder(entries, wasInCore, n), entries[j])
  {
    if n > 0 {
      var idx := FlushOrder(entries, wasInCore, n - 1);
      FlushOrderCovers(entries, wasInCore, n - 1);
      forall j | 0 <= j < n && wasInCore[j]
        ensures !Unwritten(entries, FlushOrder(entries, wasInCore, n), entries[j])
      {
        if j < n - 1 {
          var k :| 0 <= k < |idx| && 0 <= idx[k] < |entries| && entries[idx[k]] == entries[j];
          assert FlushOrder(entries, wasInCore, n)[k] == idx[k];
        } else if !Unwritten(entries, idx, entries[j]) {
          var k :| 0 <= k < |idx| && 0 <= idx[k] < |entries| && entries[idx[k]] == entries[j];
          assert FlushOrder(entries, wasInCore, n)[k] == idx[k];
        } else {
          assert FlushOrder(entries, wasInCore, n)[|idx|] == j;
        }
      }
    }
  }

  /** Where the `n`-th of a run of whole-block writes starting at `pos` lands. */
  function FlushPos(pos: int, n: nat): int
  {
    if n == 0 then pos else FlushPos(pos, n - 1) + DATASIZE
  }

  /** The writes are laid out back to back, one block apart. */
  lemma {:induction false} FlushPosBackToBack(pos: int, n: nat)
    ensures FlushPos(pos, n) == pos + n * DATASIZE
  {
    if n > 0 {
      FlushPosBackToBack(pos, n - 1);
    }
  }

  /** Each write lands past all earlier ones, so no write overwrites another. */
  lemma {:induction false} FlushPosIncreasing(pos: int, n: nat)
    ensures forall i :: 0 <= i < n ==> FlushPos(pos, i) < FlushPos(pos, n)
  {
    if n > 0 {
      FlushPosIncreasing(pos, n - 1);
    }
  }

  /** The store events of writing, one after another from position `pos`, the payloads
      at positions `idx`: each block is written whole, where the previous write left
      the cursor. */
  ghost function FlushEvents(idx: seq<int>, payloads: seq<Payload>, pos: int): (ev: seq<IoEvent>)
    requires forall k :: 0 <= k < |idx| ==> 0 <= idx[k] < |payloads|
    ensures |ev| == |idx|
    ensures forall k :: 0 <= k < |idx| ==> ev[k] == WriteBlockAt(FlushPos(pos, k), payloads[idx[k]])
  {
    if |idx| == 0 then []
    else FlushEvents(idx[..|idx| - 1], payloads, pos) + [WriteBlockAt(FlushPos(pos, |idx| - 1), payloads[idx[|idx| - 1]])]
  }

  /** The store contents after those writes: each written position holds its payload,
      and every other position is as it was. */
  ghost function FlushImage(image: map<int, seq<byte>>, idx: seq<int>, payloads: seq<Payload>, pos: int): (m: map<int, seq<byte>>)
    requires forall k :: 0 <= k < |idx| ==> 0 <= idx[k] < |payloads|
    ensures forall k :: 0 <= k < |idx| ==> FlushPos(pos, k) in m && m[FlushPos(pos, k)] == payloads[idx[k]]
    ensures forall p :: p in image && (forall k :: 0 <= k < |idx| ==> p != FlushPos(pos, k)) ==> p in m && m[p] == image[p]
  {
    if |idx| == 0 then image
    else
      FlushPosIncreasing(pos, |idx| - 1);
      FlushImage(image, idx[..|idx| - 1], payloads, pos)[FlushPos(pos, |idx| - 1) := payloads[idx[|idx| - 1]]]
  }

  /** Writing one more block extends the events and the image by that block's write,
      at the position just past the earlier ones. */
  lemma FlushSnoc(idx: seq<int>, j: int, payloads: seq<Payload>, pos: int)
    requires forall k :: 0 <= k < |idx| ==> 0 <= idx[k] < |payloads|
    requires 0 <= j < |payloads|
    ensures forall k :: 0 <= k < |idx + [j]| ==> 0 <= (idx + [j])[k] < |payloads|
    ensures FlushPos(pos, |idx| + 1) == FlushPos(pos, |idx|) + DATASIZE
    ensures FlushEvents(idx + [j], payloads, pos) == FlushEvents(idx, payloads, pos) + [WriteBlockAt(FlushPos(pos, |idx|), payloads[j])]
    ensures forall image :: FlushImage(image, idx + [j], payloads, pos) == FlushImage(image, idx, payloads, pos)[FlushPos(pos, |idx|) := payloads[j]]
  {
    assert (idx + [j])[..|idx|] == idx;
  }

  /** The in-core flag of each of `e`. */
  ghost function FlagsOf(e: seq<Datablock>): (f: seq<bool>)
    reads e
    ensures |f| == |e| && forall j :: 0 <= j < |e| ==> f[j] == e[j].incore
  {
    seq(|e|, j requires 0 <= j < |e| reads e => e[j].incore)
  }

  /** The payload of each of `e`. */
  ghost function PayloadsOf(e: seq<Datablock>): (p: seq<Payload>)
    reads e
    ensures |p| == |e| && forall j :: 0 <= j < |e| ==> p[j] == e[j].data
  {
    seq(|e|, j requires 0 <= j < |e| reads e => e[j].data)
  }

  /** The store after the payloads at positions `idx` have been written one after
      another from `pos`, starting from the event history `trace` and the contents
      `image`. */
  ghost predicate WroteRun(store: Store, idx: seq<int>, payloads: seq<Payload>, pos: int,
                           trace: seq<IoEvent>, image: map<int, seq<byte>>)
    requires forall k :: 0 <= k < |idx| ==> 0 <= idx[k] < |payloads|
    reads store
  {
    && store.cursor == FlushPos(pos, |idx|)
    && store.trace == trace + FlushEvents(idx, payloads, pos)
    && store.image == FlushImage(image, idx, payloads, pos)
  }

  /** Each of `entries` is in-core exactly when it was at the start and its block has
      not been written from any of the positions `idx`. */
  ghost predicate FlagsAfter(entries: seq<Datablock>, wasInCore: seq<bool>, idx: seq<int>)
    requires |entries| == |wasInCore|
    reads entries
  {
    forall j :: 0 <= j < |entries| ==> (entries[j].incore <==> wasInCore[j] && Unwritten(entries, idx, entries[j]))
  }

  /** Writing from position `i` marks its block as written and nothing else. */
  lemma UnwrittenSnoc(entries: seq<Datablock>, idx: seq<int>, i: int)
    requires 0 <= i < |entries|
    ensures forall b :: Unwritten(entries, idx + [i], b) <==> Unwritten(entries, idx, b) && entries[i] != b
  {
    forall b
      ensures Unwritten(entries, idx + [i], b) <==> Unwritten(entries, idx, b) && entries[i] != b
    {
      assert (idx + [i])[|idx|] == i;
      assert forall k :: 0 <= k < |idx| ==> (idx + [i])[k] == idx[k];
    }
  }

  class NodeBlockBuffer {
    var blockBuffer: map<i64, Datablock>
    const rawStore: Store

    constructor (rawStore: Store)
      ensures blockBuffer == map[] && this.rawStore == rawStore
    {
      this.rawStore := rawStore;
      blockBuffer := map[];
    }

    /** The bound `put` keeps. */
    ghost predicate Valid()
      reads this
    {
      |blockBuffer| <= NODEPOOLBLOCKS
    }

    /** `keys` is an enumeration of the map's keys: it lists every key and nothing
        else. (A ConcurrentHashMap enumeration also lists each key once; nothing proved
        here depends on that.) */
    ghost predicate Enumerates(keys: seq<i64>)
      reads this
    {
      && (forall i :: 0 <= i < |keys| ==> keys[i] in blockBuffer)
      && (forall k :: k in blockBuffer ==> k in keys)
    }

    /** The cached blocks. */
    ghost function Blocks(): set<Datablock>
      reads this
    {
      set k | k in blockBuffer :: blockBuffer[k]
    }

    /** The in-core flag of each entry. */
    ghost function InCoreMap(): (m: map<i64, bool>)
      reads this, Blocks()
      ensures m.Keys == blockBuffer.Keys
    {
      map k | k in blockBuffer :: blockBuffer[k].incore
    }

    /** The enumeration's blocks, in its order. */
    ghost function Entries(keys: seq<i64>): (e: seq<Datablock>)
      requires forall i :: 0 <= i < |keys| ==> keys[i] in blockBuffer
      reads this
      ensures |e| == |keys| && forall i :: 0 <= i < |keys| ==> e[i] == blockBuffer[keys[i]]
    {
      seq(|keys|, i requires 0 <= i < |keys| && keys[i] in blockBuffer reads this => blockBuffer[keys[i]])
    }

    /** get: the block cached at `ptr`, if any. */
    function Get(ptr: i64): (r: Option<Datablock>)
      reads this
      ensures r.Some? <==> ptr in blockBuffer
      ensures r.Some? ==> r.value == blockBuffer[ptr]
    {
      if ptr in blockBuffer then Some(blockBuffer[ptr]) else None
    }

    /** The eviction loop, corrected: it stops at the first non-zero key whose block is
        not in-core and reports None, rather than the last key, when it meets none. */
    method FindVictim(keys: seq<i64>) returns (victim: Option<i64>)
      requires Enumerates(keys)
      ensures victim == CleanVictim(keys, InCoreMap())
    {
      victim := None;
      var i := 0;
      while i < |keys|
        invariant 0 <= i <= |keys|
        invariant CleanVictim(keys, InCoreMap()) == CleanVictim(keys[i..], InCoreMap())
      {
        var rec := keys[i];
        assert keys[i..] == [rec] + keys[i + 1..];
        if rec != 0 && !blockBuffer[rec].incore {
          victim := Some(rec);
          break;
        }
        i := i + 1;
      }
    }

    /** put, with the eviction corrected: below capacity the entry is added and nothing
        else changes; at capacity the first clean non-zero entry in enumeration order is
        removed first, and when there is none the put is refused. */
    method Put(ptr: i64, dblk: Datablock, keys: seq<i64>) returns (r: Outcome)
      requires Valid() && Enumerates(keys)
      modifies this
      ensures Valid()
      ensures r.Pass? <==> |old(blockBuffer)| < NODEPOOLBLOCKS || CleanVictim(keys, old(InCoreMap())).Some?
      ensures r.Fail? ==> r.fault == BufferFull && blockBuffer == old(blockBuffer)
      ensures r.Pass? ==> Get(ptr) == Some(dblk)
      ensures r.Pass? && |old(blockBuffer)| < NODEPOOLBLOCKS ==> blockBuffer == old(blockBuffer)[ptr := dblk]
      ensures r.Pass? && |old(blockBuffer)| >= NODEPOOLBLOCKS ==>
                blockBuffer == (old(blockBuffer) - {CleanVictim(keys, old(InCoreMap())).value})[ptr := dblk]
    {
      if |blockBuffer| >= NODEPOOLBLOCKS {
        var victim := FindVictim(keys);
        if victim.None? {
          return Fail(BufferFull);
        }
        var v := victim.value;
        assert v in blockBuffer.Keys;
        blockBuffer := blockBuffer - {v};
        assert blockBuffer.Keys == old(blockBuffer).Keys - {v};
      }
      blockBuffer := blockBuffer[ptr := dblk];
      r := Pass;
    }

    /** One step of force's loop: write the in-core block `tblk`, enumerated at
        position `j`, whole after the blocks already written from `pos`, and clear its
        in-core flag. */
    method FlushEntry(tblk: Datablock, ghost idx: seq<int>, ghost j: int, ghost payloads: seq<Payload>, ghost pos: int,
                      ghost trace: seq<IoEvent>, ghost image: map<int, seq<byte>>) returns (r: Outcome)
      requires 0 <= j < |payloads| && tblk.data == payloads[j]
      requires forall k :: 0 <= k < |idx| ==> 0 <= idx[k] < |payloads|
      requires WroteRun(rawStore, idx, payloads, pos, trace, image)
      modifies rawStore, tblk
      ensures r.Pass? <==> old(rawStore.isOpen)
      ensures r.Fail? ==> r.fault == IoFault && unchanged(rawStore, tblk)
      ensures tblk.data == old(tblk.data) && tblk.bytesused == old(tblk.bytesused)
      ensures rawStore.isOpen == old(rawStore.isOpen) && rawStore.durable == old(rawStore.durable)
      ensures r.Pass? ==> !tblk.incore && WroteRun(rawStore, idx + [j], payloads, pos, trace, image)
    {
      r := tblk.Write(rawStore);
      if r.Fail? {
        return;
      }
      tblk.incore := false;
      FlushSnoc(idx, j, payloads, pos);
    }

    /** One iteration of force's loop, at enumeration position `i`: an in-core block is
        written and cleared, any other is passed over. */
    method FlushStep(keys: seq<i64>, i: int, ghost entries: seq<Datablock>, ghost was: seq<bool>,
                     ghost payloads: seq<Payload>, ghost used: seq<nat>, ghost idx: seq<int>,
                     ghost pos: int, ghost trace: seq<IoEvent>, ghost image: map<int, seq<byte>>)
        returns (r: Outcome, ghost idx': seq<int>)
      requires 0 <= i < |keys| && keys[i] in blockBuffer
      requires |entries| == |keys| == |was| == |payloads| == |used| && entries[i] == blockBuffer[keys[i]]
      requires idx == FlushOrder(entries, was, i)
      requires forall k :: 0 <= k < |idx| ==> 0 <= idx[k] < |keys|
      requires forall j :: 0 <= j < |keys| ==> entries[j].data == payloads[j] && entries[j].bytesused == used[j]
      requires FlagsAfter(entries, was, idx)
      requires WroteRun(rawStore, idx, payloads, pos, trace, image)
      modifies rawStore, entries[i]
      ensures r.Fail? ==> r.fault == IoFault && !old(rawStore.isOpen)
      ensures r.Pass? ==> idx' == FlushOrder(entries, was, i + 1)
      ensures forall k :: 0 <= k < |idx'| ==> 0 <= idx'[k] < |keys|
      ensures forall j :: 0 <= j < |keys| ==> entries[j].data == payloads[j] && entries[j].bytesused == used[j]
      ensures FlagsAfter(entries, was, idx')
      ensures rawStore.isOpen == old(rawStore.isOpen) && rawStore.durable == old(rawStore.durable)
      ensures WroteRun(rawStore, idx', payloads, pos, trace, image)
    {
      var tblk := blockBuffer[keys[i]];
      assert tblk.incore <==> was[i] && Unwritten(entries, idx, tblk);
      FlushOrderNext(entries, was, i);
      idx' := idx;
      r := Pass;
      if tblk.incore {
        r := FlushEntry(tblk, idx, i, payloads, pos, trace, image);
        if r.Pass? {
          UnwrittenSnoc(entries, idx, i);
          idx' := idx + [i];
        }
      }
    }

    /** The loop of force: every enumerated block that is in-core is written whole at
        the store's cursor, one after another in enumeration order, and loses its
        in-core flag. A failed write (the store is closed) stops the walk. */
    method WriteInCore(keys: seq<i64>, ghost cached: set<Datablock>) returns (r: Outcome)
      requires forall i :: 0 <= i < |keys| ==> keys[i] in blockBuffer && blockBuffer[keys[i]] in cached
      modifies rawStore, cached
      ensures old(rawStore.isOpen) ==> r.Pass?
      ensures r.Fail? ==> r.fault == IoFault && !old(rawStore.isOpen)
      ensures rawStore.isOpen == old(rawStore.isOpen) && rawStore.durable == old(rawStore.durable)
      ensures forall i :: 0 <= i < |keys| ==> blockBuffer[keys[i]].data == old(blockBuffer[keys[i]].data)
      ensures forall i :: 0 <= i < |keys| ==> blockBuffer[keys[i]].bytesused == old(blockBuffer[keys[i]].bytesused)
      ensures r.Pass? ==> forall i :: 0 <= i < |keys| ==> !blockBuffer[keys[i]].incore
      ensures r.Pass? ==> WroteRun(rawStore, FlushOrder(Entries(keys), old(FlagsOf(Entries(keys))), |keys|),
                                   old(PayloadsOf(Entries(keys))), old(rawStore.cursor), old(rawStore.trace), old(rawStore.image))
    {
      ghost var entries := Entries(keys);
      ghost var was := FlagsOf(entries);
      ghost var payloads := PayloadsOf(entries);
      ghost var used := seq(|keys|, j requires 0 <= j < |keys| reads entries => entries[j].bytesused);
      ghost var idx: seq<int> := [];
      r := Pass;
      var i := 0;
      while i < |keys| && r.Pass?
        invariant 0 <= i <= |keys|
        invariant r.Fail? ==> r.fault == IoFault && !old(rawStore.isOpen)
        invariant r.Pass? ==> idx == FlushOrder(entries, was, i)
        invariant forall k :: 0 <= k < |idx| ==> 0 <= idx[k] < |keys|
        invariant forall j :: 0 <= j < |keys| ==> entries[j].data == payloads[j] && entries[j].bytesused == used[j]
        invariant FlagsAfter(entries, was, idx)
        invariant rawStore.isOpen == old(rawStore.isOpen) && rawStore.durable == old(rawStore.durable)
        invariant WroteRun(rawStore, idx, payloads, old(rawStore.cursor), old(rawStore.trace), old(rawStore.image))
      {
        r, idx := FlushStep(keys, i, entries, was, payloads, used, idx, old(rawStore.cursor), old(rawStore.trace), old(rawStore.image));
        i := i + 1;
      }
      if r.Pass? {
        FlushOrderCovers(entries, was, |keys|);
        assert entries == Entries(keys);
        assert was == old(FlagsOf(Entries(keys))) && payloads == old(PayloadsOf(Entries(keys)));
      }
    }

    /** force: the in-core blocks are written as WriteInCore says, then the store is
        synced exactly once, after the last write. Afterwards no cached block is
        in-core, and the key to block mapping is untouched. */
    method Force(keys: seq<i64>) returns (r: Outcome)
      requires Enumerates(keys)
      modifies rawStore, Blocks()
      ensures r.Pass? <==> old(rawStore.isOpen)
      ensures r.Fail? ==> r.fault == IoFault
      ensures forall k :: k in blockBuffer ==> blockBuffer[k].data == old(blockBuffer[k].data)
      ensures forall k :: k in blockBuffer ==> blockBuffer[k].bytesused == old(blockBuffer[k].bytesused)
      ensures r.Pass? ==> forall k :: k in blockBuffer ==> !blockBuffer[k].incore
      ensures r.Pass? ==> rawStore.trace == old(rawStore.trace)
                          + FlushEvents(FlushOrder(Entries(keys), old(FlagsOf(Entries(keys))), |keys|),
                                        old(PayloadsOf(Entries(keys))), old(rawStore.cursor))
                          + [Forced]
      ensures r.Pass? ==> rawStore.image == FlushImage(old(rawStore.image), FlushOrder(Entries(keys), old(FlagsOf(Entries(keys))), |keys|),
                                                       old(PayloadsOf(Entries(keys))), old(rawStore.cursor))
      ensures r.Pass? ==> rawStore.durable == rawStore.image
    {
      r := WriteInCore(keys, Blocks());
      forall k | k in blockBuffer
        ensures blockBuffer[k].data == old(blockBuffer[k].data)
        ensures blockBuffer[k].bytesused == old(blockBuffer[k].bytesused)
        ensures r.Pass? ==> !blockBuffer[k].incore
      {
        var i :| 0 <= i < |keys| && keys[i] == k;
      }
      if r.Fail? {
        return;
      }
      ghost var written := rawStore.trace;
      r := rawStore.Fforce();
      assert r.Pass? ==> rawStore.trace == written + [Forced];
    }
  }
}
