# BigSack key pages, node splits and the in-core block protocol

This project models three parts of the BigSack embedded object store:

- **The paged B-tree node (`BTreeKeyPage`).** A node has a fixed capacity of MAXKEYS slots. It keeps its state in parallel arrays:
  - pointers to its serialized keys and values, as a (block, offset) pair each;
  - the block ids of its MAXKEYS+1 children, where -1 means "no child";
  - lazily filled caches of the keys, the values and the child pages;
  - a dirty flag per key slot and per value slot, plus a page-level `updated` flag.

  The node is saved into its block as a fixed binary image in `java.io.DataOutput` big-endian encoding:
  - a leaf byte;
  - an int key count;
  - MAXKEYS pairs of (long, short) pointers;
  - MAXKEYS+1 long child ids.
- **The node split step (`NodeSplitRequest.process`).** It moves a run of slots and children from a full node into a freshly allocated page. It then recomputes the new page's leaf flag and links the new page under the old node.
- **The "in-core" flag protocol.** A block is in-core while it has changed and has not yet been written. Three classes take part:
  - The worker node's block cache (`NodeBlockBuffer`). It is a bounded map from block offset to block. It evicts an entry when full, and `force` writes out every in-core block.
  - A read request (`FSeekAndReadRequest`). It refuses to read into an in-core block, serves cached blocks, and caches what it reads from the store.
  - A write request (`FSeekAndWriteRequest`). It seeks, writes the used bytes, forces the store and only then clears the in-core flag.

  Both requests count down a latch when they finish normally.

The Java classes that change state in place are modelled as Dafny classes:
- `BTreeKeyPage` keeps its parallel arrays as `array` fields.
- The block cache keeps its map as a `map` field that its methods reassign.
- The requests hold references to a store, a block and a latch.

The backing store (`Storage.Store`) is a map from offset to bytes, plus a "durable" snapshot that `Fforce` takes and a ghost trace of seeks, reads, writes and forces. Order facts are stated against that trace. The latch is a counter. An exception becomes an `Outcome`/`Result` carrying a `Fault`:
- `IoFault` stands for `IOException`.
- `NullReference` is a null key reaching `compareTo`.
- `InCoreRead` is the read guard's `RuntimeException`.
- `BufferFull` is the block cache's `RuntimeException`.

The modules:
- `Common`: options, results, Java integer widths and the `Optr` pointer.
- `DataIO`: the big-endian encodings of `java.io.DataOutput`/`DataInput`.
- `PageLayout`: MAXKEYS and the page image writer and reader.
- `Storage`: stand-ins for the block, the store, the latch and the object pool.
- `KeyPageSpec`: the pure specification of search and of the delete shift.
- `KeyPage`: `BTreeKeyPage`.
- `NodeSplit`: `NodeSplitRequest`.
- `BlockBuffer`: `NodeBlockBuffer`.
- `ReadRequest` and `WriteRequest`: the two requests.
- `Protocol`: a write request followed by a read request of the same block.

## Model

| member | source | states |
|---|---|---|
| DataIO.FromToBE | com/neocoretechs/bigsack/btree/BTreeKeyPage.java:565-590 | Decoding the n-byte big-endian encoding of any x < 256^n gives back x. |
| DataIO.FromBEBound | com/neocoretechs/bigsack/btree/BTreeKeyPage.java:222-242 | Every n-byte big-endian value read back is below 256^n. |
| DataIO.DecodeSignedRange | com/neocoretechs/bigsack/btree/BTreeKeyPage.java:222-242 | A two's-complement read of n bytes lies in the signed n-byte range. |
| DataIO.SignedRoundTrip | com/neocoretechs/bigsack/btree/BTreeKeyPage.java:565-590 | Writing any value of the signed n-byte range as two's complement and reading it back gives the value. |
| DataIO.ShortRoundTrip | com/neocoretechs/bigsack/btree/BTreeKeyPage.java:572 | `writeShort` then `readShort` returns every Java short unchanged. |
| DataIO.IntRoundTrip | com/neocoretechs/bigsack/btree/BTreeKeyPage.java:566 | `writeInt` then `readInt` returns every Java int unchanged. |
| DataIO.LongRoundTrip | com/neocoretechs/bigsack/btree/BTreeKeyPage.java:571 | `writeLong` then `readLong` returns every Java long unchanged. |
| PageLayout.MaxKeysFor | com/neocoretechs/bigsack/btree/BTreeKeyPage.java:75-78 | MAXKEYS is odd and at least 1. It is the largest odd number not above (DATASIZE-13)/28, so the image of 13+28·MAXKEYS bytes fits in the block. |
| PageLayout.ImageFitsBlock | com/neocoretechs/bigsack/btree/BTreeKeyPage.java:565-590 | The written image ends exactly at 13+28·MAXKEYS bytes, and that is at most DATASIZE. |
| PageLayout.Overwrite | com/neocoretechs/bigsack/btree/BTreeKeyPage.java:565-590 | A write through the block stream puts its bytes at the cursor and leaves every other byte of the block as it was. |
| PageLayout.OverwriteElsewhere | com/neocoretechs/bigsack/btree/BTreeKeyPage.java:575 | A write outside a byte range leaves that range intact, so a skipped 10-byte slot keeps its bytes. |
| PageLayout.OptrRoundTrip | com/neocoretechs/bigsack/btree/BTreeKeyPage.java:168-173 | A pointer written as (long block, short offset) reads back as the same pointer. |
| PageLayout.HeaderKeepsSlots | com/neocoretechs/bigsack/btree/BTreeKeyPage.java:565-566 | Writing the header makes the leaf byte and key count read back as written, and leaves every slot as it was. |
| PageLayout.SlotsKeyReads | com/neocoretechs/bigsack/btree/BTreeKeyPage.java:567-576 | After the slot loop, a key pointer reads back as the page's own pointer when its slot was dirty, and as the prior image's pointer when it was clean. |
| PageLayout.SlotsDataReads | com/neocoretechs/bigsack/btree/BTreeKeyPage.java:577-585 | The same for value pointers: dirty slots read back as written, clean slots keep the prior image's value. |
| PageLayout.ChildrenReads | com/neocoretechs/bigsack/btree/BTreeKeyPage.java:588-590 | After writing the first j child ids, child k reads back as the page's id when k < j, and as the prior image's id otherwise. |
| PageLayout.ChildrenKeepSlots | com/neocoretechs/bigsack/btree/BTreeKeyPage.java:588-590 | Writing the child ids leaves the header and slot bytes untouched. |
| PageLayout.PrefixReads | com/neocoretechs/bigsack/btree/BTreeKeyPage.java:165-181 | Two images that agree up to the first child id read back the same leaf flag, key count and slot pointers. |
| PageLayout.PageImageHeader | com/neocoretechs/bigsack/btree/BTreeKeyPage.java:565-566 | The whole putPage image reads back the page's leaf flag and key count. |
| PageLayout.PageImageSlot | com/neocoretechs/bigsack/btree/BTreeKeyPage.java:567-586 | In the whole image, slot k reads back the page's pointer when its flag was dirty, and the prior image's pointer when it was clean; the key and value halves are independent. |
| PageLayout.PageImageSlots | com/neocoretechs/bigsack/btree/BTreeKeyPage.java:567-586 | The statement of PageImageSlot, for all slots at once. |
| PageLayout.PageImageChildren | com/neocoretechs/bigsack/btree/BTreeKeyPage.java:588-590 | The whole image reads back every child id of the page. |
| PageLayout.PageImageReads | com/neocoretechs/bigsack/btree/BTreeKeyPage.java:565-590 | Reading the image back with the load constructor's field order reproduces the header and every child id, and gives each slot the dirty-or-prior value. |
| PageLayout.PageRoundTrip | com/neocoretechs/bigsack/btree/BTreeKeyPage.java:222-242 | Load after putPage reproduces the page exactly, provided every clean slot already held the page's own pointer in the prior image. |
| PageLayout.FullWriteRoundTrip | com/neocoretechs/bigsack/btree/BTreeKeyPage.java:565-590 | An image written with every slot dirty decodes to the page, whatever the block held before. |
| Storage.PayloadFits | com/neocoretechs/bigsack/btree/BTreeKeyPage.java:557-565 | A block's payload is large enough to hold a page image. |
| Storage.Store.constructor | com/neocoretechs/bigsack/io/cluster/NodeBlockBuffer.java:22-23 | The stand-in for the raw store (`IoInterface`) the buffer's constructor receives; the store class itself is not part of this model. A store opens with its contents both current and durable, the cursor at 0 and an empty trace. |
| Storage.Store.Fseek | com/neocoretechs/bigsack/io/request/FSeekAndWriteRequest.java:39 | Fseek succeeds exactly when the store is open. It moves the cursor to the offset, records the seek, and changes no contents. |
| Storage.Store.Fforce | com/neocoretechs/bigsack/io/cluster/NodeBlockBuffer.java:69 | Fforce succeeds exactly when the store is open. The durable snapshot then equals the current contents, and the force is recorded. |
| Storage.Datablock.constructor | com/neocoretechs/bigsack/btree/BTreeKeyPage.java:519 | A new block is zero-filled, has no used bytes and is not in-core. |
| Storage.Datablock.Used | com/neocoretechs/bigsack/io/request/FSeekAndWriteRequest.java:40 | The used bytes are the payload's first `bytesused` bytes. |
| Storage.Datablock.DoClone | com/neocoretechs/bigsack/io/request/cluster/FSeekAndReadRequest.java:57 | The target receives this block's payload and used count, and keeps its own in-core flag. |
| Storage.Datablock.ReadUsed | com/neocoretechs/bigsack/io/request/cluster/FSeekAndReadRequest.java:54 | It succeeds exactly when the store is open and holds bytes at the cursor. The block's used bytes then equal them, and the read is recorded at the cursor. |
| Storage.Datablock.WriteUsed | com/neocoretechs/bigsack/io/request/FSeekAndWriteRequest.java:40 | It succeeds exactly when the store is open. Only the used bytes are stored at the cursor, and the durable snapshot does not move. |
| Storage.Datablock.Write | com/neocoretechs/bigsack/io/cluster/NodeBlockBuffer.java:64 | The whole payload is stored at the cursor, and the cursor advances by one block. |
| Storage.Latch.CountDown | com/neocoretechs/bigsack/io/request/FSeekAndWriteRequest.java:31 | The count drops by one and never below zero. |
| Storage.ObjectDBIO.Deserialize | com/neocoretechs/bigsack/btree/BTreeKeyPage.java:446-447 | Deserializing a pointer yields the stored object, or an IOException when nothing is stored there. |
| Storage.ObjectDBIO.NewInsertPosition | com/neocoretechs/bigsack/btree/BTreeKeyPage.java:677 | A new insert position is a non-empty pointer at which nothing is stored yet. |
| Storage.ObjectDBIO.AddObject | com/neocoretechs/bigsack/btree/BTreeKeyPage.java:683 | The object is stored at the pointer, and nothing else changes. |
| Storage.ObjectDBIO.DeleteObject | com/neocoretechs/bigsack/btree/BTreeKeyPage.java:380 | The object at the pointer is removed, and nothing else changes. |
| Storage.ObjectDBIO.FindBlock | com/neocoretechs/bigsack/btree/BTreeKeyPage.java:499 | The block of an existing page id is found, and a missing one is reported. |
| Storage.ObjectDBIO.StealBlock | com/neocoretechs/bigsack/btree/BTreeKeyPage.java:519 | A fresh zeroed block is registered under a page id not in use before, or an IOException leaves the pool unchanged. |
| KeyPageSpec.ProbeStep | com/neocoretechs/bigsack/btree/BTreeKeyPage.java:317-326 | One probe of the search loop: a failed key load or a null key ends the search with that fault, an equal key is a hit, and a smaller or larger key narrows the window to the right or to the left. |
| KeyPageSpec.ProbeOutcome | com/neocoretechs/bigsack/btree/BTreeKeyPage.java:316-331 | The search loop ends in a hit whose key equals the target, a fault, or a miss whose final window has left = right+1. |
| KeyPageSpec.ProbeSorted | com/neocoretechs/bigsack/btree/BTreeKeyPage.java:316-331 | On sorted keys, the loop keeps every key left of the window below the target and every key right of it above. |
| KeyPageSpec.SearchSorted | com/neocoretechs/bigsack/btree/BTreeKeyPage.java:296-304 | The corrected search, on sorted keys, never fails. It returns the insertion point: all keys before it are smaller, the key at it (if any) is at least the target. atKey holds iff the target occurs. |
| KeyPageSpec.SearchFound | com/neocoretechs/bigsack/btree/BTreeKeyPage.java:313-325 | With no keys the result is (0, false), and with atKey true the key at the index equals the target; both for the search as written and for the corrected one. |
| KeyPageSpec.AsWrittenNearInsertionPoint | com/neocoretechs/bigsack/btree/BTreeKeyPage.java:309-332 | On sorted keys, the index the search returns as written is the insertion point or one below it, and lies in [0, numKeys-1] on a miss. |
| KeyPageSpec.AsWrittenLeftOfTarget | com/neocoretechs/bigsack/btree/BTreeKeyPage.java:330-331 | With keys [10] and target 20, the search as written returns (0, false), while the insertion point is 1. |
| KeyPageSpec.ShiftOutRemoves | com/neocoretechs/bigsack/btree/BTreeKeyPage.java:341-367 | Deleting slot index of n: slots before index keep their value, slot j in [index, n-1) takes old slot j+1, slot n-1 takes the fill value, and slots from n on are unchanged. |
| KeyPageSpec.ShiftOutLast | com/neocoretechs/bigsack/btree/BTreeKeyPage.java:341-367 | Deleting at or past the last used slot only clears slot n-1. |
| KeyPageSpec.ShiftOutKeepsSorted | com/neocoretechs/bigsack/btree/BTreeKeyPage.java:341-367 | Deleting a slot from sorted keys leaves the first n-1 keys sorted. |
| KeyPage.RemoveSlot | com/neocoretechs/bigsack/btree/BTreeKeyPage.java:343-365 | The in-place slide of one array leaves exactly the delete shift of its old contents. |
| KeyPage.DeleteThenSkippingWriteIsStale | com/neocoretechs/bigsack/btree/BTreeKeyPage.java:341-367 | A page with two keys, of which slot 1 is clean: after delete(0), the skipping putPage leaves slot 0's old pointer in the block, so loading the block does not give back the page. |
| KeyPage.BTreeKeyPage.constructor | com/neocoretechs/bigsack/btree/BTreeKeyPage.java:197-254 | A loaded page decodes its block's image with all slots clean. A fresh page has no children, empty pointers and all slots dirty. Either way `updated` is true, the caches are empty and the tree invariant holds. |
| KeyPage.BTreeKeyPage.InitFromBlock | com/neocoretechs/bigsack/btree/BTreeKeyPage.java:218-249 | The read branch and the fresh branch of the constructor, with the same results as the constructor. |
| KeyPage.BTreeKeyPage.NoChildrenTreeValid | com/neocoretechs/bigsack/btree/BTreeKeyPage.java:204-217 | A page with no materialised children satisfies the tree invariant, and when it is `updated` it also satisfies the synced invariant that putPages needs. |
| KeyPage.BTreeKeyPage.PrepareNewPage | com/neocoretechs/bigsack/btree/BTreeKeyPage.java:246-249 | A fresh page is an empty leaf with all flags dirty and `updated` set. |
| KeyPage.BTreeKeyPage.ReadImage | com/neocoretechs/bigsack/btree/BTreeKeyPage.java:219-242 | Loading sets the fields to the decoded image. Because it goes through setmIsLeafNode/setNumKeys, the loaded page is already `updated`. |
| KeyPage.BTreeKeyPage.ReadSlots | com/neocoretechs/bigsack/btree/BTreeKeyPage.java:224-238 | Every key and value pointer equals the image's pointer at that slot. |
| KeyPage.BTreeKeyPage.ReadChildren | com/neocoretechs/bigsack/btree/BTreeKeyPage.java:240-242 | Every child id equals the image's id at that position. |
| KeyPage.BTreeKeyPage.SetUpdated | com/neocoretechs/bigsack/btree/BTreeKeyPage.java:834-836 | Only the `updated` flag changes. |
| KeyPage.BTreeKeyPage.SetmIsLeafNode | com/neocoretechs/bigsack/btree/BTreeKeyPage.java:902-905 | The leaf flag is set and the page becomes `updated`. |
| KeyPage.BTreeKeyPage.SetNumKeys | com/neocoretechs/bigsack/btree/BTreeKeyPage.java:917-920 | The key count is set and the page becomes `updated`. |
| KeyPage.BTreeKeyPage.SetAllUpdated | com/neocoretechs/bigsack/btree/BTreeKeyPage.java:871-877 | Every key and value flag takes the given value, and the page becomes `updated` in both cases. |
| KeyPage.BTreeKeyPage.SetKeyUpdatedArray | com/neocoretechs/bigsack/btree/BTreeKeyPage.java:887-889 | Only the one key flag changes. |
| KeyPage.BTreeKeyPage.SetKeyIdArray | com/neocoretechs/bigsack/btree/BTreeKeyPage.java:260-264 | One key pointer is replaced, its flag is set dirty and the page is `updated`. |
| KeyPage.BTreeKeyPage.SetDataIdArray | com/neocoretechs/bigsack/btree/BTreeKeyPage.java:274-278 | One value pointer is replaced, its flag is set dirty and the page is `updated`. |
| KeyPage.BTreeKeyPage.SetPageIdArray | com/neocoretechs/bigsack/btree/BTreeKeyPage.java:288-291 | One child id is replaced and the page is `updated`. |
| KeyPage.BTreeKeyPage.PutKeyToArray | com/neocoretechs/bigsack/btree/BTreeKeyPage.java:696-701 | The key cache slot takes the key and the pointer is emptied, so the key will be stored anew. The slot is dirty and the page `updated`. |
| KeyPage.BTreeKeyPage.PutDataToArray | com/neocoretechs/bigsack/btree/BTreeKeyPage.java:737-742 | The same for a value slot. |
| KeyPage.BTreeKeyPage.PutPageToArray | com/neocoretechs/bigsack/btree/BTreeKeyPage.java:648-655 | The child slot takes the page, and the child id becomes the page's id, or -1 for null. The page is `updated`. |
| KeyPage.BTreeKeyPage.NullPageArray | com/neocoretechs/bigsack/btree/BTreeKeyPage.java:748-752 | The child slot is emptied (null and -1) and the page is `updated`. |
| KeyPage.BTreeKeyPage.NullKeyAndData | com/neocoretechs/bigsack/btree/BTreeKeyPage.java:758-766 | Key and value at the slot become null with empty pointers and dirty flags, and the page is `updated`. |
| KeyPage.BTreeKeyPage.GetKey | com/neocoretechs/bigsack/btree/BTreeKeyPage.java:437-454 | The result is the key the slot denotes. The store is consulted only when the cache is null and the pointer non-empty, and the loaded key is cached there. No slot's denoted key changes, so a second call returns the same key without a reload. |
| KeyPage.BTreeKeyPage.GetData | com/neocoretechs/bigsack/btree/BTreeKeyPage.java:467-483 | The same for values. A load also clears that slot's dirty flag, and otherwise the flags are untouched. |
| KeyPage.BTreeKeyPage.ProbeLoop | com/neocoretechs/bigsack/btree/BTreeKeyPage.java:316-327 | The while loop of search computes the probe specification from any window, and leaves every denoted key unchanged. |
| KeyPage.BTreeKeyPage.ProbeOnce | com/neocoretechs/bigsack/btree/BTreeKeyPage.java:317-326 | One iteration either ends the search with the specification's answer or shrinks the window without changing that answer. |
| KeyPage.BTreeKeyPage.Turn | com/neocoretechs/bigsack/btree/BTreeKeyPage.java:319-326 | The three-way branch on the comparison matches the specification's step. |
| KeyPage.BTreeKeyPage.Search | com/neocoretechs/bigsack/btree/BTreeKeyPage.java:309-332 | search returns the corrected search specification of the page's keys, and loads keys only into the cache. |
| KeyPage.BTreeKeyPage.Contains | com/neocoretechs/bigsack/btree/BTreeKeyPage.java:845-847 | contains is search's atKey. On sorted keys it succeeds, and is true iff the key occurs among the first numKeys keys. |
| KeyPage.BTreeKeyPage.SubtreeRootNodeIndex | com/neocoretechs/bigsack/btree/BTreeKeyPage.java:854-861 | It returns the first index whose key is greater than the target, or numKeys. All keys before it are at most the target. A null key reached first is a NullReference. |
| KeyPage.BTreeKeyPage.Delete | com/neocoretechs/bigsack/btree/BTreeKeyPage.java:341-367 | numKeys drops by one and `updated` is set. Every key and value array (cache, pointer, flag) is the delete shift at index. The child arrays shift from index+1, with child numKeys+1 cleared. |
| KeyPage.BTreeKeyPage.DeleteData | com/neocoretechs/bigsack/btree/BTreeKeyPage.java:373-387 | With a cached value and a non-empty pointer, the stored object is deleted, and the pointer is emptied and dirty. Otherwise nothing changes. |
| KeyPage.BTreeKeyPage.CopyKeyToArray | com/neocoretechs/bigsack/btree/BTreeKeyPage.java:712-717 | The target slot takes the source's key, loading it if needed, and the source's pointer. It is dirty and the page `updated`. A failed load changes no pointer and no flag. |
| KeyPage.BTreeKeyPage.CopyDataToArray | com/neocoretechs/bigsack/btree/BTreeKeyPage.java:719-724 | The same for values. Only the target's flag and, through the source's load, the source slot's flag change. |
| KeyPage.BTreeKeyPage.CopyKeyAndDataToArray | com/neocoretechs/bigsack/btree/BTreeKeyPage.java:726-729 | On success, both halves are copied with their pointers and both target flags are dirty. Every other slot keeps its pointers, the key and value it denotes, and its value flag. A failed key load copies nothing, leaves every pointer and flag as it was and reports the load's fault. A failed value load leaves the key half copied and the value pointers unchanged. |
| KeyPage.BTreeKeyPage.SetKey | com/neocoretechs/bigsack/btree/BTreeKeyPage.java:863-865 | The same effect as putKeyToArray. |
| KeyPage.BTreeKeyPage.PageFromPool | com/neocoretechs/bigsack/btree/BTreeKeyPage.java:497-507 | An existing page id yields a fresh page loaded from its block. A missing one is an error. |
| KeyPage.BTreeKeyPage.NewPageFromPool | com/neocoretechs/bigsack/btree/BTreeKeyPage.java:517-524 | A stolen block yields a fresh, empty, all-dirty leaf under a new page id, registered in the pool. |
| KeyPage.BTreeKeyPage.OpenPage | com/neocoretechs/bigsack/btree/BTreeKeyPage.java:133-190 | The page-id constructor: a clear page is fresh, otherwise the block's image is decoded. An unknown id is an IOException. |
| KeyPage.BTreeKeyPage.GetPage | com/neocoretechs/bigsack/btree/BTreeKeyPage.java:399-424 | A cached child or a -1 id is returned as is. Otherwise the child is loaded from the pool, cached and returned. |
| KeyPage.BTreeKeyPage.PutKey | com/neocoretechs/bigsack/btree/BTreeKeyPage.java:665-688 | A null key or an already stored key (non-empty pointer) is left alone. Otherwise the key is stored at a new position, and only that slot's pointer changes. |
| KeyPage.BTreeKeyPage.PutData | com/neocoretechs/bigsack/btree/BTreeKeyPage.java:606-625 | A value is stored at a new position. A null value gets the empty pointer. |
| KeyPage.BTreeKeyPage.StoreDirtySlots | com/neocoretechs/bigsack/btree/BTreeKeyPage.java:545-553 | Every dirty key and value is stored as putKey/putData do, and clean slots are left alone. |
| KeyPage.BTreeKeyPage.SlotBytes | com/neocoretechs/bigsack/btree/BTreeKeyPage.java:567-586 | One iteration of the corrected slot loop, which writes every slot, not only the dirty ones (see Findings): it writes that slot's pair of pointers. |
| KeyPage.BTreeKeyPage.SlotImage | com/neocoretechs/bigsack/btree/BTreeKeyPage.java:567-586 | The corrected slot loop writes the pointers of every slot, dirty or clean, and produces the image of all slot pointers. |
| KeyPage.BTreeKeyPage.ClearSlotFlags | com/neocoretechs/bigsack/btree/BTreeKeyPage.java:573-581 | Every key and value flag ends clean. |
| KeyPage.BTreeKeyPage.ChildBytes | com/neocoretechs/bigsack/btree/BTreeKeyPage.java:588-590 | One iteration of the child loop writes the next child id. |
| KeyPage.BTreeKeyPage.ChildImage | com/neocoretechs/bigsack/btree/BTreeKeyPage.java:588-590 | The child loop writes all MAXKEYS+1 child ids. |
| KeyPage.BTreeKeyPage.PageBytes | com/neocoretechs/bigsack/btree/BTreeKeyPage.java:565-590 | The header, the corrected slot loop (every slot written) and the child loop produce the page image. |
| KeyPage.BTreeKeyPage.WriteImage | com/neocoretechs/bigsack/btree/BTreeKeyPage.java:557-590 | With the corrected slot loop (every slot written), the block holds the page image, which decodes to the page's fields. The block is in-core, all flags are clean, and the used count is untouched. |
| KeyPage.BTreeKeyPage.PutPage | com/neocoretechs/bigsack/btree/BTreeKeyPage.java:534-598 | A page that is not `updated` changes nothing. Otherwise: dirty slots are stored; the block decodes to the page; the block is in-core; all flags and `updated` are false. An IOException is reported as such. |
| KeyPage.BTreeKeyPage.StoreAndWrite | com/neocoretechs/bigsack/btree/BTreeKeyPage.java:545-597 | The updated branch of putPage with the corrected slot loop: the dirty keys and values are stored, then the block decodes to the page and the page ends clean. |
| KeyPage.BTreeKeyPage.WriteAndSettle | com/neocoretechs/bigsack/btree/BTreeKeyPage.java:557-597 | After the write with the corrected slot loop, the block decodes to the page, and the page ends clean. |
| KeyPage.BTreeKeyPage.ChildWritten | com/neocoretechs/bigsack/btree/BTreeKeyPage.java:633-635 | Saving one child keeps the tree invariant, and keeps every other child as flushed and as synced as it was, under the same page id. |
| KeyPage.BTreeKeyPage.PutChild | com/neocoretechs/bigsack/btree/BTreeKeyPage.java:633-634 | The recursive putPages of child i. On success the child's subtree is flushed: every page in it is no longer `updated` and its block loads back as the page. The children before and after slot i keep their state, and nothing outside the subtree and the object store changes. The pool keeps its blocks, and every object stored before is still stored. |
| KeyPage.BTreeKeyPage.RecordChild | com/neocoretechs/bigsack/btree/BTreeKeyPage.java:635 | The flushed child's page id is written into slot i of pageIdArray, and the child loop's progress moves on by one slot. A page that is not `updated` keeps its image, because the id is the one already recorded. |
| KeyPage.BTreeKeyPage.PutChildSlot | com/neocoretechs/bigsack/btree/BTreeKeyPage.java:633-636 | One iteration of the child loop. A loaded child is put and then its id recorded, and an empty slot is passed over. On success the loop's progress moves on by one slot. The pool keeps its blocks and no stored object is lost. |
| KeyPage.BTreeKeyPage.PutChildren | com/neocoretechs/bigsack/btree/BTreeKeyPage.java:632-637 | On success every non-null child in 0..numKeys is flushed and has its id recorded, before the parent is written. A parent that is not `updated` still loads back from its block. The pool keeps its blocks and no stored object is lost, so sibling subtrees keep their keys and values. |
| KeyPage.BTreeKeyPage.PutPages | com/neocoretechs/bigsack/btree/BTreeKeyPage.java:631-639 | Take a subtree in which every page that is not `updated` already holds its own image and records its children's ids; that is what the flag stands for. A successful putPages leaves the page and every loaded child in the live child slots, recursively, no longer `updated`. Each such page's block loads back as exactly the page's fields, and each child's id is recorded in its parent's pageIdArray. Whether or not it succeeds, the pool's blocks are unchanged and every object stored before, including a sibling subtree's keys, is still stored. |
| NodeSplit.SplitOffset | com/neocoretechs/bigsack/btree/NodeSplitRequest.java:20-32 | The offset is 0 for NODE_LEFT and MAXKEYS-keysToMove for NODE_RIGHT. Every index nodeOffs+i, for i < keysToMove, lies in [0, MAXKEYS). |
| NodeSplit.SplitConservesKeys | com/neocoretechs/bigsack/btree/NodeSplitRequest.java:45-48 | The keys of the old node equal, as a multiset, the keys it keeps plus the keys the new page receives. |
| NodeSplit.KeysOfDirty | com/neocoretechs/bigsack/btree/NodeSplitRequest.java:46 | Marking moved slots dirty changes no key. |
| NodeSplit.MoveKeyData | com/neocoretechs/bigsack/btree/NodeSplitRequest.java:46 | The target slot takes the source slot (key, value, pointers) marked dirty. The source slot is cleared. |
| NodeSplit.MoveChildData | com/neocoretechs/bigsack/btree/NodeSplitRequest.java:47 | The target child takes the source child (page and id). The source child becomes null and -1. |
| NodeSplit.NodeSplitRequest.constructor | com/neocoretechs/bigsack/btree/NodeSplitRequest.java:23-33 | The request records the pool and the old node, and chooses the split offset by node type. |
| NodeSplit.NodeSplitRequest.LinkSlot | com/neocoretechs/bigsack/btree/NodeSplitRequest.java:61-67 | The new page is linked as child T-1 when the offset is 0 (left split), and as child T otherwise. |
| NodeSplit.NodeSplitRequest.Process | com/neocoretechs/bigsack/btree/NodeSplitRequest.java:38-72 | process allocates a new page, or fails with the old node untouched. On success: the new page holds the moved slots and children; numKeys is keysToMove; the leaf flag is correct; it is linked at the split's child slot; both pages are `updated`; the old node's numKeys and leaf flag are unchanged. |
| NodeSplit.NodeSplitRequest.Fill | com/neocoretechs/bigsack/btree/NodeSplitRequest.java:43-70 | The synchronized block: after the moves and the finish, the split relation holds between the old and new state. |
| NodeSplit.NodeSplitRequest.Finish | com/neocoretechs/bigsack/btree/NodeSplitRequest.java:47-69 | After the moves of children: the new page has keysToMove keys and a leaf flag true iff its first keysToMove child ids are -1; it is linked into the old node; both pages are `updated`. |
| NodeSplit.NodeSplitRequest.LinkChild | com/neocoretechs/bigsack/btree/NodeSplitRequest.java:61-69 | The old node's child page and id at the link slot become the new page and its id, and the old node is `updated`. |
| NodeSplit.NodeSplitRequest.NewBlankPage | com/neocoretechs/bigsack/btree/NodeSplitRequest.java:40 | The new page comes from the pool with all slots cleared and no children. |
| NodeSplit.NodeSplitRequest.MoveKeys | com/neocoretechs/bigsack/btree/NodeSplitRequest.java:45-48 | After the loop, the new page's first keysToMove slots are the old node's run from nodeOffs, marked dirty. The run is cleared in the old node. |
| NodeSplit.NodeSplitRequest.MoveChildren | com/neocoretechs/bigsack/btree/NodeSplitRequest.java:45-48 | After the loop, the new page's first keysToMove children are the old node's run from nodeOffs. The run is cleared in the old node. |
| NodeSplit.NodeSplitRequest.MoveChildStep | com/neocoretechs/bigsack/btree/NodeSplitRequest.java:47 | One iteration extends the moved run of children by one. |
| NodeSplit.NodeSplitRequest.RecomputeLeaf | com/neocoretechs/bigsack/btree/NodeSplitRequest.java:52-58 | The leaf flag becomes true iff every child id in 0..numKeys-1 is -1. Nothing else changes. |
| NodeSplit.NodeSplitRequest.LongReturn | com/neocoretechs/bigsack/btree/NodeSplitRequest.java:75-77 | It returns the new page's id. |
| NodeSplit.NodeSplitRequest.ObjectReturn | com/neocoretechs/bigsack/btree/NodeSplitRequest.java:80-82 | It returns the new page. |
| BlockBuffer.CleanVictim | com/neocoretechs/bigsack/io/cluster/NodeBlockBuffer.java:32-39 | The intended victim: the first enumerated key that is non-zero and not in-core. There is none iff every key is 0 or in-core. |
| BlockBuffer.ScanAsWritten | com/neocoretechs/bigsack/io/cluster/NodeBlockBuffer.java:30-40 | The eviction loop as written: with no keys it returns the initial -1, and otherwise some enumerated key. |
| BlockBuffer.EvictAsWritten | com/neocoretechs/bigsack/io/cluster/NodeBlockBuffer.java:30-43 | The key the loop as written leaves in `rec`: the initial -1 when there are no keys, a case the capacity guard never reaches, and otherwise an enumerated key. put throws when that key is -1. |
| BlockBuffer.AsWrittenThrows | com/neocoretechs/bigsack/io/cluster/NodeBlockBuffer.java:30-42 | On a non-empty enumeration, put as written throws exactly when the loop stops on key -1. Either -1 is the first key that is not 0 and not in-core, or there is no such key and -1 is the last key. |
| BlockBuffer.AsWrittenAgreesWhenClean | com/neocoretechs/bigsack/io/cluster/NodeBlockBuffer.java:32-39 | When some non-zero entry is not in-core, the loop as written picks the intended victim. |
| BlockBuffer.AsWrittenEvictsLastWhenNoneClean | com/neocoretechs/bigsack/io/cluster/NodeBlockBuffer.java:32-43 | When every entry is 0 or in-core, the loop as written evicts the last enumerated key, a key that is 0 or in-core. |
| BlockBuffer.AsWrittenDropsInCoreBlock | com/neocoretechs/bigsack/io/cluster/NodeBlockBuffer.java:36-43 | Over the enumeration [5] with block 5 in-core, the loop as written picks 5 although no clean victim exists. In a full buffer the same happens whenever every entry is 0 or in-core and the last enumerated key is in-core. |
| BlockBuffer.FlushOrderWritesOnce | com/neocoretechs/bigsack/io/cluster/NodeBlockBuffer.java:57-67 | force writes only blocks that were in-core, and each block at most once, even when it is cached under two keys. |
| BlockBuffer.FlushOrderCovers | com/neocoretechs/bigsack/io/cluster/NodeBlockBuffer.java:57-67 | force writes every block that was in-core. |
| BlockBuffer.FlushPosBackToBack | com/neocoretechs/bigsack/io/cluster/NodeBlockBuffer.java:64 | The k-th write of force lands k blocks after the starting cursor. |
| BlockBuffer.FlushPosIncreasing | com/neocoretechs/bigsack/io/cluster/NodeBlockBuffer.java:64 | force's writes land at strictly increasing positions, so none overwrites another. |
| BlockBuffer.FlushEvents | com/neocoretechs/bigsack/io/cluster/NodeBlockBuffer.java:64 | The k-th recorded event of force is the whole payload of the k-th flushed block, written at the k-th position. |
| BlockBuffer.FlushImage | com/neocoretechs/bigsack/io/cluster/NodeBlockBuffer.java:64 | After force's writes, each write position holds its payload, and every other offset keeps its bytes. |
| BlockBuffer.NodeBlockBuffer.constructor | com/neocoretechs/bigsack/io/cluster/NodeBlockBuffer.java:22-25 | A new buffer is empty and attached to the given store. |
| BlockBuffer.NodeBlockBuffer.Get | com/neocoretechs/bigsack/io/cluster/NodeBlockBuffer.java:74-76 | get is a pure lookup: the cached block under ptr, or None when there is none. |
| BlockBuffer.NodeBlockBuffer.FindVictim | com/neocoretechs/bigsack/io/cluster/NodeBlockBuffer.java:30-40 | The enumeration loop computes the intended clean victim. |
| BlockBuffer.NodeBlockBuffer.Put | com/neocoretechs/bigsack/io/cluster/NodeBlockBuffer.java:27-46 | Below capacity, put adds ptr ↦ dblk and removes nothing. At capacity, it removes exactly the clean victim, or refuses with BufferFull when there is none. The size never exceeds NODEPOOLBLOCKS, and afterwards get(ptr) is dblk. |
| BlockBuffer.NodeBlockBuffer.FlushEntry | com/neocoretechs/bigsack/io/cluster/NodeBlockBuffer.java:61-66 | One in-core block is written at the cursor and then marked not in-core. Its contents and the durable snapshot are untouched. |
| BlockBuffer.NodeBlockBuffer.FlushStep | com/neocoretechs/bigsack/io/cluster/NodeBlockBuffer.java:58-67 | One iteration extends the run of writes by the next still in-core entry, if any. |
| BlockBuffer.NodeBlockBuffer.WriteInCore | com/neocoretechs/bigsack/io/cluster/NodeBlockBuffer.java:55-68 | The loop writes the flush order back to back from the cursor, and leaves every entry not in-core with its contents intact. |
| BlockBuffer.NodeBlockBuffer.Force | com/neocoretechs/bigsack/io/cluster/NodeBlockBuffer.java:51-72 | force fails only on a closed store. On success: every previously in-core block is written once, followed by one Fforce; no cached block is in-core; the store is durable; payloads and the key mapping are unchanged. |
| ReadRequest.FSeekAndReadRequest.constructor | com/neocoretechs/bigsack/io/request/cluster/FSeekAndReadRequest.java:24-28 | The request records its latch, offset and destination block. |
| ReadRequest.FSeekAndReadRequest.Process | com/neocoretechs/bigsack/io/request/cluster/FSeekAndReadRequest.java:30-33 | The results of FseekAndRead, after which the latch is counted down once on success and untouched on failure. |
| ReadRequest.FSeekAndReadRequest.FseekAndRead | com/neocoretechs/bigsack/io/request/cluster/FSeekAndReadRequest.java:42-61 | An in-core destination fails with InCoreRead, touching nothing. A cache hit clones the cached block into the destination without touching the store. A miss runs seek then read and caches the destination block itself; it succeeds iff the store is open, has bytes at the offset and the buffer has room or a clean victim. |
| ReadRequest.FSeekAndReadRequest.ReadMiss | com/neocoretechs/bigsack/io/request/cluster/FSeekAndReadRequest.java:52-55 | The miss path: seek and read are recorded in that order, the destination's used bytes are the stored bytes, and the cache maps the offset to the destination object. |
| ReadRequest.FSeekAndReadRequest.LongReturn | com/neocoretechs/bigsack/io/request/cluster/FSeekAndReadRequest.java:63-65 | It returns the offset. |
| ReadRequest.FSeekAndReadRequest.ObjectReturn | com/neocoretechs/bigsack/io/request/cluster/FSeekAndReadRequest.java:68-70 | It returns the destination block. |
| ReadRequest.FSeekAndReadRequest.CountDownLatch | com/neocoretechs/bigsack/io/request/cluster/FSeekAndReadRequest.java:91-93 | It returns the latch. |
| ReadRequest.FSeekAndReadRequest.SetLongReturn | com/neocoretechs/bigsack/io/request/cluster/FSeekAndReadRequest.java:101-103 | Only the offset changes. |
| ReadRequest.FSeekAndReadRequest.SetObjectReturn | com/neocoretechs/bigsack/io/request/cluster/FSeekAndReadRequest.java:106-108 | Only the destination block changes. |
| ReadRequest.FSeekAndReadRequest.SetCountDownLatch | com/neocoretechs/bigsack/io/request/cluster/FSeekAndReadRequest.java:96-98 | Only the latch changes. |
| ReadRequest.FSeekAndReadRequest.SetTablespace | com/neocoretechs/bigsack/io/request/cluster/FSeekAndReadRequest.java:80-82 | Only the tablespace changes. |
| ReadRequest.FSeekAndReadRequest.SetIoInterface | com/neocoretechs/bigsack/io/request/cluster/FSeekAndReadRequest.java:75-78 | The store and the store's own block buffer are recorded, and nothing else changes. |
| WriteRequest.FSeekAndWriteRequest.constructor | com/neocoretechs/bigsack/io/request/FSeekAndWriteRequest.java:21-25 | The request records its latch, offset and block. |
| WriteRequest.FSeekAndWriteRequest.Process | com/neocoretechs/bigsack/io/request/FSeekAndWriteRequest.java:27-32 | The results of FseekAndWrite, after which the latch is counted down once on success and not at all after an IOException. |
| WriteRequest.FSeekAndWriteRequest.FseekAndWrite | com/neocoretechs/bigsack/io/request/FSeekAndWriteRequest.java:37-45 | It succeeds iff the store is open. Seek, the write of the used bytes at the offset, and the force are recorded in that order. Only that offset changes, the store is durable, and the block is no longer in-core but keeps its contents. A failure touches nothing. |
| WriteRequest.FSeekAndWriteRequest.LongReturn | com/neocoretechs/bigsack/io/request/FSeekAndWriteRequest.java:48-50 | It returns the offset. |
| WriteRequest.FSeekAndWriteRequest.ObjectReturn | com/neocoretechs/bigsack/io/request/FSeekAndWriteRequest.java:53-55 | It returns the block. |
| WriteRequest.FSeekAndWriteRequest.SetIoInterface | com/neocoretechs/bigsack/io/request/FSeekAndWriteRequest.java:57-59 | Only the store changes. |
| WriteRequest.FSeekAndWriteRequest.SetTablespace | com/neocoretechs/bigsack/io/request/FSeekAndWriteRequest.java:61-63 | Only the tablespace changes. |
| Protocol.WriteThenRead | com/neocoretechs/bigsack/io/request/cluster/FSeekAndReadRequest.java:51-55 | A write request and then a read request of the same offset, with the store open, the offset not cached and room in the buffer. Both succeed. The written bytes are durable. The read brings back exactly those bytes, and the buffer caches the destination. |

## Left out

- Concurrency: `synchronized`, `CountDownLatch` and `ConcurrentHashMap` thread-safety are not modelled. Every operation runs sequentially, and a latch is a counter.
- The serializer and the object store are not part of this model. A stored object is an int in a map from pointer to object, and `Comparable` is integer comparison. The same holds for the block pool and the allocator. `findOrAddBlock` is a lookup in the pool's map from block id to block. `getNewInsertPosition` and `stealblk` hand out positions and block ids from a counter that fails past the long range. `add_object`, `delete_object` and `deserializeObject` are `Storage.ObjectDBIO`'s map updates.
- `BTreeMain.moveKeyData`/`moveChildData`, `keysToMove` and `T` are not part of this model.
  - The two moves are stand-ins that copy a slot (or a child) and clear the source slot.
  - `keysToMove` and `T` are request parameters in [0, MAXKEYS] and [1, MAXKEYS].
- DATASIZE: its defining class is not part of this model. The value is a constant left open between 41 and 32767, and every result holds for all such values.
- The enumeration order of the buffer's map is unspecified. It is a parameter `keys` that lists exactly the keys of the map.
- Block headers, `resetBlock`, `setKeypage` and the block stream's byte index are not modelled. The page image is written from byte 0 of the payload, and `putPage` leaves the block's used count as it was.
- `FSyncRequest`, the read request's no-argument constructor, `getCyclicBarrier`/`setCyclicBarrier`/`doPropagate`, `toString` and the debug printing are not modelled.
- The plain getters `getKeyId`, `getDataId`, `getPageId`, `getNumKeys`, `isUpdated`, `getmIsLeafNode`, `getDatablock` and `getBlockAccessIndex` are field reads.
- ReadRequest.FSeekAndReadRequest.SetIoInterface: it takes the block buffer, from which the store is read, instead of casting the store to a buffer-carrying interface. The cast cannot fail in the model.
- ReadRequest.FSeekAndReadRequest.Process: it requires that setIoInterface has run. In the Java code a missing store would be a NullPointerException.
- WriteRequest.FSeekAndWriteRequest.Process: it requires that setIoInterface has run, for the same reason.
- NodeSplit.NodeSplitRequest.Process: it moves the keys and the children in two loops, where the Java loop interleaves one key move and one child move per iteration. The two touch disjoint arrays, so the end state is the same.
- KeyPage.BTreeKeyPage.PutPage: the page image is written with every slot, not only the dirty ones (see Findings). The flags end clean either way.
- KeyPage.BTreeKeyPage.SlotBytes: it writes the slot's pointers whether the slot is dirty or clean. The Java loop skips 10 bytes for each clean half instead; `PageLayout.WriteSlots` with flags models that loop as written.
- KeyPage.BTreeKeyPage.SlotImage: it writes every slot, as corrected, rather than skipping clean ones.
- KeyPage.BTreeKeyPage.PageBytes: it builds the image with every slot written, as corrected.
- KeyPage.BTreeKeyPage.WriteImage: its round trip rests on the corrected, write-every-slot image.
- KeyPage.BTreeKeyPage.StoreAndWrite: it writes the image with every slot, as corrected.
- KeyPage.BTreeKeyPage.WriteAndSettle: it writes the image with every slot, as corrected.
- KeyPage.BTreeKeyPage.OpenPage: the model assumes that ctor1's block stream is on page `ppos`'s block when the image is read. ctor2 arranges this explicitly with `setBlockAccessIndex`, but ctor1 only calls `findOrAddBlockAccess` and then reads the tablespace's stream. Whether that call moves the stream is decided in code that is not part of this model.
- KeyPage.BTreeKeyPage.PutPages: it requires that every page of the subtree that is not `updated` already holds its own image and records its loaded children's ids. The Java code records a child's id without marking the page updated, and putPage skips a page that is not updated, so an id that differed would not reach the block. getPage and putPageToArray record a child's id together with the child.
- KeyPage.BTreeKeyPage.Delete: it requires a page with at least one key and a non-negative index. Two exception paths of the Java code are not modelled. On an empty page it sets the count to -1 (BTreeKeyPage.java:357) and then indexes slot -1, which throws ArrayIndexOutOfBoundsException. A negative index throws the same way in the slide loop.
- KeyPage.BTreeKeyPage.Search: it models the corrected search, which returns the insertion point (see Findings). The search as written is `KeyPageSpec.SearchAsWritten`.
- BlockBuffer.NodeBlockBuffer.Put: when the buffer is full and every entry is 0 or in-core, it refuses with BufferFull instead of evicting the last key (see Findings). A cached key -1, which the Java's sentinel test would turn into a throw, is evicted like any other clean key.
- ReadRequest.FSeekAndReadRequest.Process: a miss caches the block through the corrected `NodeBlockBuffer.Put`. So when the buffer is full and every entry is 0 or in-core, the read fails with BufferFull and the latch is not counted down. In the Java code the buffer evicts its last enumerated entry, and the read succeeds and counts down.
- ReadRequest.FSeekAndReadRequest.FseekAndRead: its miss succeeds only when the buffer has room or a clean victim, the corrected put's condition. The Java read also succeeds on a full buffer with no clean victim, by evicting as described in Findings.
- ReadRequest.FSeekAndReadRequest.ReadMiss: it caches through the corrected put. It can therefore fail with BufferFull where the Java code evicts an entry and succeeds.

## Findings

| source | as written | input that shows it | evidently intended | confidence | as-written member | corrected member |
|---|---|---|---|---|---|---|
| com/neocoretechs/bigsack/btree/BTreeKeyPage.java:309-332 | A miss returns the last probed `middleIndex`. This is the insertion point or one below it. | keys [10], target 20: returns (0, false), and the insertion point is 1 | The doc comment promises the result is to the right of the target, i.e. the insertion point (`leftIndex`) | not executed | KeyPageSpec.AsWrittenLeftOfTarget | KeyPageSpec.SearchSorted |
| com/neocoretechs/bigsack/btree/BTreeKeyPage.java:341-367 | delete slides the dirty flags along with the slots. putPage then skips every clean slot, so the block keeps the deleted slot's pointer. | two keys, slot 1 clean, delete(0), then putPage: slot 0 of the block still holds the deleted key's pointer | Loading the block after putPage gives back the page | not executed | KeyPage.DeleteThenSkippingWriteIsStale | PageLayout.FullWriteRoundTrip |
| com/neocoretechs/bigsack/io/cluster/NodeBlockBuffer.java:28-43 | When every entry is 0 or in-core, the loop ends on the last key and evicts it. The throw fires only when the loop stops on key -1. | a full buffer (NODEPOOLBLOCKS entries) whose entries are all in-core: the last enumerated key is evicted. The loop over the enumeration [5] with 5 in-core shows the step | The comment at line 36 asks that no in-core block be dropped | not executed | BlockBuffer.AsWrittenDropsInCoreBlock | BlockBuffer.NodeBlockBuffer.Put |
