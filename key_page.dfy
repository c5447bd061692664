/** BTreeKeyPage: one node of the B-tree, held as parallel arrays of MAXKEYS key and
    value slots and MAXKEYS+1 child slots. The persisted arrays hold pointers (key and
    value locations, child block ids); the transient arrays cache what those pointers
    lead to and are filled lazily. Per-slot dirty flags and the page's `updated` flag
    decide what putPage writes back into the page's block. */
module KeyPage {
  import opened Common
  import opened DataIO
  import opened PageLayout
  import opened Storage
  import opened KeyPageSpec

  /** The persisted fields of a page built from scratch: a leaf with no keys, every
      pointer empty and every child id -1. */
  function FreshFields(): (f: PageFields)
    ensures WellSized(f) && f.leaf && f.numKeys == 0
    ensures forall i :: 0 <= i < MAXKEYS ==> f.keyIds[i] == EmptyPointer && f.dataIds[i] == EmptyPointer
    ensures forall j :: 0 <= j <= MAXKEYS ==> f.pageIds[j] == NoPage
  {
    PageFields(true, 0, seq(MAXKEYS, _ => EmptyPointer), seq(MAXKEYS, _ => EmptyPointer), seq(MAXKEYS + 1, _ => NoPage))
  }

  /** The object store only gains entries. */
  ghost predicate ObjectsGrow(before: map<Optr, int>, after: map<Optr, int>)
  {
    forall p :: p in before ==> p in after && after[p] == before[p]
  }

  /** p is a location handed out after `before` and now holds v. */
  ghost predicate StoredAt(before: map<Optr, int>, after: map<Optr, int>, p: Optr, v: int)
  {
    p != EmptyPointer && p !in before && p in after && after[p] == v
  }

  /** The page delete leaves when it removes slot 0 of a two-key page: slot 1 moves
      down, and its child pointers with it. */
  function DeleteFirstOfTwo(f: PageFields): (g: PageFields)
    requires WellSized(f) && 2 <= MAXKEYS
    ensures WellSized(g) && g.numKeys == 1
    ensures g.keyIds[0] == f.keyIds[1] && g.keyIds[1] == EmptyPointer
    ensures g.dataIds[0] == f.dataIds[1] && g.dataIds[1] == EmptyPointer
  {
    f.(numKeys := 1,
       keyIds := ShiftOut(f.keyIds, 0, 2, EmptyPointer),
       dataIds := ShiftOut(f.dataIds, 0, 2, EmptyPointer),
       pageIds := ShiftOut(f.pageIds, 1, 3, NoPage))
  }

  /** putPage as written, after delete. A two-key page whose block already holds its
      first key pointer, and whose second key is clean, has its first key deleted:
      delete moves the second key's pointer into slot 0 together with its clean flag,
      the writer skips clean slots, and slot 0 of the block keeps the deleted key's
      pointer. The block then no longer loads back as the page. */
  lemma DeleteThenSkippingWriteIsStale(prior: seq<byte>, f: PageFields, kd: seq<bool>, dd: seq<bool>)
    requires Fits(prior) && WellSized(f) && |kd| == MAXKEYS && |dd| == MAXKEYS && 2 <= MAXKEYS
    requires f.numKeys == 2 && !kd[1]
    requires ReadKeyId(prior, 0) == f.keyIds[0] && f.keyIds[0] != f.keyIds[1]
    ensures ReadKeyId(PageImage(prior, DeleteFirstOfTwo(f), ShiftOut(kd, 0, 2, false), ShiftOut(dd, 0, 2, false)), 0) == f.keyIds[0]
    ensures DecodePage(PageImage(prior, DeleteFirstOfTwo(f), ShiftOut(kd, 0, 2, false), ShiftOut(dd, 0, 2, false))) != DeleteFirstOfTwo(f)
  {
    var g := DeleteFirstOfTwo(f);
    var kd', dd' := ShiftOut(kd, 0, 2, false), ShiftOut(dd, 0, 2, false);
    var img := PageImage(prior, g, kd', dd');
    PageImageSlot(prior, g, kd', dd', 0);
    assert !kd'[0];
    assert DecodePage(img).keyIds[0] == ReadKeyId(img, 0) == f.keyIds[0] != g.keyIds[0];
  }

  /** A slot stored during one step of a sequence of steps that only add objects is
      still stored at the end, relative to the start. */
  lemma StoredLater(start: map<Optr, int>, step: map<Optr, int>, end: map<Optr, int>, p: Optr)
    requires ObjectsGrow(start, step) && ObjectsGrow(step, end)
    ensures forall v :: StoredAt(step, end, p, v) ==> StoredAt(start, end, p, v)
  {
  }

  /** putKey on one slot: a dirty slot holding a key but no location gets a new location
      that stores the key; a null key, or a key that already has a location, is left as
      it is. */
  ghost predicate KeySlotStored(key: Option<int>, before: Optr, after: Optr, dirty: bool, objs0: map<Optr, int>, objs: map<Optr, int>)
  {
    if dirty && key.Some? && before == EmptyPointer then StoredAt(objs0, objs, after, key.value)
    else after == before
  }

  /** putData on one slot: a dirty value gets a new location that stores it, and a dirty
      null value gets the empty pointer. */
  ghost predicate DataSlotStored(value: Option<int>, before: Optr, after: Optr, dirty: bool, objs0: map<Optr, int>, objs: map<Optr, int>)
  {
    if !dirty then after == before
    else if value.Some? then StoredAt(objs0, objs, after, value.value)
    else after == EmptyPointer
  }

  /** delete on one of its arrays, whose slot n-1 is the last live one: when index is
      left of that slot, slots index .. hi-1 take their right neighbour, hi being n-1
      on a full array and n otherwise; then slot n-1 is set to fill. delete runs one
      loop over all its arrays; they are distinct, so treating them one after another
      gives the same result. */
  method RemoveSlot<T>(a: array<T>, index: int, n: int, fill: T)
    requires 0 <= index && 1 <= n <= a.Length
    modifies a
    ensures a[..] == ShiftOut(old(a[..]), index, n, fill)
  {
    var i := 0;
    if index < n - 1 {
      var hi := if n == a.Length then n - 1 else n;
      i := index;
      while i < hi
        invariant index <= i <= hi < a.Length
        invariant forall k :: 0 <= k < a.Length ==> a[k] == if index <= k < i then old(a[k + 1]) else old(a[k])
      {
        a[i] := a[i + 1];
        i := i + 1;
      }
    }
    ghost var slid := a[..];
    a[n - 1] := fill;
    SlideThenClear(old(a[..]), slid, index, i, n, fill);
  }

  class BTreeKeyPage {
    const sdbio: ObjectDBIO
    /** The block of the page's BlockAccessIndex. */
    const blk: Datablock
    var pageId: i64
    var numKeys: i32
    var mIsLeafNode: bool
    var updated: bool
    const keyArray: array<Option<int>>
    const keyIdArray: array<Optr>
    const keyUpdatedArray: array<bool>
    const dataArray: array<Option<int>>
    const dataIdArray: array<Optr>
    const dataUpdatedArray: array<bool>
    const pageArray: array<BTreeKeyPage?>
    const pageIdArray: array<i64>
    /** This page, its block, its arrays and the subtrees of its loaded children. */
    ghost var Repr: set<object>

    ghost function Arrays(): set<object>
    {
      {keyArray, keyIdArray, keyUpdatedArray, dataArray, dataIdArray, dataUpdatedArray, pageArray, pageIdArray}
    }

    ghost predicate Valid()
    {
      && keyArray.Length == MAXKEYS && keyIdArray.Length == MAXKEYS && keyUpdatedArray.Length == MAXKEYS
      && dataArray.Length == MAXKEYS && dataIdArray.Length == MAXKEYS && dataUpdatedArray.Length == MAXKEYS
      && pageArray.Length == MAXKEYS + 1 && pageIdArray.Length == MAXKEYS + 1
      && keyArray != dataArray && keyIdArray != dataIdArray && keyUpdatedArray != dataUpdatedArray
    }

    /** The page heads a tree of loaded pages: each loaded child among the first
        MAXKEYS+1 slots lies inside this page's footprint, apart from this page, its
        block and its arrays and from every other child's footprint, and shares the
        ObjectDBIO, which belongs to no page. */
    ghost predicate TreeValid()
      reads this, Repr
      decreases Repr
    {
      && this in Repr && blk in Repr && Arrays() <= Repr && sdbio !in Repr
      && Valid() && 0 <= numKeys <= MAXKEYS
      && (forall i :: 0 <= i <= MAXKEYS && pageArray[i] != null ==>
            && pageArray[i] in Repr && pageArray[i].Repr <= Repr
            && this !in pageArray[i].Repr && blk !in pageArray[i].Repr && Arrays() !! pageArray[i].Repr
            && pageArray[i].sdbio == sdbio && pageArray[i].TreeValid())
      && (forall i, j :: 0 <= i < j <= MAXKEYS && pageArray[i] != null && pageArray[j] != null ==>
            pageArray[i].Repr !! pageArray[j].Repr)
    }

    /** What the `updated` flag promises across the subtree that putPages walks: a
        page that is not updated already holds its own image in its block and records
        the page id of every loaded child among its live child slots. */
    ghost predicate TreeSynced()
      requires TreeValid()
      reads this, Repr
      decreases Repr
    {
      && (!updated ==>
            && DecodePage(blk.data) == Fields()
            && forall i :: 0 <= i <= numKeys && pageArray[i] != null ==> pageIdArray[i] == pageArray[i].pageId)
      && forall i :: 0 <= i <= numKeys && pageArray[i] != null ==> pageArray[i].TreeSynced()
    }

    /** After putPages: this page is no longer updated and its block loads back as the
        page, and every loaded child among the live child slots is flushed the same way
        and recorded under its own page id. */
    ghost predicate Flushed()
      requires TreeValid()
      reads this, Repr
      decreases Repr
    {
      && !updated
      && DecodePage(blk.data) == Fields()
      && forall i :: 0 <= i <= numKeys && pageArray[i] != null ==>
           pageIdArray[i] == pageArray[i].pageId && pageArray[i].Flushed()
    }

    /** The fields putPage persists. */
    function Fields(): (f: PageFields)
      requires Valid()
      reads this, keyIdArray, dataIdArray, pageIdArray
      ensures WellSized(f)
    {
      PageFields(mIsLeafNode, numKeys, keyIdArray[..], dataIdArray[..], pageIdArray[..])
    }

    /** Every key and value dirty flag equals b. */
    ghost predicate Flags(b: bool)
      requires Valid()
      reads keyUpdatedArray, dataUpdatedArray
    {
      forall i :: 0 <= i < MAXKEYS ==> keyUpdatedArray[i] == b && dataUpdatedArray[i] == b
    }

    /** What getKey(i) delivers: the cached key, else null for an empty pointer, else
        the object stored at the pointer. */
    function LoadedKey(i: int): KeyLoad
      requires Valid() && 0 <= i < MAXKEYS
      reads keyArray, keyIdArray, sdbio
    {
      if keyArray[i].Some? then Ok(keyArray[i])
      else if keyIdArray[i] == EmptyPointer then Ok(None)
      else match sdbio.Deserialize(keyIdArray[i])
        case Ok(v) => Ok(Some(v))
        case Err(f) => Err(f)
    }

    /** The live keys as search sees them. */
    function LoadedKeys(): (ks: seq<KeyLoad>)
      requires Valid() && 0 <= numKeys <= MAXKEYS
      reads this, keyArray, keyIdArray, sdbio
      ensures |ks| == numKeys
    {
      seq(numKeys, i requires 0 <= i < numKeys && numKeys <= MAXKEYS reads this, keyArray, keyIdArray, sdbio => LoadedKey(i))
    }

    /** What getData(i) delivers. */
    function LoadedData(i: int): KeyLoad
      requires Valid() && 0 <= i < MAXKEYS
      reads dataArray, dataIdArray, sdbio
    {
      if dataArray[i].Some? then Ok(dataArray[i])
      else if dataIdArray[i] == EmptyPointer then Ok(None)
      else match sdbio.Deserialize(dataIdArray[i])
        case Ok(v) => Ok(Some(v))
        case Err(f) => Err(f)
    }

    /** Both constructors once the block is at hand: the arrays start cleared, then
        either the image at the start of the block is read, or (a new page) every slot
        is marked dirty so that putPage writes it all. */
    constructor (sdbio: ObjectDBIO, blk: Datablock, id: i64, read: bool)
      ensures Valid() && this.sdbio == sdbio && this.blk == blk && pageId == id && updated
      ensures fresh(Arrays()) && Repr == {this, blk} + Arrays()
      ensures forall i :: 0 <= i < MAXKEYS ==> keyArray[i].None? && dataArray[i].None?
      ensures forall j :: 0 <= j <= MAXKEYS ==> pageArray[j] == null
      ensures read ==> Fields() == DecodePage(blk.data) && Flags(false)
      ensures !read ==> Fields() == FreshFields() && Flags(true)
      ensures 0 <= numKeys <= MAXKEYS ==> TreeValid() && TreeSynced()
    {
      this.sdbio := sdbio;
      this.blk := blk;
      pageId := id;
      numKeys := 0;
      mIsLeafNode := true;
      updated := false;
      keyArray := new Option<int>[MAXKEYS](_ => None);
      keyIdArray := new Optr[MAXKEYS](_ => EmptyPointer);
      keyUpdatedArray := new bool[MAXKEYS](_ => false);
      dataArray := new Option<int>[MAXKEYS](_ => None);
      dataIdArray := new Optr[MAXKEYS](_ => EmptyPointer);
      dataUpdatedArray := new bool[MAXKEYS](_ => false);
      pageArray := new BTreeKeyPage?[MAXKEYS + 1](_ => null);
      pageIdArray := new i64[MAXKEYS + 1](_ => NoPage);
      new;
      assert fresh(Arrays());
      InitFromBlock(read);
    }

    /** The part of the constructors after the arrays are allocated: the page owns
        itself, its block and its arrays, and its fields are read from the block or
        prepared for a new page. */
    method InitFromBlock(read: bool)
      requires Valid() && numKeys == 0 && mIsLeafNode && !updated
      requires forall i :: 0 <= i < MAXKEYS ==> keyArray[i].None? && dataArray[i].None?
      requires forall i :: 0 <= i < MAXKEYS ==> keyIdArray[i] == EmptyPointer && dataIdArray[i] == EmptyPointer
      requires forall i :: 0 <= i < MAXKEYS ==> !keyUpdatedArray[i] && !dataUpdatedArray[i]
      requires forall j :: 0 <= j <= MAXKEYS ==> pageArray[j] == null && pageIdArray[j] == NoPage
      modifies this, keyIdArray, dataIdArray, pageIdArray, keyUpdatedArray, dataUpdatedArray
      ensures pageId == old(pageId) && updated && Repr == {this, blk} + Arrays()
      ensures forall i :: 0 <= i < MAXKEYS ==> keyArray[i].None? && dataArray[i].None?
      ensures forall j :: 0 <= j <= MAXKEYS ==> pageArray[j] == null
      ensures read ==> Fields() == DecodePage(blk.data) && Flags(false)
      ensures !read ==> Fields() == FreshFields() && Flags(true)
      ensures 0 <= numKeys <= MAXKEYS ==> TreeValid() && TreeSynced()
    {
      Repr := {this, blk} + Arrays();
      if read {
        ReadImage();
      } else {
        PrepareNewPage();
      }
      if 0 <= numKeys <= MAXKEYS {
        NoChildrenTreeValid();
      }
    }

    /** A page with no loaded children, owning just itself, its block and its arrays,
        heads a valid tree, and one that is updated owes its block nothing yet. */
    lemma NoChildrenTreeValid()
      requires Valid() && 0 <= numKeys <= MAXKEYS
      requires Repr == {this, blk} + Arrays()
      requires forall j :: 0 <= j <= MAXKEYS ==> pageArray[j] == null
      ensures TreeValid()
      ensures updated ==> TreeSynced()
    {
    }

    /** The other branch of the constructors, on a page whose pointer arrays are still
        as initialised: every key and value slot is marked dirty, so the whole page is
        written at putPage time. Resetting the block's headers is not part of this
        model. */
    method PrepareNewPage()
      requires Valid() && mIsLeafNode && numKeys == 0
      requires forall i :: 0 <= i < MAXKEYS ==> keyIdArray[i] == EmptyPointer && dataIdArray[i] == EmptyPointer
      requires forall j :: 0 <= j <= MAXKEYS ==> pageIdArray[j] == NoPage
      modifies this, keyUpdatedArray, dataUpdatedArray
      ensures Fields() == FreshFields() && Flags(true) && updated
      ensures pageId == old(pageId) && Repr == old(Repr)
    {
      SetAllUpdated(true);
      assert keyIdArray[..] == FreshFields().keyIds;
      assert dataIdArray[..] == FreshFields().dataIds;
      assert pageIdArray[..] == FreshFields().pageIds;
    }

    /** The read branch of the constructors: a DataInputStream over the block yields the
        leaf byte and the key count (through setmIsLeafNode and setNumKeys, which mark
        the page updated), then each slot's key and value pointers, then the child ids. */
    method ReadImage()
      requires Valid()
      modifies this, keyIdArray, dataIdArray, pageIdArray
      ensures Fields() == DecodePage(blk.data) && updated
      ensures pageId == old(pageId) && Repr == old(Repr)
    {
      var img := blk.data;
      PayloadFits(img);
      SetmIsLeafNode(img[0] != 0);
      SetNumKeys(DecodeInt(img[1..5]));
      ReadSlots(img);
      ReadChildren(img);
      assert keyIdArray[..] == DecodePage(img).keyIds;
      assert dataIdArray[..] == DecodePage(img).dataIds;
      assert pageIdArray[..] == DecodePage(img).pageIds;
    }

    /** The slot loop of the read branch: each slot's key pointer, then its value
        pointer. */
    method ReadSlots(img: seq<byte>)
      requires Valid() && Fits(img)
      modifies keyIdArray, dataIdArray
      ensures forall k :: 0 <= k < MAXKEYS ==> keyIdArray[k] == ReadKeyId(img, k) && dataIdArray[k] == ReadDataId(img, k)
    {
      var pos := 5;
      for i := 0 to MAXKEYS
        invariant pos == KeyPos(i)
        invariant forall k :: 0 <= k < i ==> keyIdArray[k] == ReadKeyId(img, k) && dataIdArray[k] == ReadDataId(img, k)
      {
        keyIdArray[i] := DecodeOptr(img[pos..pos + 10]);
        pos := pos + 10;
        dataIdArray[i] := DecodeOptr(img[pos..pos + 10]);
        pos := pos + 10;
      }
    }

    /** The child loop of the read branch: every child id, after the slots. */
    method ReadChildren(img: seq<byte>)
      requires Valid() && Fits(img)
      modifies pageIdArray
      ensures forall k :: 0 <= k <= MAXKEYS ==> pageIdArray[k] == ReadChild(img, k)
    {
      var pos := ChildPos(0);
      for j := 0 to MAXKEYS + 1
        invariant pos == ChildPos(j)
        invariant forall k :: 0 <= k < j ==> pageIdArray[k] == ReadChild(img, k)
      {
        pageIdArray[j] := DecodeLong(img[pos..pos + 8]);
        pos := pos + 8;
      }
    }

    // -------------------------------------------------------------------------
    // Flags and plain setters

    method SetUpdated(b: bool)
      modifies this
      ensures updated == b
      ensures numKeys == old(numKeys) && mIsLeafNode == old(mIsLeafNode) && pageId == old(pageId) && Repr == old(Repr)
    {
      updated := b;
    }

    /** setmIsLeafNode: the leaf flag is persisted, so the page becomes updated. */
    method SetmIsLeafNode(b: bool)
      modifies this
      ensures mIsLeafNode == b && updated
      ensures numKeys == old(numKeys) && pageId == old(pageId) && Repr == old(Repr)
    {
      mIsLeafNode := b;
      updated := true;
    }

    /** setNumKeys: the count is persisted, so the page becomes updated. */
    method SetNumKeys(n: i32)
      modifies this
      ensures numKeys == n && updated
      ensures mIsLeafNode == old(mIsLeafNode) && pageId == old(pageId) && Repr == old(Repr)
    {
      numKeys := n;
      updated := true;
    }

    /** setAllUpdated: every key and value flag becomes b, and the page is updated
        whatever b is. */
    method SetAllUpdated(b: bool)
      requires Valid()
      modifies this, keyUpdatedArray, dataUpdatedArray
      ensures Flags(b) && updated
      ensures numKeys == old(numKeys) && mIsLeafNode == old(mIsLeafNode) && pageId == old(pageId) && Repr == old(Repr)
    {
      for i := 0 to MAXKEYS
        invariant forall k :: 0 <= k < i ==> keyUpdatedArray[k] == b && dataUpdatedArray[k] == b
        invariant unchanged(this)
      {
        keyUpdatedArray[i] := b;
        dataUpdatedArray[i] := b;
      }
      updated := true;
    }

    method SetKeyUpdatedArray(index: int, b: bool)
      requires Valid() && 0 <= index < MAXKEYS
      modifies keyUpdatedArray
      ensures keyUpdatedArray[..] == old(keyUpdatedArray[..])[index := b]
    {
      keyUpdatedArray[index] := b;
    }

    /** setKeyIdArray: the pointer changes, and so its slot and the page are dirty. */
    method SetKeyIdArray(index: int, p: Optr)
      requires Valid() && 0 <= index < MAXKEYS
      modifies this, keyIdArray, keyUpdatedArray
      ensures keyIdArray[..] == old(keyIdArray[..])[index := p]
      ensures keyUpdatedArray[..] == old(keyUpdatedArray[..])[index := true] && updated
      ensures numKeys == old(numKeys) && mIsLeafNode == old(mIsLeafNode) && pageId == old(pageId) && Repr == old(Repr)
    {
      keyIdArray[index] := p;
      keyUpdatedArray[index] := true;
      updated := true;
    }

    /** setDataIdArray: as setKeyIdArray, for the value pointer. */
    method SetDataIdArray(index: int, p: Optr)
      requires Valid() && 0 <= index < MAXKEYS
      modifies this, dataIdArray, dataUpdatedArray
      ensures dataIdArray[..] == old(dataIdArray[..])[index := p]
      ensures dataUpdatedArray[..] == old(dataUpdatedArray[..])[index := true] && updated
      ensures numKeys == old(numKeys) && mIsLeafNode == old(mIsLeafNode) && pageId == old(pageId) && Repr == old(Repr)
    {
      dataIdArray[index] := p;
      dataUpdatedArray[index] := true;
      updated := true;
    }

    /** setPageIdArray: child ids have no dirty flag of their own; only the page is
        marked updated. */
    method SetPageIdArray(index: int, id: i64)
      requires Valid() && 0 <= index <= MAXKEYS
      modifies this, pageIdArray
      ensures pageIdArray[..] == old(pageIdArray[..])[index := id] && updated
      ensures numKeys == old(numKeys) && mIsLeafNode == old(mIsLeafNode) && pageId == old(pageId) && Repr == old(Repr)
    {
      pageIdArray[index] := id;
      updated := true;
    }

    /** putKeyToArray (and setKey): a new key, not yet stored, so its pointer is
        emptied and putPage will store it. */
    method PutKeyToArray(key: Option<int>, index: int)
      requires Valid() && 0 <= index < MAXKEYS
      modifies this, keyArray, keyIdArray, keyUpdatedArray
      ensures keyArray[..] == old(keyArray[..])[index := key]
      ensures keyIdArray[..] == old(keyIdArray[..])[index := EmptyPointer]
      ensures keyUpdatedArray[..] == old(keyUpdatedArray[..])[index := true] && updated
      ensures numKeys == old(numKeys) && mIsLeafNode == old(mIsLeafNode) && pageId == old(pageId) && Repr == old(Repr)
    {
      keyArray[index] := key;
      keyIdArray[index] := EmptyPointer;
      keyUpdatedArray[index] := true;
      SetUpdated(true);
    }

    /** putDataToArray: as putKeyToArray, for the value. */
    method PutDataToArray(data: Option<int>, index: int)
      requires Valid() && 0 <= index < MAXKEYS
      modifies this, dataArray, dataIdArray, dataUpdatedArray
      ensures dataArray[..] == old(dataArray[..])[index := data]
      ensures dataIdArray[..] == old(dataIdArray[..])[index := EmptyPointer]
      ensures dataUpdatedArray[..] == old(dataUpdatedArray[..])[index := true] && updated
      ensures numKeys == old(numKeys) && mIsLeafNode == old(mIsLeafNode) && pageId == old(pageId) && Repr == old(Repr)
    {
      dataArray[index] := data;
      dataIdArray[index] := EmptyPointer;
      dataUpdatedArray[index] := true;
      SetUpdated(true);
    }

    /** putPageToArray: the child and its id (or -1 for no child). */
    method PutPageToArray(fromPage: BTreeKeyPage?, index: int)
      requires Valid() && 0 <= index <= MAXKEYS
      modifies this, pageArray, pageIdArray
      ensures pageArray[..] == old(pageArray[..])[index := fromPage]
      ensures pageIdArray[..] == old(pageIdArray[..])[index := if fromPage == null then NoPage else fromPage.pageId]
      ensures updated
      ensures numKeys == old(numKeys) && mIsLeafNode == old(mIsLeafNode) && pageId == old(pageId) && Repr == old(Repr)
    {
      pageArray[index] := fromPage;
      if fromPage != null {
        pageIdArray[index] := fromPage.pageId;
      } else {
        pageIdArray[index] := NoPage;
      }
      SetUpdated(true);
    }

    /** nullPageArray: no child at index. */
    method NullPageArray(index: int)
      requires Valid() && 0 <= index <= MAXKEYS
      modifies this, pageArray, pageIdArray
      ensures pageArray[..] == old(pageArray[..])[index := null]
      ensures pageIdArray[..] == old(pageIdArray[..])[index := NoPage] && updated
      ensures numKeys == old(numKeys) && mIsLeafNode == old(mIsLeafNode) && pageId == old(pageId) && Repr == old(Repr)
    {
      pageArray[index] := null;
      pageIdArray[index] := NoPage;
      SetUpdated(true);
    }

    /** nullKeyAndData: the slot holds neither key nor value, and both are dirty. */
    method NullKeyAndData(index: int)
      requires Valid() && 0 <= index < MAXKEYS
      modifies this, keyArray, keyIdArray, keyUpdatedArray, dataArray, dataIdArray, dataUpdatedArray
      ensures keyArray[..] == old(keyArray[..])[index := None]
      ensures keyIdArray[..] == old(keyIdArray[..])[index := EmptyPointer]
      ensures keyUpdatedArray[..] == old(keyUpdatedArray[..])[index := true]
      ensures dataArray[..] == old(dataArray[..])[index := None]
      ensures dataIdArray[..] == old(dataIdArray[..])[index := EmptyPointer]
      ensures dataUpdatedArray[..] == old(dataUpdatedArray[..])[index := true]
      ensures updated
      ensures numKeys == old(numKeys) && mIsLeafNode == old(mIsLeafNode) && pageId == old(pageId) && Repr == old(Repr)
    {
      keyArray[index] := None;
      keyIdArray[index] := EmptyPointer;
      keyUpdatedArray[index] := true;
      dataArray[index] := None;
      dataIdArray[index] := EmptyPointer;
      dataUpdatedArray[index] := true;
      SetUpdated(true);
    }

    // -------------------------------------------------------------------------
    // Lazy loading

    /** getKey: a null cache slot with a non-empty pointer is filled from the store;
        otherwise nothing is loaded. What the page delivers for any slot never changes. */
    method GetKey(index: int) returns (r: KeyLoad)
      requires Valid() && 0 <= index < MAXKEYS
      modifies keyArray
      ensures r == old(LoadedKey(index))
      ensures r.Ok? ==> keyArray[index] == r.value
      ensures old(keyArray[index]).Some? || old(keyIdArray[index]) == EmptyPointer || r.Err? ==> unchanged(keyArray)
      ensures forall k :: 0 <= k < MAXKEYS && k != index ==> keyArray[k] == old(keyArray[k])
      ensures forall k :: 0 <= k < MAXKEYS ==> LoadedKey(k) == old(LoadedKey(k))
    {
      if keyArray[index].None? && keyIdArray[index] != EmptyPointer {
        var v := sdbio.Deserialize(keyIdArray[index]);
        if v.Err? {
          return Err(v.fault);
        }
        keyArray[index] := Some(v.value);
      }
      r := Ok(keyArray[index]);
    }

    /** getData: as getKey, and a value just loaded is clean. */
    method GetData(index: int) returns (r: KeyLoad)
      requires Valid() && 0 <= index < MAXKEYS
      modifies dataArray, dataUpdatedArray
      ensures r == old(LoadedData(index))
      ensures r.Ok? ==> dataArray[index] == r.value
      ensures old(dataArray[index]).Some? || old(dataIdArray[index]) == EmptyPointer || r.Err? ==>
                unchanged(dataArray) && unchanged(dataUpdatedArray)
      ensures old(dataArray[index]).None? && old(dataIdArray[index]) != EmptyPointer && r.Ok? ==>
                dataUpdatedArray[..] == old(dataUpdatedArray[..])[index := false]
      ensures forall k :: 0 <= k < MAXKEYS && k != index ==> dataArray[k] == old(dataArray[k])
      ensures forall k :: 0 <= k < MAXKEYS ==> LoadedData(k) == old(LoadedData(k))
    {
      if dataArray[index].None? && dataIdArray[index] != EmptyPointer {
        var v := sdbio.Deserialize(dataIdArray[index]);
        if v.Err? {
          return Err(v.fault);
        }
        dataArray[index] := Some(v.value);
        dataUpdatedArray[index] := false;
      }
      r := Ok(dataArray[index]);
    }

    // -------------------------------------------------------------------------
    // Search

    /** The while loop of search, from the state (left0, right0, middle0) over keys that
        load as ks: each probe loads the middle key; an equal key ends the loop, a null
        key is a NullPointerException and a failed load an IOException. */
    method ProbeLoop(ghost ks: seq<KeyLoad>, target: int, left0: int, right0: int, middle0: int) returns (e: Result<Exit>)
      requires Valid() && 0 <= numKeys <= MAXKEYS && |ks| == numKeys as int
      requires forall k :: 0 <= k < numKeys ==> LoadedKey(k) == ks[k]
      requires 0 <= left0 <= right0 + 1 <= numKeys
      modifies keyArray
      ensures e == Probe(ks, target, left0, right0, middle0)
      ensures forall k :: 0 <= k < MAXKEYS ==> LoadedKey(k) == old(LoadedKey(k))
    {
      var leftIndex, rightIndex, middleIndex := left0, right0, middle0;
      while leftIndex <= rightIndex
        invariant 0 <= leftIndex <= rightIndex + 1 <= numKeys
        invariant Probe(ks, target, leftIndex, rightIndex, middleIndex) == Probe(ks, target, left0, right0, middle0)
        invariant forall k :: 0 <= k < MAXKEYS ==> LoadedKey(k) == old(LoadedKey(k))
        decreases rightIndex - leftIndex
      {
        var stop;
        stop, leftIndex, rightIndex, middleIndex := ProbeOnce(ks, target, leftIndex, rightIndex, middleIndex);
        if stop.Some? {
          return stop.value;
        }
      }
      e := Ok(Miss(leftIndex, middleIndex));
    }

    /** One turn of the loop of search over a non-empty range: the middle key is loaded;
        the turn either ends the search with the outcome of the whole probe, or narrows
        the range to one with the same outcome. */
    method ProbeOnce(ghost ks: seq<KeyLoad>, target: int, left: int, right: int, ghost middle: int)
        returns (stop: Option<Result<Exit>>, left': int, right': int, middle': int)
      requires Valid() && 0 <= numKeys <= MAXKEYS && |ks| == numKeys as int
      requires forall k :: 0 <= k < numKeys ==> LoadedKey(k) == ks[k]
      requires 0 <= left <= right < numKeys
      modifies keyArray
      ensures stop.Some? ==> stop.value == Probe(ks, target, left, right, middle)
      ensures stop.None? ==> 0 <= left' <= right' + 1 <= numKeys && right' - left' < right - left
      ensures stop.None? ==> Probe(ks, target, left', right', middle') == Probe(ks, target, left, right, middle)
      ensures forall k :: 0 <= k < MAXKEYS ==> LoadedKey(k) == old(LoadedKey(k))
    {
      middle' := left + (right - left) / 2;
      var key := GetKey(middle');
      assert key == ks[middle'];
      stop, left', right' := Turn(ks, target, left, right, middle, middle', key);
    }

    /** What one probed key decides: an error or an equal key ends the search, a
        smaller key moves the left end past the probe, a larger one the right end. */
    static method Turn(ghost ks: seq<KeyLoad>, target: int, left: int, right: int, ghost middle: int, m: int, key: KeyLoad)
        returns (stop: Option<Result<Exit>>, left': int, right': int)
      requires 0 <= left <= right < |ks| && m == left + (right - left) / 2 && key == ks[m]
      ensures stop.Some? ==> stop.value == Probe(ks, target, left, right, middle)
      ensures stop.None? ==> 0 <= left' <= right' + 1 <= |ks| && right' - left' < right - left
      ensures stop.None? ==> Probe(ks, target, left', right', m) == Probe(ks, target, left, right, middle)
    {
      ProbeStep(ks, target, left, right, middle, m);
      left', right' := left, right;
      match key {
        case Err(f) =>
          stop := Some(Err(f));
        case Ok(None) =>
          stop := Some(Err(NullReference));
        case Ok(Some(k)) =>
          if k < target {
            stop, left' := None, m + 1;
          } else if k > target {
            stop, right' := None, m - 1;
          } else {
            stop := Some(Ok(Hit(m)));
          }
      }
    }

    /** search: the binary search over the live keys, loading each probed key. It ends
        at an equal key, or returns the insertion point; a null key is a
        NullPointerException and a failed load an IOException. */
    method Search(target: int) returns (r: Result<SearchResult>)
      requires Valid() && 0 <= numKeys <= MAXKEYS
      modifies keyArray
      ensures r == KeyPageSpec.Search(old(LoadedKeys()), target)
      ensures forall k :: 0 <= k < MAXKEYS ==> LoadedKey(k) == old(LoadedKey(k))
    {
      ghost var ks := LoadedKeys();
      var middleIndex := 1;
      var leftIndex := 0;
      var rightIndex := numKeys - 1;
      if rightIndex == -1 {
        return Ok(SearchResult(0, false));
      }
      var e := ProbeLoop(ks, target, leftIndex, rightIndex, middleIndex);
      match e {
        case Err(f) => r := Err(f);
        case Ok(Hit(m)) => r := Ok(SearchResult(m, true));
        case Ok(Miss(l, m)) => r := Ok(SearchResult(l, false));
      }
    }

    /** contains: whether search lands on the key. */
    method Contains(key: int) returns (r: Result<bool>)
      requires Valid() && 0 <= numKeys <= MAXKEYS
      modifies keyArray
      ensures r.Ok? <==> KeyPageSpec.Search(old(LoadedKeys()), key).Ok?
      ensures r.Ok? ==> r.value == KeyPageSpec.Search(old(LoadedKeys()), key).value.atKey
      ensures old(Sorted(LoadedKeys())) ==>
        r.Ok? && (r.value <==> exists k :: 0 <= k < numKeys && KeyAt(old(LoadedKeys()), k) == key)
    {
      ghost var ks := LoadedKeys();
      if Sorted(ks) {
        SearchSorted(ks, key);
      }
      var s := Search(key);
      if s.Err? {
        return Err(s.fault);
      }
      r := Ok(s.value.atKey);
    }

    /** subtreeRootNodeIndex: the first live slot whose cached key is above key, or
        numKeys when there is none. It compares against the cache without loading, so a
        null cached key before that slot is a NullPointerException. */
    method SubtreeRootNodeIndex(key: int) returns (r: Result<int>)
      requires Valid() && 0 <= numKeys <= MAXKEYS
      ensures r.Ok? ==> 0 <= r.value <= numKeys
      ensures r.Ok? ==> forall k :: 0 <= k < r.value ==> keyArray[k].Some? && keyArray[k].value <= key
      ensures r.Ok? && r.value < numKeys ==> keyArray[r.value].Some? && key < keyArray[r.value].value
      ensures r.Err? <==> exists k :: 0 <= k < numKeys && keyArray[k].None? &&
                            forall j :: 0 <= j < k ==> keyArray[j].Some? && keyArray[j].value <= key
      ensures r.Err? ==> r.fault == NullReference
    {
      for i := 0 to numKeys
        invariant forall k :: 0 <= k < i ==> keyArray[k].Some? && keyArray[k].value <= key
      {
        if keyArray[i].None? {
          return Err(NullReference);
        }
        if key < keyArray[i].value {
          return Ok(i);
        }
      }
      r := Ok(numKeys);
    }

    // -------------------------------------------------------------------------
    // Delete

    /** delete: when index is left of the last live slot, the slots from index on
        take their right neighbour (key, value, pointers and dirty flags) and the
        children from index+1 on take theirs; then the count drops by one and the last
        live slot and the child after it are cleared, with clean flags. */
    method Delete(index: int)
      requires Valid() && 1 <= numKeys <= MAXKEYS && 0 <= index
      modifies this, keyArray, keyIdArray, keyUpdatedArray, dataArray, dataIdArray, dataUpdatedArray, pageArray, pageIdArray
      ensures numKeys == old(numKeys) - 1 && updated
      ensures keyArray[..] == ShiftOut(old(keyArray[..]), index, old(numKeys), None)
      ensures keyIdArray[..] == ShiftOut(old(keyIdArray[..]), index, old(numKeys), EmptyPointer)
      ensures keyUpdatedArray[..] == ShiftOut(old(keyUpdatedArray[..]), index, old(numKeys), false)
      ensures dataArray[..] == ShiftOut(old(dataArray[..]), index, old(numKeys), None)
      ensures dataIdArray[..] == ShiftOut(old(dataIdArray[..]), index, old(numKeys), EmptyPointer)
      ensures dataUpdatedArray[..] == ShiftOut(old(dataUpdatedArray[..]), index, old(numKeys), false)
      ensures pageArray[..] == ShiftOut(old(pageArray[..]), index + 1, old(numKeys) + 1, null)
      ensures pageIdArray[..] == ShiftOut(old(pageIdArray[..]), index + 1, old(numKeys) + 1, NoPage)
      ensures mIsLeafNode == old(mIsLeafNode) && pageId == old(pageId) && Repr == old(Repr)
    {
      var n := numKeys;
      RemoveSlot(keyArray, index, n, None);
      RemoveSlot(keyIdArray, index, n, EmptyPointer);
      RemoveSlot(pageArray, index + 1, n + 1, null);
      RemoveSlot(pageIdArray, index + 1, n + 1, NoPage);
      RemoveSlot(dataArray, index, n, None);
      RemoveSlot(dataIdArray, index, n, EmptyPointer);
      RemoveSlot(dataUpdatedArray, index, n, false);
      RemoveSlot(keyUpdatedArray, index, n, false);
      SetNumKeys(n - 1);
      SetUpdated(true);
    }

    /** deleteData: a loaded value with a location is removed from the store, and its
        slot loses the location and becomes dirty; otherwise nothing happens. The cached
        value stays. */
    method DeleteData(index: int)
      requires Valid() && sdbio.Valid() && 0 <= index < MAXKEYS
      modifies this, sdbio, dataIdArray, dataUpdatedArray
      ensures sdbio.Valid() && sdbio.blocks == old(sdbio.blocks)
      ensures old(dataArray[index]).Some? && old(dataIdArray[index]) != EmptyPointer ==>
        && sdbio.objects == old(sdbio.objects) - {old(dataIdArray[index])}
        && dataIdArray[..] == old(dataIdArray[..])[index := EmptyPointer]
        && dataUpdatedArray[..] == old(dataUpdatedArray[..])[index := true]
        && updated
      ensures old(dataArray[index]).None? || old(dataIdArray[index]) == EmptyPointer ==>
        unchanged(sdbio, dataIdArray, dataUpdatedArray) && updated == old(updated)
      ensures numKeys == old(numKeys) && mIsLeafNode == old(mIsLeafNode) && pageId == old(pageId) && Repr == old(Repr)
    {
      if dataArray[index].Some? && dataIdArray[index] != EmptyPointer {
        sdbio.DeleteObject(dataIdArray[index]);
        dataIdArray[index] := EmptyPointer;
        dataUpdatedArray[index] := true;
        SetUpdated(true);
      }
    }

    // -------------------------------------------------------------------------
    // Copying between pages

    /** copyKeyToArray: the source's key (loaded if need be) and its location go to the
        target slot, which becomes dirty. A failed load copies nothing. */
    method CopyKeyToArray(source: BTreeKeyPage, sourceIndex: int, targetIndex: int) returns (r: Outcome)
      requires Valid() && source.Valid() && 0 <= sourceIndex < MAXKEYS && 0 <= targetIndex < MAXKEYS
      requires source == this || source.Arrays() !! Arrays()
      modifies this, keyArray, keyIdArray, keyUpdatedArray, source.keyArray
      ensures r.Pass? <==> old(source.LoadedKey(sourceIndex)).Ok?
      ensures r.Fail? ==> r.fault == old(source.LoadedKey(sourceIndex)).fault
      ensures r.Fail? ==> unchanged(keyIdArray, keyUpdatedArray) && updated == old(updated)
      ensures r.Pass? ==>
        && keyArray[targetIndex] == old(source.LoadedKey(sourceIndex)).value
        && keyIdArray[..] == old(keyIdArray[..])[targetIndex := old(source.keyIdArray[sourceIndex])]
        && keyUpdatedArray[..] == old(keyUpdatedArray[..])[targetIndex := true]
        && updated
      ensures forall k :: 0 <= k < MAXKEYS && k != targetIndex ==> LoadedKey(k) == old(LoadedKey(k))
      ensures numKeys == old(numKeys) && mIsLeafNode == old(mIsLeafNode) && pageId == old(pageId) && Repr == old(Repr)
    {
      var key := source.GetKey(sourceIndex);
      if key.Err? {
        return Fail(key.fault);
      }
      keyArray[targetIndex] := key.value;
      keyIdArray[targetIndex] := source.keyIdArray[sourceIndex];
      keyUpdatedArray[targetIndex] := true;
      SetUpdated(true);
      r := Pass;
    }

    /** copyDataToArray: as copyKeyToArray, for the value. */
    method CopyDataToArray(source: BTreeKeyPage, sourceIndex: int, targetIndex: int) returns (r: Outcome)
      requires Valid() && source.Valid() && 0 <= sourceIndex < MAXKEYS && 0 <= targetIndex < MAXKEYS
      requires source == this || source.Arrays() !! Arrays()
      modifies this, dataArray, dataIdArray, dataUpdatedArray, source.dataArray, source.dataUpdatedArray
      ensures r.Pass? <==> old(source.LoadedData(sourceIndex)).Ok?
      ensures r.Fail? ==> r.fault == old(source.LoadedData(sourceIndex)).fault
      ensures r.Fail? ==> unchanged(dataIdArray) && updated == old(updated)
      ensures r.Pass? ==>
        && dataArray[targetIndex] == old(source.LoadedData(sourceIndex)).value
        && dataIdArray[..] == old(dataIdArray[..])[targetIndex := old(source.dataIdArray[sourceIndex])]
        && dataUpdatedArray[targetIndex]
        && updated
      ensures forall k :: 0 <= k < MAXKEYS && k != targetIndex ==> LoadedData(k) == old(LoadedData(k))
      ensures forall k :: 0 <= k < MAXKEYS && k != targetIndex && (source != this || k != sourceIndex) ==>
        dataUpdatedArray[k] == old(dataUpdatedArray[k])
      ensures numKeys == old(numKeys) && mIsLeafNode == old(mIsLeafNode) && pageId == old(pageId) && Repr == old(Repr)
    {
      var data := source.GetData(sourceIndex);
      if data.Err? {
        return Fail(data.fault);
      }
      dataArray[targetIndex] := data.value;
      dataIdArray[targetIndex] := source.dataIdArray[sourceIndex];
      dataUpdatedArray[targetIndex] := true;
      SetUpdated(true);
      r := Pass;
    }

    /** copyKeyAndDataToArray: the key, then the value; a failure in the key stops it
        with nothing copied, and a failure in the value leaves the key copied. */
    method CopyKeyAndDataToArray(source: BTreeKeyPage, sourceIndex: int, targetIndex: int) returns (r: Outcome)
      requires Valid() && source.Valid() && 0 <= sourceIndex < MAXKEYS && 0 <= targetIndex < MAXKEYS
      requires source == this || source.Arrays() !! Arrays()
      modifies this, keyArray, keyIdArray, keyUpdatedArray, source.keyArray
      modifies dataArray, dataIdArray, dataUpdatedArray, source.dataArray, source.dataUpdatedArray
      ensures r.Pass? <==> old(source.LoadedKey(sourceIndex)).Ok? && old(source.LoadedData(sourceIndex)).Ok?
      ensures r.Fail? ==> r.fault == if old(source.LoadedKey(sourceIndex)).Err? then old(source.LoadedKey(sourceIndex)).fault
                                     else old(source.LoadedData(sourceIndex)).fault
      ensures r.Fail? && old(source.LoadedKey(sourceIndex)).Err? ==>
        unchanged(keyIdArray, keyUpdatedArray, dataIdArray, dataUpdatedArray) && updated == old(updated)
      ensures old(source.LoadedKey(sourceIndex)).Ok? ==>
        && keyArray[targetIndex] == old(source.LoadedKey(sourceIndex)).value
        && keyIdArray[..] == old(keyIdArray[..])[targetIndex := old(source.keyIdArray[sourceIndex])]
        && keyUpdatedArray[..] == old(keyUpdatedArray[..])[targetIndex := true]
        && updated
      ensures r.Fail? && old(source.LoadedKey(sourceIndex)).Ok? ==> unchanged(dataIdArray)
      ensures r.Pass? ==>
        && dataArray[targetIndex] == old(source.LoadedData(sourceIndex)).value
        && dataIdArray[..] == old(dataIdArray[..])[targetIndex := old(source.dataIdArray[sourceIndex])]
        && dataUpdatedArray[targetIndex]
      ensures forall k :: 0 <= k < MAXKEYS && k != targetIndex ==> LoadedKey(k) == old(LoadedKey(k)) && LoadedData(k) == old(LoadedData(k))
      ensures forall k :: 0 <= k < MAXKEYS && k != targetIndex && (source != this || k != sourceIndex) ==>
        dataUpdatedArray[k] == old(dataUpdatedArray[k])
      ensures numKeys == old(numKeys) && mIsLeafNode == old(mIsLeafNode) && pageId == old(pageId) && Repr == old(Repr)
    {
      r := CopyKeyToArray(source, sourceIndex, targetIndex);
      if r.Fail? {
        return;
      }
      r := CopyDataToArray(source, sourceIndex, targetIndex);
    }

    /** setKey: putKeyToArray under another name. */
    method SetKey(index: int, key: Option<int>)
      requires Valid() && 0 <= index < MAXKEYS
      modifies this, keyArray, keyIdArray, keyUpdatedArray
      ensures keyArray[..] == old(keyArray[..])[index := key]
      ensures keyIdArray[..] == old(keyIdArray[..])[index := EmptyPointer]
      ensures keyUpdatedArray[..] == old(keyUpdatedArray[..])[index := true] && updated
      ensures numKeys == old(numKeys) && mIsLeafNode == old(mIsLeafNode) && pageId == old(pageId) && Repr == old(Repr)
    {
      PutKeyToArray(key, index);
    }

    // -------------------------------------------------------------------------
    // Child pages and the page pool

    /** The page as the read constructor leaves it for block id of io: the fields are
        the block's image, nothing is dirty or cached, and the page is updated. */
    ghost predicate LoadedFrom(io: ObjectDBIO, id: i64)
      reads this, blk, io, keyArray, keyIdArray, keyUpdatedArray, dataArray, dataIdArray, dataUpdatedArray, pageArray, pageIdArray
    {
      && Valid() && sdbio == io && id in io.blocks && blk == io.blocks[id] && pageId == id
      && Fields() == DecodePage(blk.data) && Flags(false) && updated
      && (forall i :: 0 <= i < MAXKEYS ==> keyArray[i].None? && dataArray[i].None?)
      && (forall j :: 0 <= j <= MAXKEYS ==> pageArray[j] == null)
      && Repr == {this, blk} + Arrays()
    }

    /** getPageFromPool(sdbio, pos): the page held in the pool's block pos. A block the
        pool cannot supply leaves the page constructor a null block. */
    static method PageFromPool(sdbio: ObjectDBIO, pos: i64) returns (r: Result<BTreeKeyPage>)
      requires pos != NoPage
      ensures r.Ok? <==> pos in sdbio.blocks
      ensures r.Err? ==> r.fault == NullReference
      ensures r.Ok? ==> fresh(r.value) && fresh(r.value.Arrays()) && r.value.LoadedFrom(sdbio, pos)
      ensures r.Ok? && 0 <= r.value.numKeys <= MAXKEYS ==> r.value.TreeValid() && r.value.TreeSynced()
    {
      var blk := sdbio.FindBlock(pos);
      if blk.None? {
        return Err(NullReference);
      }
      var page := new BTreeKeyPage(sdbio, blk.value, pos, true);
      r := Ok(page);
    }

    /** getPageFromPool(sdbio): a new page on a block stolen from the pool, with every
        slot dirty. */
    static method NewPageFromPool(sdbio: ObjectDBIO) returns (r: Result<BTreeKeyPage>)
      requires sdbio.Valid()
      modifies sdbio
      ensures sdbio.Valid() && sdbio.objects == old(sdbio.objects)
      ensures r.Err? ==> r.fault == IoFault && sdbio.blocks == old(sdbio.blocks)
      ensures r.Ok? ==>
        && fresh(r.value) && fresh(r.value.Arrays()) && fresh(r.value.blk)
        && r.value.pageId !in old(sdbio.blocks) && r.value.pageId != NoPage
        && sdbio.blocks == old(sdbio.blocks)[r.value.pageId := r.value.blk]
        && r.value.Valid() && r.value.sdbio == sdbio && r.value.TreeValid() && r.value.TreeSynced()
        && r.value.Fields() == FreshFields() && r.value.Flags(true) && r.value.updated
        && r.value.Repr == {r.value, r.value.blk} + r.value.Arrays()
        && (forall i :: 0 <= i < MAXKEYS ==> r.value.keyArray[i].None? && r.value.dataArray[i].None?)
        && (forall j :: 0 <= j <= MAXKEYS ==> r.value.pageArray[j] == null)
    {
      var stolen := sdbio.StealBlock();
      if stolen.Err? {
        return Err(stolen.fault);
      }
      var page := new BTreeKeyPage(sdbio, stolen.value.1, stolen.value.0, false);
      r := Ok(page);
    }

    /** The constructor from a page id: the pool's block for it, then either a cleared
        page (every slot dirty) or the page read from the block. A block the pool cannot
        supply is an IOException. */
    static method OpenPage(sdbio: ObjectDBIO, ppos: i64, clear: bool) returns (r: Result<BTreeKeyPage>)
      ensures r.Ok? <==> ppos in sdbio.blocks
      ensures r.Err? ==> r.fault == IoFault
      ensures r.Ok? ==>
        && fresh(r.value) && fresh(r.value.Arrays())
        && r.value.Valid() && r.value.sdbio == sdbio && r.value.blk == sdbio.blocks[ppos] && r.value.pageId == ppos
        && r.value.updated && r.value.Repr == {r.value, r.value.blk} + r.value.Arrays()
        && (clear ==> r.value.Fields() == FreshFields() && r.value.Flags(true))
        && (!clear ==> r.value.Fields() == DecodePage(r.value.blk.data) && r.value.Flags(false))
    {
      var blk := sdbio.FindBlock(ppos);
      if blk.None? {
        return Err(IoFault);
      }
      var page := new BTreeKeyPage(sdbio, blk.value, ppos, !clear);
      r := Ok(page);
    }

    /** getPage: an empty child slot with a child id is filled with the page loaded from
        the pool; otherwise the slot is returned as it is. */
    method GetPage(index: int) returns (r: Result<BTreeKeyPage?>)
      requires Valid() && 0 <= index <= MAXKEYS
      modifies pageArray
      ensures old(pageArray[index]) != null || pageIdArray[index] == NoPage ==>
        r == Ok(old(pageArray[index])) && unchanged(pageArray)
      ensures old(pageArray[index]) == null && pageIdArray[index] != NoPage && pageIdArray[index] !in sdbio.blocks ==>
        r == Err(NullReference) && unchanged(pageArray)
      ensures old(pageArray[index]) == null && pageIdArray[index] != NoPage && pageIdArray[index] in sdbio.blocks ==>
        && r.Ok? && r.value != null && fresh(r.value) && fresh(r.value.Arrays())
        && pageArray[..] == old(pageArray[..])[index := r.value]
        && r.value.LoadedFrom(sdbio, pageIdArray[index])
    {
      if pageArray[index] == null && pageIdArray[index] != NoPage {
        var page := PageFromPool(sdbio, pageIdArray[index]);
        if page.Err? {
          return Err(page.fault);
        }
        pageArray[index] := page.value;
        page.value.pageId := pageIdArray[index];
      }
      r := Ok(pageArray[index]);
    }

    // -------------------------------------------------------------------------
    // Writing the page back

    /** putKey(index, false): a key with no location gets a new one, and the key is
        stored there; a null key, or one that already has a location, is left alone. */
    method PutKey(index: int) returns (r: Outcome)
      requires Valid() && sdbio.Valid() && 0 <= index < MAXKEYS
      modifies keyIdArray, sdbio
      ensures sdbio.Valid() && sdbio.blocks == old(sdbio.blocks) && ObjectsGrow(old(sdbio.objects), sdbio.objects)
      ensures r.Pass? ==> KeySlotStored(keyArray[index], old(keyIdArray[index]), keyIdArray[index], true, old(sdbio.objects), sdbio.objects)
      ensures r.Fail? ==> r.fault == IoFault && keyIdArray[index] == old(keyIdArray[index])
      ensures forall k :: 0 <= k < MAXKEYS && k != index ==> keyIdArray[k] == old(keyIdArray[k])
    {
      if keyArray[index].None? || keyIdArray[index] != EmptyPointer {
        return Pass;
      }
      var p := sdbio.NewInsertPosition();
      if p.Err? {
        return Fail(p.fault);
      }
      keyIdArray[index] := p.value;
      sdbio.AddObject(p.value, keyArray[index].value);
      r := Pass;
    }

    /** putData(index, false): a value gets a new location and is stored there; a null
        value gets the empty pointer. */
    method PutData(index: int) returns (r: Outcome)
      requires Valid() && sdbio.Valid() && 0 <= index < MAXKEYS
      modifies dataIdArray, sdbio
      ensures sdbio.Valid() && sdbio.blocks == old(sdbio.blocks) && ObjectsGrow(old(sdbio.objects), sdbio.objects)
      ensures r.Pass? ==> DataSlotStored(dataArray[index], old(dataIdArray[index]), dataIdArray[index], true, old(sdbio.objects), sdbio.objects)
      ensures r.Fail? ==> r.fault == IoFault && dataIdArray[index] == old(dataIdArray[index])
      ensures forall k :: 0 <= k < MAXKEYS && k != index ==> dataIdArray[k] == old(dataIdArray[k])
    {
      if dataArray[index].Some? {
        var p := sdbio.NewInsertPosition();
        if p.Err? {
          return Fail(p.fault);
        }
        dataIdArray[index] := p.value;
        sdbio.AddObject(p.value, dataArray[index].value);
      } else {
        dataIdArray[index] := EmptyPointer;
      }
      r := Pass;
    }

    /** The first loop of putPage: putKey for every dirty key and putData for every
        dirty value, in slot order, keeping the dirty flags. */
    method StoreDirtySlots() returns (r: Outcome)
      requires Valid() && sdbio.Valid()
      modifies keyIdArray, dataIdArray, sdbio
      ensures sdbio.Valid() && sdbio.blocks == old(sdbio.blocks) && ObjectsGrow(old(sdbio.objects), sdbio.objects)
      ensures r.Pass? ==> forall i :: 0 <= i < MAXKEYS ==>
        && KeySlotStored(keyArray[i], old(keyIdArray[i]), keyIdArray[i], old(keyUpdatedArray[i]), old(sdbio.objects), sdbio.objects)
        && DataSlotStored(dataArray[i], old(dataIdArray[i]), dataIdArray[i], old(dataUpdatedArray[i]), old(sdbio.objects), sdbio.objects)
      ensures r.Fail? ==> r.fault == IoFault
    {
      for i := 0 to MAXKEYS
        invariant sdbio.Valid() && sdbio.blocks == old(sdbio.blocks) && ObjectsGrow(old(sdbio.objects), sdbio.objects)
        invariant forall k :: 0 <= k < i ==>
          && KeySlotStored(keyArray[k], old(keyIdArray[k]), keyIdArray[k], keyUpdatedArray[k], old(sdbio.objects), sdbio.objects)
          && DataSlotStored(dataArray[k], old(dataIdArray[k]), dataIdArray[k], dataUpdatedArray[k], old(sdbio.objects), sdbio.objects)
        invariant forall k :: i <= k < MAXKEYS ==> keyIdArray[k] == old(keyIdArray[k]) && dataIdArray[k] == old(dataIdArray[k])
      {
        ghost var before := sdbio.objects;
        if keyUpdatedArray[i] {
          r := PutKey(i);
          if r.Fail? {
            return;
          }
        }
        ghost var middle := sdbio.objects;
        if dataUpdatedArray[i] {
          r := PutData(i);
          if r.Fail? {
            return;
          }
        }
        forall k | 0 <= k <= i
          ensures KeySlotStored(keyArray[k], old(keyIdArray[k]), keyIdArray[k], keyUpdatedArray[k], old(sdbio.objects), sdbio.objects)
          ensures DataSlotStored(dataArray[k], old(dataIdArray[k]), dataIdArray[k], dataUpdatedArray[k], old(sdbio.objects), sdbio.objects)
        {
          if k < i {
            StoredLater(old(sdbio.objects), before, sdbio.objects, keyIdArray[k]);
            StoredLater(old(sdbio.objects), before, sdbio.objects, dataIdArray[k]);
          } else {
            StoredLater(old(sdbio.objects), before, sdbio.objects, keyIdArray[k]);
            StoredLater(old(sdbio.objects), middle, sdbio.objects, dataIdArray[k]);
          }
        }
      }
      r := Pass;
    }

    /** One slot of putPage's slot loop, at the stream position of slot i: the key
        pointer, then the value pointer. The image then holds slots 0 .. i. */
    static method SlotBytes(ghost header: seq<byte>, keyIds: seq<Optr>, dataIds: seq<Optr>, img: seq<byte>, i: int)
        returns (r: seq<byte>)
      requires Fits(header) && SlotShaped(keyIds, dataIds, AllSlots(), AllSlots()) && 0 <= i < MAXKEYS
      requires img == WriteSlots(header, keyIds, dataIds, AllSlots(), AllSlots(), i)
      ensures r == WriteSlots(header, keyIds, dataIds, AllSlots(), AllSlots(), i + 1)
    {
      var pos := KeyPos(i);
      r := Overwrite(img, pos, EncodeOptr(keyIds[i]));
      pos := pos + 10;
      r := Overwrite(r, pos, EncodeOptr(dataIds[i]));
    }

    /** The slot loop of putPage as corrected, over the page's pointer arrays: every
        slot's key pointer and value pointer are written, in slot order. */
    static method SlotImage(header: seq<byte>, keyIds: seq<Optr>, dataIds: seq<Optr>) returns (img: seq<byte>)
      requires Fits(header) && SlotShaped(keyIds, dataIds, AllSlots(), AllSlots())
      ensures img == WriteSlots(header, keyIds, dataIds, AllSlots(), AllSlots(), MAXKEYS)
    {
      img := header;
      for i := 0 to MAXKEYS
        invariant img == WriteSlots(header, keyIds, dataIds, AllSlots(), AllSlots(), i)
      {
        img := SlotBytes(header, keyIds, dataIds, img, i);
      }
    }

    /** The flag half of putPage's slot loop: every key and value dirty flag is
        cleared, and nothing else changes. */
    method ClearSlotFlags()
      requires Valid()
      modifies keyUpdatedArray, dataUpdatedArray
      ensures Flags(false)
    {
      for i := 0 to MAXKEYS
        invariant forall k :: 0 <= k < i ==> !keyUpdatedArray[k]
        invariant forall k :: 0 <= k < i ==> !dataUpdatedArray[k]
      {
        keyUpdatedArray[i] := false;
        dataUpdatedArray[i] := false;
      }
    }

    /** One child id of putPage's child loop, at the stream position of child j. The
        image then holds child ids 0 .. j. */
    static method ChildBytes(ghost slots: seq<byte>, ids: seq<i64>, img: seq<byte>, j: int) returns (r: seq<byte>)
      requires Fits(slots) && |ids| == MAXKEYS + 1 && 0 <= j <= MAXKEYS
      requires img == WriteChildren(slots, ids, j)
      ensures r == WriteChildren(slots, ids, j + 1)
    {
      r := Overwrite(img, ChildPos(j), EncodeLong(ids[j]));
    }

    /** The child loop of putPage: every child id, after the slots. */
    static method ChildImage(slots: seq<byte>, ids: seq<i64>) returns (img: seq<byte>)
      requires Fits(slots) && |ids| == MAXKEYS + 1
      ensures img == WriteChildren(slots, ids, MAXKEYS + 1)
    {
      img := slots;
      for j := 0 to MAXKEYS + 1
        invariant img == WriteChildren(slots, ids, j)
      {
        img := ChildBytes(slots, ids, img, j);
      }
    }

    /** The bytes putPage writes over prior, from its start: the leaf byte, the key
        count, each slot's key and value pointers and every child id. */
    static method PageBytes(prior: seq<byte>, f: PageFields) returns (img: seq<byte>)
      requires Fits(prior) && WellSized(f)
      ensures img == PageImage(prior, f, AllSlots(), AllSlots())
    {
      img := Overwrite(prior, 0, [if f.leaf then 1 else 0]);
      img := Overwrite(img, 1, EncodeInt(f.numKeys));
      assert img == WriteHeader(prior, f.leaf, f.numKeys);
      img := SlotImage(img, f.keyIds, f.dataIds);
      img := ChildImage(img, f.pageIds);
    }

    /** The image half of putPage, with every slot's pointers written: the block is
        marked in-core, the page's bytes are written from its start, and the dirty
        flags are cleared. The block then loads back as exactly this page. */
    method WriteImage()
      requires Valid()
      modifies blk, keyUpdatedArray, dataUpdatedArray
      ensures blk.data == PageImage(old(blk.data), Fields(), AllSlots(), AllSlots())
      ensures DecodePage(blk.data) == Fields()
      ensures Flags(false) && blk.incore && blk.bytesused == old(blk.bytesused)
    {
      blk.incore := true;
      PayloadFits(blk.data);
      var img := PageBytes(blk.data, Fields());
      ClearSlotFlags();
      blk.data := img;
      FullWriteRoundTrip(old(blk.data), Fields());
    }

    /** putPage: nothing when the page is not updated; otherwise the dirty keys and
        values are stored, the page image is written into the block, and the page is no
        longer updated. The block then loads back as the page. */
    method PutPage() returns (r: Outcome)
      requires Valid() && sdbio.Valid()
      modifies this, blk, keyIdArray, dataIdArray, keyUpdatedArray, dataUpdatedArray, sdbio
      ensures sdbio.Valid() && sdbio.blocks == old(sdbio.blocks) && ObjectsGrow(old(sdbio.objects), sdbio.objects)
      ensures !old(updated) ==> r.Pass? && unchanged(this, blk, keyIdArray, dataIdArray, keyUpdatedArray, dataUpdatedArray, sdbio)
      ensures old(updated) && r.Pass? ==>
        && !updated && Flags(false) && blk.incore
        && DecodePage(blk.data) == Fields()
        && forall i :: 0 <= i < MAXKEYS ==>
             && KeySlotStored(keyArray[i], old(keyIdArray[i]), keyIdArray[i], old(keyUpdatedArray[i]), old(sdbio.objects), sdbio.objects)
             && DataSlotStored(dataArray[i], old(dataIdArray[i]), dataIdArray[i], old(dataUpdatedArray[i]), old(sdbio.objects), sdbio.objects)
      ensures r.Fail? ==> r.fault == IoFault
      ensures numKeys == old(numKeys) && mIsLeafNode == old(mIsLeafNode) && pageId == old(pageId) && Repr == old(Repr)
    {
      if !updated {
        return Pass;
      }
      r := StoreAndWrite();
    }

    /** The updated case of putPage: the dirty keys and values are stored, then the
        page image is written and the page is no longer updated. */
    method StoreAndWrite() returns (r: Outcome)
      requires Valid() && sdbio.Valid() && updated
      modifies this, blk, keyIdArray, dataIdArray, keyUpdatedArray, dataUpdatedArray, sdbio
      ensures sdbio.Valid() && sdbio.blocks == old(sdbio.blocks) && ObjectsGrow(old(sdbio.objects), sdbio.objects)
      ensures r.Pass? ==>
        && !updated && Flags(false) && blk.incore
        && DecodePage(blk.data) == Fields()
        && forall i :: 0 <= i < MAXKEYS ==>
             && KeySlotStored(keyArray[i], old(keyIdArray[i]), keyIdArray[i], old(keyUpdatedArray[i]), old(sdbio.objects), sdbio.objects)
             && DataSlotStored(dataArray[i], old(dataIdArray[i]), dataIdArray[i], old(dataUpdatedArray[i]), old(sdbio.objects), sdbio.objects)
      ensures r.Fail? ==> r.fault == IoFault
      ensures numKeys == old(numKeys) && mIsLeafNode == old(mIsLeafNode) && pageId == old(pageId) && Repr == old(Repr)
    {
      r := StoreDirtySlots();
      if r.Fail? {
        return;
      }
      WriteAndSettle();
    }

    /** The end of putPage: the image is written and the page is no longer updated. */
    method WriteAndSettle()
      requires Valid()
      modifies this, blk, keyUpdatedArray, dataUpdatedArray
      ensures !updated && Flags(false) && blk.incore && DecodePage(blk.data) == Fields()
      ensures numKeys == old(numKeys) && mIsLeafNode == old(mIsLeafNode) && pageId == old(pageId) && Repr == old(Repr)
    {
      WriteImage();
      SetUpdated(false);
    }

    /** Writing child i (within its own footprint, plus the object store) keeps the
        tree valid and keeps every other child as flushed as it was. */
    twostate lemma ChildWritten(i: int)
      requires old(TreeValid()) && 0 <= i <= MAXKEYS && old(pageArray[i]) != null
      requires unchanged(this) && unchanged(Arrays())
      requires pageArray[i].Repr == old(pageArray[i].Repr) && pageArray[i].TreeValid()
      requires forall o :: o in old(Repr) && o !in old(pageArray[i].Repr) ==> unchanged(o)
      ensures TreeValid()
      ensures forall k :: 0 <= k <= MAXKEYS && k != i && pageArray[k] != null && old(pageArray[k].Flushed()) ==> pageArray[k].Flushed()
      ensures forall k :: 0 <= k <= MAXKEYS && k != i && pageArray[k] != null && old(pageArray[k].TreeSynced()) ==> pageArray[k].TreeSynced()
      ensures forall k :: 0 <= k <= MAXKEYS && k != i && pageArray[k] != null ==> pageArray[k].pageId == old(pageArray[k].pageId)
    {
      forall k | 0 <= k <= MAXKEYS && k != i && pageArray[k] != null
        ensures pageArray[k].pageId == old(pageArray[k].pageId)
        ensures pageArray[k].Repr == old(pageArray[k].Repr) && pageArray[k].TreeValid()
        ensures old(pageArray[k].Flushed()) ==> pageArray[k].Flushed()
        ensures old(pageArray[k].TreeSynced()) ==> pageArray[k].TreeSynced()
      {
        var c := pageArray[k];
        assert old(c.Repr) !! old(pageArray[i].Repr);
        assert c in old(c.Repr);
        assert unchanged(c);
        ChildUnchanged(c);
      }
    }

    /** A subtree none of whose footprint changed is as valid, as synced and as flushed
        as it was. */
    static twostate lemma ChildUnchanged(c: BTreeKeyPage)
      requires old(c.TreeValid())
      requires forall o :: o in old(c.Repr) ==> unchanged(o)
      ensures c.Repr == old(c.Repr) && c.TreeValid()
      ensures old(c.Flushed()) ==> c.Flushed()
      ensures old(c.TreeSynced()) ==> c.TreeSynced()
    {
    }

    /** Writing this page's own fields, block and arrays (but not its children, its
        footprint or its key count) keeps the tree valid and the children as flushed as
        they were. */
    twostate lemma OwnStateWritten()
      requires old(TreeValid())
      requires Repr == old(Repr) && numKeys == old(numKeys) && unchanged(pageArray)
      requires forall o :: o in old(Repr) && o != this && o != blk && o !in Arrays() ==> unchanged(o)
      ensures TreeValid()
      ensures forall k :: 0 <= k <= MAXKEYS && pageArray[k] != null && old(pageArray[k].Flushed()) ==> pageArray[k].Flushed()
      ensures forall k :: 0 <= k <= MAXKEYS && pageArray[k] != null && old(pageArray[k].TreeSynced()) ==> pageArray[k].TreeSynced()
    {
      forall k | 0 <= k <= MAXKEYS && pageArray[k] != null
        ensures pageArray[k].Repr == old(pageArray[k].Repr) && pageArray[k].TreeValid()
        ensures old(pageArray[k].Flushed()) ==> pageArray[k].Flushed()
        ensures old(pageArray[k].TreeSynced()) ==> pageArray[k].TreeSynced()
      {
        var c := pageArray[k];
        ChildUnchanged(c);
      }
    }

    /** The recursive call of putPages for child i: the child's subtree is put, and
        nothing outside that subtree and the object store changes. */
    method PutChild(i: int) returns (r: Outcome)
      requires TreeValid() && sdbio.Valid() && 0 <= i <= numKeys && pageArray[i] != null && ChildrenPut(i)
      modifies pageArray[i].Repr, sdbio
      ensures TreeValid() && sdbio.Valid() && unchanged(this) && unchanged(blk) && unchanged(Arrays())
      ensures sdbio.blocks == old(sdbio.blocks) && ObjectsGrow(old(sdbio.objects), sdbio.objects)
      ensures r.Pass? ==> ChildrenPut(i) && pageArray[i].Flushed()
      ensures r.Fail? ==> r.fault == IoFault
      decreases Repr, 0
    {
      var child := pageArray[i];
      label before:
      r := child.PutPages();
      ChildWritten@before(i);
      if r.Pass? {
        child.FlushedSynced();
      }
    }

    /** A flushed subtree is synced. */
    lemma {:induction false} FlushedSynced()
      requires TreeValid() && Flushed()
      ensures TreeSynced()
      decreases Repr
    {
      forall k | 0 <= k <= numKeys && pageArray[k] != null
        ensures pageArray[k].TreeSynced()
      {
        pageArray[k].FlushedSynced();
      }
    }

    /** Recording child i's page id after the child is flushed moves the child loop on
        by one slot: the id is the one already recorded when the page is not updated,
        so the page's image stays its own. */
    twostate lemma ChildRecorded(i: int)
      requires old(TreeValid()) && 0 <= i <= old(numKeys) && old(pageArray[i]) != null
      requires unchanged(this) && unchanged(pageArray)
      requires pageIdArray[..] == old(pageIdArray[..])[i := pageArray[i].pageId]
      requires forall o :: o in old(Repr) && o != pageIdArray ==> unchanged(o)
      ensures TreeValid()
      ensures forall k :: 0 <= k <= MAXKEYS && pageArray[k] != null ==> pageArray[k].pageId == old(pageArray[k].pageId)
      ensures forall k :: 0 <= k <= MAXKEYS && pageArray[k] != null && old(pageArray[k].Flushed()) ==> pageArray[k].Flushed()
      ensures forall k :: 0 <= k <= MAXKEYS && pageArray[k] != null && old(pageArray[k].TreeSynced()) ==> pageArray[k].TreeSynced()
    {
      OwnStateWritten();
    }

    /** Recording child i's page id after the child is flushed moves the child loop on
        by one slot: when the page is not updated the id is the one already recorded,
        so the page's image stays its own. */
    twostate lemma ChildLoopAdvances(i: int)
      requires old(TreeValid()) && 0 <= i <= old(numKeys) && old(pageArray[i]) != null
      requires old(ChildrenPut(i)) && old(pageArray[i].Flushed())
      requires unchanged(this) && unchanged(blk) && unchanged(pageArray) && unchanged(keyIdArray) && unchanged(dataIdArray)
      requires pageIdArray[..] == old(pageIdArray[..])[i := pageArray[i].pageId]
      requires TreeValid()
      requires forall k :: 0 <= k <= MAXKEYS && pageArray[k] != null ==> pageArray[k].pageId == old(pageArray[k].pageId)
      requires forall k :: 0 <= k <= MAXKEYS && pageArray[k] != null && old(pageArray[k].Flushed()) ==> pageArray[k].Flushed()
      requires forall k :: 0 <= k <= MAXKEYS && pageArray[k] != null && old(pageArray[k].TreeSynced()) ==> pageArray[k].TreeSynced()
      ensures ChildrenPut(i + 1)
    {
      if !updated {
        assert pageIdArray[..] == old(pageIdArray[..]);
      }
    }

    /** putPages: each loaded child among the live child slots is put (recursively)
        and its page id recorded, then this page is put. Every page of the subtree then
        loads back from its block as it stands. */
    method PutPages() returns (r: Outcome)
      requires TreeValid() && TreeSynced() && sdbio.Valid()
      modifies Repr, sdbio
      ensures TreeValid() && sdbio.Valid() && Repr == old(Repr) && pageId == old(pageId)
      ensures sdbio.blocks == old(sdbio.blocks) && ObjectsGrow(old(sdbio.objects), sdbio.objects)
      ensures r.Pass? ==> Flushed()
      ensures r.Fail? ==> r.fault == IoFault
      decreases Repr, 3
    {
      r := PutChildren();
      if r.Fail? {
        return;
      }
      label children:
      r := PutPage();
      OwnStateWritten@children();
    }

    /** Part way through putPages' child loop, before slot i: the children before i
        are flushed and recorded, those from i on are still synced, and a page that is
        not updated still holds its own image and its children's ids. */
    ghost predicate ChildrenPut(i: int)
      requires TreeValid()
      reads this, Repr
    {
      && 0 <= i <= numKeys + 1
      && (forall k :: 0 <= k < i && pageArray[k] != null ==> pageIdArray[k] == pageArray[k].pageId && pageArray[k].Flushed())
      && (forall k :: i <= k <= numKeys && pageArray[k] != null ==> pageArray[k].TreeSynced())
      && (!updated ==> DecodePage(blk.data) == Fields())
      && (!updated ==> forall k :: 0 <= k <= numKeys && pageArray[k] != null ==> pageIdArray[k] == pageArray[k].pageId)
    }

    /** One iteration of putPages' child loop: a loaded child in slot i is put and its
        page id recorded in slot i; an empty slot is passed over. */
    method PutChildSlot(i: int) returns (r: Outcome)
      requires TreeValid() && sdbio.Valid() && i <= numKeys && ChildrenPut(i)
      modifies Repr, sdbio
      ensures TreeValid() && sdbio.Valid() && Repr == old(Repr) && unchanged(this)
      ensures sdbio.blocks == old(sdbio.blocks) && ObjectsGrow(old(sdbio.objects), sdbio.objects)
      ensures r.Pass? ==> ChildrenPut(i + 1)
      ensures r.Fail? ==> r.fault == IoFault
      decreases Repr, 1
    {
      r := Pass;
      if pageArray[i] != null {
        r := PutChild(i);
        if r.Fail? {
          return;
        }
        RecordChild(i);
      }
    }

    /** The second half of the iteration: child i, now flushed, has its page id
        recorded in slot i. */
    method RecordChild(i: int)
      requires TreeValid() && 0 <= i <= numKeys && pageArray[i] != null && ChildrenPut(i) && pageArray[i].Flushed()
      modifies pageIdArray
      ensures TreeValid() && ChildrenPut(i + 1)
      ensures pageIdArray[..] == old(pageIdArray[..])[i := pageArray[i].pageId]
    {
      pageIdArray[i] := pageArray[i].pageId;
      ChildRecorded(i);
      ChildLoopAdvances(i);
    }

    /** The child loop of putPages: slots 0 .. numKeys, stopping at the first child
        that fails. */
    method PutChildren() returns (r: Outcome)
      requires TreeValid() && TreeSynced() && sdbio.Valid()
      modifies Repr, sdbio
      ensures TreeValid() && sdbio.Valid() && Repr == old(Repr) && unchanged(this)
      ensures sdbio.blocks == old(sdbio.blocks) && ObjectsGrow(old(sdbio.objects), sdbio.objects)
      ensures r.Pass? ==> forall k :: 0 <= k <= numKeys && pageArray[k] != null ==>
        pageIdArray[k] == pageArray[k].pageId && pageArray[k].Flushed()
      ensures r.Pass? && !updated ==> DecodePage(blk.data) == Fields()
      ensures r.Fail? ==> r.fault == IoFault
      decreases Repr, 2
    {
      r := Pass;
      var i := 0;
      while i <= numKeys
        invariant 0 <= i <= numKeys + 1
        invariant TreeValid() && sdbio.Valid() && Repr == old(Repr) && unchanged(this) && r.Pass?
        invariant ChildrenPut(i)
        invariant sdbio.blocks == old(sdbio.blocks) && ObjectsGrow(old(sdbio.objects), sdbio.objects)
      {
        r := PutChildSlot(i);
        if r.Fail? {
          return;
        }
        i := i + 1;
      }
    }
  }
}
