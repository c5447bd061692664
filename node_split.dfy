/**
 * The node split step: the upper or lower run of an overflowing page's slots is moved
 * into a page taken from the pool, the new page's leaf flag is recomputed, and the new
 * page is linked as a child of the page it came from.
 */
module NodeSplit {
  import opened Common
  import opened PageLayout
  import opened Storage
  import opened KeyPage

  /** Which half of the overflowing page a request extracts. */
  datatype NodeType = NodeLeft | NodeRight

  /** The first source slot a request moves: 0 for the left half, MAXKEYS - keysToMove
      for the right half. Every slot the move reads lies inside the page. */
  function SplitOffset(ntype: NodeType, keysToMove: int): (offs: int)
    requires 0 <= keysToMove <= MAXKEYS
    ensures 0 <= offs && offs + keysToMove <= MAXKEYS
    ensures ntype == NodeLeft ==> offs == 0
    ensures ntype == NodeRight ==> offs + keysToMove == MAXKEYS
  {
    match ntype
    case NodeLeft => 0
    case NodeRight => MAXKEYS - keysToMove
  }

  /** What a page holds for one key slot: the cached key and value, their pointers and
      their dirty flags. */
  datatype KeySlot = KeySlot(key: Option<int>, keyId: Optr, keyDirty: bool, data: Option<int>, dataId: Optr, dataDirty: bool)

  /** A slot after nullKeyAndData, and every slot of a page fresh from the pool. */
  const ClearedSlot: KeySlot := KeySlot(None, EmptyPointer, true, None, EmptyPointer, true)

  function SlotOf(p: BTreeKeyPage, i: int): KeySlot
    requires p.Valid() && 0 <= i < MAXKEYS
    reads p.keyArray, p.keyIdArray, p.keyUpdatedArray, p.dataArray, p.dataIdArray, p.dataUpdatedArray
  {
    KeySlot(p.keyArray[i], p.keyIdArray[i], p.keyUpdatedArray[i], p.dataArray[i], p.dataIdArray[i], p.dataUpdatedArray[i])
  }

  /** All key slots of a page, in order. */
  function Slots(p: BTreeKeyPage): (s: seq<KeySlot>)
    requires p.Valid()
    reads p.keyArray, p.keyIdArray, p.keyUpdatedArray, p.dataArray, p.dataIdArray, p.dataUpdatedArray
    ensures |s| == MAXKEYS && forall k :: 0 <= k < MAXKEYS ==> s[k] == SlotOf(p, k)
  {
    seq(MAXKEYS, k requires 0 <= k < MAXKEYS
                   reads p.keyArray, p.keyIdArray, p.keyUpdatedArray, p.dataArray, p.dataIdArray, p.dataUpdatedArray
                   => SlotOf(p, k))
  }

  /** A slot as a move leaves it in its target: the same key and value, both dirty. */
  function Dirty(slot: KeySlot): (d: KeySlot)
    ensures d.key == slot.key && d.keyId == slot.keyId && d.data == slot.data && d.dataId == slot.dataId
    ensures d.keyDirty && d.dataDirty
  {
    slot.(keyDirty := true, dataDirty := true)
  }

  function DirtyAll(s: seq<KeySlot>): (r: seq<KeySlot>)
    ensures |r| == |s| && forall k :: 0 <= k < |s| ==> r[k] == Dirty(s[k])
  {
    seq(|s|, k requires 0 <= k < |s| => Dirty(s[k]))
  }

  /** s with entries offs .. offs+n-1 replaced by fill: what a move leaves behind. */
  function ClearRun<T>(s: seq<T>, offs: int, n: int, fill: T): (r: seq<T>)
    requires 0 <= offs && 0 <= n && offs + n <= |s|
    ensures |r| == |s|
    ensures forall k :: 0 <= k < |s| ==> r[k] == if offs <= k < offs + n then fill else s[k]
  {
    seq(|s|, k requires 0 <= k < |s| => if offs <= k < offs + n then fill else s[k])
  }

  /** Entries offs .. offs+n-1 of s at the front, then fill up to length len: what a
      move puts into a fresh page. */
  function TakeRun<T>(s: seq<T>, offs: int, n: int, fill: T, len: int): (r: seq<T>)
    requires 0 <= offs && 0 <= n && offs + n <= |s| && n <= len
    ensures |r| == len
    ensures forall k :: 0 <= k < len ==> r[k] == if k < n then s[offs + k] else fill
  {
    seq(len, k requires 0 <= k < len => if k < n then s[offs + k] else fill)
  }

  /** One more step of a move: the next entry is taken. */
  lemma TakeRunStep<T>(s: seq<T>, offs: int, n: int, fill: T, len: int)
    requires 0 <= offs && 0 <= n && offs + n < |s| && n < len
    ensures TakeRun(s, offs, n + 1, fill, len) == TakeRun(s, offs, n, fill, len)[n := s[offs + n]]
  { }

  /** One more step of a move: the next entry is cleared. */
  lemma ClearRunStep<T>(s: seq<T>, offs: int, n: int, fill: T)
    requires 0 <= offs && 0 <= n && offs + n < |s|
    ensures ClearRun(s, offs, n + 1, fill) == ClearRun(s, offs, n, fill)[offs + n := fill]
  { }

  /** The keys held in a run of slots, with multiplicity. */
  function KeysOf(s: seq<KeySlot>): multiset<int>
  {
    if |s| == 0 then multiset{}
    else KeysOf(s[..|s| - 1]) + (if s[|s| - 1].key.Some? then multiset{s[|s| - 1].key.value} else multiset{})
  }

  lemma {:induction false} KeysOfAppend(a: seq<KeySlot>, b: seq<KeySlot>)
    ensures KeysOf(a + b) == KeysOf(a) + KeysOf(b)
    decreases |b|
  {
    if |b| == 0 {
      assert a + b == a;
    } else {
      assert (a + b)[..|a + b| - 1] == a + b[..|b| - 1];
      KeysOfAppend(a, b[..|b| - 1]);
    }
  }

  lemma {:induction false} KeysOfCleared(n: nat)
    ensures KeysOf(seq(n, _ => ClearedSlot)) == multiset{}
  {
    if n > 0 {
      assert seq(n, _ => ClearedSlot)[..n - 1] == seq(n - 1, _ => ClearedSlot);
      KeysOfCleared(n - 1);
    }
  }

  lemma {:induction false} KeysOfDirty(s: seq<KeySlot>)
    ensures KeysOf(DirtyAll(s)) == KeysOf(s)
    decreases |s|
  {
    if |s| > 0 {
      assert DirtyAll(s)[..|s| - 1] == DirtyAll(s[..|s| - 1]);
      KeysOfDirty(s[..|s| - 1]);
    }
  }

  /** A split loses and duplicates no key: the keys of the page before the move are
      exactly the keys left in it plus the keys moved into the new page. */
  lemma SplitConservesKeys(s: seq<KeySlot>, offs: int, n: int)
    requires 0 <= offs && 0 <= n && offs + n <= |s|
    ensures KeysOf(s) == KeysOf(ClearRun(s, offs, n, ClearedSlot)) + KeysOf(TakeRun(DirtyAll(s), offs, n, ClearedSlot, |s|))
  {
    KeysOfThreeRuns(s, offs, offs + n);
    KeysOfClearRun(s, offs, n);
    KeysOfTakeRun(s, offs, n);
    var a, m, p := KeysOf(s[..offs]), KeysOf(s[offs..offs + n]), KeysOf(s[offs + n..]);
    Regroup(a, m, p);
  }

  lemma Regroup(a: multiset<int>, m: multiset<int>, p: multiset<int>)
    ensures a + m + p == (a + p) + m
  {
  }

  lemma KeysOfThree(a: seq<KeySlot>, b: seq<KeySlot>, c: seq<KeySlot>)
    ensures KeysOf(a + b + c) == KeysOf(a) + KeysOf(b) + KeysOf(c)
  {
    KeysOfAppend(a + b, c);
    KeysOfAppend(a, b);
  }

  lemma KeysOfThreeRuns(s: seq<KeySlot>, a: int, b: int)
    requires 0 <= a <= b <= |s|
    ensures KeysOf(s) == KeysOf(s[..a]) + KeysOf(s[a..b]) + KeysOf(s[b..])
  {
    ThreeParts(s, a, b);
    KeysOfThree(s[..a], s[a..b], s[b..]);
  }

  lemma KeysOfClearRun(s: seq<KeySlot>, offs: int, n: int)
    requires 0 <= offs && 0 <= n && offs + n <= |s|
    ensures KeysOf(ClearRun(s, offs, n, ClearedSlot)) == KeysOf(s[..offs]) + KeysOf(s[offs + n..])
  {
    var gap := seq(n, _ => ClearedSlot);
    assert ClearRun(s, offs, n, ClearedSlot) == s[..offs] + gap + s[offs + n..];
    KeysOfThree(s[..offs], gap, s[offs + n..]);
    KeysOfCleared(n);
  }

  lemma KeysOfTakeRun(s: seq<KeySlot>, offs: int, n: int)
    requires 0 <= offs && 0 <= n && offs + n <= |s|
    ensures KeysOf(TakeRun(DirtyAll(s), offs, n, ClearedSlot, |s|)) == KeysOf(s[offs..offs + n])
  {
    var rest := seq(|s| - n, _ => ClearedSlot);
    DirtySlice(s, offs, offs + n);
    assert TakeRun(DirtyAll(s), offs, n, ClearedSlot, |s|) == DirtyAll(s[offs..offs + n]) + rest;
    KeysOfAppend(DirtyAll(s[offs..offs + n]), rest);
    KeysOfCleared(|s| - n);
    KeysOfDirty(s[offs..offs + n]);
  }

  lemma ThreeParts<T>(s: seq<T>, a: int, b: int)
    requires 0 <= a <= b <= |s|
    ensures s == s[..a] + s[a..b] + s[b..]
  {
  }

  lemma DirtySlice(s: seq<KeySlot>, a: int, b: int)
    requires 0 <= a <= b <= |s|
    ensures DirtyAll(s)[a..b] == DirtyAll(s[a..b])
  {
  }

  /** Slot di of the page takes the key and value of s, both marked dirty. */
  method PutSlot(dst: BTreeKeyPage, di: int, s: KeySlot)
    requires dst.Valid() && 0 <= di < MAXKEYS
    modifies dst.keyArray, dst.keyIdArray, dst.keyUpdatedArray, dst.dataArray, dst.dataIdArray, dst.dataUpdatedArray
    ensures Slots(dst) == old(Slots(dst))[di := Dirty(s)]
  {
    dst.keyArray[di] := s.key;
    dst.keyIdArray[di] := s.keyId;
    dst.keyUpdatedArray[di] := true;
    dst.dataArray[di] := s.data;
    dst.dataIdArray[di] := s.dataId;
    dst.dataUpdatedArray[di] := true;
  }

  /** nullKeyAndData, seen through the slots: slot i is cleared and the page becomes
      updated. */
  method ClearSlot(p: BTreeKeyPage, i: int)
    requires p.Valid() && 0 <= i < MAXKEYS
    modifies p, p.keyArray, p.keyIdArray, p.keyUpdatedArray, p.dataArray, p.dataIdArray, p.dataUpdatedArray
    ensures Slots(p) == old(Slots(p))[i := ClearedSlot]
    ensures p.updated
    ensures p.numKeys == old(p.numKeys) && p.mIsLeafNode == old(p.mIsLeafNode) && p.pageId == old(p.pageId)
  {
    p.NullKeyAndData(i);
  }

  /** The key and value of source slot si are moved to target slot di, which becomes
      dirty, and the source slot is emptied as nullKeyAndData does. Both pages become
      updated. (moveKeyData with removal; BTreeMain is not part of this model.) */
  method MoveKeyData(src: BTreeKeyPage, si: int, dst: BTreeKeyPage, di: int)
    requires src.Valid() && dst.Valid() && src != dst && src.Arrays() !! dst.Arrays()
    requires 0 <= si < MAXKEYS && 0 <= di < MAXKEYS
    modifies src, src.keyArray, src.keyIdArray, src.keyUpdatedArray, src.dataArray, src.dataIdArray, src.dataUpdatedArray
    modifies dst, dst.keyArray, dst.keyIdArray, dst.keyUpdatedArray, dst.dataArray, dst.dataIdArray, dst.dataUpdatedArray
    ensures Slots(dst) == old(Slots(dst))[di := Dirty(old(SlotOf(src, si)))]
    ensures Slots(src) == old(Slots(src))[si := ClearedSlot]
    ensures src.updated && dst.updated
    ensures src.numKeys == old(src.numKeys) && src.mIsLeafNode == old(src.mIsLeafNode) && src.pageId == old(src.pageId)
    ensures dst.numKeys == old(dst.numKeys) && dst.mIsLeafNode == old(dst.mIsLeafNode) && dst.pageId == old(dst.pageId)
  {
    PutSlot(dst, di, SlotOf(src, si));
    dst.SetUpdated(true);
    ClearSlot(src, si);
  }

  /** Child si of the source (page and id) becomes child di of the target, and the
      source child is emptied as nullPageArray does. (moveChildData with removal;
      BTreeMain is not part of this model.) */
  method MoveChildData(src: BTreeKeyPage, si: int, dst: BTreeKeyPage, di: int)
    requires src.Valid() && dst.Valid() && src != dst && src.Arrays() !! dst.Arrays()
    requires 0 <= si <= MAXKEYS && 0 <= di <= MAXKEYS
    modifies src, src.pageArray, src.pageIdArray, dst, dst.pageArray, dst.pageIdArray
    ensures dst.pageArray[..] == old(dst.pageArray[..])[di := old(src.pageArray[si])]
    ensures dst.pageIdArray[..] == old(dst.pageIdArray[..])[di := old(src.pageIdArray[si])]
    ensures src.pageArray[..] == old(src.pageArray[..])[si := null]
    ensures src.pageIdArray[..] == old(src.pageIdArray[..])[si := NoPage]
    ensures src.updated && dst.updated
    ensures src.numKeys == old(src.numKeys) && src.mIsLeafNode == old(src.mIsLeafNode) && src.pageId == old(src.pageId)
    ensures dst.numKeys == old(dst.numKeys) && dst.mIsLeafNode == old(dst.mIsLeafNode) && dst.pageId == old(dst.pageId)
  {
    dst.pageArray[di] := src.pageArray[si];
    dst.pageIdArray[di] := src.pageIdArray[si];
    dst.SetUpdated(true);
    src.NullPageArray(si);
  }

  class NodeSplitRequest {
    const globalIO: ObjectDBIO
    const oldRoot: BTreeKeyPage
    /** How many slots a split moves, and the tree's minimum degree; both belong to
        the tree and are fixed for the request. */
    const keysToMove: int
    const t: int
    const nodeOffs: int
    var newNode: BTreeKeyPage?

    /** The request remembers the page to split and where its half starts. */
    constructor (globalIO: ObjectDBIO, targetPage: BTreeKeyPage, ntype: NodeType, keysToMove: int, t: int)
      requires 0 <= keysToMove <= MAXKEYS && 1 <= t <= MAXKEYS
      ensures this.globalIO == globalIO && oldRoot == targetPage && this.keysToMove == keysToMove && this.t == t
      ensures nodeOffs == SplitOffset(ntype, keysToMove) && newNode == null
    {
      this.globalIO := globalIO;
      oldRoot := targetPage;
      this.keysToMove := keysToMove;
      this.t := t;
      nodeOffs := SplitOffset(ntype, keysToMove);
      newNode := null;
    }

    /** The child slot of the old page that receives the new page: T-1 for a split
        starting at slot 0, T otherwise. */
    function LinkSlot(): (j: int)
      ensures nodeOffs == 0 ==> j == t - 1
      ensures nodeOffs != 0 ==> j == t
    {
      if nodeOffs == 0 then t - 1 else t
    }

    ghost predicate Ready()
      reads oldRoot, globalIO
    {
      && 0 <= keysToMove <= MAXKEYS && 1 <= t <= MAXKEYS
      && 0 <= nodeOffs && nodeOffs + keysToMove <= MAXKEYS
      && oldRoot.Valid() && globalIO.Valid()
    }

    /** What process leaves in the two pages, given the old page's key slots, children
        and child ids before the split: the new page holds keysToMove keys and is a
        leaf exactly when none of its first keysToMove children is set; it holds slots
        nodeOffs .. nodeOffs+keysToMove-1 of the old page (keys, values and children,
        in order, keys and values marked dirty), which are emptied there; it is the old
        page's child at LinkSlot(); both pages are updated. */
    ghost predicate SplitInto(page: BTreeKeyPage, slots0: seq<KeySlot>, children0: seq<BTreeKeyPage?>, ids0: seq<i64>)
      reads page, page.Arrays(), oldRoot, oldRoot.Arrays()
    {
      && 0 <= keysToMove && 1 <= t <= MAXKEYS && 0 <= nodeOffs && nodeOffs + keysToMove <= MAXKEYS
      && page.Valid() && oldRoot.Valid()
      && |slots0| == MAXKEYS && |children0| == MAXKEYS + 1 && |ids0| == MAXKEYS + 1
      && page.numKeys as int == keysToMove && page.updated && oldRoot.updated
      && (page.mIsLeafNode <==> forall k :: 0 <= k < keysToMove ==> page.pageIdArray[k] == NoPage)
      && Slots(page) == TakeRun(DirtyAll(slots0), nodeOffs, keysToMove, ClearedSlot, MAXKEYS)
      && page.pageArray[..] == TakeRun(children0, nodeOffs, keysToMove, null, MAXKEYS + 1)
      && page.pageIdArray[..] == TakeRun(ids0, nodeOffs, keysToMove, NoPage, MAXKEYS + 1)
      && Slots(oldRoot) == ClearRun(slots0, nodeOffs, keysToMove, ClearedSlot)
      && oldRoot.pageArray[..] == ClearRun(children0, nodeOffs, keysToMove, null)[LinkSlot() := page]
      && oldRoot.pageIdArray[..] == ClearRun(ids0, nodeOffs, keysToMove, NoPage)[LinkSlot() := page.pageId]
    }

    /** process: a page from the pool receives the old page's half as SplitInto states;
        the old page's key count and leaf flag are not touched. */
    method Process() returns (r: Outcome)
      requires Ready()
      modifies this, globalIO, oldRoot, oldRoot.Arrays()
      ensures globalIO.Valid() && globalIO.objects == old(globalIO.objects)
      ensures r.Fail? ==> r.fault == IoFault && newNode == old(newNode) && globalIO.blocks == old(globalIO.blocks)
      ensures r.Fail? ==> unchanged(oldRoot) && unchanged(oldRoot.Arrays())
      ensures r.Pass? ==> newNode != null && fresh(newNode) && newNode.Valid() && newNode.sdbio == globalIO
      ensures r.Pass? ==> newNode.pageId !in old(globalIO.blocks) && globalIO.blocks == old(globalIO.blocks)[newNode.pageId := newNode.blk]
      ensures r.Pass? ==> SplitInto(newNode, old(Slots(oldRoot)), old(oldRoot.pageArray[..]), old(oldRoot.pageIdArray[..]))
      ensures oldRoot.numKeys == old(oldRoot.numKeys) && oldRoot.mIsLeafNode == old(oldRoot.mIsLeafNode)
    {
      ghost var slots0, children0, ids0 := Slots(oldRoot), oldRoot.pageArray[..], oldRoot.pageIdArray[..];
      var page := NewBlankPage(globalIO);
      if page.Err? {
        return Fail(page.fault);
      }
      Fill(page.value, slots0, children0, ids0);
      newNode := page.value;
      r := Pass;
    }

    /** Everything process does once it holds the new page: the key move, then the
        rest. */
    method Fill(page: BTreeKeyPage, ghost slots0: seq<KeySlot>, ghost children0: seq<BTreeKeyPage?>, ghost ids0: seq<i64>)
      requires Ready() && page.Valid() && page != oldRoot && page.Arrays() !! oldRoot.Arrays()
      requires Slots(page) == seq(MAXKEYS, _ => ClearedSlot)
      requires page.pageArray[..] == seq(MAXKEYS + 1, _ => null) && page.pageIdArray[..] == seq(MAXKEYS + 1, _ => NoPage)
      requires Slots(oldRoot) == slots0 && oldRoot.pageArray[..] == children0 && oldRoot.pageIdArray[..] == ids0
      modifies oldRoot, oldRoot.keyArray, oldRoot.keyIdArray, oldRoot.keyUpdatedArray, oldRoot.dataArray, oldRoot.dataIdArray, oldRoot.dataUpdatedArray, oldRoot.pageArray, oldRoot.pageIdArray
      modifies page, page.keyArray, page.keyIdArray, page.keyUpdatedArray, page.dataArray, page.dataIdArray, page.dataUpdatedArray, page.pageArray, page.pageIdArray
      ensures SplitInto(page, slots0, children0, ids0) && page.pageId == old(page.pageId)
      ensures oldRoot.numKeys == old(oldRoot.numKeys) && oldRoot.mIsLeafNode == old(oldRoot.mIsLeafNode)
    {
      MoveKeys(page);
      ghost var moved, left := Slots(page), Slots(oldRoot);
      Finish(page);
      assert Slots(page) == moved && Slots(oldRoot) == left;
    }

    /** The rest of process after the key move, none of which touches a key slot: the
        child move, the key count, the leaf flag, the updated flag and the link. */
    method Finish(page: BTreeKeyPage)
      requires Ready() && page.Valid() && page != oldRoot && page.Arrays() !! oldRoot.Arrays()
      requires page.pageArray[..] == seq(MAXKEYS + 1, _ => null) && page.pageIdArray[..] == seq(MAXKEYS + 1, _ => NoPage)
      modifies oldRoot, oldRoot.pageArray, oldRoot.pageIdArray, page, page.pageArray, page.pageIdArray
      ensures page.numKeys as int == keysToMove && page.updated && oldRoot.updated && page.pageId == old(page.pageId)
      ensures page.mIsLeafNode <==> forall k :: 0 <= k < keysToMove ==> page.pageIdArray[k] == NoPage
      ensures page.pageArray[..] == TakeRun(old(oldRoot.pageArray[..]), nodeOffs, keysToMove, null, MAXKEYS + 1)
      ensures page.pageIdArray[..] == TakeRun(old(oldRoot.pageIdArray[..]), nodeOffs, keysToMove, NoPage, MAXKEYS + 1)
      ensures oldRoot.pageArray[..] == ClearRun(old(oldRoot.pageArray[..]), nodeOffs, keysToMove, null)[LinkSlot() := page]
      ensures oldRoot.pageIdArray[..] == ClearRun(old(oldRoot.pageIdArray[..]), nodeOffs, keysToMove, NoPage)[LinkSlot() := page.pageId]
      ensures oldRoot.numKeys == old(oldRoot.numKeys) && oldRoot.mIsLeafNode == old(oldRoot.mIsLeafNode)
    {
      MoveChildren(page);
      page.numKeys := keysToMove as i32;
      RecomputeLeaf(page);
      page.SetUpdated(true);
      ghost var children, ids := page.pageArray[..], page.pageIdArray[..];
      LinkChild(page);
      assert page.pageArray[..] == children && page.pageIdArray[..] == ids;
    }

    /** The link step of process: the new page becomes the old page's child at
        LinkSlot(), by page and by id, and the old page is updated. */
    method LinkChild(page: BTreeKeyPage)
      requires Ready()
      modifies oldRoot, oldRoot.pageArray, oldRoot.pageIdArray
      ensures oldRoot.pageArray[..] == old(oldRoot.pageArray[..])[LinkSlot() := page]
      ensures oldRoot.pageIdArray[..] == old(oldRoot.pageIdArray[..])[LinkSlot() := page.pageId]
      ensures oldRoot.updated
      ensures oldRoot.numKeys == old(oldRoot.numKeys) && oldRoot.mIsLeafNode == old(oldRoot.mIsLeafNode)
    {
      if nodeOffs == 0 {
        oldRoot.pageIdArray[t - 1] := page.pageId;
        oldRoot.pageArray[t - 1] := page;
      } else {
        oldRoot.pageIdArray[t] := page.pageId;
        oldRoot.pageArray[t] := page;
      }
      oldRoot.SetUpdated(true);
    }

    /** The allocation step of process: getPageFromPool, seen through the slots the
        split fills. */
    static method NewBlankPage(io: ObjectDBIO) returns (r: Result<BTreeKeyPage>)
      requires io.Valid()
      modifies io
      ensures io.Valid() && io.objects == old(io.objects)
      ensures r.Err? ==> r.fault == IoFault && io.blocks == old(io.blocks)
      ensures r.Ok? ==>
        && fresh(r.value) && fresh(r.value.Arrays()) && r.value.Valid() && r.value.sdbio == io
        && r.value.pageId !in old(io.blocks) && io.blocks == old(io.blocks)[r.value.pageId := r.value.blk]
        && Slots(r.value) == seq(MAXKEYS, _ => ClearedSlot)
        && r.value.pageArray[..] == seq(MAXKEYS + 1, _ => null)
        && r.value.pageIdArray[..] == seq(MAXKEYS + 1, _ => NoPage)
    {
      r := BTreeKeyPage.NewPageFromPool(io);
      if r.Ok? {
        FreshPageEmpty(r.value);
      }
    }

    /** A page fresh from the pool holds cleared key slots and no children. */
    static lemma FreshPageEmpty(p: BTreeKeyPage)
      requires p.Valid() && p.Fields() == FreshFields() && p.Flags(true)
      requires forall i :: 0 <= i < MAXKEYS ==> p.keyArray[i].None? && p.dataArray[i].None?
      requires forall j :: 0 <= j <= MAXKEYS ==> p.pageArray[j] == null
      ensures Slots(p) == seq(MAXKEYS, _ => ClearedSlot)
      ensures p.pageArray[..] == seq(MAXKEYS + 1, _ => null) && p.pageIdArray[..] == seq(MAXKEYS + 1, _ => NoPage)
    {
      forall k | 0 <= k < MAXKEYS
        ensures Slots(p)[k] == ClearedSlot
      {
        assert p.keyIdArray[k] == p.Fields().keyIds[k] && p.dataIdArray[k] == p.Fields().dataIds[k];
      }
      forall j | 0 <= j <= MAXKEYS
        ensures p.pageIdArray[j] == NoPage
      {
        assert p.pageIdArray[j] == p.Fields().pageIds[j];
      }
    }

    /** The key half of the move loop of process, into a page fresh from the pool.
        The loop of process moves slot i's key and value, then its child; the keys and
        the children live in distinct arrays, so the model moves all keys, then all
        children. */
    method MoveKeys(target: BTreeKeyPage)
      requires Ready() && target.Valid() && target != oldRoot && target.Arrays() !! oldRoot.Arrays()
      requires Slots(target) == seq(MAXKEYS, _ => ClearedSlot)
      modifies oldRoot, oldRoot.keyArray, oldRoot.keyIdArray, oldRoot.keyUpdatedArray, oldRoot.dataArray, oldRoot.dataIdArray, oldRoot.dataUpdatedArray
      modifies target, target.keyArray, target.keyIdArray, target.keyUpdatedArray, target.dataArray, target.dataIdArray, target.dataUpdatedArray
      ensures Slots(target) == TakeRun(DirtyAll(old(Slots(oldRoot))), nodeOffs, keysToMove, ClearedSlot, MAXKEYS)
      ensures Slots(oldRoot) == ClearRun(old(Slots(oldRoot)), nodeOffs, keysToMove, ClearedSlot)
      ensures oldRoot.numKeys == old(oldRoot.numKeys) && oldRoot.mIsLeafNode == old(oldRoot.mIsLeafNode)
      ensures target.numKeys == old(target.numKeys) && target.mIsLeafNode == old(target.mIsLeafNode) && target.pageId == old(target.pageId)
    {
      ghost var s0 := Slots(oldRoot);
      for i := 0 to keysToMove
        invariant Slots(target) == TakeRun(DirtyAll(s0), nodeOffs, i, ClearedSlot, MAXKEYS)
        invariant Slots(oldRoot) == ClearRun(s0, nodeOffs, i, ClearedSlot)
        invariant oldRoot.numKeys == old(oldRoot.numKeys) && oldRoot.mIsLeafNode == old(oldRoot.mIsLeafNode)
        invariant target.numKeys == old(target.numKeys) && target.mIsLeafNode == old(target.mIsLeafNode) && target.pageId == old(target.pageId)
      {
        TakeRunStep(DirtyAll(s0), nodeOffs, i, ClearedSlot, MAXKEYS);
        ClearRunStep(s0, nodeOffs, i, ClearedSlot);
        MoveKeyData(oldRoot, nodeOffs + i, target, i);
      }
    }

    /** The child half of the move loop of process. */
    method MoveChildren(target: BTreeKeyPage)
      requires Ready() && target.Valid() && target != oldRoot && target.Arrays() !! oldRoot.Arrays()
      requires target.pageArray[..] == seq(MAXKEYS + 1, _ => null) && target.pageIdArray[..] == seq(MAXKEYS + 1, _ => NoPage)
      modifies oldRoot, oldRoot.pageArray, oldRoot.pageIdArray, target, target.pageArray, target.pageIdArray
      ensures target.pageArray[..] == TakeRun(old(oldRoot.pageArray[..]), nodeOffs, keysToMove, null, MAXKEYS + 1)
      ensures target.pageIdArray[..] == TakeRun(old(oldRoot.pageIdArray[..]), nodeOffs, keysToMove, NoPage, MAXKEYS + 1)
      ensures oldRoot.pageArray[..] == ClearRun(old(oldRoot.pageArray[..]), nodeOffs, keysToMove, null)
      ensures oldRoot.pageIdArray[..] == ClearRun(old(oldRoot.pageIdArray[..]), nodeOffs, keysToMove, NoPage)
      ensures oldRoot.numKeys == old(oldRoot.numKeys) && oldRoot.mIsLeafNode == old(oldRoot.mIsLeafNode)
      ensures target.numKeys == old(target.numKeys) && target.mIsLeafNode == old(target.mIsLeafNode) && target.pageId == old(target.pageId)
    {
      ghost var c0, ids0 := oldRoot.pageArray[..], oldRoot.pageIdArray[..];
      for i := 0 to keysToMove
        invariant target.pageArray[..] == TakeRun(c0, nodeOffs, i, null, MAXKEYS + 1)
        invariant target.pageIdArray[..] == TakeRun(ids0, nodeOffs, i, NoPage, MAXKEYS + 1)
        invariant oldRoot.pageArray[..] == ClearRun(c0, nodeOffs, i, null)
        invariant oldRoot.pageIdArray[..] == ClearRun(ids0, nodeOffs, i, NoPage)
        invariant oldRoot.numKeys == old(oldRoot.numKeys) && oldRoot.mIsLeafNode == old(oldRoot.mIsLeafNode)
        invariant target.numKeys == old(target.numKeys) && target.mIsLeafNode == old(target.mIsLeafNode) && target.pageId == old(target.pageId)
      {
        MoveChildStep(target, i, c0, ids0);
      }
    }

    /** One turn of the child loop of process: child nodeOffs+i moves to slot i of the
        target, and the moved runs grow by one. */
    method MoveChildStep(target: BTreeKeyPage, i: int, ghost c0: seq<BTreeKeyPage?>, ghost ids0: seq<i64>)
      requires Ready() && target.Valid() && target != oldRoot && target.Arrays() !! oldRoot.Arrays()
      requires 0 <= i < keysToMove && |c0| == MAXKEYS + 1 && |ids0| == MAXKEYS + 1
      requires target.pageArray[..] == TakeRun(c0, nodeOffs, i, null, MAXKEYS + 1)
      requires target.pageIdArray[..] == TakeRun(ids0, nodeOffs, i, NoPage, MAXKEYS + 1)
      requires oldRoot.pageArray[..] == ClearRun(c0, nodeOffs, i, null)
      requires oldRoot.pageIdArray[..] == ClearRun(ids0, nodeOffs, i, NoPage)
      modifies oldRoot, oldRoot.pageArray, oldRoot.pageIdArray, target, target.pageArray, target.pageIdArray
      ensures target.pageArray[..] == TakeRun(c0, nodeOffs, i + 1, null, MAXKEYS + 1)
      ensures target.pageIdArray[..] == TakeRun(ids0, nodeOffs, i + 1, NoPage, MAXKEYS + 1)
      ensures oldRoot.pageArray[..] == ClearRun(c0, nodeOffs, i + 1, null)
      ensures oldRoot.pageIdArray[..] == ClearRun(ids0, nodeOffs, i + 1, NoPage)
      ensures oldRoot.numKeys == old(oldRoot.numKeys) && oldRoot.mIsLeafNode == old(oldRoot.mIsLeafNode)
      ensures target.numKeys == old(target.numKeys) && target.mIsLeafNode == old(target.mIsLeafNode) && target.pageId == old(target.pageId)
    {
      TakeRunStep(c0, nodeOffs, i, null, MAXKEYS + 1);
      TakeRunStep(ids0, nodeOffs, i, NoPage, MAXKEYS + 1);
      ClearRunStep(c0, nodeOffs, i, null);
      ClearRunStep(ids0, nodeOffs, i, NoPage);
      MoveChildData(oldRoot, nodeOffs + i, target, i);
    }

    /** The leaf loop of process: the page is a leaf exactly when none of its first
        numKeys child ids is set; the scan stops at the first one that is. */
    static method RecomputeLeaf(page: BTreeKeyPage)
      requires page.Valid() && 0 <= page.numKeys as int <= MAXKEYS
      modifies page
      ensures page.numKeys == old(page.numKeys) && page.pageId == old(page.pageId) && page.updated == old(page.updated)
      ensures page.mIsLeafNode <==> forall k :: 0 <= k < page.numKeys as int ==> page.pageIdArray[k] == NoPage
    {
      page.mIsLeafNode := true;
      var i := 0;
      while i < page.numKeys as int
        invariant 0 <= i <= page.numKeys as int
        invariant page.mIsLeafNode
        invariant forall k :: 0 <= k < i ==> page.pageIdArray[k] == NoPage
      {
        if page.pageIdArray[i] != NoPage {
          page.mIsLeafNode := false;
          break;
        }
        i := i + 1;
      }
    }

    /** getLongReturn: the id of the page the split created. */
    function LongReturn(): (id: i64)
      requires newNode != null
      reads this, newNode
      ensures id == newNode.pageId
    {
      newNode.pageId
    }

    /** getObjectReturn: the page the split created. */
    function ObjectReturn(): (p: BTreeKeyPage)
      requires newNode != null
      reads this
      ensures p == newNode
    {
      newNode
    }
  }
}
