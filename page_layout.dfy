/** The fixed binary image of a B-tree key page inside its block: a leaf byte, the key
    count as an int, MAXKEYS slots of (key pointer, value pointer) where a pointer is a
    long block id followed by a short offset, then MAXKEYS+1 child block ids as longs. */
module PageLayout {
  import opened Common
  import opened DataIO

  type DataSize = d: int | 41 <= d < 0x8000 witness 41

  /** The payload capacity of a block (DBPhysicalConstants.DATASIZE). Its value is
      fixed by a class outside this model, so it is left open: every result below
      holds for any capacity that leaves room for one slot and whose byte positions a
      Java short can index, as a block stream's byte index is a short. */
  const DATASIZE: DataSize

  /** The largest odd slot count whose image fits in a block of dataSize bytes. */
  function MaxKeysFor(dataSize: DataSize): (r: int)
    ensures r >= 1 && r % 2 == 1
    ensures ImageSize(r) <= dataSize
    ensures r <= (dataSize - 13) / 28 <= r + 1
  {
    var q := (dataSize - 13) / 28;
    if q % 2 == 0 then q - 1 else q
  }

  const MAXKEYS: int := MaxKeysFor(DATASIZE)

  /** Bytes written by putPage for a page of m slots. */
  function ImageSize(m: int): int
  {
    1 + 4 + 20 * m + 8 * (m + 1)
  }

  function KeyPos(i: int): int { 5 + 20 * i }
  function DataPos(i: int): int { 15 + 20 * i }
  function ChildPos(j: int): int { 5 + 20 * MAXKEYS + 8 * j }

  /** A byte string long enough to hold a page image. */
  predicate Fits(img: seq<byte>)
  {
    ImageSize(MAXKEYS) <= |img|
  }

  /** The bytes of s with w written at pos, as a DataOutputStream positioned at pos does. */
  function Overwrite(s: seq<byte>, pos: int, w: seq<byte>): (r: seq<byte>)
    requires 0 <= pos && pos + |w| <= |s|
    ensures |r| == |s|
    ensures r[pos..pos + |w|] == w
    ensures forall i :: 0 <= i < |s| && !(pos <= i < pos + |w|) ==> r[i] == s[i]
  {
    seq(|s|, i requires 0 <= i < |s| => if pos <= i < pos + |w| then w[i - pos] else s[i])
  }

  lemma OverwriteElsewhere(s: seq<byte>, pos: int, w: seq<byte>, a: int, b: int)
    requires 0 <= pos && pos + |w| <= |s|
    requires 0 <= a <= b <= |s|
    requires b <= pos || pos + |w| <= a
    ensures Overwrite(s, pos, w)[a..b] == s[a..b]
  {
    var r := Overwrite(s, pos, w);
    assert r == s[..pos] + w + s[pos + |w|..];
    if b <= pos {
      assert r[a..b] == s[..pos][a..b];
    } else {
      assert r[a..b] == s[pos + |w|..][a - pos - |w|..b - pos - |w|];
    }
  }

  function EncodeOptr(p: Optr): (r: seq<byte>)
    ensures |r| == 10
  {
    EncodeLong(p.block) + EncodeShort(p.offset)
  }

  function DecodeOptr(s: seq<byte>): Optr
    requires |s| == 10
  {
    Optr(DecodeLong(s[..8]), DecodeShort(s[8..]))
  }

  lemma OptrRoundTrip(p: Optr)
    ensures DecodeOptr(EncodeOptr(p)) == p
  {
    var s := EncodeOptr(p);
    assert s[..8] == EncodeLong(p.block);
    assert s[8..] == EncodeShort(p.offset);
    LongRoundTrip(p.block);
    ShortRoundTrip(p.offset);
  }

  // ---------------------------------------------------------------------------
  // Reading an image (the load constructors of BTreeKeyPage)

  function ReadLeaf(img: seq<byte>): bool
    requires Fits(img)
  {
    img[0] != 0
  }

  function ReadNumKeys(img: seq<byte>): i32
    requires Fits(img)
  {
    DecodeInt(img[1..5])
  }

  function ReadKeyId(img: seq<byte>, i: int): Optr
    requires Fits(img) && 0 <= i < MAXKEYS
  {
    DecodeOptr(img[KeyPos(i)..KeyPos(i) + 10])
  }

  function ReadDataId(img: seq<byte>, i: int): Optr
    requires Fits(img) && 0 <= i < MAXKEYS
  {
    DecodeOptr(img[DataPos(i)..DataPos(i) + 10])
  }

  function ReadChild(img: seq<byte>, j: int): i64
    requires Fits(img) && 0 <= j <= MAXKEYS
  {
    DecodeLong(img[ChildPos(j)..ChildPos(j) + 8])
  }

  /** The persisted fields of a page. */
  datatype PageFields = PageFields(
    leaf: bool,
    numKeys: i32,
    keyIds: seq<Optr>,
    dataIds: seq<Optr>,
    pageIds: seq<i64>)

  predicate WellSized(f: PageFields)
  {
    |f.keyIds| == MAXKEYS && |f.dataIds| == MAXKEYS && |f.pageIds| == MAXKEYS + 1
  }

  function DecodePage(img: seq<byte>): (f: PageFields)
    requires Fits(img)
    ensures WellSized(f)
  {
    PageFields(
      ReadLeaf(img),
      ReadNumKeys(img),
      seq(MAXKEYS, i requires 0 <= i < MAXKEYS => ReadKeyId(img, i)),
      seq(MAXKEYS, i requires 0 <= i < MAXKEYS => ReadDataId(img, i)),
      seq(MAXKEYS + 1, j requires 0 <= j <= MAXKEYS => ReadChild(img, j)))
  }

  // ---------------------------------------------------------------------------
  // Writing an image (putPage), step by step as its output cursor advances

  function WriteHeader(img: seq<byte>, leaf: bool, n: i32): (r: seq<byte>)
    requires Fits(img)
    ensures |r| == |img|
  {
    Overwrite(Overwrite(img, 0, [if leaf then 1 else 0]), 1, EncodeInt(n))
  }

  /** Slot i: the key pointer when its key is dirty, then the value pointer when its
      value is dirty; a clean pointer is skipped and keeps the bytes already there. */
  function WriteSlot(img: seq<byte>, i: int, keyId: Optr, dataId: Optr, keyDirty: bool, dataDirty: bool): (r: seq<byte>)
    requires Fits(img) && 0 <= i < MAXKEYS
    ensures |r| == |img|
  {
    var a := if keyDirty then Overwrite(img, KeyPos(i), EncodeOptr(keyId)) else img;
    if dataDirty then Overwrite(a, DataPos(i), EncodeOptr(dataId)) else a
  }

  predicate SlotShaped(keyIds: seq<Optr>, dataIds: seq<Optr>, kd: seq<bool>, dd: seq<bool>)
  {
    |keyIds| == MAXKEYS && |dataIds| == MAXKEYS && |kd| == MAXKEYS && |dd| == MAXKEYS
  }

  /** The image after slots 0 .. i-1 have been written. */
  function WriteSlots(img: seq<byte>, keyIds: seq<Optr>, dataIds: seq<Optr>, kd: seq<bool>, dd: seq<bool>, i: int): (r: seq<byte>)
    requires Fits(img) && SlotShaped(keyIds, dataIds, kd, dd) && 0 <= i <= MAXKEYS
    ensures |r| == |img|
    decreases i
  {
    if i == 0 then img
    else WriteSlot(WriteSlots(img, keyIds, dataIds, kd, dd, i - 1), i - 1, keyIds[i - 1], dataIds[i - 1], kd[i - 1], dd[i - 1])
  }

  /** The image after child ids 0 .. j-1 have been written. */
  function WriteChildren(img: seq<byte>, ids: seq<i64>, j: int): (r: seq<byte>)
    requires Fits(img) && |ids| == MAXKEYS + 1 && 0 <= j <= MAXKEYS + 1
    ensures |r| == |img|
    decreases j
  {
    if j == 0 then img
    else Overwrite(WriteChildren(img, ids, j - 1), ChildPos(j - 1), EncodeLong(ids[j - 1]))
  }

  /** The whole image putPage leaves in a block that held prior. */
  function PageImage(prior: seq<byte>, f: PageFields, kd: seq<bool>, dd: seq<bool>): (r: seq<byte>)
    requires Fits(prior) && WellSized(f) && |kd| == MAXKEYS && |dd| == MAXKEYS
    ensures |r| == |prior|
  {
    WriteChildren(WriteSlots(WriteHeader(prior, f.leaf, f.numKeys), f.keyIds, f.dataIds, kd, dd, MAXKEYS), f.pageIds, MAXKEYS + 1)
  }

  // ---------------------------------------------------------------------------
  // What each writer leaves for the readers

  /** The key pointer bytes of slot k after one slot write. */
  lemma SlotKeyBytes(img: seq<byte>, s: int, keyId: Optr, dataId: Optr, kdir: bool, ddir: bool, k: int)
    requires Fits(img) && 0 <= s < MAXKEYS && 0 <= k < MAXKEYS
    ensures WriteSlot(img, s, keyId, dataId, kdir, ddir)[KeyPos(k)..KeyPos(k) + 10]
              == if k == s && kdir then EncodeOptr(keyId) else img[KeyPos(k)..KeyPos(k) + 10]
  {
    var a := if kdir then Overwrite(img, KeyPos(s), EncodeOptr(keyId)) else img;
    assert |a| == |img|;
    if kdir && k != s {
      OverwriteElsewhere(img, KeyPos(s), EncodeOptr(keyId), KeyPos(k), KeyPos(k) + 10);
    }
    if ddir {
      OverwriteElsewhere(a, DataPos(s), EncodeOptr(dataId), KeyPos(k), KeyPos(k) + 10);
    }
  }

  /** The value pointer bytes of slot k after one slot write. */
  lemma SlotDataBytes(img: seq<byte>, s: int, keyId: Optr, dataId: Optr, kdir: bool, ddir: bool, k: int)
    requires Fits(img) && 0 <= s < MAXKEYS && 0 <= k < MAXKEYS
    ensures WriteSlot(img, s, keyId, dataId, kdir, ddir)[DataPos(k)..DataPos(k) + 10]
              == if k == s && ddir then EncodeOptr(dataId) else img[DataPos(k)..DataPos(k) + 10]
  {
    var a := if kdir then Overwrite(img, KeyPos(s), EncodeOptr(keyId)) else img;
    assert |a| == |img|;
    if kdir {
      OverwriteElsewhere(img, KeyPos(s), EncodeOptr(keyId), DataPos(k), DataPos(k) + 10);
    }
    if ddir && k != s {
      OverwriteElsewhere(a, DataPos(s), EncodeOptr(dataId), DataPos(k), DataPos(k) + 10);
    }
  }

  /** The key pointer bytes of slot k after slots 0 .. i-1 were written. */
  lemma {:induction false} SlotsKeyBytes(img: seq<byte>, keyIds: seq<Optr>, dataIds: seq<Optr>, kd: seq<bool>, dd: seq<bool>, i: int, k: int)
    requires Fits(img) && SlotShaped(keyIds, dataIds, kd, dd) && 0 <= i <= MAXKEYS && 0 <= k < MAXKEYS
    ensures WriteSlots(img, keyIds, dataIds, kd, dd, i)[KeyPos(k)..KeyPos(k) + 10]
              == if k < i && kd[k] then EncodeOptr(keyIds[k]) else img[KeyPos(k)..KeyPos(k) + 10]
    decreases i
  {
    if i > 0 {
      var prev := WriteSlots(img, keyIds, dataIds, kd, dd, i - 1);
      assert WriteSlots(img, keyIds, dataIds, kd, dd, i) == WriteSlot(prev, i - 1, keyIds[i - 1], dataIds[i - 1], kd[i - 1], dd[i - 1]);
      SlotsKeyBytes(img, keyIds, dataIds, kd, dd, i - 1, k);
      SlotKeyBytes(prev, i - 1, keyIds[i - 1], dataIds[i - 1], kd[i - 1], dd[i - 1], k);
    }
  }

  /** The value pointer bytes of slot k after slots 0 .. i-1 were written. */
  lemma {:induction false} SlotsDataBytes(img: seq<byte>, keyIds: seq<Optr>, dataIds: seq<Optr>, kd: seq<bool>, dd: seq<bool>, i: int, k: int)
    requires Fits(img) && SlotShaped(keyIds, dataIds, kd, dd) && 0 <= i <= MAXKEYS && 0 <= k < MAXKEYS
    ensures WriteSlots(img, keyIds, dataIds, kd, dd, i)[DataPos(k)..DataPos(k) + 10]
              == if k < i && dd[k] then EncodeOptr(dataIds[k]) else img[DataPos(k)..DataPos(k) + 10]
    decreases i
  {
    if i > 0 {
      var prev := WriteSlots(img, keyIds, dataIds, kd, dd, i - 1);
      assert WriteSlots(img, keyIds, dataIds, kd, dd, i) == WriteSlot(prev, i - 1, keyIds[i - 1], dataIds[i - 1], kd[i - 1], dd[i - 1]);
      SlotsDataBytes(img, keyIds, dataIds, kd, dd, i - 1, k);
      SlotDataBytes(prev, i - 1, keyIds[i - 1], dataIds[i - 1], kd[i - 1], dd[i - 1], k);
    }
  }

  /** The key pointer of slot k after slots 0 .. i-1 were written: the written one
      where the slot was dirty, the old one elsewhere. */
  lemma SlotsKeyReads(img: seq<byte>, keyIds: seq<Optr>, dataIds: seq<Optr>, kd: seq<bool>, dd: seq<bool>, i: int, k: int)
    requires Fits(img) && SlotShaped(keyIds, dataIds, kd, dd) && 0 <= i <= MAXKEYS && 0 <= k < MAXKEYS
    ensures ReadKeyId(WriteSlots(img, keyIds, dataIds, kd, dd, i), k)
              == if k < i && kd[k] then keyIds[k] else ReadKeyId(img, k)
  {
    SlotsKeyBytes(img, keyIds, dataIds, kd, dd, i, k);
    if k < i && kd[k] {
      OptrRoundTrip(keyIds[k]);
    }
  }

  /** The value pointer of slot k after slots 0 .. i-1 were written. */
  lemma SlotsDataReads(img: seq<byte>, keyIds: seq<Optr>, dataIds: seq<Optr>, kd: seq<bool>, dd: seq<bool>, i: int, k: int)
    requires Fits(img) && SlotShaped(keyIds, dataIds, kd, dd) && 0 <= i <= MAXKEYS && 0 <= k < MAXKEYS
    ensures ReadDataId(WriteSlots(img, keyIds, dataIds, kd, dd, i), k)
              == if k < i && dd[k] then dataIds[k] else ReadDataId(img, k)
  {
    SlotsDataBytes(img, keyIds, dataIds, kd, dd, i, k);
    if k < i && dd[k] {
      OptrRoundTrip(dataIds[k]);
    }
  }

  /** A slot write leaves the header alone. */
  lemma SlotKeepsHeader(img: seq<byte>, s: int, keyId: Optr, dataId: Optr, kdir: bool, ddir: bool)
    requires Fits(img) && 0 <= s < MAXKEYS
    ensures WriteSlot(img, s, keyId, dataId, kdir, ddir)[..5] == img[..5]
  {
    var a := if kdir then Overwrite(img, KeyPos(s), EncodeOptr(keyId)) else img;
    if kdir {
      OverwriteElsewhere(img, KeyPos(s), EncodeOptr(keyId), 0, 5);
    }
    if ddir {
      OverwriteElsewhere(a, DataPos(s), EncodeOptr(dataId), 0, 5);
    }
  }

  /** Writing slots 0 .. i-1 leaves the header alone. */
  lemma {:induction false} SlotsKeepHeader(img: seq<byte>, keyIds: seq<Optr>, dataIds: seq<Optr>, kd: seq<bool>, dd: seq<bool>, i: int)
    requires Fits(img) && SlotShaped(keyIds, dataIds, kd, dd) && 0 <= i <= MAXKEYS
    ensures WriteSlots(img, keyIds, dataIds, kd, dd, i)[..5] == img[..5]
    decreases i
  {
    if i > 0 {
      SlotsKeepHeader(img, keyIds, dataIds, kd, dd, i - 1);
      SlotKeepsHeader(WriteSlots(img, keyIds, dataIds, kd, dd, i - 1), i - 1, keyIds[i - 1], dataIds[i - 1], kd[i - 1], dd[i - 1]);
    }
  }

  /** The eight bytes of child k after child ids 0 .. j-1 were written. */
  lemma {:induction false} ChildrenBytes(img: seq<byte>, ids: seq<i64>, j: int, k: int)
    requires Fits(img) && |ids| == MAXKEYS + 1 && 0 <= j <= MAXKEYS + 1 && 0 <= k <= MAXKEYS
    ensures WriteChildren(img, ids, j)[ChildPos(k)..ChildPos(k) + 8]
              == if k < j then EncodeLong(ids[k]) else img[ChildPos(k)..ChildPos(k) + 8]
    decreases j
  {
    if j > 0 {
      var prev := WriteChildren(img, ids, j - 1);
      var w := EncodeLong(ids[j - 1]);
      assert WriteChildren(img, ids, j) == Overwrite(prev, ChildPos(j - 1), w);
      if k != j - 1 {
        ChildrenBytes(img, ids, j - 1, k);
        OverwriteElsewhere(prev, ChildPos(j - 1), w, ChildPos(k), ChildPos(k) + 8);
      }
    }
  }

  lemma ChildrenReads(img: seq<byte>, ids: seq<i64>, j: int, k: int)
    requires Fits(img) && |ids| == MAXKEYS + 1 && 0 <= j <= MAXKEYS + 1 && 0 <= k <= MAXKEYS
    ensures ReadChild(WriteChildren(img, ids, j), k) == if k < j then ids[k] else ReadChild(img, k)
  {
    ChildrenBytes(img, ids, j, k);
    if k < j {
      LongRoundTrip(ids[k]);
    }
  }

  /** Writing child ids leaves the header and the slots alone. */
  lemma {:induction false} ChildrenKeepSlots(img: seq<byte>, ids: seq<i64>, j: int)
    requires Fits(img) && |ids| == MAXKEYS + 1 && 0 <= j <= MAXKEYS + 1
    ensures WriteChildren(img, ids, j)[..ChildPos(0)] == img[..ChildPos(0)]
    decreases j
  {
    if j > 0 {
      var prev := WriteChildren(img, ids, j - 1);
      ChildrenKeepSlots(img, ids, j - 1);
      OverwriteElsewhere(prev, ChildPos(j - 1), EncodeLong(ids[j - 1]), 0, ChildPos(0));
    }
  }

  /** Equal prefixes read the same header and slot pointers. */
  lemma PrefixReads(a: seq<byte>, b: seq<byte>)
    requires Fits(a) && Fits(b) && a[..ChildPos(0)] == b[..ChildPos(0)]
    ensures ReadLeaf(a) == ReadLeaf(b) && ReadNumKeys(a) == ReadNumKeys(b)
    ensures forall i :: 0 <= i < MAXKEYS ==> ReadKeyId(a, i) == ReadKeyId(b, i) && ReadDataId(a, i) == ReadDataId(b, i)
  {
    assert a[0] == a[..ChildPos(0)][0];
    assert a[1..5] == a[..ChildPos(0)][1..5] && b[1..5] == b[..ChildPos(0)][1..5];
    forall i | 0 <= i < MAXKEYS
      ensures ReadKeyId(a, i) == ReadKeyId(b, i) && ReadDataId(a, i) == ReadDataId(b, i)
    {
      assert a[KeyPos(i)..KeyPos(i) + 10] == a[..ChildPos(0)][KeyPos(i)..KeyPos(i) + 10];
      assert b[KeyPos(i)..KeyPos(i) + 10] == b[..ChildPos(0)][KeyPos(i)..KeyPos(i) + 10];
      assert a[DataPos(i)..DataPos(i) + 10] == a[..ChildPos(0)][DataPos(i)..DataPos(i) + 10];
      assert b[DataPos(i)..DataPos(i) + 10] == b[..ChildPos(0)][DataPos(i)..DataPos(i) + 10];
    }
  }

  /** Writing the header leaves every slot pointer alone. */
  lemma HeaderKeepsSlots(img: seq<byte>, leaf: bool, n: i32)
    requires Fits(img)
    ensures ReadLeaf(WriteHeader(img, leaf, n)) == leaf
    ensures ReadNumKeys(WriteHeader(img, leaf, n)) == n
    ensures forall i :: 0 <= i < MAXKEYS ==>
      ReadKeyId(WriteHeader(img, leaf, n), i) == ReadKeyId(img, i) && ReadDataId(WriteHeader(img, leaf, n), i) == ReadDataId(img, i)
  {
    var a := Overwrite(img, 0, [if leaf then 1 else 0]);
    var r := Overwrite(a, 1, EncodeInt(n));
    assert r[0] == a[0];
    IntRoundTrip(n);
    forall i | 0 <= i < MAXKEYS
      ensures ReadKeyId(r, i) == ReadKeyId(img, i) && ReadDataId(r, i) == ReadDataId(img, i)
    {
      OverwriteElsewhere(img, 0, [if leaf then 1 else 0], KeyPos(i), KeyPos(i) + 10);
      OverwriteElsewhere(a, 1, EncodeInt(n), KeyPos(i), KeyPos(i) + 10);
      OverwriteElsewhere(img, 0, [if leaf then 1 else 0], DataPos(i), DataPos(i) + 10);
      OverwriteElsewhere(a, 1, EncodeInt(n), DataPos(i), DataPos(i) + 10);
    }
  }

  /** The header putPage writes survives the slot and child writes after it. */
  lemma PageImageHeader(prior: seq<byte>, f: PageFields, kd: seq<bool>, dd: seq<bool>)
    requires Fits(prior) && WellSized(f) && |kd| == MAXKEYS && |dd| == MAXKEYS
    ensures ReadLeaf(PageImage(prior, f, kd, dd)) == f.leaf
    ensures ReadNumKeys(PageImage(prior, f, kd, dd)) == f.numKeys
  {
    var h := WriteHeader(prior, f.leaf, f.numKeys);
    var s := WriteSlots(h, f.keyIds, f.dataIds, kd, dd, MAXKEYS);
    var c := WriteChildren(s, f.pageIds, MAXKEYS + 1);
    HeaderKeepsSlots(prior, f.leaf, f.numKeys);
    SlotsKeepHeader(h, f.keyIds, f.dataIds, kd, dd, MAXKEYS);
    ChildrenKeepSlots(s, f.pageIds, MAXKEYS + 1);
    PrefixReads(c, s);
    assert s[0] == h[0] && s[1..5] == h[1..5] by {
      assert s[..5][0] == h[..5][0];
      assert s[..5][1..5] == h[..5][1..5];
    }
  }

  /** Slot k of the image putPage writes: the page's pointer where it was dirty, the
      prior image's pointer where it was clean. */
  lemma PageImageSlot(prior: seq<byte>, f: PageFields, kd: seq<bool>, dd: seq<bool>, k: int)
    requires Fits(prior) && WellSized(f) && |kd| == MAXKEYS && |dd| == MAXKEYS && 0 <= k < MAXKEYS
    ensures ReadKeyId(PageImage(prior, f, kd, dd), k) == if kd[k] then f.keyIds[k] else ReadKeyId(prior, k)
    ensures ReadDataId(PageImage(prior, f, kd, dd), k) == if dd[k] then f.dataIds[k] else ReadDataId(prior, k)
  {
    var h := WriteHeader(prior, f.leaf, f.numKeys);
    var s := WriteSlots(h, f.keyIds, f.dataIds, kd, dd, MAXKEYS);
    var c := WriteChildren(s, f.pageIds, MAXKEYS + 1);
    HeaderKeepsSlots(prior, f.leaf, f.numKeys);
    ChildrenKeepSlots(s, f.pageIds, MAXKEYS + 1);
    PrefixReads(c, s);
    SlotsKeyReads(h, f.keyIds, f.dataIds, kd, dd, MAXKEYS, k);
    SlotsDataReads(h, f.keyIds, f.dataIds, kd, dd, MAXKEYS, k);
  }

  /** Every field load reads back from the image putPage writes: the header and the
      child ids always, a slot pointer when it was dirty, and otherwise whatever the
      block held before. */
  lemma PageImageReads(prior: seq<byte>, f: PageFields, kd: seq<bool>, dd: seq<bool>)
    requires Fits(prior) && WellSized(f) && |kd| == MAXKEYS && |dd| == MAXKEYS
    ensures ReadLeaf(PageImage(prior, f, kd, dd)) == f.leaf
    ensures ReadNumKeys(PageImage(prior, f, kd, dd)) == f.numKeys
    ensures forall i :: 0 <= i < MAXKEYS ==>
      ReadKeyId(PageImage(prior, f, kd, dd), i) == if kd[i] then f.keyIds[i] else ReadKeyId(prior, i)
    ensures forall i :: 0 <= i < MAXKEYS ==>
      ReadDataId(PageImage(prior, f, kd, dd), i) == if dd[i] then f.dataIds[i] else ReadDataId(prior, i)
    ensures forall j :: 0 <= j <= MAXKEYS ==> ReadChild(PageImage(prior, f, kd, dd), j) == f.pageIds[j]
  {
    PageImageHeader(prior, f, kd, dd);
    PageImageSlots(prior, f, kd, dd);
    PageImageChildren(prior, f, kd, dd);
  }

  /** Every slot pointer of the image putPage writes. */
  lemma PageImageSlots(prior: seq<byte>, f: PageFields, kd: seq<bool>, dd: seq<bool>)
    requires Fits(prior) && WellSized(f) && |kd| == MAXKEYS && |dd| == MAXKEYS
    ensures forall i :: 0 <= i < MAXKEYS ==>
      ReadKeyId(PageImage(prior, f, kd, dd), i) == if kd[i] then f.keyIds[i] else ReadKeyId(prior, i)
    ensures forall i :: 0 <= i < MAXKEYS ==>
      ReadDataId(PageImage(prior, f, kd, dd), i) == if dd[i] then f.dataIds[i] else ReadDataId(prior, i)
  {
    forall i | 0 <= i < MAXKEYS
      ensures ReadKeyId(PageImage(prior, f, kd, dd), i) == if kd[i] then f.keyIds[i] else ReadKeyId(prior, i)
      ensures ReadDataId(PageImage(prior, f, kd, dd), i) == if dd[i] then f.dataIds[i] else ReadDataId(prior, i)
    {
      PageImageSlot(prior, f, kd, dd, i);
    }
  }

  /** Every child id of the image putPage writes. */
  lemma PageImageChildren(prior: seq<byte>, f: PageFields, kd: seq<bool>, dd: seq<bool>)
    requires Fits(prior) && WellSized(f) && |kd| == MAXKEYS && |dd| == MAXKEYS
    ensures forall j :: 0 <= j <= MAXKEYS ==> ReadChild(PageImage(prior, f, kd, dd), j) == f.pageIds[j]
  {
    var s := WriteSlots(WriteHeader(prior, f.leaf, f.numKeys), f.keyIds, f.dataIds, kd, dd, MAXKEYS);
    assert PageImage(prior, f, kd, dd) == WriteChildren(s, f.pageIds, MAXKEYS + 1);
    forall j | 0 <= j <= MAXKEYS
      ensures ReadChild(WriteChildren(s, f.pageIds, MAXKEYS + 1), j) == f.pageIds[j]
    {
      ChildrenReads(s, f.pageIds, MAXKEYS + 1, j);
    }
  }

  /** Round trip: loading the image putPage writes gives back the page's fields,
      provided every clean slot already held its own pointers in the prior image
      (as it does when the block held the page's previous image). */
  lemma PageRoundTrip(prior: seq<byte>, f: PageFields, kd: seq<bool>, dd: seq<bool>)
    requires Fits(prior) && WellSized(f) && |kd| == MAXKEYS && |dd| == MAXKEYS
    requires forall i :: 0 <= i < MAXKEYS && !kd[i] ==> ReadKeyId(prior, i) == f.keyIds[i]
    requires forall i :: 0 <= i < MAXKEYS && !dd[i] ==> ReadDataId(prior, i) == f.dataIds[i]
    ensures DecodePage(PageImage(prior, f, kd, dd)) == f
  {
    PageImageReads(prior, f, kd, dd);
    var g := DecodePage(PageImage(prior, f, kd, dd));
    assert g.keyIds == f.keyIds;
    assert g.dataIds == f.dataIds;
    assert g.pageIds == f.pageIds;
  }

  /** Every slot marked for writing. */
  function AllSlots(): (r: seq<bool>)
    ensures |r| == MAXKEYS && forall i :: 0 <= i < MAXKEYS ==> r[i]
  {
    seq(MAXKEYS, _ => true)
  }

  /** An image with every slot's pointers written round-trips from any block. */
  lemma FullWriteRoundTrip(prior: seq<byte>, f: PageFields)
    requires Fits(prior) && WellSized(f)
    ensures DecodePage(PageImage(prior, f, AllSlots(), AllSlots())) == f
  {
    PageRoundTrip(prior, f, AllSlots(), AllSlots());
  }

  /** The image always fits in the block payload. */
  lemma ImageFitsBlock()
    ensures ImageSize(MAXKEYS) == 13 + 28 * MAXKEYS <= DATASIZE
    ensures ChildPos(MAXKEYS) + 8 == ImageSize(MAXKEYS)
  {
  }
}
