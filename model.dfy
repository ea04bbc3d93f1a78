/**
 * The slotted page as a value, and each operation of src/page.c as a function
 * from the page before to the page after (with its return code).
 */
module PageModel {
  import opened PageLayout

  /**
   * The header (`pageId`, `freespaceEnd`; the slot count is `|slots|`), the slot
   * directory, and the PAGE_SIZE bytes of the page.
   */
  datatype PageImage = PageImage(pageId: nat, freespaceEnd: nat, slots: seq<Slot>, bytes: seq<bv8>)

  /** The header fields fit their C types and the directory ends at or before the record region. */
  ghost predicate Bounded(p: PageImage)
  {
    p.pageId < U32_LIMIT && |p.bytes| == PAGE_SIZE && DirEnd(|p.slots|) <= p.freespaceEnd <= PAGE_SIZE
  }

  /** No slot field, stale or not, outgrows the page. */
  ghost predicate FieldsFit(p: PageImage)
  {
    forall i :: 0 <= i < |p.slots| ==> p.slots[i].Fits()
  }

  /** Every live record lies in the record region [freespaceEnd, PAGE_SIZE). */
  ghost predicate LivePlaced(p: PageImage)
  {
    forall i :: 0 <= i < |p.slots| && !p.slots[i].deleted ==> p.slots[i].PlacedAbove(p.freespaceEnd)
  }

  /** No two live records share a byte. */
  ghost predicate LiveApart(p: PageImage)
  {
    forall i, j :: 0 <= i < |p.slots| && 0 <= j < |p.slots| && i != j && !p.slots[i].deleted && !p.slots[j].deleted ==>
      Apart(p.slots[i], p.slots[j])
  }

  /** The page invariant that every operation keeps. */
  ghost predicate Inv(p: PageImage)
  {
    Bounded(p) && FieldsFit(p) && LivePlaced(p) && LiveApart(p)
  }

  /** Byte `b` lies in the span of some live record. */
  ghost predicate Covered(p: PageImage, b: int)
  {
    exists i :: 0 <= i < |p.slots| && !p.slots[i].deleted && p.slots[i].offset <= b < p.slots[i].End()
  }

  /**
   * The record region has no gap: every byte of [freespaceEnd, PAGE_SIZE)
   * belongs to a live record. Together with `LivePlaced` and `LiveApart` the
   * live spans tile the region exactly.
   */
  ghost predicate Tiled(p: PageImage)
  {
    forall b :: p.freespaceEnd <= b < PAGE_SIZE ==> Covered(p, b)
  }

  /** `page_new`: an empty directory over a zeroed page. */
  function NewImage(pageId: nat): (p: PageImage)
    requires pageId < U32_LIMIT
    ensures Inv(p) && Tiled(p)
  {
    PageImage(pageId, PAGE_SIZE, [], seq(PAGE_SIZE, _ => 0))
  }

  /** `page_get_freespace`: the bytes between the end of the directory and the record region. */
  function FreeSpace(p: PageImage): (r: int)
    ensures Bounded(p) ==> 0 <= r <= PAGE_SIZE - PAGE_HDR_SIZE - PAGE_SLOT_SIZE * |p.slots|
  {
    p.freespaceEnd - DirEnd(|p.slots|)
  }

  /** `page_find_deleted_slot`: the lowest index whose slot is deleted, or -1. */
  function FirstDeleted(slots: seq<Slot>): (r: int)
    ensures -1 <= r < |slots|
    ensures r >= 0 ==> slots[r].deleted && forall j :: 0 <= j < r ==> !slots[j].deleted
    ensures r == -1 <==> forall j :: 0 <= j < |slots| ==> !slots[j].deleted
  {
    if |slots| == 0 then -1
    else if slots[0].deleted then 0
    else
      var k := FirstDeleted(slots[1..]);
      if k == -1 then -1 else k + 1
  }

  /** A slot of the directory whose record, if live, lies within the page. */
  predicate Readable(p: PageImage, slotId: nat)
  {
    slotId < |p.slots| && (!p.slots[slotId].deleted ==> p.slots[slotId].End() <= |p.bytes|)
  }

  /** A slot of a full-size page that, if live, lies in the record region. */
  predicate Placed(p: PageImage, slotId: nat)
  {
    && |p.bytes| == PAGE_SIZE && p.freespaceEnd <= PAGE_SIZE && slotId < |p.slots|
    && (!p.slots[slotId].deleted ==> p.slots[slotId].PlacedAbove(p.freespaceEnd))
  }

  /** `page_get`: a copy of the key and data of a live slot, nothing for a deleted one. */
  function Get(p: PageImage, slotId: nat): (r: Option<Record>)
    requires Readable(p, slotId)
    ensures r.Some? <==> !p.slots[slotId].deleted
    ensures r.Some? ==>
      && r.value.pageId == p.pageId && r.value.slotId == slotId
      && |r.value.key| == p.slots[slotId].keySize && |r.value.data| == p.slots[slotId].dataSize
      && r.value.key + r.value.data == p.bytes[p.slots[slotId].offset .. p.slots[slotId].End()]
  {
    var s := p.slots[slotId];
    if s.deleted then None
    else
      var key := p.bytes[s.offset .. s.offset + s.keySize];
      var data := p.bytes[s.offset + s.keySize .. s.End()];
      assert key + data == p.bytes[s.offset .. s.End()];
      Some(Record(p.pageId, slotId, key, data))
  }

  /** The two `memcpy` calls: `key` then `data` written at `at`. */
  function Place(bytes: seq<bv8>, at: nat, key: seq<bv8>, data: seq<bv8>): seq<bv8>
    requires at + |key| + |data| <= |bytes|
  {
    seq(|bytes|, i requires 0 <= i < |bytes| =>
      if at <= i < at + |key| then key[i - at]
      else if at + |key| <= i < at + |key| + |data| then data[i - at - |key|]
      else bytes[i])
  }

  /** `memmove` of the `n` bytes at `src` to `src + delta`. */
  function Moved(bytes: seq<bv8>, src: nat, n: nat, delta: nat): seq<bv8>
    requires src + n + delta <= |bytes|
  {
    seq(|bytes|, i requires 0 <= i < |bytes| =>
      if src + delta <= i < src + delta + n then bytes[i - delta] else bytes[i])
  }

  /** The offset pass: every slot, deleted or not, whose offset is below `bound` moves up by `delta`. */
  function ShiftBelow(slots: seq<Slot>, bound: nat, delta: nat): seq<Slot>
  {
    seq(|slots|, i requires 0 <= i < |slots| =>
      if slots[i].offset < bound then slots[i].(offset := slots[i].offset + delta) else slots[i])
  }

  /**
   * The compaction step shared by delete and shrink: the bytes between the record
   * region's start and `at` move up by `delta`, and so do the offsets below `at`.
   */
  function Compact(p: PageImage, at: nat, delta: nat): PageImage
    requires p.freespaceEnd <= at && at + delta <= |p.bytes|
  {
    p.(bytes := Moved(p.bytes, p.freespaceEnd, at - p.freespaceEnd, delta),
       slots := ShiftBelow(p.slots, at, delta))
  }

  /**
   * `page_insert`, with the slot it fills marked live (see README, Findings):
   * the first deleted slot, or else a new entry at the end of the directory.
   */
  function Insert(p: PageImage, key: seq<bv8>, data: seq<bv8>): (PageImage, Result)
    requires Inv(p) && |key| + |data| < U32_LIMIT
  {
    var payload := |key| + |data|;
    var free := FreeSpace(p);
    if payload > free then (p, Result(NotEnoughSpace, 0))
    else
      var found := FirstDeleted(p.slots);
      if found == -1 && payload + PAGE_SLOT_SIZE > free then (p, Result(NotEnoughSpace, 0))
      else
        var index: nat := if found == -1 then |p.slots| else found;
        var dir := if found == -1 then p.slots + [ZERO_SLOT] else p.slots;
        var at := p.freespaceEnd - payload;
        var slot := dir[index].(offset := at, keySize := |key|, dataSize := |data|, deleted := false);
        (PageImage(p.pageId, at, dir[index := slot], Place(p.bytes, at, key, data)), Result(Ok, index))
  }

  /**
   * `page_insert` as written: neither path writes the deleted flag, so a reused
   * slot stays deleted and a new slot keeps the zero flag of its unused entry.
   */
  function InsertAsWritten(p: PageImage, key: seq<bv8>, data: seq<bv8>): (PageImage, Result)
    requires Inv(p) && |key| + |data| < U32_LIMIT
  {
    var payload := |key| + |data|;
    var free := FreeSpace(p);
    if payload > free then (p, Result(NotEnoughSpace, 0))
    else
      var found := FirstDeleted(p.slots);
      if found == -1 && payload + PAGE_SLOT_SIZE > free then (p, Result(NotEnoughSpace, 0))
      else
        var index: nat := if found == -1 then |p.slots| else found;
        var dir := if found == -1 then p.slots + [ZERO_SLOT] else p.slots;
        var at := p.freespaceEnd - payload;
        var slot := dir[index].(offset := at, keySize := |key|, dataSize := |data|);
        (PageImage(p.pageId, at, dir[index := slot], Place(p.bytes, at, key, data)), Result(Ok, index))
  }

  /**
   * `page_delete`. The bytes left of the record move up over it only when there
   * are any (offset above freespaceEnd; see README, Findings).
   */
  function Delete(p: PageImage, slotId: nat): (PageImage, ReturnCode)
    requires slotId < |p.slots| ==> Placed(p, slotId)
  {
    if slotId >= |p.slots| || p.slots[slotId].deleted then (p, NotFound)
    else
      var s := p.slots[slotId];
      var q := if s.offset > p.freespaceEnd then Compact(p, s.offset, s.Payload()) else p;
      (q.(freespaceEnd := p.freespaceEnd + s.Payload(), slots := q.slots[slotId := s.(deleted := true)]), Ok)
  }

  /** `page_update`: overwrite in place, shrink right-aligned, or delete and place anew in the same slot. */
  function Update(p: PageImage, slotId: nat, key: seq<bv8>, data: seq<bv8>): (PageImage, ReturnCode)
    requires Inv(p) && slotId < |p.slots| && |key| + |data| < INT_LIMIT
  {
    var s := p.slots[slotId];
    var size := |key| + |data|;
    if s.deleted then (p, NotFound)
    else if size == s.Payload() then (Overwrite(p, slotId, key, data), Ok)
    else if size < s.Payload() then (Shrink(p, slotId, key, data), Ok)
    else if size - s.Payload() > FreeSpace(p) then (p, NotEnoughSpace)
    else (Grow(p, slotId, key, data), Ok)
  }

  /** The equal-size path of `page_update`: new sizes, same offset, bytes rewritten in place. */
  function Overwrite(p: PageImage, slotId: nat, key: seq<bv8>, data: seq<bv8>): PageImage
    requires Placed(p, slotId) && !p.slots[slotId].deleted
    requires |key| + |data| == p.slots[slotId].Payload()
  {
    var s := p.slots[slotId];
    p.(slots := p.slots[slotId := s.(keySize := |key|, dataSize := |data|)],
       bytes := Place(p.bytes, s.offset, key, data))
  }

  /**
   * The shrink path of `page_update`: the record is written `n` bytes higher, at
   * the end of its old span, then the bytes below the old span close up by `n`.
   */
  function Shrink(p: PageImage, slotId: nat, key: seq<bv8>, data: seq<bv8>): PageImage
    requires Placed(p, slotId) && !p.slots[slotId].deleted
    requires |key| + |data| < p.slots[slotId].Payload()
  {
    var s := p.slots[slotId];
    var n := s.Payload() - (|key| + |data|);
    var written := p.(bytes := Place(p.bytes, s.offset + n, key, data));
    var q := if s.offset > p.freespaceEnd then Compact(written, s.offset, n) else written;
    q.(freespaceEnd := p.freespaceEnd + n,
       slots := q.slots[slotId := s.(offset := s.offset + n, keySize := |key|, dataSize := |data|)])
  }

  /** The grow path of `page_update`: delete the slot, then place the record at the new region start, live again. */
  function Grow(p: PageImage, slotId: nat, key: seq<bv8>, data: seq<bv8>): PageImage
    requires Inv(p) && slotId < |p.slots| && !p.slots[slotId].deleted
    requires p.slots[slotId].Payload() < |key| + |data| <= p.slots[slotId].Payload() + FreeSpace(p)
  {
    var d := Delete(p, slotId).0;
    var at := d.freespaceEnd - (|key| + |data|);
    var slot := d.slots[slotId].(offset := at, keySize := |key|, dataSize := |data|, deleted := false);
    d.(freespaceEnd := at, slots := d.slots[slotId := slot], bytes := Place(d.bytes, at, key, data))
  }
}
