/**
 * The page as src/page.c keeps it: a header updated in place, a slot directory
 * and the PAGE_SIZE raw bytes, changed by loops that copy and move bytes and
 * shift offsets. Each operation is proved to do what `PageModel` says.
 */
module SlottedPage {
  import opened PageLayout
  import opened PageModel
  import InsertLemmas
  import DeleteLemmas
  import UpdateLemmas

  /** `dest` with `src` written over it from `at` on. */
  function Splice(dest: seq<bv8>, at: nat, src: seq<bv8>): (r: seq<bv8>)
    requires at + |src| <= |dest|
    ensures |r| == |dest| && r[at .. at + |src|] == src
    ensures r[..at] == dest[..at] && r[at + |src| ..] == dest[at + |src| ..]
  {
    dest[..at] + src + dest[at + |src| ..]
  }

  /** The two `memcpy` calls of a record write together are `Place`. */
  lemma SplicedTwiceIsPlaced(b: seq<bv8>, at: nat, key: seq<bv8>, data: seq<bv8>)
    requires at + |key| + |data| <= |b|
    ensures Splice(Splice(b, at, key), at + |key|, data) == Place(b, at, key, data)
  {
    var once := Splice(b, at, key);
    var twice := Splice(once, at + |key|, data);
    var placed := Place(b, at, key, data);
    forall i | 0 <= i < |b|
      ensures twice[i] == placed[i]
    {
      if i < at {
        assert twice[..at][i] == b[..at][i];
      } else if i < at + |key| {
        assert once[at .. at + |key|][i - at] == key[i - at];
      } else if i < at + |key| + |data| {
        assert twice[at + |key| .. at + |key| + |data|][i - at - |key|] == data[i - at - |key|];
      } else {
        assert twice[at + |key| + |data| ..][i - at - |key| - |data|] == once[at + |key| + |data| ..][i - at - |key| - |data|];
        assert once[at + |key| ..][i - at - |key|] == b[at + |key| ..][i - at - |key|];
      }
    }
  }

  class Page {
    /** The header fields `page_id`, `slot_count` and `freespace_end`. */
    const pageId: nat
    var slotCount: nat
    var freespaceEnd: nat
    /** The slot directory; entries at `slotCount` and beyond are still zero. */
    const dir: array<Slot>
    /** The page's bytes. */
    const raw: array<bv8>

    /** The page as a value, which `PageModel` specifies. */
    ghost function Image(): PageImage
      reads this, dir, raw
      requires slotCount <= dir.Length
    {
      PageImage(pageId, freespaceEnd, dir[..slotCount], raw[..])
    }

    /**
     * The arrays are distinct and sized for the page, the unused directory
     * entries are still zero, and the image keeps the page invariant with no
     * gap in the record region.
     */
    ghost predicate Valid()
      reads this, dir, raw
    {
      && dir as object != raw as object
      && dir.Length == DIR_CAPACITY && raw.Length == PAGE_SIZE && slotCount <= DIR_CAPACITY
      && (forall i :: slotCount <= i < dir.Length ==> dir[i] == ZERO_SLOT)
      && Inv(Image()) && Tiled(Image())
    }

    /** `page_new`: a zeroed page with an empty directory and the whole page free. */
    constructor (pageId: nat)
      requires pageId < U32_LIMIT
      ensures Valid() && fresh(dir) && fresh(raw)
      ensures Image() == NewImage(pageId)
    {
      this.pageId := pageId;
      slotCount := 0;
      freespaceEnd := PAGE_SIZE;
      dir := new Slot[DIR_CAPACITY](_ => ZERO_SLOT);
      raw := new bv8[PAGE_SIZE](_ => 0);
      new;
      assert raw[..] == seq(PAGE_SIZE, _ => 0);
    }

    /** `page_get_slot`: the directory entry of a slot in use, nothing past the slot count. */
    function GetSlot(slotId: nat): (r: Option<Slot>)
      reads this, dir, raw
      requires slotCount <= dir.Length
      ensures r.Some? <==> slotId < |Image().slots|
      ensures r.Some? ==> r.value == Image().slots[slotId]
    {
      if slotId < slotCount then Some(dir[slotId]) else None
    }

    /** `page_get_freespace`: the free bytes between the directory and the record region. */
    function FreeSpace(): (r: nat)
      reads this, dir, raw
      requires Valid()
      ensures r == PageModel.FreeSpace(Image())
      ensures r + PAGE_HDR_SIZE + PAGE_SLOT_SIZE * slotCount <= PAGE_SIZE
    {
      freespaceEnd - (PAGE_HDR_SIZE + slotCount * PAGE_SLOT_SIZE)
    }

    /** `page_find_deleted_slot`: a scan from slot 0 for the first deleted slot; -1 if there is none. */
    method FindDeletedSlot() returns (index: int)
      requires slotCount <= dir.Length
      ensures -1 <= index < slotCount
      ensures index >= 0 ==> dir[index].deleted && forall j :: 0 <= j < index ==> !dir[j].deleted
      ensures index == -1 <==> forall j :: 0 <= j < slotCount ==> !dir[j].deleted
      ensures index == FirstDeleted(Image().slots)
    {
      var i := 0;
      while i < slotCount
        invariant 0 <= i <= slotCount
        invariant forall j :: 0 <= j < i ==> !dir[j].deleted
      {
        if dir[i].deleted {
          return i;
        }
        i := i + 1;
      }
      return -1;
    }

    /** `page_get`: the key and data of a live slot read out of the page; nothing for a deleted one. */
    function Get(slotId: nat): (r: Option<Record>)
      reads this, dir, raw
      requires Valid() && slotId < slotCount
      ensures r == PageModel.Get(Image(), slotId)
    {
      var s := dir[slotId];
      if s.deleted then None
      else
        assert s == Image().slots[slotId] && s.PlacedAbove(freespaceEnd);
        Some(Record(pageId, slotId, raw[s.offset .. s.offset + s.keySize], raw[s.offset + s.keySize .. s.End()]))
    }

    /** `memcpy` of `src` to byte `at` of the page. */
    method Copy(at: nat, src: seq<bv8>)
      requires at + |src| <= raw.Length
      modifies raw
      ensures raw[..] == Splice(old(raw[..]), at, src)
    {
      var i := 0;
      while i < |src|
        invariant 0 <= i <= |src|
        invariant raw[..] == Splice(old(raw[..]), at, src[..i])
      {
        raw[at + i] := src[i];
        i := i + 1;
      }
    }

    /** The two `memcpy` calls that write a record: its key at `at`, then its data right after. */
    method WriteRecord(at: nat, key: seq<bv8>, data: seq<bv8>)
      requires at + |key| + |data| <= raw.Length
      modifies raw
      ensures raw[..] == Place(old(raw[..]), at, key, data)
    {
      Copy(at, key);
      Copy(at + |key|, data);
      SplicedTwiceIsPlaced(old(raw[..]), at, key, data);
    }

    /** `memmove` of the `n` bytes at `src` to `src + delta`, last byte first so that none is overwritten before it is read. */
    method MoveBytes(src: nat, n: nat, delta: nat)
      requires src + n + delta <= raw.Length
      modifies raw
      ensures raw[..] == Moved(old(raw[..]), src, n, delta)
    {
      ghost var orig := raw[..];
      var i := n;
      while i > 0
        invariant 0 <= i <= n
        invariant |orig| == raw.Length
        invariant forall k :: 0 <= k < raw.Length && !(src + delta + i <= k < src + delta + n) ==> raw[k] == orig[k]
        invariant forall k :: src + delta + i <= k < src + delta + n ==> raw[k] == orig[k - delta]
      {
        i := i - 1;
        raw[src + delta + i] := raw[src + i];
      }
      assert raw[..] == Moved(orig, src, n, delta);
    }

    /** The offset pass: every slot in use whose offset is below `bound` moves up by `delta`. */
    method ShiftOffsets(bound: nat, delta: nat)
      requires slotCount <= dir.Length
      modifies dir
      ensures dir[..slotCount] == ShiftBelow(old(dir[..slotCount]), bound, delta)
      ensures dir[slotCount..] == old(dir[slotCount..])
    {
      ghost var orig := dir[..];
      var i := 0;
      while i < slotCount
        invariant 0 <= i <= slotCount
        invariant forall k :: 0 <= k < dir.Length ==>
          dir[k] == if k < i && orig[k].offset < bound then orig[k].(offset := orig[k].offset + delta) else orig[k]
      {
        if dir[i].offset < bound {
          dir[i] := dir[i].(offset := dir[i].offset + delta);
        }
        i := i + 1;
      }
      assert dir[..slotCount] == ShiftBelow(orig[..slotCount], bound, delta);
      assert dir[slotCount..] == orig[slotCount..];
    }

    /**
     * The compaction shared by `page_delete` and the shrinking branch of
     * `page_update`: the bytes from the record region's start up to `at` move
     * up by `delta`, and so do the offsets of the slots below `at`.
     */
    method CloseUp(at: nat, delta: nat)
      requires dir as object != raw as object && slotCount <= dir.Length
      requires freespaceEnd <= at && at + delta <= raw.Length
      modifies dir, raw
      ensures Image() == Compact(old(Image()), at, delta)
      ensures forall i :: slotCount <= i < dir.Length ==> dir[i] == old(dir[i])
    {
      MoveBytes(freespaceEnd, at - freespaceEnd, delta);
      ShiftOffsets(at, delta);
      assert forall i :: slotCount <= i < dir.Length ==> dir[i] == dir[slotCount..][i - slotCount];
    }

    /**
     * `page_insert`: into the first deleted slot if there is one, else into a
     * new slot at the end of the directory; the record goes at the new start of
     * the record region.
     */
    method Insert(key: seq<bv8>, data: seq<bv8>) returns (r: Result)
      requires Valid() && |key| + |data| < U32_LIMIT
      modifies this, dir, raw
      ensures slotCount <= dir.Length && (Image(), r) == PageModel.Insert(old(Image()), key, data)
      ensures Valid()
    {
      ghost var p := Image();
      InsertLemmas.InsertKeepsInv(p, key, data);
      InsertLemmas.InsertKeepsTiled(p, key, data);
      var freespace := FreeSpace();
      var payload := |key| + |data|;
      if payload > freespace {
        return Result(NotEnoughSpace, 0);
      }
      var index := FindDeletedSlot();
      if index == -1 {
        if payload + PAGE_SLOT_SIZE > freespace {
          return Result(NotEnoughSpace, 0);
        }
        index := slotCount;
        slotCount := slotCount + 1;
        assert dir[..slotCount] == p.slots + [ZERO_SLOT];
      }
      AddRecord(index, key, data);
      r := Result(Ok, index);
    }

    /**
     * The tail of `page_insert`: slot `index` takes the record's offset and
     * sizes and is marked live, the record is written at the new start of the
     * record region, and the region grows down over it.
     */
    method AddRecord(index: nat, key: seq<bv8>, data: seq<bv8>)
      requires dir as object != raw as object
      requires index < slotCount <= dir.Length && |key| + |data| <= freespaceEnd <= raw.Length
      modifies this, dir, raw
      ensures slotCount == old(slotCount) && forall i :: slotCount <= i < dir.Length ==> dir[i] == old(dir[i])
      ensures var p, at := old(Image()), old(freespaceEnd) - (|key| + |data|);
        Image() == PageImage(p.pageId, at, p.slots[index := p.slots[index].(offset := at, keySize := |key|, dataSize := |data|, deleted := false)],
                             Place(p.bytes, at, key, data))
    {
      ghost var slots := dir[..slotCount];
      var offset := freespaceEnd - (|key| + |data|);
      dir[index] := dir[index].(offset := offset, keySize := |key|, dataSize := |data|, deleted := false);
      assert dir[..slotCount] == slots[index := dir[index]];
      WriteRecord(offset, key, data);
      freespaceEnd := offset;
    }

    /**
     * `page_delete`: close up the bytes below the record over it, move the
     * offsets below it up by as much, and mark the slot deleted.
     */
    method Delete(slotId: nat) returns (rc: ReturnCode)
      requires Valid()
      modifies this, dir, raw
      ensures slotCount <= dir.Length && (Image(), rc) == PageModel.Delete(old(Image()), slotId)
      ensures Valid()
    {
      ghost var p := Image();
      DeleteLemmas.DeleteKeepsInv(p, slotId);
      DeleteLemmas.DeleteKeepsTiled(p, slotId);
      var slot := GetSlot(slotId);
      if slot.None? || slot.value.deleted {
        return NotFound;
      }
      var s := slot.value;
      var payload := s.Payload();
      if s.offset > freespaceEnd {
        CloseUp(s.offset, payload);
      }
      ghost var q := Image();
      dir[slotId] := dir[slotId].(deleted := true);
      assert dir[..slotCount] == q.slots[slotId := s.(deleted := true)];
      freespaceEnd := freespaceEnd + payload;
      rc := Ok;
    }

    /**
     * `page_update`: same size, overwrite in place; smaller, write at the top of
     * the old span and close up the bytes below; larger, delete the record and
     * place it anew in the same slot.
     */
    method Update(slotId: nat, key: seq<bv8>, data: seq<bv8>) returns (rc: ReturnCode)
      requires Valid() && slotId < slotCount && |key| + |data| < INT_LIMIT
      modifies this, dir, raw
      ensures slotCount <= dir.Length && (Image(), rc) == PageModel.Update(old(Image()), slotId, key, data)
      ensures Valid()
    {
      ghost var p := Image();
      UpdateLemmas.UpdateKeepsInv(p, slotId, key, data);
      UpdateLemmas.UpdateKeepsTiled(p, slotId, key, data);
      var s := dir[slotId];
      if s.deleted {
        return NotFound;
      }
      var currSize := s.Payload();
      var newSize := |key| + |data|;
      if newSize == currSize {
        OverwriteRecord(slotId, key, data);
      } else if newSize < currSize {
        ShrinkRecord(slotId, key, data);
      } else {
        var extra := newSize - currSize;
        if extra > FreeSpace() {
          return NotEnoughSpace;
        }
        GrowRecord(slotId, key, data);
      }
      rc := Ok;
    }

    /** The equal-size branch of `page_update`: new sizes, and the record rewritten where it was. */
    method OverwriteRecord(slotId: nat, key: seq<bv8>, data: seq<bv8>)
      requires dir as object != raw as object && raw.Length == PAGE_SIZE && slotCount <= dir.Length && Placed(Image(), slotId)
      requires slotId < slotCount && !dir[slotId].deleted
      requires |key| + |data| == dir[slotId].Payload()
      modifies dir, raw
      ensures slotCount <= dir.Length
      ensures Image() == PageModel.Overwrite(old(Image()), slotId, key, data)
      ensures forall i :: slotCount <= i < dir.Length ==> dir[i] == old(dir[i])
    {
      ghost var p := Image();
      var s := dir[slotId];
      assert s == p.slots[slotId] && s.PlacedAbove(freespaceEnd);
      dir[slotId] := s.(keySize := |key|, dataSize := |data|);
      WriteRecord(s.offset, key, data);
      assert dir[..slotCount] == p.slots[slotId := s.(keySize := |key|, dataSize := |data|)];
    }

    /**
     * The shrinking branch of `page_update`: the record is written `n` bytes
     * higher, at the top of its old span; then the bytes and offsets below the
     * old span move up by `n` when there are any.
     */
    method ShrinkRecord(slotId: nat, key: seq<bv8>, data: seq<bv8>)
      requires dir as object != raw as object && raw.Length == PAGE_SIZE && slotCount <= dir.Length && Placed(Image(), slotId)
      requires slotId < slotCount && !dir[slotId].deleted
      requires |key| + |data| < dir[slotId].Payload()
      modifies this, dir, raw
      ensures slotCount == old(slotCount) && slotCount <= dir.Length
      ensures Image() == PageModel.Shrink(old(Image()), slotId, key, data)
      ensures forall i :: slotCount <= i < dir.Length ==> dir[i] == old(dir[i])
    {
      ghost var p := Image();
      var s := dir[slotId];
      assert s == p.slots[slotId];
      var n := s.Payload() - (|key| + |data|);
      var newOffset := s.offset + n;
      WriteRecord(newOffset, key, data);
      ghost var w := p.(bytes := Place(p.bytes, newOffset, key, data));
      assert Image() == w;
      ghost var c := if s.offset > p.freespaceEnd then Compact(w, s.offset, n) else w;
      if s.offset > freespaceEnd {
        CloseUp(s.offset, n);
      }
      assert Image() == c;
      var slot := s.(offset := newOffset, keySize := |key|, dataSize := |data|);
      assert PageModel.Shrink(p, slotId, key, data) == c.(freespaceEnd := p.freespaceEnd + n, slots := c.slots[slotId := slot]);
      SetSlot(slotId, slot, freespaceEnd + n);
    }

    /** One directory entry and the start of the record region set together; the bytes stay. */
    method SetSlot(slotId: nat, slot: Slot, start: nat)
      requires dir as object != raw as object && slotId < slotCount <= dir.Length
      modifies this, dir
      ensures slotCount == old(slotCount) && forall i :: slotCount <= i < dir.Length ==> dir[i] == old(dir[i])
      ensures Image() == old(Image()).(freespaceEnd := start, slots := old(Image()).slots[slotId := slot])
    {
      ghost var slots := dir[..slotCount];
      dir[slotId] := slot;
      freespaceEnd := start;
      assert dir[..slotCount] == slots[slotId := slot];
    }

    /**
     * The growing branch of `page_update`: delete the record, then give the same
     * slot, live again, the new record at the new start of the record region.
     */
    method GrowRecord(slotId: nat, key: seq<bv8>, data: seq<bv8>)
      requires Valid() && slotId < slotCount && !dir[slotId].deleted
      requires dir[slotId].Payload() < |key| + |data| <= dir[slotId].Payload() + FreeSpace()
      modifies this, dir, raw
      ensures slotCount == old(slotCount) && slotCount <= dir.Length
      ensures Image() == PageModel.Grow(old(Image()), slotId, key, data)
      ensures forall i :: slotCount <= i < dir.Length ==> dir[i] == old(dir[i])
    {
      ghost var p := Image();
      var newSize := |key| + |data|;
      var rc1 := Delete(slotId);
      assert rc1 == Ok && dir[slotId].deleted;
      ghost var d := Image();
      var offset := freespaceEnd - newSize;
      dir[slotId] := dir[slotId].(offset := offset, keySize := |key|, dataSize := |data|, deleted := false);
      assert dir[..slotCount] == d.slots[slotId := dir[slotId]];
      freespaceEnd := freespaceEnd - newSize;
      WriteRecord(offset, key, data);
    }
  }
}
