/** What `page_insert` promises (src/page.c:62-93). */
module InsertLemmas {
  import opened PageLayout
  import opened PageModel
  import opened RecordFacts

  /** Insert fails only for lack of room, and then changes nothing. */
  lemma InsertOutcome(p: PageImage, key: seq<bv8>, data: seq<bv8>)
    requires Inv(p) && |key| + |data| < U32_LIMIT
    ensures var (q, r) := Insert(p, key, data);
      && r.code != NotFound
      && (r.code == NotEnoughSpace <==>
            |key| + |data| > FreeSpace(p)
            || (FirstDeleted(p.slots) == -1 && |key| + |data| + PAGE_SLOT_SIZE > FreeSpace(p)))
      && (r.code == NotEnoughSpace ==> q == p && r.slotId == 0)
  {
  }

  /** A successful insert keeps the page invariant. */
  lemma InsertKeepsInv(p: PageImage, key: seq<bv8>, data: seq<bv8>)
    requires Inv(p) && |key| + |data| < U32_LIMIT
    ensures Inv(Insert(p, key, data).0)
  {
    var (q, r) := Insert(p, key, data);
    if r.code == Ok {
      var id := r.slotId;
      var t := q.slots[id];
      assert q.freespaceEnd + |key| + |data| == p.freespaceEnd;
      assert t.offset == q.freespaceEnd && t.End() == p.freespaceEnd;
      forall i | 0 <= i < |q.slots| && i != id
        ensures q.slots[i] == p.slots[i]
      {
      }
      assert LivePlaced(q) by {
        forall i | 0 <= i < |q.slots| && !q.slots[i].deleted
          ensures q.slots[i].PlacedAbove(q.freespaceEnd)
        {
        }
      }
      assert LiveApart(q) by {
        forall i, j | 0 <= i < |q.slots| && 0 <= j < |q.slots| && i != j && !q.slots[i].deleted && !q.slots[j].deleted
          ensures Apart(q.slots[i], q.slots[j])
        {
          if i != id && j != id {
            assert Apart(p.slots[i], p.slots[j]);
          }
        }
      }
    }
  }

  /**
   * Where a successful insert puts the record: in the first deleted slot (the
   * directory keeps its size) or else in a new last slot; either way at the
   * new start of the record region, which drops by exactly the payload.
   */
  lemma InsertPlacement(p: PageImage, key: seq<bv8>, data: seq<bv8>)
    requires Inv(p) && |key| + |data| < U32_LIMIT
    ensures var (q, r) := Insert(p, key, data);
      var found := FirstDeleted(p.slots);
      r.code == Ok ==>
        && q.pageId == p.pageId
        && (found >= 0 ==> r.slotId == found && |q.slots| == |p.slots|
                           && FreeSpace(q) == FreeSpace(p) - (|key| + |data|))
        && (found == -1 ==> r.slotId == |p.slots| && |q.slots| == |p.slots| + 1
                            && FreeSpace(q) == FreeSpace(p) - (|key| + |data|) - PAGE_SLOT_SIZE)
        && q.freespaceEnd == p.freespaceEnd - (|key| + |data|)
        && q.slots[r.slotId].offset == q.freespaceEnd
        && q.slots[r.slotId].keySize == |key| && q.slots[r.slotId].dataSize == |data|
        && !q.slots[r.slotId].deleted
        && q.bytes[q.freespaceEnd .. p.freespaceEnd] == key + data
  {
    var (q, r) := Insert(p, key, data);
    if r.code == Ok {
      PlacedSpan(p.bytes, q.freespaceEnd, key, data);
    }
  }

  /** Reading back the inserted slot gives the same key and data, on either path. */
  lemma InsertThenGet(p: PageImage, key: seq<bv8>, data: seq<bv8>)
    requires Inv(p) && |key| + |data| < U32_LIMIT
    ensures var (q, r) := Insert(p, key, data);
      Inv(q) && (r.code == Ok ==> r.slotId < |q.slots|)
    ensures var (q, r) := Insert(p, key, data);
      r.code == Ok ==>
        Get(q, r.slotId) == Some(Record(p.pageId, r.slotId, key, data))
  {
    InsertKeepsInv(p, key, data);
    InsertPlacement(p, key, data);
    var (q, r) := Insert(p, key, data);
    if r.code == Ok {
      WrittenRecord(q, r.slotId, key, data);
    }
  }

  /** Every slot other than the one inserted into reads back as it did before. */
  lemma InsertKeepsOthers(p: PageImage, key: seq<bv8>, data: seq<bv8>)
    requires Inv(p) && |key| + |data| < U32_LIMIT
    ensures var (q, r) := Insert(p, key, data);
      Inv(q) && |p.slots| <= |q.slots|
    ensures var (q, r) := Insert(p, key, data);
      forall j :: 0 <= j < |p.slots| && (r.code == Ok ==> j != r.slotId) ==> Get(q, j) == Get(p, j)
  {
    InsertKeepsInv(p, key, data);
    var (q, r) := Insert(p, key, data);
    if r.code == Ok {
      forall j | 0 <= j < |p.slots| && j != r.slotId
        ensures Get(q, j) == Get(p, j)
      {
        PlacedBelowKeeps(p, q, j, q.freespaceEnd, key, data);
      }
    }
  }

  /** A successful insert keeps the region free of gaps: the new record covers exactly the bytes the region gained. */
  lemma InsertKeepsTiled(p: PageImage, key: seq<bv8>, data: seq<bv8>)
    requires Inv(p) && Tiled(p) && |key| + |data| < U32_LIMIT
    ensures Tiled(Insert(p, key, data).0)
  {
    var (q, r) := Insert(p, key, data);
    if r.code == Ok {
      InsertPlacement(p, key, data);
      var id := r.slotId;
      forall b | q.freespaceEnd <= b < PAGE_SIZE
        ensures Covered(q, b)
      {
        if b < p.freespaceEnd {
          assert q.slots[id].offset <= b < q.slots[id].End();
        } else {
          assert Covered(p, b);
          var i :| 0 <= i < |p.slots| && !p.slots[i].deleted && p.slots[i].offset <= b < p.slots[i].End();
          assert q.slots[i] == p.slots[i];
        }
      }
    }
  }

  /** The insert as written agrees with `Insert` in everything but the filled slot's flag, which it leaves as it was. */
  lemma InsertAsWrittenDiffers(p: PageImage, key: seq<bv8>, data: seq<bv8>)
    requires Inv(p) && |key| + |data| < U32_LIMIT
    ensures var (q, r) := Insert(p, key, data);
      var (w, rw) := InsertAsWritten(p, key, data);
      && rw == r && w.pageId == q.pageId && w.freespaceEnd == q.freespaceEnd && w.bytes == q.bytes
      && |w.slots| == |q.slots|
      && (forall j :: 0 <= j < |q.slots| && (r.code == Ok ==> j != r.slotId) ==> w.slots[j] == q.slots[j])
      && (r.code == Ok ==> w.slots[r.slotId] == q.slots[r.slotId].(deleted := FirstDeleted(p.slots) >= 0))
  {
  }

  /**
   * As written, filling a deleted slot loses the record: the slot still reads
   * back nothing, and the bytes just written at the start of the region belong
   * to no live record, so the region has a gap.
   */
  lemma InsertAsWrittenLeavesGap(p: PageImage, key: seq<bv8>, data: seq<bv8>)
    requires Inv(p) && |key| + |data| < U32_LIMIT
    requires FirstDeleted(p.slots) >= 0 && 0 < |key| + |data| <= FreeSpace(p)
    ensures var (w, r) := InsertAsWritten(p, key, data);
      && r == Result(Ok, FirstDeleted(p.slots)) && Readable(w, r.slotId) && Get(w, r.slotId) == None
      && w.freespaceEnd < PAGE_SIZE && !Covered(w, w.freespaceEnd) && !Tiled(w)
  {
    var (w, r) := InsertAsWritten(p, key, data);
    forall i | 0 <= i < |w.slots| && !w.slots[i].deleted
      ensures !(w.slots[i].offset <= w.freespaceEnd < w.slots[i].End())
    {
      assert w.slots[i] == p.slots[i];
    }
  }
}
