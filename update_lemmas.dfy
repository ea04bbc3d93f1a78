/** What `page_update` promises (src/page.c:127-198). */
module UpdateLemmas {
  import opened PageLayout
  import opened PageModel
  import opened RecordFacts
  import opened DeleteLemmas

  /** Update fails on a deleted slot, or on a grow that does not fit; either way nothing changes. */
  lemma UpdateOutcome(p: PageImage, slotId: nat, key: seq<bv8>, data: seq<bv8>)
    requires Inv(p) && slotId < |p.slots| && |key| + |data| < INT_LIMIT
    ensures var (q, rc) := Update(p, slotId, key, data);
      var s := p.slots[slotId];
      && (rc == NotFound <==> s.deleted)
      && (rc == NotEnoughSpace <==>
            !s.deleted && |key| + |data| > s.Payload() && |key| + |data| - s.Payload() > FreeSpace(p))
      && (rc != Ok ==> q == p)
  {
  }

  /** A successful update keeps the page invariant, whichever of the three paths it takes. */
  lemma UpdateKeepsInv(p: PageImage, slotId: nat, key: seq<bv8>, data: seq<bv8>)
    requires Inv(p) && slotId < |p.slots| && |key| + |data| < INT_LIMIT
    ensures Inv(Update(p, slotId, key, data).0)
  {
    var t := p.slots[slotId];
    var size := |key| + |data|;
    if !t.deleted {
      if size == t.Payload() {
        OverwriteKeepsInv(p, slotId, key, data);
      } else if size < t.Payload() {
        ShrinkKeepsInv(p, slotId, key, data);
      } else if size - t.Payload() <= FreeSpace(p) {
        GrowKeepsInv(p, slotId, key, data);
      }
    }
  }

  /** The equal-size path: the slot's span does not change, only how it splits into key and data. */
  lemma OverwriteKeepsInv(p: PageImage, slotId: nat, key: seq<bv8>, data: seq<bv8>)
    requires Inv(p) && slotId < |p.slots| && !p.slots[slotId].deleted
    requires |key| + |data| == p.slots[slotId].Payload()
    ensures Inv(Overwrite(p, slotId, key, data))
  {
    var q := Overwrite(p, slotId, key, data);
    assert LivePlaced(q) by {
      forall j | 0 <= j < |q.slots| && !q.slots[j].deleted
        ensures q.slots[j].PlacedAbove(q.freespaceEnd)
      {
        assert p.slots[j].PlacedAbove(p.freespaceEnd);
      }
    }
    assert LiveApart(q) by {
      forall i, j | 0 <= i < |q.slots| && 0 <= j < |q.slots| && i != j && !q.slots[i].deleted && !q.slots[j].deleted
        ensures Apart(q.slots[i], q.slots[j])
      {
        assert Apart(p.slots[i], p.slots[j]);
      }
    }
  }

  /**
   * The shrink path's slots: the record's own slot moves `n` higher with its new
   * sizes, and the slots below it move `n` higher when bytes were moved.
   */
  lemma ShrinkSlots(p: PageImage, slotId: nat, key: seq<bv8>, data: seq<bv8>)
    requires Placed(p, slotId) && !p.slots[slotId].deleted
    requires |key| + |data| < p.slots[slotId].Payload()
    ensures var q := Shrink(p, slotId, key, data);
      var t := p.slots[slotId];
      var n := t.Payload() - (|key| + |data|);
      && q.pageId == p.pageId && |q.slots| == |p.slots|
      && q.freespaceEnd == p.freespaceEnd + n
      && q.slots[slotId] == t.(offset := t.offset + n, keySize := |key|, dataSize := |data|)
      && (forall j :: 0 <= j < |p.slots| && j != slotId ==>
            q.slots[j] == if t.offset > p.freespaceEnd && p.slots[j].offset < t.offset
                          then p.slots[j].(offset := p.slots[j].offset + n) else p.slots[j])
  {
  }

  /** The shrink path keeps the invariant: the record stays right-aligned in its old span and the bytes below close up. */
  lemma ShrinkKeepsInv(p: PageImage, slotId: nat, key: seq<bv8>, data: seq<bv8>)
    requires Inv(p) && slotId < |p.slots| && !p.slots[slotId].deleted
    requires |key| + |data| < p.slots[slotId].Payload()
    ensures Inv(Shrink(p, slotId, key, data))
  {
    ShrinkSlots(p, slotId, key, data);
    var q := Shrink(p, slotId, key, data);
    assert FieldsFit(q) by {
      forall j | 0 <= j < |q.slots|
        ensures q.slots[j].Fits()
      {
        assert p.slots[j].Fits();
      }
    }
    ShrinkKeepsPlaced(p, slotId, key, data);
    ShrinkKeepsApart(p, slotId, key, data);
  }

  /** After a shrink every live record still lies in the (shorter) record region. */
  lemma ShrinkKeepsPlaced(p: PageImage, slotId: nat, key: seq<bv8>, data: seq<bv8>)
    requires Inv(p) && slotId < |p.slots| && !p.slots[slotId].deleted
    requires |key| + |data| < p.slots[slotId].Payload()
    ensures LivePlaced(Shrink(p, slotId, key, data))
  {
    var q := Shrink(p, slotId, key, data);
    var t := p.slots[slotId];
    assert |q.slots| == |p.slots|;
    forall j | 0 <= j < |q.slots| && !q.slots[j].deleted
      ensures q.slots[j].PlacedAbove(q.freespaceEnd)
    {
      if j != slotId {
        ShrinkSlotOf(p, slotId, key, data, j);
        var s := p.slots[j];
        assert s.PlacedAbove(p.freespaceEnd) && Apart(s, t);
        if s.Payload() > 0 {
          NeighbourSide(p.freespaceEnd, t, s);
        }
      } else {
        ShrinkSlots(p, slotId, key, data);
      }
    }
  }

  /** After a shrink no two live records share a byte. */
  lemma ShrinkKeepsApart(p: PageImage, slotId: nat, key: seq<bv8>, data: seq<bv8>)
    requires Inv(p) && slotId < |p.slots| && !p.slots[slotId].deleted
    requires |key| + |data| < p.slots[slotId].Payload()
    ensures LiveApart(Shrink(p, slotId, key, data))
  {
    var q := Shrink(p, slotId, key, data);
    var t := p.slots[slotId];
    assert |q.slots| == |p.slots|;
    forall i, j | 0 <= i < |q.slots| && 0 <= j < |q.slots| && i != j && !q.slots[i].deleted && !q.slots[j].deleted
      ensures Apart(q.slots[i], q.slots[j])
    {
      var a, b := p.slots[i], p.slots[j];
      assert Apart(a, b);
      if i == slotId || j == slotId {
        ShrinkSlots(p, slotId, key, data);
      }
      if i != slotId {
        ShrinkSlotOf(p, slotId, key, data, i);
      }
      if j != slotId {
        ShrinkSlotOf(p, slotId, key, data, j);
      }
      if a.Payload() > 0 && i != slotId {
        assert a.PlacedAbove(p.freespaceEnd) && Apart(t, a);
        NeighbourSide(p.freespaceEnd, t, a);
      }
      if b.Payload() > 0 && j != slotId {
        assert b.PlacedAbove(p.freespaceEnd) && Apart(t, b);
        NeighbourSide(p.freespaceEnd, t, b);
      }
    }
  }

  /** The grow path keeps the invariant: delete, then place the record anew below every live record. */
  lemma GrowKeepsInv(p: PageImage, slotId: nat, key: seq<bv8>, data: seq<bv8>)
    requires Inv(p) && slotId < |p.slots| && !p.slots[slotId].deleted
    requires p.slots[slotId].Payload() < |key| + |data| <= p.slots[slotId].Payload() + FreeSpace(p)
    ensures Inv(Grow(p, slotId, key, data))
  {
    var d := Delete(p, slotId).0;
    DeleteKeepsInv(p, slotId);
    DeleteShiftsLeftNeighbours(p, slotId);
    PlacedBelowKeepsInv(d, slotId, d.freespaceEnd - (|key| + |data|), key, data);
  }

  /**
   * Giving a slot a live record placed just below the record region, inside the
   * free space, keeps the invariant.
   */
  lemma PlacedBelowKeepsInv(d: PageImage, slotId: nat, at: nat, key: seq<bv8>, data: seq<bv8>)
    requires Inv(d) && slotId < |d.slots| && d.slots[slotId].deleted
    requires DirEnd(|d.slots|) <= at && at + |key| + |data| == d.freespaceEnd
    ensures var slot := d.slots[slotId].(offset := at, keySize := |key|, dataSize := |data|, deleted := false);
      Inv(d.(freespaceEnd := at, slots := d.slots[slotId := slot], bytes := Place(d.bytes, at, key, data)))
  {
    var slot := d.slots[slotId].(offset := at, keySize := |key|, dataSize := |data|, deleted := false);
    var q := d.(freespaceEnd := at, slots := d.slots[slotId := slot], bytes := Place(d.bytes, at, key, data));
    assert LivePlaced(q) by {
      forall j | 0 <= j < |q.slots| && !q.slots[j].deleted
        ensures q.slots[j].PlacedAbove(q.freespaceEnd)
      {
        if j != slotId {
          assert d.slots[j].PlacedAbove(d.freespaceEnd);
        }
      }
    }
    assert LiveApart(q) by {
      forall i, j | 0 <= i < |q.slots| && 0 <= j < |q.slots| && i != j && !q.slots[i].deleted && !q.slots[j].deleted
        ensures Apart(q.slots[i], q.slots[j])
      {
        if i != slotId && j != slotId {
          assert Apart(d.slots[i], d.slots[j]);
        } else if i != slotId {
          assert d.slots[i].PlacedAbove(d.freespaceEnd);
        } else {
          assert d.slots[j].PlacedAbove(d.freespaceEnd);
        }
      }
    }
  }

  /** A successful update keeps the region free of gaps, whichever of the three paths it takes. */
  lemma UpdateKeepsTiled(p: PageImage, slotId: nat, key: seq<bv8>, data: seq<bv8>)
    requires Inv(p) && Tiled(p) && slotId < |p.slots| && |key| + |data| < INT_LIMIT
    ensures Tiled(Update(p, slotId, key, data).0)
  {
    var t := p.slots[slotId];
    var size := |key| + |data|;
    if !t.deleted {
      if size == t.Payload() {
        OverwriteKeepsTiled(p, slotId, key, data);
      } else if size < t.Payload() {
        ShrinkKeepsTiled(p, slotId, key, data);
      } else if size - t.Payload() <= FreeSpace(p) {
        GrowKeepsTiled(p, slotId, key, data);
      }
    }
  }

  /** The equal-size path keeps every span, so every byte keeps its owner. */
  lemma OverwriteKeepsTiled(p: PageImage, slotId: nat, key: seq<bv8>, data: seq<bv8>)
    requires Inv(p) && Tiled(p) && slotId < |p.slots| && !p.slots[slotId].deleted
    requires |key| + |data| == p.slots[slotId].Payload()
    ensures Tiled(Overwrite(p, slotId, key, data))
  {
    var q := Overwrite(p, slotId, key, data);
    forall b | q.freespaceEnd <= b < PAGE_SIZE
      ensures Covered(q, b)
    {
      assert Covered(p, b);
      var i :| 0 <= i < |p.slots| && !p.slots[i].deleted && p.slots[i].offset <= b < p.slots[i].End();
      assert q.slots[i].offset == p.slots[i].offset && q.slots[i].End() == p.slots[i].End();
    }
  }

  /**
   * The shrink path keeps the region free of gaps: the top of the old span holds
   * the new record, and the bytes moved up below it are owned by the records
   * that moved with them.
   */
  lemma ShrinkKeepsTiled(p: PageImage, slotId: nat, key: seq<bv8>, data: seq<bv8>)
    requires Inv(p) && Tiled(p) && slotId < |p.slots| && !p.slots[slotId].deleted
    requires |key| + |data| < p.slots[slotId].Payload()
    ensures Tiled(Shrink(p, slotId, key, data))
  {
    var q := Shrink(p, slotId, key, data);
    var t := p.slots[slotId];
    var n := t.Payload() - (|key| + |data|);
    ShrinkSlots(p, slotId, key, data);
    forall b | q.freespaceEnd <= b < PAGE_SIZE
      ensures Covered(q, b)
    {
      if t.offset + n <= b < t.End() {
        assert q.slots[slotId].offset <= b < q.slots[slotId].End();
      } else {
        var c := if b >= t.End() then b else b - n;
        assert Covered(p, c);
        var i :| 0 <= i < |p.slots| && !p.slots[i].deleted && p.slots[i].offset <= c < p.slots[i].End();
        ShrinkSlotOf(p, slotId, key, data, i);
        var s := p.slots[i];
        NeighbourSide(p.freespaceEnd, t, s);
        assert q.slots[i].offset <= b < q.slots[i].End();
      }
    }
  }

  /** The grow path keeps the region free of gaps: the delete does, and the new record covers what the region gains. */
  lemma GrowKeepsTiled(p: PageImage, slotId: nat, key: seq<bv8>, data: seq<bv8>)
    requires Inv(p) && Tiled(p) && slotId < |p.slots| && !p.slots[slotId].deleted
    requires p.slots[slotId].Payload() < |key| + |data| <= p.slots[slotId].Payload() + FreeSpace(p)
    ensures Tiled(Grow(p, slotId, key, data))
  {
    var d := Delete(p, slotId).0;
    var q := Grow(p, slotId, key, data);
    DeleteKeepsTiled(p, slotId);
    DeleteShiftsLeftNeighbours(p, slotId);
    forall b | q.freespaceEnd <= b < PAGE_SIZE
      ensures Covered(q, b)
    {
      if b < d.freespaceEnd {
        assert q.slots[slotId].offset <= b < q.slots[slotId].End();
      } else {
        assert Covered(d, b);
        var i :| 0 <= i < |d.slots| && !d.slots[i].deleted && d.slots[i].offset <= b < d.slots[i].End();
        assert q.slots[i] == d.slots[i];
      }
    }
  }

  /** After a successful update the slot reads back as the new key and data, under the same slot id. */
  lemma UpdateThenGet(p: PageImage, slotId: nat, key: seq<bv8>, data: seq<bv8>)
    requires Inv(p) && slotId < |p.slots| && |key| + |data| < INT_LIMIT
    ensures var (q, rc) := Update(p, slotId, key, data);
      Inv(q) && |q.slots| == |p.slots|
    ensures var (q, rc) := Update(p, slotId, key, data);
      rc == Ok ==> Get(q, slotId) == Some(Record(p.pageId, slotId, key, data))
  {
    UpdateKeepsInv(p, slotId, key, data);
    var (q, rc) := Update(p, slotId, key, data);
    if rc == Ok {
      UpdateWritesRecord(p, slotId, key, data);
      WrittenRecord(q, slotId, key, data);
    }
  }

  /** On every successful path the slot ends up live with the new sizes over a span holding key then data. */
  lemma UpdateWritesRecord(p: PageImage, slotId: nat, key: seq<bv8>, data: seq<bv8>)
    requires Inv(p) && slotId < |p.slots| && |key| + |data| < INT_LIMIT
    requires Update(p, slotId, key, data).1 == Ok
    ensures var q := Update(p, slotId, key, data).0;
      WrittenAt(p, q, slotId, key, data)
  {
    var t := p.slots[slotId];
    var size := |key| + |data|;
    if size == t.Payload() {
      PlacedSpan(p.bytes, t.offset, key, data);
    } else if size < t.Payload() {
      ShrinkWritesRecord(p, slotId, key, data);
    } else {
      GrowWritesRecord(p, slotId, key, data);
    }
  }

  /** Slot `slotId` of `q` is live, has the sizes of `key` and `data`, and its span in `q` holds them. */
  ghost predicate WrittenAt(p: PageImage, q: PageImage, slotId: nat, key: seq<bv8>, data: seq<bv8>)
  {
    var s := if slotId < |q.slots| then q.slots[slotId] else ZERO_SLOT;
    && |q.slots| == |p.slots| && q.pageId == p.pageId && slotId < |q.slots|
    && !s.deleted && s.keySize == |key| && s.dataSize == |data| && s.End() <= |q.bytes|
    && q.bytes[s.offset .. s.End()] == key + data
  }

  /** The shrink path writes the record at the top of its old span, above the bytes it moves. */
  lemma ShrinkWritesRecord(p: PageImage, slotId: nat, key: seq<bv8>, data: seq<bv8>)
    requires Placed(p, slotId) && !p.slots[slotId].deleted
    requires |key| + |data| < p.slots[slotId].Payload()
    ensures WrittenAt(p, Shrink(p, slotId, key, data), slotId, key, data)
  {
    var t := p.slots[slotId];
    var n := t.Payload() - (|key| + |data|);
    var w := Place(p.bytes, t.offset + n, key, data);
    ShrinkSlots(p, slotId, key, data);
    ShrinkBytes(p, slotId, key, data);
    PlacedSpan(p.bytes, t.offset + n, key, data);
    if t.offset > p.freespaceEnd {
      MovedAside(w, p.freespaceEnd, t.offset - p.freespaceEnd, n, t.offset + n, |key| + |data|);
    }
  }

  /** The grow path writes the record at the new start of the record region. */
  lemma GrowWritesRecord(p: PageImage, slotId: nat, key: seq<bv8>, data: seq<bv8>)
    requires Inv(p) && slotId < |p.slots| && !p.slots[slotId].deleted
    requires p.slots[slotId].Payload() < |key| + |data| <= p.slots[slotId].Payload() + FreeSpace(p)
    ensures WrittenAt(p, Grow(p, slotId, key, data), slotId, key, data)
  {
    var q := Grow(p, slotId, key, data);
    var d := Delete(p, slotId).0;
    DeleteShiftsLeftNeighbours(p, slotId);
    assert q.bytes == Place(d.bytes, q.freespaceEnd, key, data);
    PlacedSpan(d.bytes, q.freespaceEnd, key, data);
  }

  /** Every other slot reads back as before the update, on every path. */
  lemma UpdateKeepsOthers(p: PageImage, slotId: nat, key: seq<bv8>, data: seq<bv8>)
    requires Inv(p) && slotId < |p.slots| && |key| + |data| < INT_LIMIT
    ensures var (q, rc) := Update(p, slotId, key, data);
      Inv(q) && |q.slots| == |p.slots|
    ensures var (q, rc) := Update(p, slotId, key, data);
      forall j :: 0 <= j < |p.slots| && j != slotId ==> Get(q, j) == Get(p, j)
  {
    UpdateKeepsInv(p, slotId, key, data);
    var (q, rc) := Update(p, slotId, key, data);
    var t := p.slots[slotId];
    if rc == Ok {
      forall j | 0 <= j < |p.slots| && j != slotId
        ensures Get(q, j) == Get(p, j)
      {
        if |key| + |data| == t.Payload() {
          OverwriteKeepsRecord(p, slotId, key, data, j);
        } else if |key| + |data| < t.Payload() {
          ShrinkKeepsRecord(p, slotId, key, data, j);
        } else {
          GrowKeepsRecord(p, slotId, key, data, j);
        }
      }
    }
  }

  /** The equal-size path rewrites only its own span, which no other live record shares. */
  lemma OverwriteKeepsRecord(p: PageImage, slotId: nat, key: seq<bv8>, data: seq<bv8>, j: nat)
    requires Placed(p, slotId) && !p.slots[slotId].deleted
    requires |key| + |data| == p.slots[slotId].Payload()
    requires Placed(p, j) && j != slotId
    requires !p.slots[j].deleted ==> Apart(p.slots[slotId], p.slots[j])
    ensures Readable(Overwrite(p, slotId, key, data), j)
    ensures Get(Overwrite(p, slotId, key, data), j) == Get(p, j)
  {
    var q := Overwrite(p, slotId, key, data);
    var t, s := p.slots[slotId], p.slots[j];
    if !s.deleted && s.Payload() > 0 {
      PlacedAside(p.bytes, t.offset, key, data, s.offset, s.Payload());
    }
    SameRecord(p, q, j);
  }

  /** The shrink path moves another record's bytes exactly as far as its offset, or moves neither. */
  lemma ShrinkKeepsRecord(p: PageImage, slotId: nat, key: seq<bv8>, data: seq<bv8>, j: nat)
    requires Placed(p, slotId) && !p.slots[slotId].deleted
    requires |key| + |data| < p.slots[slotId].Payload()
    requires Placed(p, j) && j != slotId
    requires !p.slots[j].deleted ==> Apart(p.slots[slotId], p.slots[j])
    ensures Readable(Shrink(p, slotId, key, data), j)
    ensures Get(Shrink(p, slotId, key, data), j) == Get(p, j)
  {
    ShrinkSlots(p, slotId, key, data);
    if !p.slots[j].deleted {
      ShrinkMovesRecord(p, slotId, key, data, j);
    }
    SameRecord(p, Shrink(p, slotId, key, data), j);
  }

  /** The bytes of another live record after a shrink: where its offset now points, as they were. */
  lemma ShrinkMovesRecord(p: PageImage, slotId: nat, key: seq<bv8>, data: seq<bv8>, j: nat)
    requires Placed(p, slotId) && !p.slots[slotId].deleted
    requires |key| + |data| < p.slots[slotId].Payload()
    requires Placed(p, j) && j != slotId && !p.slots[j].deleted
    requires Apart(p.slots[slotId], p.slots[j])
    ensures var q, s := Shrink(p, slotId, key, data), p.slots[j];
      j < |q.slots| && q.slots[j].End() <= |q.bytes|
      && q.bytes[q.slots[j].offset .. q.slots[j].End()] == p.bytes[s.offset .. s.End()]
  {
    ShrinkSlotOf(p, slotId, key, data, j);
    ShrinkBytes(p, slotId, key, data);
    var t, s := p.slots[slotId], p.slots[j];
    var n := t.Payload() - (|key| + |data|);
    if s.Payload() > 0 {
      NeighbourSide(p.freespaceEnd, t, s);
      if t.offset <= p.freespaceEnd {
        PlacedAside(p.bytes, t.offset + n, key, data, s.offset, s.Payload());
      } else if s.offset < t.offset {
        ShrinkMovesSpanBelow(p.bytes, p.freespaceEnd, t, s, key, data);
      } else {
        ShrinkKeepsSpanAbove(p.bytes, p.freespaceEnd, t, s, key, data);
      }
    }
  }

  /** Where a shrink leaves one other slot: `n` higher when bytes were moved and it lay below, else where it was. */
  lemma ShrinkSlotOf(p: PageImage, slotId: nat, key: seq<bv8>, data: seq<bv8>, j: nat)
    requires Placed(p, slotId) && !p.slots[slotId].deleted
    requires |key| + |data| < p.slots[slotId].Payload()
    requires j < |p.slots| && j != slotId
    ensures var q, t, s := Shrink(p, slotId, key, data), p.slots[slotId], p.slots[j];
      && |q.slots| == |p.slots| && |q.bytes| == |p.bytes|
      && q.slots[j] == if t.offset > p.freespaceEnd && s.offset < t.offset
                       then s.(offset := s.offset + (t.Payload() - (|key| + |data|))) else s
  {
  }

  /** A record below the shrunk one: after the write and the move its bytes sit `n` higher. */
  lemma ShrinkMovesSpanBelow(bytes: seq<bv8>, freespaceEnd: nat, t: Slot, s: Slot, key: seq<bv8>, data: seq<bv8>)
    requires |bytes| == PAGE_SIZE && freespaceEnd < t.offset && t.End() <= PAGE_SIZE
    requires |key| + |data| < t.Payload()
    requires freespaceEnd <= s.offset && s.End() <= t.offset
    ensures var n := t.Payload() - (|key| + |data|);
      var b := Moved(Place(bytes, t.offset + n, key, data), freespaceEnd, t.offset - freespaceEnd, n);
      b[s.offset + n .. s.End() + n] == bytes[s.offset .. s.End()]
  {
    var n := t.Payload() - (|key| + |data|);
    var w := Place(bytes, t.offset + n, key, data);
    PlacedAside(bytes, t.offset + n, key, data, s.offset, s.Payload());
    MovedSpan(w, freespaceEnd, t.offset - freespaceEnd, n, s.offset, s.Payload());
  }

  /** A record above the shrunk one: neither the write nor the move touches its bytes. */
  lemma ShrinkKeepsSpanAbove(bytes: seq<bv8>, freespaceEnd: nat, t: Slot, s: Slot, key: seq<bv8>, data: seq<bv8>)
    requires |bytes| == PAGE_SIZE && freespaceEnd < t.offset && t.End() <= PAGE_SIZE
    requires |key| + |data| < t.Payload()
    requires t.End() <= s.offset && s.End() <= PAGE_SIZE
    ensures var n := t.Payload() - (|key| + |data|);
      var b := Moved(Place(bytes, t.offset + n, key, data), freespaceEnd, t.offset - freespaceEnd, n);
      b[s.offset .. s.End()] == bytes[s.offset .. s.End()]
  {
    var n := t.Payload() - (|key| + |data|);
    var w := Place(bytes, t.offset + n, key, data);
    PlacedAside(bytes, t.offset + n, key, data, s.offset, s.Payload());
    MovedAside(w, freespaceEnd, t.offset - freespaceEnd, n, s.offset, s.Payload());
  }

  /** The bytes after a shrink: the record written at the top of its old span, then the region below moved up when there is one. */
  lemma ShrinkBytes(p: PageImage, slotId: nat, key: seq<bv8>, data: seq<bv8>)
    requires Placed(p, slotId) && !p.slots[slotId].deleted
    requires |key| + |data| < p.slots[slotId].Payload()
    ensures var t := p.slots[slotId];
      var n := t.Payload() - (|key| + |data|);
      var w := Place(p.bytes, t.offset + n, key, data);
      Shrink(p, slotId, key, data).bytes ==
        if t.offset > p.freespaceEnd then Moved(w, p.freespaceEnd, t.offset - p.freespaceEnd, n) else w
  {
  }

  /** The grow path leaves another record readable as before: delete keeps it, and the new bytes go below it. */
  lemma GrowKeepsRecord(p: PageImage, slotId: nat, key: seq<bv8>, data: seq<bv8>, j: nat)
    requires Inv(p) && slotId < |p.slots| && !p.slots[slotId].deleted
    requires p.slots[slotId].Payload() < |key| + |data| <= p.slots[slotId].Payload() + FreeSpace(p)
    requires j < |p.slots| && j != slotId
    ensures Readable(Grow(p, slotId, key, data), j)
    ensures Get(Grow(p, slotId, key, data), j) == Get(p, j)
  {
    var q := Grow(p, slotId, key, data);
    var d := Delete(p, slotId).0;
    DeleteKeepsRecord(p, slotId, j);
    DeleteShiftsLeftNeighbours(p, slotId);
    assert q.bytes == Place(d.bytes, q.freespaceEnd, key, data);
    PlacedBelowKeeps(d, q, j, q.freespaceEnd, key, data);
  }

  /**
   * How the three paths resize: equal size keeps every offset and the region's
   * start; a shrink by n right-aligns the record n bytes higher and frees n
   * bytes; a grow by e takes e bytes of free space and starts the region anew.
   */
  lemma UpdateResizes(p: PageImage, slotId: nat, key: seq<bv8>, data: seq<bv8>)
    requires Inv(p) && slotId < |p.slots| && |key| + |data| < INT_LIMIT
    ensures var (q, rc) := Update(p, slotId, key, data);
      var t := p.slots[slotId];
      var size := |key| + |data|;
      rc == Ok ==>
        && q.pageId == p.pageId && |q.slots| == |p.slots| && !q.slots[slotId].deleted
        && (size == t.Payload() ==>
              q.freespaceEnd == p.freespaceEnd && q.slots[slotId].offset == t.offset
              && forall j :: 0 <= j < |p.slots| && j != slotId ==> q.slots[j] == p.slots[j])
        && (size < t.Payload() ==>
              q.slots[slotId].offset == t.offset + (t.Payload() - size)
              && q.freespaceEnd == p.freespaceEnd + (t.Payload() - size)
              && FreeSpace(q) == FreeSpace(p) + (t.Payload() - size))
        && (size > t.Payload() ==>
              q.slots[slotId].offset == q.freespaceEnd
              && q.freespaceEnd == p.freespaceEnd - (size - t.Payload())
              && FreeSpace(q) == FreeSpace(p) - (size - t.Payload()))
  {
    var (q, rc) := Update(p, slotId, key, data);
    var t := p.slots[slotId];
    if rc == Ok {
      if |key| + |data| < t.Payload() {
        ShrinkSlots(p, slotId, key, data);
      } else if |key| + |data| > t.Payload() {
        DeleteShiftsLeftNeighbours(p, slotId);
      }
    }
  }
}
