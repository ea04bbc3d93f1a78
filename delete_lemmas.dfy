/** What `page_delete` promises (src/page.c:95-125). */
module DeleteLemmas {
  import opened PageLayout
  import opened PageModel
  import opened RecordFacts

  /** Delete fails only on a slot out of range or already deleted, and then changes nothing. */
  lemma DeleteOutcome(p: PageImage, slotId: nat)
    requires Inv(p)
    ensures var (q, rc) := Delete(p, slotId);
      && rc != NotEnoughSpace
      && (rc == NotFound <==> slotId >= |p.slots| || p.slots[slotId].deleted)
      && (rc == NotFound ==> q == p)
  {
  }

  /**
   * A successful delete tombstones the slot, hands its payload back to free
   * space, moves up by that payload exactly the slots below it (when there were
   * bytes below it to move) and leaves every byte from its end upward alone.
   */
  lemma DeleteShiftsLeftNeighbours(p: PageImage, slotId: nat)
    requires Placed(p, slotId) && !p.slots[slotId].deleted
    ensures var q := Delete(p, slotId).0;
      var t := p.slots[slotId];
      && q.pageId == p.pageId && |q.slots| == |p.slots|
      && q.slots[slotId] == t.(deleted := true)
      && q.freespaceEnd == p.freespaceEnd + t.Payload()
      && FreeSpace(q) == FreeSpace(p) + t.Payload()
      && (forall j :: 0 <= j < |p.slots| && j != slotId ==>
            q.slots[j] == if t.offset > p.freespaceEnd && p.slots[j].offset < t.offset
                          then p.slots[j].(offset := p.slots[j].offset + t.Payload())
                          else p.slots[j])
      && q.bytes[t.End() ..] == p.bytes[t.End() ..]
  {
    var q := Delete(p, slotId).0;
    var t := p.slots[slotId];
    if t.offset > p.freespaceEnd {
      MovedAside(p.bytes, p.freespaceEnd, t.offset - p.freespaceEnd, t.Payload(), t.End(), PAGE_SIZE - t.End());
    }
  }

  /** Where a live record of the page lies relative to the one being deleted. */
  lemma NeighbourSide(freespaceEnd: nat, t: Slot, s: Slot)
    requires t.Payload() > 0 && s.Payload() > 0
    requires t.PlacedAbove(freespaceEnd) && s.PlacedAbove(freespaceEnd) && Apart(t, s)
    ensures s.offset < t.offset ==> freespaceEnd <= s.offset && s.End() <= t.offset
    ensures s.offset >= t.offset ==> t.End() <= s.offset && s.End() <= PAGE_SIZE
  {
  }

  /** A successful delete keeps the page invariant. */
  lemma DeleteKeepsInv(p: PageImage, slotId: nat)
    requires Inv(p)
    ensures Inv(Delete(p, slotId).0)
  {
    var (q, rc) := Delete(p, slotId);
    if rc == Ok {
      DeleteShiftsLeftNeighbours(p, slotId);
      assert FieldsFit(q) by {
        forall j | 0 <= j < |q.slots|
          ensures q.slots[j].Fits()
        {
          assert p.slots[j].Fits();
        }
      }
      DeleteKeepsPlaced(p, slotId);
      DeleteKeepsApart(p, slotId);
    }
  }

  /** After a delete every live record still lies in the (shorter) record region. */
  lemma DeleteKeepsPlaced(p: PageImage, slotId: nat)
    requires Inv(p) && slotId < |p.slots| && !p.slots[slotId].deleted
    ensures LivePlaced(Delete(p, slotId).0)
  {
    var q := Delete(p, slotId).0;
    var t := p.slots[slotId];
    forall j | 0 <= j < |q.slots| && !q.slots[j].deleted
      ensures q.slots[j].PlacedAbove(q.freespaceEnd)
    {
      DeleteSlotOf(p, slotId, j);
      var s := p.slots[j];
      assert s.PlacedAbove(p.freespaceEnd) && Apart(s, t);
      if s.Payload() > 0 && t.Payload() > 0 {
        NeighbourSide(p.freespaceEnd, t, s);
      }
    }
  }

  /** After a delete no two live records share a byte. */
  lemma DeleteKeepsApart(p: PageImage, slotId: nat)
    requires Inv(p) && slotId < |p.slots| && !p.slots[slotId].deleted
    ensures LiveApart(Delete(p, slotId).0)
  {
    var q := Delete(p, slotId).0;
    var t := p.slots[slotId];
    var moved := t.offset > p.freespaceEnd && t.Payload() > 0;
    forall i, j | 0 <= i < |q.slots| && 0 <= j < |q.slots| && i != j && !q.slots[i].deleted && !q.slots[j].deleted
      ensures Apart(q.slots[i], q.slots[j])
    {
      DeleteSlotOf(p, slotId, i);
      DeleteSlotOf(p, slotId, j);
      var a, b := p.slots[i], p.slots[j];
      assert Apart(a, b) && Apart(a, t) && Apart(b, t);
      if moved && a.Payload() > 0 && b.Payload() > 0 {
        NeighbourSide(p.freespaceEnd, t, a);
        NeighbourSide(p.freespaceEnd, t, b);
      }
    }
  }

  /**
   * A delete keeps the region free of gaps: the bytes above the deleted record
   * keep their owners, and the bytes moved up into its place are owned by the
   * records that moved with them.
   */
  lemma DeleteKeepsTiled(p: PageImage, slotId: nat)
    requires Inv(p) && Tiled(p)
    ensures Tiled(Delete(p, slotId).0)
  {
    var (q, rc) := Delete(p, slotId);
    if rc == Ok {
      var t := p.slots[slotId];
      forall b | q.freespaceEnd <= b < PAGE_SIZE
        ensures Covered(q, b)
      {
        var c := if b >= t.End() then b else b - t.Payload();
        assert Covered(p, c);
        var i :| 0 <= i < |p.slots| && !p.slots[i].deleted && p.slots[i].offset <= c < p.slots[i].End();
        DeleteSlotOf(p, slotId, i);
        var s := p.slots[i];
        if s.Payload() > 0 && t.Payload() > 0 {
          NeighbourSide(p.freespaceEnd, t, s);
        }
        assert q.slots[i].offset <= b < q.slots[i].End();
      }
    }
  }

  /**
   * Every other slot reads back as before the delete (records below the deleted
   * one moved up with their bytes), and the deleted slot reads back as nothing.
   */
  lemma DeleteKeepsOthers(p: PageImage, slotId: nat)
    requires Inv(p)
    ensures var q := Delete(p, slotId).0;
      Inv(q) && |q.slots| == |p.slots|
    ensures var q := Delete(p, slotId).0;
      && (forall j :: 0 <= j < |p.slots| && j != slotId ==> Get(q, j) == Get(p, j))
      && (slotId < |p.slots| ==> Get(q, slotId) == None)
  {
    DeleteKeepsInv(p, slotId);
    var (q, rc) := Delete(p, slotId);
    if rc == Ok {
      forall j | 0 <= j < |p.slots| && j != slotId
        ensures Get(q, j) == Get(p, j)
      {
        DeleteKeepsRecord(p, slotId, j);
      }
    }
  }

  /**
   * One record other than the deleted one: its bytes move along with its offset,
   * or neither moves, and it stays in the (shorter) record region.
   */
  lemma DeleteKeepsRecord(p: PageImage, slotId: nat, j: nat)
    requires Placed(p, slotId) && !p.slots[slotId].deleted
    requires Placed(p, j) && j != slotId
    requires !p.slots[j].deleted ==> Apart(p.slots[slotId], p.slots[j])
    ensures Placed(Delete(p, slotId).0, j) && Get(Delete(p, slotId).0, j) == Get(p, j)
  {
    DeleteSlotOf(p, slotId, j);
    if !p.slots[j].deleted {
      DeleteMovesRecord(p, slotId, j);
    }
    SameRecord(p, Delete(p, slotId).0, j);
  }

  /** Where a delete leaves one other slot: moved up by the payload when bytes were moved and it lay below, else where it was. */
  lemma DeleteSlotOf(p: PageImage, slotId: nat, j: nat)
    requires Placed(p, slotId) && !p.slots[slotId].deleted
    requires j < |p.slots| && j != slotId
    ensures var q, t, s := Delete(p, slotId).0, p.slots[slotId], p.slots[j];
      && q.pageId == p.pageId && |q.slots| == |p.slots| && |q.bytes| == |p.bytes|
      && q.freespaceEnd == p.freespaceEnd + t.Payload()
      && q.slots[j] == (if t.offset > p.freespaceEnd && s.offset < t.offset then s.(offset := s.offset + t.Payload()) else s)
      && q.bytes == (if t.offset > p.freespaceEnd then Moved(p.bytes, p.freespaceEnd, t.offset - p.freespaceEnd, t.Payload()) else p.bytes)
  {
  }

  /** Another live record after a delete: still in the record region, its bytes where its offset now points. */
  lemma DeleteMovesRecord(p: PageImage, slotId: nat, j: nat)
    requires Placed(p, slotId) && !p.slots[slotId].deleted
    requires Placed(p, j) && j != slotId && !p.slots[j].deleted
    requires Apart(p.slots[slotId], p.slots[j])
    ensures var q, s := Delete(p, slotId).0, p.slots[j];
      j < |q.slots| && q.slots[j].PlacedAbove(q.freespaceEnd) && q.slots[j].End() <= |q.bytes|
      && q.bytes[q.slots[j].offset .. q.slots[j].End()] == p.bytes[s.offset .. s.End()]
  {
    DeleteSlotOf(p, slotId, j);
    var t, s := p.slots[slotId], p.slots[j];
    DeleteKeepsSpan(p.bytes, p.freespaceEnd, t, s);
    if s.Payload() > 0 && t.Payload() > 0 {
      NeighbourSide(p.freespaceEnd, t, s);
    }
  }

  /** The bytes of another live record after the delete's move: where its offset now points, as they were. */
  lemma DeleteKeepsSpan(bytes: seq<bv8>, freespaceEnd: nat, t: Slot, s: Slot)
    requires |bytes| == PAGE_SIZE && freespaceEnd <= PAGE_SIZE
    requires t.PlacedAbove(freespaceEnd) && s.PlacedAbove(freespaceEnd) && Apart(t, s)
    ensures var moved := t.offset > freespaceEnd;
      var b := if moved then Moved(bytes, freespaceEnd, t.offset - freespaceEnd, t.Payload()) else bytes;
      var off := if moved && s.offset < t.offset then s.offset + t.Payload() else s.offset;
      off + s.Payload() <= |b| && s.End() <= |bytes|
      && b[off .. off + s.Payload()] == bytes[s.offset .. s.End()]
  {
    var fe := freespaceEnd;
    if t.offset > fe && s.Payload() > 0 {
      var b := Moved(bytes, fe, t.offset - fe, t.Payload());
      if t.Payload() == 0 {
        assert b == bytes;
      } else {
        NeighbourSide(fe, t, s);
        if s.offset < t.offset {
          MovedSpan(bytes, fe, t.offset - fe, t.Payload(), s.offset, s.Payload());
          assert b[s.offset + t.Payload() .. s.End() + t.Payload()] == bytes[s.offset .. s.End()];
        } else {
          MovedAside(bytes, fe, t.offset - fe, t.Payload(), s.offset, s.Payload());
          assert b[s.offset .. s.End()] == bytes[s.offset .. s.End()];
        }
      }
    }
  }

  /**
   * The u16 byte count of the `memmove` in `page_delete` (src/page.c:104-106),
   * as written: the gap below the record when there is one, and otherwise the
   * negative difference wrapped round to just under 65536.
   */
  function DeleteMoveLengthAsWritten(p: PageImage, slotId: nat): (n: nat)
    requires slotId < |p.slots|
    ensures var t := p.slots[slotId];
      && (p.freespaceEnd <= t.offset < p.freespaceEnd + U16_LIMIT ==> n == t.offset - p.freespaceEnd)
      && (t.offset < p.freespaceEnd <= t.offset + U16_LIMIT ==> n == U16_LIMIT - (p.freespaceEnd - t.offset))
  {
    (p.slots[slotId].offset - p.freespaceEnd) % U16_LIMIT
  }

  /**
   * The source moves bytes whenever `offset != freespace_end` (src/page.c:102).
   * For a record with bytes this is the model's `offset > freespaceEnd` with the
   * same length; it differs only for an empty record lying below the region's
   * start, where the as-written u16 length runs the move past the page's end.
   */
  lemma DeleteGuardAgrees(p: PageImage, slotId: nat)
    requires Inv(p) && slotId < |p.slots| && !p.slots[slotId].deleted
    ensures var t := p.slots[slotId];
      && (t.offset > p.freespaceEnd ==> DeleteMoveLengthAsWritten(p, slotId) == t.offset - p.freespaceEnd)
      && (t.offset != p.freespaceEnd && !(t.offset > p.freespaceEnd) ==>
            t.Payload() == 0 && p.freespaceEnd + DeleteMoveLengthAsWritten(p, slotId) > PAGE_SIZE)
  {
    var t := p.slots[slotId];
    var d := t.offset - p.freespaceEnd;
    if d < 0 {
      assert 0 <= d + PAGE_SIZE;
      assert d % U16_LIMIT == d + U16_LIMIT;
    }
  }
}
