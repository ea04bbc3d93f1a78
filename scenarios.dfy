/**
 * The scenarios of src/test.c on a 256-byte page, stated over the value model:
 * the header values and read-backs each test expects, and the delete
 * counterexample of README's Findings.
 */
module TestScenarios {
  import opened PageLayout
  import opened PageModel
  import InsertLemmas
  import DeleteLemmas
  import UpdateLemmas

  /** "key1" and "1111111111", each with its terminating zero byte (5 and 11 bytes). */
  const KEY1: seq<bv8> := [0x6B, 0x65, 0x79, 0x31, 0x00]
  const DATA1: seq<bv8> := [0x31, 0x31, 0x31, 0x31, 0x31, 0x31, 0x31, 0x31, 0x31, 0x31, 0x00]

  /** "key2" and "222222222222", each with its terminating zero byte (5 and 13 bytes). */
  const KEY2: seq<bv8> := [0x6B, 0x65, 0x79, 0x32, 0x00]
  const DATA2: seq<bv8> := [0x32, 0x32, 0x32, 0x32, 0x32, 0x32, 0x32, 0x32, 0x32, 0x32, 0x32, 0x32, 0x00]

  /** Page 0 after the first insert of the test set-up. */
  function Page1Half(): (p: PageImage)
    ensures Inv(p)
  {
    InsertLemmas.InsertKeepsInv(NewImage(0), KEY1, DATA1);
    Insert(NewImage(0), KEY1, DATA1).0
  }

  /** The test page: record 1 at [240, 256), record 2 at [222, 240). */
  function Page1(): (p: PageImage)
    ensures Inv(p)
  {
    InsertLemmas.InsertKeepsInv(Page1Half(), KEY2, DATA2);
    Insert(Page1Half(), KEY2, DATA2).0
  }

  /** `setUpTestPage1`: the two inserts land in slots 0 and 1 with the expected header values and read back. */
  lemma SetUpTestPage1()
    ensures Insert(NewImage(0), KEY1, DATA1).1 == Result(Ok, 0)
    ensures |Page1Half().slots| == 1 && Page1Half().freespaceEnd == 240 && FreeSpace(Page1Half()) == 224
    ensures Insert(Page1Half(), KEY2, DATA2).1 == Result(Ok, 1)
    ensures |Page1().slots| == 2 && Page1().freespaceEnd == 222 && FreeSpace(Page1()) == 198
    ensures Get(Page1(), 0) == Some(Record(0, 0, KEY1, DATA1))
    ensures Get(Page1(), 1) == Some(Record(0, 1, KEY2, DATA2))
  {
    InsertLemmas.InsertThenGet(NewImage(0), KEY1, DATA1);
    InsertLemmas.InsertThenGet(Page1Half(), KEY2, DATA2);
    InsertLemmas.InsertKeepsOthers(Page1Half(), KEY2, DATA2);
  }

  /** `test_createAndDestroy`: a new page has its id, an empty directory and all but the header free. */
  lemma CreateAndDestroy()
    ensures var p := NewImage(123);
      p.pageId == 123 && p.freespaceEnd == PAGE_SIZE && |p.slots| == 0 && FreeSpace(p) == PAGE_SIZE - PAGE_HDR_SIZE
  {
  }

  /** `test_insertTooLarge`: 202 bytes do not fit in 198 free bytes; the page is unchanged. */
  lemma InsertTooLarge(key: seq<bv8>, data: seq<bv8>)
    requires |key| == 21 && |data| == 181
    ensures Insert(Page1(), key, data) == (Page1(), Result(NotEnoughSpace, 0))
  {
    SetUpTestPage1();
  }

  /**
   * `test_insertReuseDeletedSlot`: after deleting slot 0 a 20-byte record goes
   * into slot 0 without a new slot, and reads back.
   */
  lemma InsertReuseDeletedSlot(key: seq<bv8>, data: seq<bv8>)
    requires |key| == 7 && |data| == 13
    ensures Delete(Page1(), 0).1 == Ok
    ensures var d := Delete(Page1(), 0).0;
      var (q, r) := Insert(d, key, data);
      && r == Result(Ok, 0) && |q.slots| == 2 && q.freespaceEnd == 218 && FreeSpace(q) == 194
      && Get(q, 0) == Some(Record(0, 0, key, data))
  {
    SetUpTestPage1();
    DeleteLemmas.DeleteKeepsInv(Page1(), 0);
    DeleteLemmas.DeleteShiftsLeftNeighbours(Page1(), 0);
    InsertLemmas.InsertThenGet(Delete(Page1(), 0).0, key, data);
  }

  /**
   * The same scenario with the insert as written: the header values the test
   * checks come out the same, but slot 0 stays deleted, so the record reads back
   * as nothing and bytes [218, 238) belong to no live record.
   */
  lemma InsertReuseAsWritten(key: seq<bv8>, data: seq<bv8>)
    requires |key| == 7 && |data| == 13
    ensures var d := Delete(Page1(), 0).0;
      Inv(d) && |key| + |data| < U32_LIMIT
    ensures var d := Delete(Page1(), 0).0;
      var (w, r) := InsertAsWritten(d, key, data);
      && r == Result(Ok, 0) && |w.slots| == 2 && w.freespaceEnd == 218 && FreeSpace(w) == 194
      && w.slots[0].deleted && Get(w, 0) == None
      && (forall b :: 218 <= b < 238 ==> !Covered(w, b))
  {
    SetUpTestPage1();
    InsertLemmas.InsertPlacement(Page1Half(), KEY2, DATA2);
    InsertLemmas.InsertPlacement(NewImage(0), KEY1, DATA1);
    DeleteLemmas.DeleteKeepsInv(Page1(), 0);
    DeleteLemmas.DeleteShiftsLeftNeighbours(Page1(), 0);
    var d := Delete(Page1(), 0).0;
    assert d.slots[1] == Slot(5, 13, 238, false);
    var w := InsertAsWritten(d, key, data).0;
    assert w.slots[1] == d.slots[1];
  }

  /** `test_updateMiddleWithSameSize`: rewritten in place; the header does not change. */
  lemma UpdateSameSize(key: seq<bv8>, data: seq<bv8>)
    requires |key| == 7 && |data| == 9
    ensures var (q, rc) := Update(Page1(), 0, key, data);
      && rc == Ok && |q.slots| == 2 && q.freespaceEnd == 222 && FreeSpace(q) == 198
      && Get(q, 0) == Some(Record(0, 0, key, data))
  {
    SetUpTestPage1();
    UpdateLemmas.UpdateThenGet(Page1(), 0, key, data);
    UpdateLemmas.UpdateResizes(Page1(), 0, key, data);
  }

  /** `test_updateMiddleWithSmallerSize`: 6 bytes freed; both records read back. */
  lemma UpdateSmallerSize(key: seq<bv8>, data: seq<bv8>)
    requires |key| == 5 && |data| == 5
    ensures var (q, rc) := Update(Page1(), 0, key, data);
      && rc == Ok && |q.slots| == 2 && q.freespaceEnd == 228 && FreeSpace(q) == 204
      && Get(q, 0) == Some(Record(0, 0, key, data)) && Get(q, 1) == Some(Record(0, 1, KEY2, DATA2))
  {
    SetUpTestPage1();
    UpdateLemmas.UpdateThenGet(Page1(), 0, key, data);
    UpdateLemmas.UpdateResizes(Page1(), 0, key, data);
    UpdateLemmas.UpdateKeepsOthers(Page1(), 0, key, data);
  }

  /** `test_updateMiddleWithLargerSize`: 6 more bytes taken from free space; both records read back. */
  lemma UpdateLargerSize(key: seq<bv8>, data: seq<bv8>)
    requires |key| == 5 && |data| == 17
    ensures var (q, rc) := Update(Page1(), 0, key, data);
      && rc == Ok && |q.slots| == 2 && q.freespaceEnd == 216 && FreeSpace(q) == 192
      && Get(q, 0) == Some(Record(0, 0, key, data)) && Get(q, 1) == Some(Record(0, 1, KEY2, DATA2))
  {
    SetUpTestPage1();
    UpdateLemmas.UpdateThenGet(Page1(), 0, key, data);
    UpdateLemmas.UpdateResizes(Page1(), 0, key, data);
    UpdateLemmas.UpdateKeepsOthers(Page1(), 0, key, data);
  }

  /** `test_updateDeleted`: updating a deleted slot is NotFound. */
  lemma UpdateDeleted()
    ensures Delete(Page1(), 0).1 == Ok
    ensures var d := Delete(Page1(), 0).0;
      Inv(d) && 0 < |d.slots| && Update(d, 0, KEY1, DATA1).1 == NotFound
  {
    SetUpTestPage1();
    DeleteLemmas.DeleteKeepsInv(Page1(), 0);
    DeleteLemmas.DeleteShiftsLeftNeighbours(Page1(), 0);
  }

  /** `test_updateTooLarge`: growing a 16-byte record to 400 bytes does not fit; the page is unchanged. */
  lemma UpdateTooLarge(key: seq<bv8>, data: seq<bv8>)
    requires |key| == 21 && |data| == 379
    ensures Update(Page1(), 0, key, data) == (Page1(), NotEnoughSpace)
  {
    SetUpTestPage1();
  }

  /** `test_deleteMiddle`: record 2 moves up 16 bytes to 238 and still reads back; slot 0 reads as nothing. */
  lemma DeleteMiddle()
    ensures var (q, rc) := Delete(Page1(), 0);
      && rc == Ok && FreeSpace(q) == 214 && q.freespaceEnd == 238 && |q.slots| == 2
      && q.slots[0].deleted && q.slots[1] == Slot(5, 13, 238, false)
      && Get(q, 0) == None && Get(q, 1) == Some(Record(0, 1, KEY2, DATA2))
  {
    SetUpTestPage1();
    InsertLemmas.InsertPlacement(Page1Half(), KEY2, DATA2);
    InsertLemmas.InsertPlacement(NewImage(0), KEY1, DATA1);
    DeleteLemmas.DeleteKeepsOthers(Page1(), 0);
    DeleteLemmas.DeleteShiftsLeftNeighbours(Page1(), 0);
  }

  /** `test_deleteLeftmost`: deleting the lowest record moves nothing; record 1 stays at 240 and reads back. */
  lemma DeleteLeftmost()
    ensures var (q, rc) := Delete(Page1(), 1);
      && rc == Ok && FreeSpace(q) == 216 && q.freespaceEnd == 240 && |q.slots| == 2
      && q.slots[1].deleted && q.slots[0] == Slot(5, 11, 240, false)
      && Get(q, 0) == Some(Record(0, 0, KEY1, DATA1))
  {
    SetUpTestPage1();
    InsertLemmas.InsertPlacement(Page1Half(), KEY2, DATA2);
    InsertLemmas.InsertPlacement(NewImage(0), KEY1, DATA1);
    DeleteLemmas.DeleteKeepsOthers(Page1(), 1);
    DeleteLemmas.DeleteShiftsLeftNeighbours(Page1(), 1);
  }

  /** `test_deleteNonexistent`: slot 10 is past the directory; NotFound and no change. */
  lemma DeleteNonexistent()
    ensures Delete(Page1(), 10) == (Page1(), NotFound)
  {
    SetUpTestPage1();
  }

  /** A one-byte record, then an empty record placed at 255, just below it. */
  function EmptyBelowPage(): (p: PageImage)
    ensures Inv(p)
  {
    var p0 := NewImage(0);
    InsertLemmas.InsertKeepsInv(p0, [0x61], []);
    var p1 := Insert(p0, [0x61], []).0;
    InsertLemmas.InsertKeepsInv(p1, [], []);
    Insert(p1, [], []).0
  }

  /** The directory of that page: both records at 255, the empty one live. */
  lemma EmptyBelowLayout()
    ensures EmptyBelowPage().freespaceEnd == 255
    ensures EmptyBelowPage().slots == [Slot(1, 0, 255, false), Slot(0, 0, 255, false)]
  {
    var p0 := NewImage(0);
    assert FirstDeleted(p0.slots) == -1;
    var p1 := Insert(p0, [0x61], []).0;
    assert p1.freespaceEnd == 255 && p1.slots == [Slot(1, 0, 255, false)];
    assert FirstDeleted(p1.slots) == -1;
    var p2 := Insert(p1, [], []).0;
    assert p2.freespaceEnd == 255 && p2.slots == [Slot(1, 0, 255, false), Slot(0, 0, 255, false)];
    assert p2 == EmptyBelowPage();
  }

  /**
   * The counterexample of README's Findings: once the one-byte record is
   * deleted the empty record is live at offset 255 below freespace_end 256.
   * Deleting it passes the source's `offset != freespace_end` test, and the u16
   * move length comes out as 65535, far past the page. The model's delete
   * moves nothing.
   */
  lemma EmptyRecordDeleteOverruns()
    ensures Delete(EmptyBelowPage(), 0).1 == Ok
    ensures var q := Delete(EmptyBelowPage(), 0).0;
      && Inv(q) && q.freespaceEnd == 256 && q.slots == [Slot(1, 0, 255, true), Slot(0, 0, 255, false)]
      && q.slots[1].offset != q.freespaceEnd
      && DeleteLemmas.DeleteMoveLengthAsWritten(q, 1) == 65535
      && q.freespaceEnd + DeleteLemmas.DeleteMoveLengthAsWritten(q, 1) > PAGE_SIZE
    ensures var q := Delete(EmptyBelowPage(), 0).0;
      var (r, rc) := Delete(q, 1);
      rc == Ok && r.bytes == q.bytes && r.freespaceEnd == 256
  {
    EmptyBelowLayout();
    DeleteLemmas.DeleteKeepsInv(EmptyBelowPage(), 0);
  }

  /**
   * The grow path of `page_update` starts with `page_delete` (src/page.c:181),
   * so growing the live empty record of that page to one byte reaches the same
   * wrapped move length. The model's grow deletes without moving and places the
   * record at 255.
   */
  lemma GrowEmptyRecordOverruns()
    ensures var q := Delete(EmptyBelowPage(), 0).0;
      && Inv(q) && 1 < |q.slots|
      && DeleteLemmas.DeleteMoveLengthAsWritten(q, 1) == 65535
      && q.freespaceEnd + DeleteLemmas.DeleteMoveLengthAsWritten(q, 1) > PAGE_SIZE
    ensures var q := Delete(EmptyBelowPage(), 0).0;
      var (r, rc) := Update(q, 1, [0x61], []);
      && rc == Ok && r.freespaceEnd == 255 && |r.bytes| == PAGE_SIZE && 1 < |r.slots|
      && r.slots[1] == Slot(1, 0, 255, false)
      && Get(r, 1) == Some(Record(0, 1, [0x61], []))
  {
    EmptyRecordDeleteOverruns();
    var q := Delete(EmptyBelowPage(), 0).0;
    assert q.freespaceEnd == 256 && q.slots == [Slot(1, 0, 255, true), Slot(0, 0, 255, false)];
    assert FreeSpace(q) == 232;
    var d := Delete(q, 1).0;
    assert d.freespaceEnd == 256 && d.slots[1] == Slot(0, 0, 255, true);
    assert Update(q, 1, [0x61], []) == (Grow(q, 1, [0x61], []), Ok);
    UpdateLemmas.UpdateThenGet(q, 1, [0x61], []);
  }
}
