# heap_page: a slotted page, modelled and verified in Dafny

The repository keeps records in a fixed-size *slotted page*, one `PAGE_SIZE` block of bytes:

- An 8-byte header at the start holds `page_id`, `slot_count` and `freespace_end`.
- A directory of 8-byte slot entries grows up from the header. Each slot holds a key size, a data size, an offset and a deleted byte.
- The record region grows down from the end of the page. A record is its key immediately followed by its data. The region starts at `freespace_end`.
- The free space lies between the end of the directory and `freespace_end`.

The operations behave as follows:

- **Insert** reuses the first deleted slot or adds one.
- **Delete** tombstones a slot and closes the gap, moving the bytes below the record up and fixing their offsets.
- **Update** takes one of three paths:
  - rewrite in place when the size is unchanged;
  - write the record right-aligned in its old span, then close the gap, when it shrinks;
  - delete, then place the record anew at the start of the record region, when it grows.

The project has three layers:

- `PageLayout` (layout.dfy) holds the constants of `page.h`, the slot entry and the record, result and return-code types.
- `PageModel` (model.dfy) is the page as a value, `PageImage`. It has one function per operation that maps the page before to the page after and its return code. It also defines the page invariant `Inv`:
  - the header fits its fields;
  - the directory ends at or before `freespaceEnd`;
  - every live record with at least one byte lies in `[freespaceEnd, PAGE_SIZE)`, and an empty live record only has to end inside the page (`Slot.PlacedAbove`);
  - no two live records share a byte.
- `PageModel.Tiled` is the gap-free property: every byte of `[freespaceEnd, PAGE_SIZE)` belongs to some live record. Together with `Inv` it says that the live records tile the record region exactly. Every operation keeps it.
- Two defects of `src/page.c` are corrected in the model, and each is also modelled as written (see Findings):
  - `page_delete` guards its move with `offset != freespace_end`;
  - `page_insert` never marks a reused slot live.
- `SlottedPage.Page` (slotted_page.dfy) is the page as the C code keeps it: header fields updated in place, the directory as an array of slots, and the raw bytes as an array. Byte copies and moves are loops, and so is the offset-shifting pass. Each method is proved to leave `Image()` equal to what the `PageModel` function computes, and to keep `Valid()`, which includes `Inv` and `Tiled`.

The properties of the operations are proved on the value model:

- `InsertLemmas`, `DeleteLemmas` and `UpdateLemmas` cover outcomes, the invariant, placement, read-back and "every other record reads back unchanged".
- `RecordFacts` holds the byte-level facts they share.
- `TestScenarios` restates each scenario of `src/test.c` on a 256-byte page, and holds the counterexample of the finding below.

## Model

| member | source | states |
|---|---|---|
| PageLayout.PageSizesFitU16 | src/page.h:7-28 | Both configured page sizes (256 and 8196) fit the u16 header and slot fields. At most 31 slot entries fit between the header and the end of a 256-byte page. |
| PageModel.NewImage | src/page.c:6-16 | A new page (given id, `freespace_end` at PAGE_SIZE, empty directory, zeroed bytes) satisfies the page invariant and has no gap. |
| PageModel.FreeSpace | src/page.c:30-33 | On a page whose directory ends before the record region, free space is never negative. It is at most PAGE_SIZE minus the header and the directory, so the u16 result never wraps. |
| PageModel.FirstDeleted | src/page.c:35-44 | The result is the lowest deleted index with no deleted slot before it. It is -1 exactly when no slot is deleted. |
| PageModel.Get | src/page.c:46-60 | A record comes back exactly when the slot is live. It carries the page and slot ids, the slot's key and data sizes, and key followed by data equals the bytes of the slot's span. |
| PageModel.Insert | src/page.c:62-93 | No ensures of its own. It is `page_insert` with the filled slot marked live (Findings). Its contract is carried by InsertOutcome, InsertPlacement, InsertKeepsInv, InsertKeepsTiled, InsertThenGet and InsertKeepsOthers. |
| PageModel.InsertAsWritten | src/page.c:62-93 | No ensures of its own. It is `page_insert` exactly as written, never writing the deleted flag. Its contract is carried by InsertAsWrittenDiffers, InsertAsWrittenLeavesGap and TestScenarios.InsertReuseAsWritten. |
| PageModel.Delete | src/page.c:95-125 | No ensures of its own. It is `page_delete` with the move guarded by `offset > freespace_end` (Findings). Its contract is carried by DeleteOutcome, DeleteShiftsLeftNeighbours, DeleteKeepsInv, DeleteKeepsTiled and DeleteKeepsOthers. |
| PageModel.Update | src/page.c:127-198 | No ensures of its own. It dispatches to Overwrite, Shrink or Grow. Its contract is carried by UpdateOutcome, UpdateKeepsInv, UpdateKeepsTiled, UpdateThenGet, UpdateWritesRecord, UpdateKeepsOthers and UpdateResizes. |
| PageModel.Overwrite | src/page.c:135-142 | No ensures of its own. Its contract is carried by OverwriteKeepsInv, OverwriteKeepsTiled and OverwriteKeepsRecord. |
| PageModel.Shrink | src/page.c:143-172 | No ensures of its own. Its contract is carried by ShrinkSlots, ShrinkKeepsInv, ShrinkKeepsTiled, ShrinkWritesRecord and ShrinkKeepsRecord. |
| PageModel.Grow | src/page.c:173-197 | No ensures of its own. Its contract is carried by GrowKeepsInv, GrowKeepsTiled, GrowWritesRecord and GrowKeepsRecord. |
| PageModel.Place | src/page.c:88-89 | No ensures of its own. Its contract is carried by RecordFacts.PlacedSpan, RecordFacts.PlacedAside and SlottedPage.SplicedTwiceIsPlaced. |
| PageModel.Moved | src/page.c:107-111 | No ensures of its own. Its contract is carried by RecordFacts.MovedSpan and RecordFacts.MovedAside. |
| PageModel.ShiftBelow | src/page.c:113-118 | No ensures of its own. Its contract is carried by DeleteShiftsLeftNeighbours and ShrinkSlots, and the loop of SlottedPage.Page.ShiftOffsets implements it. |
| PageModel.Compact | src/page.c:102-118 | No ensures of its own. Its contract is carried by DeleteMovesRecord and ShrinkMovesRecord, and SlottedPage.Page.CloseUp implements it. |
| InsertLemmas.InsertOutcome | src/page.c:62-79 | Insert fails with NotEnoughSpace exactly when the payload exceeds the free space, or when no slot is deleted and payload plus one slot entry exceeds it. On failure the page is unchanged. Insert never returns NotFound. |
| InsertLemmas.InsertKeepsInv | src/page.c:62-93 | Insert keeps the page invariant. |
| InsertLemmas.InsertPlacement | src/page.c:69-92 | On success the slot is the first deleted one, or a new one at the end of the directory. The region start drops by the payload, and the slot gets that offset and the new sizes. The slot is live. The new bytes hold key then data. Free space drops by the payload, plus one entry for a new slot. |
| InsertLemmas.InsertThenGet | src/page.c:81-92 | On either path the returned slot reads back the inserted key and data under the page's id and that slot id. |
| InsertLemmas.InsertKeepsOthers | src/page.c:62-93 | Insert keeps the invariant and never shortens the directory. Every pre-existing slot other than the one inserted into reads back as before. |
| InsertLemmas.InsertKeepsTiled | src/page.c:81-90 | Insert keeps the record region free of gaps: the new record covers exactly the bytes the region gains. |
| InsertLemmas.InsertAsWrittenDiffers | src/page.c:81-85 | The insert as written agrees with the model's insert in result, header, bytes and every other slot. The filled slot differs only in its deleted flag, which stays set on the reuse path. |
| InsertLemmas.InsertAsWrittenLeavesGap | src/page.c:81-90 | As written, a non-empty insert into a deleted slot loses the record: the slot reads back nothing, and the byte at the new `freespace_end` belongs to no live record, so the region has a gap. |
| DeleteLemmas.DeleteOutcome | src/page.c:95-99 | Delete returns NotFound exactly for an out-of-range or already deleted slot, and then changes nothing. It never returns NotEnoughSpace. |
| DeleteLemmas.DeleteShiftsLeftNeighbours | src/page.c:101-123 | A delete tombstones the slot and gives its payload back to free space. It moves up by the payload exactly those slots whose offset lay below it, and only when there were bytes below it to move. It leaves every byte from the record's end upward as it was. |
| DeleteLemmas.DeleteKeepsInv | src/page.c:95-125 | Delete keeps the page invariant. |
| DeleteLemmas.DeleteKeepsTiled | src/page.c:101-123 | Delete keeps the record region free of gaps. Bytes above the deleted record keep their owners, and the bytes moved into its place are owned by the records that moved with them. |
| DeleteLemmas.DeleteKeepsOthers | src/page.c:95-125 | After a delete the invariant holds, the directory keeps its length and the deleted slot reads back nothing. Every other slot reads back the same record as before, because moved records moved with their offsets. |
| DeleteLemmas.DeleteKeepsRecord | src/page.c:102-119 | One other slot of the page: after the delete it still lies in the record region and reads back as before. |
| DeleteLemmas.DeleteMovesRecord | src/page.c:104-118 | A live neighbour's bytes after the delete's move are found where its possibly shifted offset now points. |
| DeleteLemmas.DeleteMoveLengthAsWritten | src/page.c:104-106 | The `memmove` length as the source computes it, the offset difference truncated to u16. It is the true gap when the record lies at or above `freespace_end`. It is 65536 minus the difference when the record lies below it. |
| DeleteLemmas.DeleteGuardAgrees | src/page.c:102-106 | Where the source's guard and the model's guard both move bytes, the as-written length is the true gap. They disagree only for an empty live record below the region start. There the as-written length runs past the page's end. |
| UpdateLemmas.UpdateOutcome | src/page.c:127-131 | Update returns NotFound exactly for a deleted slot. It returns NotEnoughSpace exactly when a grow needs more than the free space. Both failures change nothing. |
| UpdateLemmas.UpdateKeepsInv | src/page.c:127-198 | Update keeps the page invariant on all three paths. |
| UpdateLemmas.UpdateKeepsTiled | src/page.c:127-198 | Update keeps the record region free of gaps on all three paths. |
| UpdateLemmas.OverwriteKeepsTiled | src/page.c:135-142 | The equal-size path keeps every span, so every byte keeps its owner. |
| UpdateLemmas.ShrinkKeepsTiled | src/page.c:143-172 | The shrink path keeps the region free of gaps. The top of the old span holds the new record, and the bytes moved up below it are owned by the records that moved with them. |
| UpdateLemmas.GrowKeepsTiled | src/page.c:173-197 | The grow path keeps the region free of gaps. The delete does, and the revived slot covers what the region gains. |
| UpdateLemmas.OverwriteKeepsInv | src/page.c:135-142 | The equal-size path keeps the page invariant. |
| UpdateLemmas.ShrinkSlots | src/page.c:143-171 | On the shrink path the slot moves `n` higher with the new sizes, where `n` is the shrink, and the region start rises by `n`. Slots below it move `n` higher only when bytes were moved. |
| UpdateLemmas.ShrinkKeepsInv | src/page.c:143-172 | The shrink path keeps the page invariant. |
| UpdateLemmas.GrowKeepsInv | src/page.c:173-197 | The grow path keeps the page invariant. |
| UpdateLemmas.PlacedBelowKeepsInv | src/page.c:185-195 | Reviving a deleted slot with a record placed just below the record region keeps the page invariant. |
| UpdateLemmas.UpdateThenGet | src/page.c:127-198 | Update keeps the invariant and the directory length. After a successful update the slot reads back the new key and data under the same page and slot ids. |
| UpdateLemmas.UpdateWritesRecord | src/page.c:135-197 | On every successful path the slot ends up live with the new sizes, and its span holds key then data. |
| UpdateLemmas.ShrinkWritesRecord | src/page.c:146-171 | The shrink path writes the record at the top of its old span, and the move below does not disturb it. |
| UpdateLemmas.GrowWritesRecord | src/page.c:181-195 | The grow path writes the record at the new start of the record region, live. |
| UpdateLemmas.UpdateKeepsOthers | src/page.c:127-198 | Update keeps the invariant and the directory length. Every other slot reads back as before on every path. |
| UpdateLemmas.OverwriteKeepsRecord | src/page.c:135-142 | The equal-size path leaves every other slot readable and unchanged. |
| UpdateLemmas.ShrinkKeepsRecord | src/page.c:143-172 | The shrink path leaves every other slot readable and unchanged. |
| UpdateLemmas.ShrinkMovesRecord | src/page.c:148-164 | A live neighbour's bytes after the shrink's write and move are found where its possibly shifted offset now points. |
| UpdateLemmas.GrowKeepsRecord | src/page.c:173-197 | The grow path leaves every other slot readable and unchanged. |
| UpdateLemmas.UpdateResizes | src/page.c:133-196 | Equal size keeps the region start and every slot's offset. A shrink by `n` puts the record `n` higher and frees `n` bytes. A grow by `e` takes `e` bytes of free space and puts the record at the new region start. |
| RecordFacts.SameRecord | src/page.c:46-60 | A slot with the same flag and sizes whose span holds the same bytes reads back the same record. |
| RecordFacts.WrittenRecord | src/page.c:46-60 | A live slot whose span holds key then data reads back exactly that record. |
| RecordFacts.PlacedSpan | src/page.c:88-89 | After the two record `memcpy` calls, the record's span holds key then data. |
| RecordFacts.PlacedAside | src/page.c:88-89 | The record `memcpy` calls leave every span they do not overlap as it was. |
| RecordFacts.MovedSpan | src/page.c:107-111 | A span inside the moved range arrives `delta` bytes higher, unchanged. |
| RecordFacts.MovedAside | src/page.c:107-111 | A span above the move's destination is left as it was. |
| RecordFacts.PlacedBelowKeeps | src/page.c:186-195 | Bytes written wholly below the record region leave every record in it reading back as before. |
| SlottedPage.Splice | src/page.c:88 | One `memcpy`: the destination span holds the source bytes and every byte outside it is unchanged. |
| SlottedPage.SplicedTwiceIsPlaced | src/page.c:88-89 | The key copy followed by the data copy equals writing the whole record at once. |
| SlottedPage.Page.constructor | src/page.c:6-16 | A new page is valid (invariant and no gap), its arrays are fresh, and its image is the new-page value. |
| SlottedPage.Page.GetSlot | src/page.c:23-28 | The directory entry comes back exactly for an index below the slot count, and nothing past it. |
| SlottedPage.Page.FreeSpace | src/page.c:30-33 | Agrees with the value model's free space, and with the header and directory never exceeds the page. |
| SlottedPage.Page.FindDeletedSlot | src/page.c:35-44 | The scan returns the first deleted index, or -1 exactly when none is deleted. This equals `FirstDeleted` of the directory. |
| SlottedPage.Page.Get | src/page.c:46-60 | Agrees with the value model's read of the slot. |
| SlottedPage.Page.Copy | src/page.c:88 | The byte-by-byte copy loop leaves the page's bytes equal to `Splice` of the old bytes. |
| SlottedPage.Page.WriteRecord | src/page.c:88-89 | The two copies leave the page's bytes equal to `Place` of the old bytes. |
| SlottedPage.Page.MoveBytes | src/page.c:107-111 | The last-byte-first move loop leaves the page's bytes equal to `Moved` of the old bytes, as an overlapping `memmove` must. |
| SlottedPage.Page.ShiftOffsets | src/page.c:113-118 | The loop over the slots in use raises exactly the offsets below the bound, deleted slots included. Unused entries stay unchanged. |
| SlottedPage.Page.CloseUp | src/page.c:102-118 | The move and the offset pass together leave the image equal to `Compact` of the old image. |
| SlottedPage.Page.Insert | src/page.c:62-93 | The new image and result equal the value model's insert, and the page stays valid. Like `PageModel.Insert`, it marks the filled slot live (Findings). |
| SlottedPage.Page.AddRecord | src/page.c:81-92 | The chosen slot gets the new offset and sizes and is marked live. The region start drops by the payload, and the bytes receive the record. Nothing else changes. |
| SlottedPage.Page.Delete | src/page.c:95-125 | The new image and return code equal the value model's delete, and the page stays valid. |
| SlottedPage.Page.Update | src/page.c:127-198 | The new image and return code equal the value model's update, and the page stays valid. |
| SlottedPage.Page.OverwriteRecord | src/page.c:135-142 | The new image equals the equal-size path of the value model. |
| SlottedPage.Page.ShrinkRecord | src/page.c:143-172 | The new image equals the shrink path of the value model. |
| SlottedPage.Page.SetSlot | src/page.c:168-171 | Sets one directory entry and the region start and nothing else. |
| SlottedPage.Page.GrowRecord | src/page.c:173-197 | The new image equals the grow path of the value model. |
| TestScenarios.Page1Half | src/test.c:27-35 | The page after the first insert of the set-up satisfies the invariant. |
| TestScenarios.Page1 | src/test.c:27-59 | The set-up page satisfies the invariant. |
| TestScenarios.SetUpTestPage1 | src/test.c:27-59 | Both inserts succeed into slots 0 and 1. The region start is 240 then 222 and free space 224 then 198. Both records read back. |
| TestScenarios.CreateAndDestroy | src/test.c:61-69 | A new page has its id, an empty directory, the region start at PAGE_SIZE, and everything but the header free. |
| TestScenarios.InsertTooLarge | src/test.c:71-83 | A 202-byte record does not fit into 198 free bytes, and the page is unchanged. |
| TestScenarios.InsertReuseDeletedSlot | src/test.c:85-106 | After deleting slot 0, a 20-byte record goes into slot 0 without a new slot. The region start is 218 and free space 194, and slot 0 reads back the new record. |
| TestScenarios.InsertReuseAsWritten | src/test.c:85-106 | The same scenario with the insert as written gives the same slot id, slot count, 218 and 194 that the test checks. But slot 0 stays deleted and reads back nothing, and bytes [218, 238) belong to no live record. |
| TestScenarios.UpdateSameSize | src/test.c:108-130 | An equal-size update leaves the header unchanged and reads back the new record. |
| TestScenarios.UpdateSmallerSize | src/test.c:132-161 | A 6-byte shrink gives region start 228 and free space 204. Both records read back. |
| TestScenarios.UpdateLargerSize | src/test.c:163-192 | A 6-byte grow gives region start 216 and free space 192. Both records read back. |
| TestScenarios.UpdateDeleted | src/test.c:194-203 | Updating a deleted slot is NotFound. |
| TestScenarios.UpdateTooLarge | src/test.c:205-217 | Growing to 400 bytes does not fit, and the page is unchanged. |
| TestScenarios.DeleteMiddle | src/test.c:219-244 | Deleting slot 0 moves record 2 up to 238. Free space becomes 214 and region start 238. Slot 0 reads nothing and slot 1 reads record 2. |
| TestScenarios.DeleteLeftmost | src/test.c:246-269 | Deleting the lowest record moves nothing. Free space becomes 216, record 1 stays at 240 and reads back. |
| TestScenarios.DeleteNonexistent | src/test.c:271-276 | Deleting slot 10 is NotFound and changes nothing. |
| TestScenarios.EmptyBelowPage | src/page.c:62-93 | A page holding a one-byte record and then an empty record satisfies the invariant. |
| TestScenarios.EmptyBelowLayout | src/page.c:69-90 | On that page both slots have offset 255 and the region start is 255. |
| TestScenarios.EmptyRecordDeleteOverruns | src/page.c:102-111 | After deleting the one-byte record, the live empty record lies at 255 below region start 256. The source's guard lets its delete through, with a u16 move length of 65535, past the page's end. The model's delete moves nothing. |
| TestScenarios.GrowEmptyRecordOverruns | src/page.c:173-196 | Growing that live empty record to one byte takes the grow path. That path calls the delete with the 65535-byte as-written move (src/page.c:181). The model's grow deletes without moving, places the byte at 255, and the slot reads it back. |

## Left out

- `page_destroy` and all heap management (`malloc`/`free` of the page and its buffer) are not modelled. A `Page` object and its arrays are created by the constructor and left to Dafny's heap.
- `page_get` returns a record whose key and data point into the page. The model returns copies, so later changes to the page do not show through an earlier result. The record's `record_size` field is never set by the source and is not modelled.
- The header and the slot directory live inside the raw page in the source, as C structs laid over its first bytes, with padding and the host's byte order. The model keeps them as typed fields and a slot array beside the bytes, so record bytes and directory bytes never alias.
- Stale bytes under a new directory entry are not captured. As written, the source's new-slot path never writes the deleted byte and relies on it being zero. A directory entry claimed over bytes that once held record data can then start out deleted. The model's insert marks the slot live explicitly, and `PageModel.InsertAsWritten` starts a new entry at zero.
- PageModel.Get: the source tests `deleted == 1`, while delete and update test `!= 0`. The model's flag is a boolean, so a deleted byte other than 0 or 1, which only stale bytes could produce, is not represented.
- PageModel.Insert: requires the u32 sum of key and data sizes not to wrap (below 2^32). The source's wrapped sum is not modelled.
- PageModel.Update: requires the size sum to stay below 2^31. The source computes the growth as an `int` from u32 values, and a wrapped or negative value is not modelled.
- Slot ids are `nat`. The source's u16 truncation of the `slot_id` argument is not modelled; it cannot matter for a directory of at most 31 entries.
- PageModel.Get: requires the slot id below the slot count (`Readable`). The source dereferences the NULL slot of an out-of-range id, which is undefined behaviour, not a result. The same holds for PageModel.Update, SlottedPage.Page.Get and SlottedPage.Page.Update.
- The two run-time `assert` calls of the grow path (src/page.c:182-183) are proof obligations in SlottedPage.Page.GrowRecord rather than checks at run time.
- Only the 256-byte test configuration of PAGE_SIZE is modelled. The 8196-byte size appears only in PageLayout.PageSizesFitU16.
- The `memcpy`/`memmove` calls are modelled as byte loops. The C library's own implementation is not part of this model.

## Findings

| source | as written | input that shows it | evidently intended | confidence | as-written member | corrected member |
|---|---|---|---|---|---|---|
| src/page.c:102-111 | `page_delete` moves bytes whenever the record's offset differs from `freespace_end`, with a u16 length `offset - freespace_end`. The grow path of `page_update` reaches the same code through its call at src/page.c:181. | On a new 256-byte page: insert a one-byte record (offset 255), then an empty record (also offset 255, `freespace_end` stays 255). Delete slot 0 (`freespace_end` becomes 256), then delete slot 1, or update it to one byte. Its offset 255 differs from 256, the length wraps to 65535, and the `memmove` runs far past the page. | Move only when there are bytes below the record, i.e. `offset > freespace_end`, as the shrink path of `page_update` does at src/page.c:152. | not executed; the wrap follows from the u16 arithmetic | DeleteLemmas.DeleteMoveLengthAsWritten, TestScenarios.EmptyRecordDeleteOverruns, TestScenarios.GrowEmptyRecordOverruns | PageModel.Delete, DeleteLemmas.DeleteKeepsOthers |
| src/page.c:81-85 | The reuse path of `page_insert` sets the slot's offset and sizes but never clears its deleted flag. The grow path of `page_update` does clear it, at src/page.c:190. | The scenario of `test_insertReuseDeletedSlot` (src/test.c:85-106): on the set-up page, delete slot 0, then insert a 7-byte key and 13-byte data. The header values the test checks come out right, but slot 0 is still deleted, `page_get` returns nothing for it, and bytes [218, 238) belong to no live record. | Mark the reused slot live, so that the record reads back and the region stays free of gaps. | not executed; follows from the flag never being written | PageModel.InsertAsWritten, InsertLemmas.InsertAsWrittenLeavesGap, TestScenarios.InsertReuseAsWritten | PageModel.Insert, InsertLemmas.InsertThenGet, InsertLemmas.InsertKeepsTiled |
