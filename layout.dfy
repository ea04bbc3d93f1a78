/** Constants and record types of the page layout (src/page.h). */
module PageLayout {

  /** PAGE_SIZE under TEST_MODE and otherwise. */
  function PageSizeFor(testMode: bool): nat
  {
    if testMode then 256 else 8196
  }

  /** The model fixes the TEST_MODE build, whose boundaries the tests exercise. */
  const PAGE_SIZE: nat := PageSizeFor(true)
  const PAGE_HDR_SIZE: nat := 8
  const PAGE_SLOT_SIZE: nat := 8

  /** Exclusive upper bounds of the C integer types involved. */
  const U16_LIMIT: nat := 0x1_0000
  const U32_LIMIT: nat := 0x1_0000_0000
  const INT_LIMIT: nat := 0x8000_0000

  /** How many slot entries fit between the header and the end of the page. */
  const DIR_CAPACITY: nat := (PAGE_SIZE - PAGE_HDR_SIZE) / PAGE_SLOT_SIZE

  /** Byte offset one past the slot directory holding `slotCount` entries. */
  function DirEnd(slotCount: nat): nat
  {
    PAGE_HDR_SIZE + slotCount * PAGE_SLOT_SIZE
  }

  /** Both page sizes, and so every offset and size bounded by them, fit the u16 header and slot fields. */
  lemma PageSizesFitU16()
    ensures PageSizeFor(true) < U16_LIMIT && PageSizeFor(false) < U16_LIMIT
    ensures DirEnd(DIR_CAPACITY) <= PAGE_SIZE < DirEnd(DIR_CAPACITY + 1)
  {
  }

  /** A slot directory entry: u16 sizes and offset, and the deleted byte as a flag. */
  datatype Slot = Slot(keySize: nat, dataSize: nat, offset: nat, deleted: bool)
  {
    /** Length of the record: its key followed by its data. */
    function Payload(): nat
    {
      keySize + dataSize
    }

    /** One past the last byte of the record. */
    function End(): nat
    {
      offset + keySize + dataSize
    }

    /** Every field keeps within the page, so none of them is ever truncated to u16. */
    predicate Fits()
    {
      keySize <= PAGE_SIZE && dataSize <= PAGE_SIZE && offset <= PAGE_SIZE
    }

    /** A live record with this slot lies inside the record region that starts at `freespaceEnd`. */
    predicate PlacedAbove(freespaceEnd: nat)
    {
      End() <= PAGE_SIZE && (Payload() > 0 ==> freespaceEnd <= offset)
    }
  }

  /** The directory entry of a freshly zeroed page. */
  const ZERO_SLOT: Slot := Slot(0, 0, 0, false)

  /** The byte spans of two records do not overlap (an empty span overlaps nothing). */
  predicate Apart(a: Slot, b: Slot)
  {
    a.Payload() == 0 || b.Payload() == 0 || a.End() <= b.offset || b.End() <= a.offset
  }

  /** What `page_get` hands out; the key and data are copies, so their sizes are their lengths. */
  datatype Record = Record(pageId: nat, slotId: nat, key: seq<bv8>, data: seq<bv8>)

  /** The three outcomes of the page operations. */
  datatype ReturnCode = Ok | NotEnoughSpace | NotFound

  /** The outcome of an insert; `slotId` is 0 unless `code` is Ok. */
  datatype Result = Result(code: ReturnCode, slotId: nat)

  datatype Option<T> = None | Some(value: T)
}
