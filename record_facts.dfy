/** How `Get` reads a record back after the bytes under it were written, moved or left alone. */
module RecordFacts {
  import opened PageLayout
  import opened PageModel

  /** Byte by byte agreement of two spans gives equal slices. */
  lemma SpanCopied(a: seq<bv8>, b: seq<bv8>, from: nat, to: nat, len: nat)
    requires from + len <= |a| && to + len <= |b|
    requires forall i :: to <= i < to + len ==> b[i] == a[i - to + from]
    ensures b[to .. to + len] == a[from .. from + len]
  {
    var x, y := b[to .. to + len], a[from .. from + len];
    forall k | 0 <= k < len
      ensures x[k] == y[k]
    {
      assert b[to + k] == a[to + k - to + from];
    }
  }

  /** A record whose slot kept its flag and sizes, and whose bytes came along with it, reads back the same. */
  lemma SameRecord(p: PageImage, q: PageImage, j: nat)
    requires Readable(p, j) && Readable(q, j)
    requires p.pageId == q.pageId && p.slots[j].deleted == q.slots[j].deleted
    requires p.slots[j].keySize == q.slots[j].keySize && p.slots[j].dataSize == q.slots[j].dataSize
    requires !p.slots[j].deleted ==>
      q.bytes[q.slots[j].offset .. q.slots[j].End()] == p.bytes[p.slots[j].offset .. p.slots[j].End()]
    ensures Get(q, j) == Get(p, j)
  {
    var s, t := p.slots[j], q.slots[j];
    if !s.deleted {
      SpanHalves(p.bytes, s.offset, s.keySize, s.dataSize);
      SpanHalves(q.bytes, t.offset, t.keySize, t.dataSize);
    }
  }

  /** A record's span splits at its key size into its key and its data. */
  lemma SpanHalves(bytes: seq<bv8>, off: nat, keySize: nat, dataSize: nat)
    requires off + keySize + dataSize <= |bytes|
    ensures bytes[off .. off + keySize] == bytes[off .. off + keySize + dataSize][..keySize]
    ensures bytes[off + keySize .. off + keySize + dataSize] == bytes[off .. off + keySize + dataSize][keySize..]
  {
  }

  /** A live slot whose span holds `key` then `data` reads back exactly that record. */
  lemma WrittenRecord(q: PageImage, j: nat, key: seq<bv8>, data: seq<bv8>)
    requires Readable(q, j) && !q.slots[j].deleted
    requires q.slots[j].keySize == |key| && q.slots[j].dataSize == |data|
    requires q.bytes[q.slots[j].offset .. q.slots[j].End()] == key + data
    ensures Get(q, j) == Some(Record(q.pageId, j, key, data))
  {
    var t := q.slots[j];
    SpanHalves(q.bytes, t.offset, t.keySize, t.dataSize);
  }

  /** The record `Place` writes is what the span then holds. */
  lemma PlacedSpan(bytes: seq<bv8>, at: nat, key: seq<bv8>, data: seq<bv8>)
    requires at + |key| + |data| <= |bytes|
    ensures Place(bytes, at, key, data)[at .. at + |key| + |data|] == key + data
  {
    var r := Place(bytes, at, key, data);
    forall k | 0 <= k < |key| + |data|
      ensures r[at .. at + |key| + |data|][k] == (key + data)[k]
    {
      assert r[at + k] == (key + data)[k];
    }
  }

  /** `Place` leaves a span it does not overlap as it was. */
  lemma PlacedAside(bytes: seq<bv8>, at: nat, key: seq<bv8>, data: seq<bv8>, off: nat, len: nat)
    requires at + |key| + |data| <= |bytes| && off + len <= |bytes|
    requires |key| + |data| == 0 || off + len <= at || at + |key| + |data| <= off
    ensures Place(bytes, at, key, data)[off .. off + len] == bytes[off .. off + len]
  {
    SpanCopied(bytes, Place(bytes, at, key, data), off, off, len);
  }

  /** A span inside the moved range arrives `delta` bytes higher, unchanged. */
  lemma MovedSpan(bytes: seq<bv8>, src: nat, n: nat, delta: nat, off: nat, len: nat)
    requires src + n + delta <= |bytes| && src <= off && off + len <= src + n
    ensures Moved(bytes, src, n, delta)[off + delta .. off + delta + len] == bytes[off .. off + len]
  {
    SpanCopied(bytes, Moved(bytes, src, n, delta), off, off + delta, len);
  }

  /** A span above the moved range's destination is left as it was. */
  lemma MovedAside(bytes: seq<bv8>, src: nat, n: nat, delta: nat, off: nat, len: nat)
    requires src + n + delta <= off && off + len <= |bytes|
    ensures Moved(bytes, src, n, delta)[off .. off + len] == bytes[off .. off + len]
  {
    SpanCopied(bytes, Moved(bytes, src, n, delta), off, off, len);
  }

  /** Bytes placed wholly below the record region leave every record of the region readable as before. */
  lemma PlacedBelowKeeps(d: PageImage, q: PageImage, j: nat, at: nat, key: seq<bv8>, data: seq<bv8>)
    requires Readable(d, j) && Readable(q, j) && d.freespaceEnd <= |d.bytes|
    requires !d.slots[j].deleted ==> d.slots[j].PlacedAbove(d.freespaceEnd)
    requires at + |key| + |data| <= d.freespaceEnd
    requires q.bytes == Place(d.bytes, at, key, data)
    requires q.pageId == d.pageId && q.slots[j] == d.slots[j]
    ensures Get(q, j) == Get(d, j)
  {
    var s := d.slots[j];
    if !s.deleted && s.Payload() > 0 {
      PlacedAside(d.bytes, at, key, data, s.offset, s.Payload());
    }
    SameRecord(d, q, j);
  }
}
