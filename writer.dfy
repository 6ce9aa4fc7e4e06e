/**
 * WriteLgc: the header is written first, then each item record followed by its
 * vectors; the offset at which each item starts is recorded in the caller's
 * header as it goes, and at the end the file is rewound and the header, now with
 * its offset table filled in, is written over the first one.
 */
module Writer {
  import opened Bytes
  import opened Vectors
  import opened Records

  /** The caller's lgcFileHeader, whose ItemStart table WriteLgc fills in place. */
  class FileHeader {
    var allCrc32: uint32
    var uiFlag: uint32
    var itemCount: uint32
    var res: uint32
    const itemStart: array<uint32>

    ghost predicate Valid() reads this {
      itemStart.Length == MaxItemCount
    }

    /** The header as a value. */
    function Value(): (h: Header)
      requires Valid()
      reads this, itemStart
      ensures h.itemStart == itemStart[..]
    {
      Header(allCrc32, uiFlag, itemCount, res, itemStart[..])
    }

    constructor (h: Header)
      ensures Valid() && fresh(itemStart) && Value() == h
    {
      allCrc32 := h.allCrc32;
      uiFlag := h.uiFlag;
      itemCount := h.itemCount;
      res := h.res;
      itemStart := new uint32[MaxItemCount](i requires 0 <= i < MaxItemCount => h.itemStart[i]);
    }
  }

  /**
   * The header once WriteLgc has recorded where each of `es` starts: Go's
   * uint32(offset) of the file position, the other table slots and fields as they were.
   */
  function Patched(h: Header, es: seq<Entry>): (r: Header)
    requires |es| <= MaxItemCount
    ensures r.allCrc32 == h.allCrc32 && r.uiFlag == h.uiFlag && r.itemCount == h.itemCount && r.res == h.res
    ensures forall i :: |es| <= i < MaxItemCount ==> r.itemStart[i] == h.itemStart[i]
  {
    h.(itemStart := seq(MaxItemCount, i requires 0 <= i < MaxItemCount =>
      if i < |es| then U32(ItemOffset(es, i)) else h.itemStart[i]))
  }

  lemma PatchedAt(h: Header, es: seq<Entry>, i: nat)
    requires |es| <= MaxItemCount && i < |es|
    ensures Patched(h, es).itemStart[i] == U32(ItemOffset(es, i))
  {
  }

  /** What WriteLgc leaves in the file for a document. */
  function Written(f: LgcFile): seq<byte>
    requires |f.entries| <= MaxItemCount
  {
    FileBytes(LgcFile(Patched(f.header, f.entries), f.entries))
  }

  /** Every recorded offset is the file offset of its entry, taken modulo 2^32. */
  lemma PatchedOffsets(h: Header, es: seq<Entry>, i: nat)
    requires |es| <= MaxItemCount && i < |es|
    ensures Patched(h, es).itemStart[i] as int == (HeaderSize + SizeSum(es[..i])) % 0x1_0000_0000
  {
    PatchedAt(h, es, i);
    ItemOffsetFormula(es, i);
  }

  /** When the whole file fits in 32 bits, each recorded offset is exactly where its entry starts. */
  lemma PatchedOffsetExact(h: Header, es: seq<Entry>, i: nat)
    requires |es| <= MaxItemCount && i < |es|
    requires HeaderSize + |BodyBytes(es)| < 0x1_0000_0000
    ensures Patched(h, es).itemStart[i] as int == ItemOffset(es, i)
  {
    PatchedAt(h, es, i);
    ItemOffsetBound(es, i);
    U32Exact(ItemOffset(es, i));
  }

  /**
   * When the whole file fits in 32 bits, the recorded offsets are strictly
   * increasing: each entry ends no later than where the next one starts.
   */
  lemma PatchedOffsetsIncrease(h: Header, es: seq<Entry>, i: nat, j: nat)
    requires |es| <= MaxItemCount && i < j < |es|
    requires HeaderSize + |BodyBytes(es)| < 0x1_0000_0000
    ensures Patched(h, es).itemStart[i] as int + EntrySize(es[i]) <= Patched(h, es).itemStart[j] as int
  {
    PatchedOffsetExact(h, es, i);
    PatchedOffsetExact(h, es, j);
    ItemOffsetsIncrease(es, i, j);
  }

  /** The inner loop of WriteLgc: one item's vectors appended to the file in order. */
  method WriteVectors(file: seq<byte>, vectors: seq<LogicVector>) returns (out: seq<byte>)
    ensures out == file + VectorsBytes(vectors)
  {
    out := file;
    var vectorID := 0;
    while vectorID < |vectors|
      invariant 0 <= vectorID <= |vectors|
      invariant out == file + VectorsBytes(vectors[..vectorID])
    {
      VectorsBytesAppend(vectors[..vectorID], vectors[vectorID]);
      assert vectors[..vectorID + 1] == vectors[..vectorID] + [vectors[vectorID]];
      out := out + vectors[vectorID];
      vectorID := vectorID + 1;
    }
    assert vectors[..vectorID] == vectors;
  }

  /** The offset table WriteLgc records: entry `j` at its file offset, modulo 2^32. */
  ghost function OffsetTable(es: seq<Entry>): (r: seq<uint32>)
    ensures |r| == |es| && forall j :: 0 <= j < |es| ==> r[j] == U32(ItemOffset(es, j))
  {
    seq(|es|, j requires 0 <= j < |es| => U32(ItemOffset(es, j)))
  }

  /** The file position before entry `i` is written is the offset recorded for it. */
  lemma OffsetTableAt(entries: seq<Entry>, i: nat, file: seq<byte>, out: seq<byte>)
    requires i < |entries| && |file| == HeaderSize && out == file + BodyBytes(entries[..i])
    ensures OffsetTable(entries)[i] == U32(|out|)
  {
  }

  /** Appending entry `i` after the first `i` entries gives the first `i + 1`. */
  lemma WrittenStep(entries: seq<Entry>, i: nat, file: seq<byte>, before: seq<byte>, after: seq<byte>)
    requires i < |entries| && before == file + BodyBytes(entries[..i])
    requires after == before + EntryBytes(entries[i])
    ensures after == file + BodyBytes(entries[..i + 1])
  {
    BodyBytesStep(entries, i);
  }

  /** One iteration of WriteLgc's outer loop after the offset is recorded: the item record, then its vectors. */
  method WriteEntry(file: seq<byte>, entry: Entry) returns (out: seq<byte>)
    ensures out == file + EntryBytes(entry)
  {
    out := file + ItemBytes(entry.item);
    out := WriteVectors(out, entry.vectors);
  }

  /**
   * The item loop of WriteLgc: after the header, each entry is appended at the
   * current file position, which is first recorded in the header's offset table.
   */
  method WriteItems(header: FileHeader, entries: seq<Entry>, file: seq<byte>) returns (out: seq<byte>)
    requires header.Valid() && |entries| <= MaxItemCount && |file| == HeaderSize
    modifies header.itemStart
    ensures out == file + BodyBytes(entries)
    ensures forall j :: 0 <= j < |entries| ==> header.itemStart[j] == U32(ItemOffset(entries, j))
    ensures forall j :: |entries| <= j < MaxItemCount ==> header.itemStart[j] == old(header.itemStart[j])
  {
    out := file;
    ghost var offsets := OffsetTable(entries);
    var itemID := 0;
    while itemID < |entries|
      invariant 0 <= itemID <= |entries|
      invariant out == file + BodyBytes(entries[..itemID])
      invariant forall j :: 0 <= j < itemID ==> header.itemStart[j] == offsets[j]
      invariant forall j :: itemID <= j < MaxItemCount ==> header.itemStart[j] == old(header.itemStart[j])
    {
      var entry := entries[itemID];
      var offset := |out|;
      OffsetTableAt(entries, itemID, file, out);
      header.itemStart[itemID] := U32(offset);
      ghost var before := out;
      out := WriteEntry(out, entry);
      WrittenStep(entries, itemID, file, before, out);
      itemID := itemID + 1;
    }
    assert entries[..itemID] == entries;
  }

  /**
   * The writer. The file is the sequence of bytes written so far; Seek(0,
   * SeekCurrent) is its length, and the final rewind and rewrite replaces its first
   * 2064 bytes.
   */
  method WriteLgc(header: FileHeader, entries: seq<Entry>) returns (file: seq<byte>)
    requires header.Valid() && |entries| <= MaxItemCount
    modifies header.itemStart
    ensures header.Valid()
    ensures header.Value() == Patched(old(header.Value()), entries)
    ensures file == FileBytes(LgcFile(header.Value(), entries))
  {
    ghost var h0 := header.Value();
    file := HeaderBytes(header.Value());
    file := WriteItems(header, entries, file);
    file := HeaderBytes(header.Value()) + file[HeaderSize..];
    assert header.Value().itemStart == Patched(h0, entries).itemStart;
  }
}
