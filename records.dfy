/**
 * The in-memory LGC document (lgcFileHeader, lgcFileItem, lgcLogicVectors,
 * lgcFileEntry, lgcFile) and its fixed little-endian byte layout: a 2064-byte header
 * holding a 512-entry offset table, and per item a 44-byte record followed by its
 * 24-byte vectors.
 */
module Records {
  import opened Bytes
  import opened Vectors
  import opened Names

  const HeaderSize: nat := 2064
  const ItemSize: nat := 44
  const MaxItemCount: nat := 512

  /** lgcFileFlag, the value parseJsonFile puts in UIFlag. */
  const FileFlag: uint32 := 0xABABABEE

  /** lgcFileHeader.ItemStart: exactly 512 entries. */
  type OffsetTable = t: seq<uint32> | |t| == MaxItemCount witness seq(512, _ => 0)

  datatype Header = Header(allCrc32: uint32, uiFlag: uint32, itemCount: uint32, res: uint32, itemStart: OffsetTable)

  datatype Item = Item(
    vectorCount: uint32,
    itemName: NameSlot,
    voltageLevel: byte,
    pinCount: byte,
    res0: byte,
    res1: byte,
    uiRes: uint32)

  datatype Entry = Entry(item: Item, vectors: seq<LogicVector>)

  datatype LgcFile = LgcFile(header: Header, entries: seq<Entry>)

  /** binary.Write of a header: four uint32 fields, then the offset table. */
  function HeaderBytes(h: Header): (r: seq<byte>)
    ensures |r| == HeaderSize
  {
    LE32(h.allCrc32) + LE32(h.uiFlag) + LE32(h.itemCount) + LE32(h.res) + LE32s(h.itemStart)
  }

  /** binary.Read of a header from exactly 2064 bytes. */
  function DecodeHeader(b: seq<byte>): Header
    requires |b| == HeaderSize
  {
    Header(DecodeLE32(b[0..4]), DecodeLE32(b[4..8]), DecodeLE32(b[8..12]), DecodeLE32(b[12..16]),
           seq(MaxItemCount, i requires 0 <= i < MaxItemCount => DecodeLE32(b[16 + 4 * i .. 20 + 4 * i])))
  }

  /** Every header, offset table included, reads back as written. */
  lemma DecodeHeaderBytes(h: Header)
    ensures DecodeHeader(HeaderBytes(h)) == h
  {
    var b := HeaderBytes(h);
    var table := LE32s(h.itemStart);
    assert b[16..] == table;
    DecodeLE32s(h.itemStart);
    forall i | 0 <= i < MaxItemCount
      ensures DecodeLE32(b[16 + 4 * i .. 20 + 4 * i]) == h.itemStart[i]
    {
      assert b[16 + 4 * i .. 20 + 4 * i] == table[4 * i .. 4 * i + 4];
    }
    assert b[0..4] == LE32(h.allCrc32);
    assert b[4..8] == LE32(h.uiFlag);
    assert b[8..12] == LE32(h.itemCount);
    assert b[12..16] == LE32(h.res);
    DecodeOfLE32(h.allCrc32);
    DecodeOfLE32(h.uiFlag);
    DecodeOfLE32(h.itemCount);
    DecodeOfLE32(h.res);
  }

  /** binary.Write of an item record. */
  function ItemBytes(it: Item): (r: seq<byte>)
    ensures |r| == ItemSize
  {
    LE32(it.vectorCount) + it.itemName + [it.voltageLevel, it.pinCount, it.res0, it.res1] + LE32(it.uiRes)
  }

  /** binary.Read of an item record from exactly 44 bytes. */
  function DecodeItem(b: seq<byte>): Item
    requires |b| == ItemSize
  {
    Item(DecodeLE32(b[0..4]), b[4..36], b[36], b[37], b[38], b[39], DecodeLE32(b[40..44]))
  }

  /** Every item record, reserved bytes included, reads back as written. */
  lemma DecodeItemBytes(it: Item)
    ensures DecodeItem(ItemBytes(it)) == it
  {
    var b := ItemBytes(it);
    assert b[0..4] == LE32(it.vectorCount);
    assert b[4..36] == it.itemName;
    assert b[40..44] == LE32(it.uiRes);
    DecodeOfLE32(it.vectorCount);
    DecodeOfLE32(it.uiRes);
  }

  /** Vectors written one after the other. */
  function VectorsBytes(vs: seq<LogicVector>): (r: seq<byte>)
    ensures |r| == VectorSize * |vs|
  {
    if vs == [] then [] else VectorsBytes(vs[..|vs| - 1]) + vs[|vs| - 1]
  }

  /** Vector `k` occupies bytes `24k .. 24k+24` of the encoding. */
  lemma {:induction false} VectorsBytesAt(vs: seq<LogicVector>, k: nat)
    requires k < |vs|
    ensures VectorsBytes(vs)[VectorSize * k .. VectorSize * k + VectorSize] == vs[k]
    decreases |vs|
  {
    var n := |vs| - 1;
    var front := VectorsBytes(vs[..n]);
    assert VectorsBytes(vs) == front + vs[n];
    if k < n {
      VectorsBytesAt(vs[..n], k);
      assert vs[..n][k] == vs[k];
      assert VectorsBytes(vs)[VectorSize * k .. VectorSize * k + VectorSize] == front[VectorSize * k .. VectorSize * k + VectorSize];
    } else {
      assert VectorsBytes(vs)[VectorSize * k .. VectorSize * k + VectorSize] == vs[n];
    }
  }

  function EntrySize(e: Entry): nat {
    ItemSize + VectorSize * |e.vectors|
  }

  /** An item record followed by its vectors, as WriteLgc emits them. */
  function EntryBytes(e: Entry): (r: seq<byte>)
    ensures |r| == EntrySize(e)
  {
    ItemBytes(e.item) + VectorsBytes(e.vectors)
  }

  /** Everything after the header: every entry, in order. */
  function BodyBytes(es: seq<Entry>): (r: seq<byte>)
  {
    if es == [] then [] else BodyBytes(es[..|es| - 1]) + EntryBytes(es[|es| - 1])
  }

  /** The whole file. */
  function FileBytes(f: LgcFile): (r: seq<byte>)
    ensures |r| >= HeaderSize
    ensures r[..HeaderSize] == HeaderBytes(f.header) && r[HeaderSize..] == BodyBytes(f.entries)
  {
    HeaderBytes(f.header) + BodyBytes(f.entries)
  }

  lemma {:induction false} BodyBytesAppend(a: seq<Entry>, b: seq<Entry>)
    ensures BodyBytes(a + b) == BodyBytes(a) + BodyBytes(b)
    decreases |b|
  {
    if b == [] {
      assert a + b == a;
    } else {
      var n := |b| - 1;
      assert (a + b)[..|a + b| - 1] == a + b[..n];
      assert (a + b)[|a + b| - 1] == b[n];
      BodyBytesAppend(a, b[..n]);
      var x, y, z := BodyBytes(a), BodyBytes(b[..n]), EntryBytes(b[n]);
      assert BodyBytes(a + b) == (x + y) + z;
      assert BodyBytes(b) == y + z;
    }
  }

  /** An entry followed by one more vector. */
  lemma VectorsBytesAppend(vs: seq<LogicVector>, v: LogicVector)
    ensures VectorsBytes(vs + [v]) == VectorsBytes(vs) + v
  {
    assert (vs + [v])[..|vs|] == vs;
  }

  /** The body grows by one entry's bytes per entry. */
  lemma BodyBytesStep(es: seq<Entry>, i: nat)
    requires i < |es|
    ensures BodyBytes(es[..i + 1]) == BodyBytes(es[..i]) + EntryBytes(es[i])
  {
    assert es[..i + 1][..i] == es[..i];
  }

  /** Total size of the entries: 44 bytes per item record plus 24 per vector. */
  function SizeSum(es: seq<Entry>): nat {
    if es == [] then 0 else SizeSum(es[..|es| - 1]) + EntrySize(es[|es| - 1])
  }

  lemma {:induction false} BodySize(es: seq<Entry>)
    ensures |BodyBytes(es)| == SizeSum(es)
    decreases |es|
  {
    if es != [] {
      BodySize(es[..|es| - 1]);
    }
  }

  /** File offset at which entry `i` starts when entries are laid out after the header. */
  function ItemOffset(es: seq<Entry>, i: nat): nat
    requires i <= |es|
  {
    HeaderSize + |BodyBytes(es[..i])|
  }

  /** Entry `i` starts after the header and the 44 + 24 * VectorCount bytes of every entry before it. */
  lemma ItemOffsetFormula(es: seq<Entry>, i: nat)
    requires i <= |es|
    ensures ItemOffset(es, i) == HeaderSize + SizeSum(es[..i])
  {
    BodySize(es[..i]);
  }

  /** Every entry starts, and every entry ends, within the file. */
  lemma ItemOffsetBound(es: seq<Entry>, i: nat)
    requires i <= |es|
    ensures ItemOffset(es, i) <= HeaderSize + |BodyBytes(es)|
    ensures i < |es| ==> ItemOffset(es, i) + EntrySize(es[i]) <= HeaderSize + |BodyBytes(es)|
  {
    assert es == es[..i] + es[i..];
    BodyBytesAppend(es[..i], es[i..]);
    if i < |es| {
      ItemOffsetsIncrease(es, i, |es|);
      assert es[..|es|] == es;
    }
  }

  /** Each offset is the previous one plus the size of the entry in between. */
  lemma ItemOffsetStep(es: seq<Entry>, i: nat)
    requires i < |es|
    ensures ItemOffset(es, i + 1) == ItemOffset(es, i) + EntrySize(es[i])
  {
    assert es[..i + 1][..i] == es[..i];
  }

  /** Entries occupy disjoint, increasing ranges: offsets are strictly increasing. */
  lemma {:induction false} ItemOffsetsIncrease(es: seq<Entry>, i: nat, j: nat)
    requires i < j <= |es|
    ensures ItemOffset(es, i) + EntrySize(es[i]) <= ItemOffset(es, j)
    decreases j - i
  {
    ItemOffsetStep(es, i);
    if i + 1 < j {
      ItemOffsetsIncrease(es, i + 1, j);
    }
  }

  /** The body is the entries before `i`, then entry `i`, then the entries after it. */
  lemma EntryInBody(es: seq<Entry>, i: nat)
    requires i < |es|
    ensures BodyBytes(es) == BodyBytes(es[..i]) + EntryBytes(es[i]) + BodyBytes(es[i + 1..])
    ensures ItemOffset(es, i) == HeaderSize + |BodyBytes(es[..i])|
  {
    assert es == es[..i + 1] + es[i + 1..];
    BodyBytesAppend(es[..i + 1], es[i + 1..]);
    BodyBytesStep(es, i);
  }

  /**
   * The header agrees with the entries: ItemCount counts them and fits the offset
   * table, and each VectorCount counts that entry's vectors.
   */
  predicate WellFormed(f: LgcFile) {
    && f.header.itemCount as int == |f.entries|
    && |f.entries| <= MaxItemCount
    && forall i :: 0 <= i < |f.entries| ==> f.entries[i].item.vectorCount as int == |f.entries[i].vectors|
  }
}
