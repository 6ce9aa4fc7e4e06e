/**
 * ParseLGCFile and readFileItem: the header is read from the start of the file,
 * then ItemCount items, each from the offset its ItemStart slot holds, each item
 * record followed by VectorCount vectors. The reader checks neither UIFlag nor
 * AllCrc32: the CRC-32 that readFileItem computes is never compared with anything.
 */
module Reader {
  import opened Bytes
  import opened Wrappers
  import Crc32
  import opened Vectors
  import opened Records

  /**
   * Why a file does not decode. The first three are the errors binary.Read
   * reports for a short read; an item index past the offset table is a panic in
   * the source.
   */
  datatype ReadError =
    | ShortHeader
    | ShortItem(item: nat)
    | ShortVector(item: nat, vector: nat)
    | ItemIndexOutOfRange(item: nat)

  /** The `count` vectors read one after the other from `start`, or the first short read. */
  function ReadVectors(file: seq<byte>, start: nat, count: nat, item: nat): (r: Result<seq<LogicVector>, ReadError>)
    decreases count
  {
    if count == 0 then Success([])
    else
      var front :- ReadVectors(file, start, count - 1, item);
      var at := start + VectorSize * (count - 1);
      if at + VectorSize > |file| then Failure(ShortVector(item, count - 1))
      else Success(front + [file[at .. at + VectorSize]])
  }

  /** What readFileItem returns for item `itemID`. */
  function ReadEntry(file: seq<byte>, h: Header, itemID: nat): Result<Entry, ReadError> {
    if itemID >= MaxItemCount then Failure(ItemIndexOutOfRange(itemID))
    else
      var start := h.itemStart[itemID] as int;
      if start + ItemSize > |file| then Failure(ShortItem(itemID))
      else
        var item := DecodeItem(file[start .. start + ItemSize]);
        var vectors :- ReadVectors(file, start + ItemSize, item.vectorCount as int, itemID);
        Success(Entry(item, vectors))
  }

  /** The first `n` entries, read in order, or the first failure. */
  function ReadEntries(file: seq<byte>, h: Header, n: nat): Result<seq<Entry>, ReadError>
    decreases n
  {
    if n == 0 then Success([])
    else
      var front :- ReadEntries(file, h, n - 1);
      var e :- ReadEntry(file, h, n - 1);
      Success(front + [e])
  }

  /** What ParseLGCFile returns for the bytes of a file. */
  function Decode(file: seq<byte>): Result<LgcFile, ReadError> {
    if |file| < HeaderSize then Failure(ShortHeader)
    else
      var h := DecodeHeader(file[..HeaderSize]);
      var entries :- ReadEntries(file, h, h.itemCount as int);
      Success(LgcFile(h, entries))
  }

  /**
   * The vector loop of readFileItem: `count` vectors read consecutively from
   * `start`, each fed to the running CRC-32.
   */
  method ReadItemVectors(file: seq<byte>, start: nat, count: nat, itemID: nat, hashIn: bv32)
    returns (r: Result<seq<LogicVector>, ReadError>, hashValue: bv32)
    ensures r == ReadVectors(file, start, count, itemID)
    ensures r.Success? ==> hashValue == Crc32.Update(hashIn, VectorsBytes(r.value))
  {
    var vectors: seq<LogicVector> := [];
    hashValue := hashIn;
    Crc32.UpdateEmpty(hashIn);
    var pos := start;
    var vectorID := 0;
    while vectorID < count
      invariant 0 <= vectorID <= count
      invariant pos == start + VectorSize * vectorID
      invariant ReadVectors(file, start, vectorID, itemID) == Success(vectors)
      invariant hashValue == Crc32.Update(hashIn, VectorsBytes(vectors))
    {
      if pos + VectorSize > |file| {
        ReadVectorsPrefixFailure(file, start, vectorID + 1, count, itemID);
        return Failure(ShortVector(itemID, vectorID)), hashValue;
      }
      var vector: LogicVector := file[pos .. pos + VectorSize];
      VectorsBytesAppend(vectors, vector);
      Crc32.UpdateConcat(hashIn, VectorsBytes(vectors), vector);
      pos := pos + VectorSize;
      vectors := vectors + [vector];
      hashValue := Crc32.Update(hashValue, vector);
      vectorID := vectorID + 1;
    }
    r := Success(vectors);
  }

  /**
   * readFileItem. The file is read at absolute positions: Seek to the item's
   * offset, then the item record and its vectors consecutively. The running CRC-32
   * over the re-encoded record and vectors is computed and then dropped.
   */
  method ReadFileItem(file: seq<byte>, fileHeader: Header, itemID: nat) returns (r: Result<Entry, ReadError>)
    ensures r == ReadEntry(file, fileHeader, itemID)
  {
    var hashValue: bv32 := 0;
    if itemID >= MaxItemCount {
      return Failure(ItemIndexOutOfRange(itemID));
    }
    var pos := fileHeader.itemStart[itemID] as int;
    if pos + ItemSize > |file| {
      return Failure(ShortItem(itemID));
    }
    var item := DecodeItem(file[pos .. pos + ItemSize]);
    hashValue := Crc32.Update(hashValue, ItemBytes(item));
    var vectors;
    vectors, hashValue := ReadItemVectors(file, pos + ItemSize, item.vectorCount as int, itemID, hashValue);
    if vectors.Failure? {
      return Failure(vectors.error);
    }
    r := Success(Entry(item, vectors.value));
  }

  /** ParseLGCFile: the header, then every item in order; the first error ends the parse. */
  method ParseLgcFile(file: seq<byte>) returns (r: Result<LgcFile, ReadError>)
    ensures r == Decode(file)
  {
    if |file| < HeaderSize {
      return Failure(ShortHeader);
    }
    var fileHeader := DecodeHeader(file[..HeaderSize]);
    var entries: seq<Entry> := [];
    var itemID := 0;
    while itemID < fileHeader.itemCount as int
      invariant 0 <= itemID <= fileHeader.itemCount as int
      invariant ReadEntries(file, fileHeader, itemID) == Success(entries)
    {
      var entry := ReadFileItem(file, fileHeader, itemID);
      if entry.Failure? {
        ReadEntriesPrefixFailure(file, fileHeader, itemID + 1, fileHeader.itemCount as int);
        return Failure(entry.error);
      }
      entries := entries + [entry.value];
      itemID := itemID + 1;
    }
    r := Success(LgcFile(fileHeader, entries));
  }

  /** Once an item fails to read, every longer parse fails the same way. */
  lemma {:induction false} ReadEntriesPrefixFailure(file: seq<byte>, h: Header, n: nat, m: nat)
    requires n <= m && ReadEntries(file, h, n).Failure?
    ensures ReadEntries(file, h, m) == ReadEntries(file, h, n)
    decreases m - n
  {
    if n < m {
      ReadEntriesPrefixFailure(file, h, n, m - 1);
    }
  }

  /** Once a vector fails to read, reading more of them fails the same way. */
  lemma {:induction false} ReadVectorsPrefixFailure(file: seq<byte>, start: nat, n: nat, m: nat, item: nat)
    requires n <= m && ReadVectors(file, start, n, item).Failure?
    ensures ReadVectors(file, start, m, item) == ReadVectors(file, start, n, item)
    decreases m - n
  {
    if n < m {
      ReadVectorsPrefixFailure(file, start, n, m - 1, item);
    }
  }

  /** The vectors read successfully exactly when there are none or all of them lie within the file. */
  lemma {:induction false} ReadVectorsSucceedsIff(file: seq<byte>, start: nat, count: nat, item: nat)
    ensures ReadVectors(file, start, count, item).Success? <==> count == 0 || start + VectorSize * count <= |file|
    ensures ReadVectors(file, start, count, item).Success? ==> |ReadVectors(file, start, count, item).value| == count
    decreases count
  {
    if count > 0 {
      ReadVectorsSucceedsIff(file, start, count - 1, item);
      var at := start + VectorSize * (count - 1);
      assert at + VectorSize == start + VectorSize * count;
      var front := ReadVectors(file, start, count - 1, item);
      if front.Success? && at + VectorSize <= |file| {
        assert ReadVectors(file, start, count, item) == Success(front.value + [file[at .. at + VectorSize]]);
      }
    }
  }

  /** Vectors written consecutively at `start` read back as written. */
  lemma {:induction false} ReadVectorsWritten(file: seq<byte>, start: nat, vs: seq<LogicVector>, item: nat)
    requires SliceIs(file, start, VectorsBytes(vs))
    ensures ReadVectors(file, start, |vs|, item) == Success(vs)
    decreases |vs|
  {
    if vs != [] {
      var n := |vs| - 1;
      assert VectorsBytes(vs) == VectorsBytes(vs[..n]) + vs[n];
      SliceIsSplit(file, start, VectorsBytes(vs[..n]), vs[n]);
      ReadVectorsWritten(file, start, vs[..n], item);
      assert vs[..n] + [vs[n]] == vs;
    }
  }

  /** An item record and its vectors written at the item's recorded offset read back as written. */
  lemma ReadEntryWritten(file: seq<byte>, h: Header, i: nat, e: Entry)
    requires i < MaxItemCount
    requires e.item.vectorCount as int == |e.vectors|
    requires SliceIs(file, h.itemStart[i] as int, EntryBytes(e))
    ensures ReadEntry(file, h, i) == Success(e)
  {
    var start := h.itemStart[i] as int;
    SliceIsSplit(file, start, ItemBytes(e.item), VectorsBytes(e.vectors));
    DecodeItemBytes(e.item);
    ReadVectorsWritten(file, start + ItemSize, e.vectors, i);
  }

  /** In a file that holds the body after the header, entry `i` lies at its offset. */
  lemma EntryAtOffset(file: seq<byte>, es: seq<Entry>, i: nat)
    requires i < |es|
    requires |file| >= HeaderSize && file[HeaderSize..] == BodyBytes(es)
    ensures SliceIs(file, ItemOffset(es, i), EntryBytes(es[i]))
  {
    EntryInBody(es, i);
    SliceAfter(file, HeaderSize, BodyBytes(es), BodyBytes(es[..i]), EntryBytes(es[i]), BodyBytes(es[i + 1..]), ItemOffset(es, i));
  }

  /** When every entry reads back as given, the first `n` of them do, in order. */
  lemma {:induction false} ReadEntriesAll(file: seq<byte>, h: Header, es: seq<Entry>, n: nat)
    requires n <= |es|
    requires forall i {:trigger ReadEntry(file, h, i)} :: 0 <= i < |es| ==> ReadEntry(file, h, i) == Success(es[i])
    ensures ReadEntries(file, h, n) == Success(es[..n])
    decreases n
  {
    if n > 0 {
      ReadEntriesAll(file, h, es, n - 1);
      ReadEntriesStep(file, h, es, n);
    }
  }

  lemma ReadEntriesStep(file: seq<byte>, h: Header, es: seq<Entry>, n: nat)
    requires 0 < n <= |es|
    requires ReadEntries(file, h, n - 1) == Success(es[..n - 1]) && ReadEntry(file, h, n - 1) == Success(es[n - 1])
    ensures ReadEntries(file, h, n) == Success(es[..n])
  {
    assert es[..n - 1] + [es[n - 1]] == es[..n];
  }

  /** A successful parse of the first `n` items has read each of them on its own. */
  lemma {:induction false} ReadEntriesEach(file: seq<byte>, h: Header, n: nat, i: nat)
    requires ReadEntries(file, h, n).Success? && i < n
    ensures |ReadEntries(file, h, n).value| == n
    ensures ReadEntry(file, h, i) == Success(ReadEntries(file, h, n).value[i])
    decreases n
  {
    ReadEntriesLength(file, h, n);
    if i < n - 1 {
      ReadEntriesEach(file, h, n - 1, i);
    }
  }

  lemma {:induction false} ReadEntriesLength(file: seq<byte>, h: Header, n: nat)
    requires ReadEntries(file, h, n).Success?
    ensures |ReadEntries(file, h, n).value| == n
    decreases n
  {
    if n > 0 {
      ReadEntriesLength(file, h, n - 1);
    }
  }

  /**
   * An item that reads successfully has an index inside the offset table, lies
   * wholly within the file, and holds as many vectors as its VectorCount says.
   */
  lemma ReadEntryBounds(file: seq<byte>, h: Header, i: nat)
    requires ReadEntry(file, h, i).Success?
    ensures i < MaxItemCount
    ensures var e := ReadEntry(file, h, i).value; var start := h.itemStart[i] as int;
      && start + EntrySize(e) <= |file|
      && e.item == DecodeItem(file[start .. start + ItemSize])
      && e.item.vectorCount as int == |e.vectors|
  {
    var start := h.itemStart[i] as int;
    var item := DecodeItem(file[start .. start + ItemSize]);
    ReadVectorsSucceedsIff(file, start + ItemSize, item.vectorCount as int, i);
  }

  /** Whatever the reader accepts is laid out consistently: at most 512 items, each counting its vectors. */
  lemma DecodedWellFormed(file: seq<byte>)
    requires Decode(file).Success?
    ensures WellFormed(Decode(file).value)
  {
    var f := Decode(file).value;
    var n := f.header.itemCount as int;
    ReadEntriesLength(file, f.header, n);
    forall i | 0 <= i < n
      ensures f.entries[i].item.vectorCount as int == |f.entries[i].vectors|
    {
      ReadEntriesEach(file, f.header, n, i);
      ReadEntryBounds(file, f.header, i);
    }
    if n > 0 {
      ReadEntriesEach(file, f.header, n, n - 1);
      ReadEntryBounds(file, f.header, n - 1);
    }
  }
}
