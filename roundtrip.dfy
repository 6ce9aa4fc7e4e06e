/**
 * What the writer and the reader promise together: an LGC file written by
 * WriteLgc parses back to the same document, a truncated one never parses, and the
 * checksum and flag in the header are carried along without being checked. With
 * BuiltFileReadsBack, which says that each entry read back is the one parseJsonFile
 * built for that part, the last lemmas follow one part from its structured record
 * back to the name, voltage and vector strings the text writers print.
 */
module RoundTrip {
  import opened Bytes
  import opened Wrappers
  import Crc32
  import opened Voltage
  import opened Vectors
  import opened Names
  import opened Records
  import opened Build
  import opened Writer
  import opened Reader

  /** A file whose header is `h` and whose items all read back as `es` parses to exactly that document. */
  lemma DecodeWithHeader(file: seq<byte>, h: Header, es: seq<Entry>)
    requires |file| >= HeaderSize && file[..HeaderSize] == HeaderBytes(h)
    requires h.itemCount as int == |es|
    requires forall i {:trigger ReadEntry(file, h, i)} :: 0 <= i < |es| ==> ReadEntry(file, h, i) == Success(es[i])
    ensures Decode(file) == Success(LgcFile(h, es))
  {
    DecodeHeaderBytes(h);
    ReadEntriesAll(file, h, es, |es|);
    assert es[..|es|] == es;
  }

  /** Each entry of a written file reads back from the offset recorded for it. */
  lemma WrittenEntryReads(f: LgcFile, i: nat)
    requires WellFormed(f)
    requires HeaderSize + |BodyBytes(f.entries)| < 0x1_0000_0000
    requires i < |f.entries|
    ensures ReadEntry(Written(f), Patched(f.header, f.entries), i) == Success(f.entries[i])
  {
    var file := Written(f);
    PatchedOffsetExact(f.header, f.entries, i);
    EntryAtOffset(file, f.entries, i);
    ReadEntryWritten(file, Patched(f.header, f.entries), i, f.entries[i]);
  }

  /** The file WriteLgc produces parses back to the document with its offset table filled in. */
  lemma WriteReadRoundTrip(f: LgcFile)
    requires WellFormed(f)
    requires HeaderSize + |BodyBytes(f.entries)| < 0x1_0000_0000
    ensures Decode(Written(f)) == Success(LgcFile(Patched(f.header, f.entries), f.entries))
  {
    var h := Patched(f.header, f.entries);
    var file := Written(f);
    forall i | 0 <= i < |f.entries|
      ensures ReadEntry(file, h, i) == Success(f.entries[i])
    {
      WrittenEntryReads(f, i);
    }
    DecodeWithHeader(file, h, f.entries);
  }

  /** Every offset ParseLGCFile seeks to is exactly where WriteLgc put that entry. */
  lemma WrittenOffsetsRead(f: LgcFile, i: nat)
    requires WellFormed(f)
    requires HeaderSize + |BodyBytes(f.entries)| < 0x1_0000_0000
    requires i < |f.entries|
    ensures Decode(Written(f)).Success?
    ensures Decode(Written(f)).value.header.itemStart[i] as int == HeaderSize + SizeSum(f.entries[..i])
  {
    WriteReadRoundTrip(f);
    PatchedOffsetExact(f.header, f.entries, i);
    ItemOffsetFormula(f.entries, i);
  }

  /**
   * The reader never looks at AllCrc32 or UIFlag: whatever they hold, the written
   * file parses and returns them unchanged.
   */
  lemma AnyChecksumAndFlagAccepted(f: LgcFile, crc: uint32, flag: uint32)
    requires WellFormed(f)
    requires HeaderSize + |BodyBytes(f.entries)| < 0x1_0000_0000
    ensures var g := f.(header := f.header.(allCrc32 := crc, uiFlag := flag));
      && Decode(Written(g)).Success?
      && Decode(Written(g)).value.header.allCrc32 == crc
      && Decode(Written(g)).value.header.uiFlag == flag
      && Decode(Written(g)).value.entries == f.entries
  {
    var g := f.(header := f.header.(allCrc32 := crc, uiFlag := flag));
    WriteReadRoundTrip(g);
  }

  /** The header of a prefix that is at least a header long is the header of the file. */
  lemma PrefixHeader(file: seq<byte>, h: Header, m: nat)
    requires HeaderSize <= m <= |file| && file[..HeaderSize] == HeaderBytes(h)
    requires Decode(file[..m]).Success?
    ensures Decode(file[..m]).value.header == h
  {
    assert file[..m][..HeaderSize] == file[..HeaderSize];
    DecodeHeaderBytes(h);
  }

  /** An item record that lies wholly inside a prefix reads from the prefix as written. */
  lemma ItemInPrefix(file: seq<byte>, m: nat, start: nat, item: Item)
    requires start + ItemSize <= m <= |file|
    requires SliceIs(file, start, ItemBytes(item))
    ensures DecodeItem(file[..m][start .. start + ItemSize]) == item
  {
    SliceIsPrefix(file, m, start, ItemBytes(item));
    DecodeItemBytes(item);
  }

  /**
   * In a file holding the body `es`, a prefix that holds the last entry's item
   * record and as many vectors as that record announces ends where the file ends.
   */
  lemma LastEntryEndsFile(file: seq<byte>, es: seq<Entry>, m: nat, start: nat, count: nat)
    requires m <= |file| && |file| >= HeaderSize && file[HeaderSize..] == BodyBytes(es)
    requires |es| > 0 && start == ItemOffset(es, |es| - 1)
    requires es[|es| - 1].item.vectorCount as int == |es[|es| - 1].vectors|
    requires start + ItemSize + VectorSize * count <= m
    requires DecodeItem(file[..m][start .. start + ItemSize]).vectorCount as int == count
    ensures m == |file|
  {
    var last := |es| - 1;
    EntryAtOffset(file, es, last);
    SliceIsSplit(file, start, ItemBytes(es[last].item), VectorsBytes(es[last].vectors));
    ItemInPrefix(file, m, start, es[last].item);
    ItemOffsetStep(es, last);
    assert es[..last + 1] == es;
  }

  /**
   * A prefix of a file holding the body `es` from which all of `es` can be read at
   * the file's own offsets contains the whole last entry, so it is the whole file.
   */
  lemma ParsedPrefixIsWhole(file: seq<byte>, h: Header, es: seq<Entry>, m: nat)
    requires m <= |file| && |file| >= HeaderSize && file[HeaderSize..] == BodyBytes(es)
    requires |es| > 0 && ReadEntries(file[..m], h, |es|).Success?
    requires h.itemStart[|es| - 1] as int == ItemOffset(es, |es| - 1)
    requires es[|es| - 1].item.vectorCount as int == |es[|es| - 1].vectors|
    ensures m == |file|
  {
    var t := file[..m];
    var last := |es| - 1;
    ReadEntriesEach(t, h, |es|, last);
    ReadEntryBounds(t, h, last);
    var e := ReadEntry(t, h, last).value;
    LastEntryEndsFile(file, es, m, h.itemStart[last] as int, |e.vectors|);
  }

  /** No proper prefix of a written file parses: every short read is an error. */
  lemma TruncatedFileRejected(f: LgcFile, m: nat)
    requires WellFormed(f)
    requires HeaderSize + |BodyBytes(f.entries)| < 0x1_0000_0000
    requires m < |Written(f)|
    ensures Decode(Written(f)[..m]).Failure?
  {
    var es := f.entries;
    var file := Written(f);
    if m >= HeaderSize && Decode(file[..m]).Success? {
      var h := Patched(f.header, es);
      PrefixHeader(file, h, m);
      assert |BodyBytes(es)| > 0;
      PatchedOffsetExact(f.header, es, |es| - 1);
      assert ReadEntries(file[..m], h, |es|).Success?;
      ParsedPrefixIsWhole(file, h, es, m);
      assert false;
    }
  }

  /** The conditions under which a converted document survives WriteLgc and ParseLGCFile. */
  predicate Storable(ics: seq<TomlIc>) {
    && Built(ics).Success?
    && |ics| <= MaxItemCount
    && (forall i :: 0 <= i < |ics| ==> |ics[i].vectors| < 0x1_0000_0000)
    && HeaderSize + |BodyBytes(Built(ics).value.entries)| < 0x1_0000_0000
  }

  /**
   * A document built by parseJsonFile and written by WriteLgc parses back to the
   * same entries, with a header whose AllCrc32 is the CRC-32 of those entries.
   */
  lemma BuiltFileReadsBack(ics: seq<TomlIc>)
    requires Storable(ics)
    ensures Decode(Written(Built(ics).value)).Success?
    ensures var d := Decode(Written(Built(ics).value)).value;
      && d.entries == Built(ics).value.entries
      && d.header.itemCount as int == |ics|
      && d.header.uiFlag == FileFlag
      && d.header.allCrc32 == Crc32.AsUint32(Crc32.Update(0, BodyBytes(d.entries)))
      && forall i :: 0 <= i < |ics| ==> BuildEntry(ics[i], i) == Success(d.entries[i])
  {
    BuiltWellFormed(ics);
    BuiltHeader(ics);
    WriteReadRoundTrip(Built(ics).value);
  }

  /** cleanItemName of a built entry's name slot is the part's name without surrounding spaces. */
  lemma NameReadsBack(ic: TomlIc, index: nat, e: Entry)
    requires BuildEntry(ic, index) == Success(e)
    requires AllPrintable(ic.name)
    ensures CleanItemName(e.item.itemName) == TrimSpaces(ic.name)
  {
    BuildEntryFields(ic, index);
    CleanPaddedName(ic.name);
  }

  /** A built entry's level byte gives back a supported supply voltage. */
  lemma VoltageReadsBack(ic: TomlIc, index: nat, e: Entry)
    requires BuildEntry(ic, index) == Success(e)
    requires IsSupportedVcc(ic.vcc)
    ensures UnmapVoltageLevel(e.item.voltageLevel) == ic.vcc
  {
    BuildEntryFields(ic, index);
    VoltageRoundTrip(ic.vcc);
  }

  /**
   * A vector string with one symbol per pin, for an even number of pins up to 48,
   * is printed back from a built entry exactly as it was given.
   */
  lemma VectorReadsBack(ic: TomlIc, index: nat, e: Entry, k: nat)
    requires BuildEntry(ic, index) == Success(e)
    requires k < |ic.vectors| && |ic.vectors[k]| == ic.pins as int
    requires ic.pins as int % 2 == 0 && ic.pins as int < MaxSymbols
    ensures k < |e.vectors|
    ensures RenderVector(e.vectors[k], e.item.pinCount) == Some(ic.vectors[k])
  {
    BuildEntryFields(ic, index);
    PackedVectorRendersBack(ic.vectors[k], e.vectors[k], e.item.pinCount, ic.pins as int);
  }

  lemma PackedVectorRendersBack(s: seq<byte>, v: LogicVector, pinCount: byte, pins: nat)
    requires PackVector(s) == Success(v)
    requires |s| == pins && pins % 2 == 0 && pins < MaxSymbols && Value(pinCount) == pins % 0x100
    ensures RenderVector(v, pinCount) == Some(s)
  {
    assert pins % 0x100 == pins;
    assert Value(pinCount) == |s|;
    assert AllSymbols(s);
    PackRenderEven(s, pinCount);
  }
}
