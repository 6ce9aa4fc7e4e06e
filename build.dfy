/**
 * parseJsonFile: the LGC document built from already-decoded structured records
 * (the tomlIC list that the TOML and JSON front ends produce), with the running
 * CRC-32 over every item record and vector it creates.
 */
module Build {
  import opened Bytes
  import opened Wrappers
  import Crc32
  import opened Voltage
  import opened Vectors
  import opened Names
  import opened Records

  /** tomlIC: one part as the structured formats describe it. */
  datatype TomlIc = TomlIc(name: seq<byte>, pins: uint32, vcc: real, vectors: seq<seq<byte>>)

  /**
   * Why a document cannot be built. The source panics in both cases (an index out
   * of range on the padded name, a panic inside unmapVector or a write past the
   * vector record).
   */
  datatype BuildError = NameTooLong(ic: nat) | BadVector(ic: nat, vector: nat, cause: PackError)

  /** The item record parseJsonFile fills in for a part whose name slot is `slot`. */
  function ItemOf(ic: TomlIc, slot: NameSlot): Item {
    Item(vectorCount := U32(|ic.vectors|), itemName := slot, voltageLevel := MapVoltageLevel(ic.vcc),
         pinCount := ByteOf(ic.pins as int % 0x100), res0 := 0, res1 := 0, uiRes := 0)
  }

  /** The packed vectors of one part, or the index and cause of the first that does not pack. */
  function PackVectors(vs: seq<seq<byte>>): (r: Result<seq<LogicVector>, (nat, PackError)>)
    ensures r.Success? ==> |r.value| == |vs|
    ensures r.Success? ==> forall k :: 0 <= k < |vs| ==> PackVector(vs[k]) == Success(r.value[k])
    ensures r.Failure? ==> r.error.0 < |vs| && PackVector(vs[r.error.0]) == Failure(r.error.1)
    ensures r.Failure? ==> forall k :: 0 <= k < r.error.0 ==> PackVector(vs[k]).Success?
  {
    if vs == [] then Success([])
    else
      var n := |vs| - 1;
      match PackVectors(vs[..n])
      case Failure(e) => Failure(e)
      case Success(packed) =>
        match PackVector(vs[n])
        case Failure(e) => Failure((n, e))
        case Success(v) => Success(packed + [v])
  }

  /** The entry for part number `index`. */
  function BuildEntry(ic: TomlIc, index: nat): Result<Entry, BuildError> {
    match PadName(ic.name)
    case None => Failure(NameTooLong(index))
    case Some(slot) =>
      match PackVectors(ic.vectors)
      case Failure(e) => Failure(BadVector(index, e.0, e.1))
      case Success(vs) => Success(Entry(ItemOf(ic, slot), vs))
  }

  /** The entries of all parts, or the first failure in the order the source meets it. */
  function BuildEntries(ics: seq<TomlIc>): (r: Result<seq<Entry>, BuildError>)
    ensures r.Success? ==> |r.value| == |ics|
    ensures r.Success? ==> forall i :: 0 <= i < |ics| ==> BuildEntry(ics[i], i) == Success(r.value[i])
    ensures r.Failure? ==> r.error.ic < |ics| && BuildEntry(ics[r.error.ic], r.error.ic) == Failure(r.error)
    ensures r.Failure? ==> forall j :: 0 <= j < r.error.ic ==> BuildEntry(ics[j], j).Success?
  {
    if ics == [] then Success([])
    else
      var n := |ics| - 1;
      var entries :- BuildEntries(ics[..n]);
      var e :- BuildEntry(ics[n], n);
      Success(entries + [e])
  }

  /** What parseJsonFile returns. */
  function Built(ics: seq<TomlIc>): Result<LgcFile, BuildError> {
    var entries :- BuildEntries(ics);
    Success(LgcFile(Header(Crc32.AsUint32(Crc32.Update(0, BodyBytes(entries))), FileFlag, U32(|ics|), 0, seq(MaxItemCount, _ => 0)), entries))
  }

  lemma {:induction false} PackVectorsPrefixFailure(vs: seq<seq<byte>>, n: nat)
    requires n <= |vs| && PackVectors(vs[..n]).Failure?
    ensures PackVectors(vs) == PackVectors(vs[..n])
    decreases |vs| - n
  {
    if n < |vs| {
      assert vs[..n + 1][..n] == vs[..n];
      PackVectorsPrefixFailure(vs, n + 1);
    } else {
      assert vs[..n] == vs;
    }
  }

  lemma {:induction false} BuildEntriesPrefixFailure(ics: seq<TomlIc>, n: nat)
    requires n <= |ics| && BuildEntries(ics[..n]).Failure?
    ensures BuildEntries(ics) == BuildEntries(ics[..n])
    decreases |ics| - n
  {
    if n < |ics| {
      assert ics[..n + 1][..n] == ics[..n];
      BuildEntriesPrefixFailure(ics, n + 1);
    } else {
      assert ics[..n] == ics;
    }
  }

  lemma BodyBytesAppendOne(es: seq<Entry>, e: Entry)
    ensures BodyBytes(es + [e]) == BodyBytes(es) + ItemBytes(e.item) + VectorsBytes(e.vectors)
  {
    assert (es + [e])[..|es|] == es;
  }

  /**
   * The name steps of parseJsonFile: `%-32s` padding, a NUL written at index
   * len(name) (out of range, so a panic, for 32 bytes or more), then the first 32
   * bytes copied into the slot.
   */
  method PadItemName(name: seq<byte>) returns (slot: Option<NameSlot>)
    ensures slot == PadName(name)
  {
    var paddedName := name + (if |name| < NameSize then Spaces(NameSize - |name|) else []);
    if |name| >= |paddedName| {
      return None;
    }
    paddedName := paddedName[|name| := Nul];
    ghost var expected := name + [Nul] + Spaces(NameSize - 1 - |name|);
    assert forall k :: 0 <= k < NameSize ==> paddedName[k] == expected[k];
    assert paddedName[..NameSize] == expected;
    slot := Some(paddedName[..NameSize]);
  }

  /** One more vector string either packs onto the prefix or is the first to fail. */
  lemma PackVectorsStep(vs: seq<seq<byte>>, n: nat, packed: seq<LogicVector>)
    requires n < |vs| && PackVectors(vs[..n]) == Success(packed)
    ensures PackVector(vs[n]).Failure? ==> PackVectors(vs[..n + 1]) == Failure((n, PackVector(vs[n]).error))
    ensures PackVector(vs[n]).Success? ==> PackVectors(vs[..n + 1]) == Success(packed + [PackVector(vs[n]).value])
  {
    assert vs[..n + 1][..n] == vs[..n];
  }

  /**
   * The inner loop of parseJsonFile: packs the vector strings of one part in order,
   * feeding each packed record to the running CRC-32.
   */
  method ParseVectorStrings(vectorStrs: seq<seq<byte>>, hashIn: bv32)
    returns (packed: Result<seq<LogicVector>, (nat, PackError)>, hashValue: bv32)
    ensures packed == PackVectors(vectorStrs)
    ensures packed.Success? ==> hashValue == Crc32.Update(hashIn, VectorsBytes(packed.value))
  {
    var vectors: seq<LogicVector> := [];
    hashValue := hashIn;
    Crc32.UpdateEmpty(hashIn);
    var vectorID := 0;
    while vectorID < |vectorStrs|
      invariant 0 <= vectorID <= |vectorStrs|
      invariant PackVectors(vectorStrs[..vectorID]) == Success(vectors)
      invariant hashValue == Crc32.Update(hashIn, VectorsBytes(vectors))
    {
      var v := ParseVectorString(vectorStrs[vectorID]);
      PackVectorsStep(vectorStrs, vectorID, vectors);
      if v.Failure? {
        PackVectorsPrefixFailure(vectorStrs, vectorID + 1);
        return Failure((vectorID, v.error)), hashValue;
      }
      VectorsBytesAppend(vectors, v.value);
      Crc32.UpdateConcat(hashIn, VectorsBytes(vectors), v.value);
      vectors := vectors + [v.value];
      hashValue := Crc32.Update(hashValue, v.value);
      vectorID := vectorID + 1;
    }
    assert vectorStrs[..vectorID] == vectorStrs;
    packed := Success(vectors);
  }

  /** One more part either builds onto the prefix or is the first to fail. */
  lemma BuildEntriesStep(ics: seq<TomlIc>, n: nat, entries: seq<Entry>)
    requires n < |ics| && BuildEntries(ics[..n]) == Success(entries)
    ensures BuildEntry(ics[n], n).Failure? ==> BuildEntries(ics[..n + 1]) == Failure(BuildEntry(ics[n], n).error)
    ensures BuildEntry(ics[n], n).Success? ==> BuildEntries(ics[..n + 1]) == Success(entries + [BuildEntry(ics[n], n).value])
  {
    assert ics[..n + 1][..n] == ics[..n];
  }

  /**
   * parseJsonFile: fills one entry per part while the CRC-32 runs from 0 over each
   * item record and then each of its vectors, never reset; the final value becomes
   * the header's AllCrc32.
   */
  method BuildLgcFile(ics: seq<TomlIc>) returns (r: Result<LgcFile, BuildError>)
    ensures r == Built(ics)
  {
    var entries: seq<Entry> := [];
    var hashValue: bv32 := 0;
    Crc32.UpdateEmpty(0);
    var icID := 0;
    while icID < |ics|
      invariant 0 <= icID <= |ics|
      invariant BuildEntries(ics[..icID]) == Success(entries)
      invariant hashValue == Crc32.Update(0, BodyBytes(entries))
    {
      var s := ics[icID];
      BuildEntriesStep(ics, icID, entries);
      var slot := PadItemName(s.name);
      if slot.None? {
        BuildEntriesPrefixFailure(ics, icID + 1);
        return Failure(NameTooLong(icID));
      }
      var item := ItemOf(s, slot.value);
      Crc32.UpdateConcat(0, BodyBytes(entries), ItemBytes(item));
      hashValue := Crc32.Update(hashValue, ItemBytes(item));
      var vectors, hashAfter := ParseVectorStrings(s.vectors, hashValue);
      if vectors.Failure? {
        BuildEntriesPrefixFailure(ics, icID + 1);
        return Failure(BadVector(icID, vectors.error.0, vectors.error.1));
      }
      Crc32.UpdateConcat(0, BodyBytes(entries) + ItemBytes(item), VectorsBytes(vectors.value));
      BodyBytesAppendOne(entries, Entry(item, vectors.value));
      entries := entries + [Entry(item, vectors.value)];
      hashValue := hashAfter;
      icID := icID + 1;
    }
    assert ics[..icID] == ics;
    r := Success(LgcFile(Header(Crc32.AsUint32(hashValue), FileFlag, U32(|ics|), 0, seq(MaxItemCount, _ => 0)), entries));
  }

  /** Every part has a name that fits its slot and vectors that all pack. */
  predicate Buildable(ics: seq<TomlIc>) {
    forall i :: 0 <= i < |ics| ==>
      |ics[i].name| < NameSize && forall k :: 0 <= k < |ics[i].vectors| ==> PackVector(ics[i].vectors[k]).Success?
  }

  lemma {:induction false} PackVectorsSucceed(vs: seq<seq<byte>>)
    requires forall k :: 0 <= k < |vs| ==> PackVector(vs[k]).Success?
    ensures PackVectors(vs).Success?
    decreases |vs|
  {
    if vs != [] {
      PackVectorsSucceed(vs[..|vs| - 1]);
    }
  }

  /** When every name fits and every vector packs, every entry is built. */
  lemma {:induction false} BuildableEntriesSucceed(ics: seq<TomlIc>)
    requires Buildable(ics)
    ensures BuildEntries(ics).Success?
    decreases |ics|
  {
    if ics != [] {
      var n := |ics| - 1;
      assert Buildable(ics[..n]) by {
        assert forall i :: 0 <= i < n ==> ics[..n][i] == ics[i];
      }
      BuildableEntriesSucceed(ics[..n]);
      PackVectorsSucceed(ics[n].vectors);
    }
  }

  /** When every entry is built, every name fits and every vector packs. */
  lemma BuiltEntriesBuildable(ics: seq<TomlIc>)
    requires BuildEntries(ics).Success?
    ensures Buildable(ics)
  {
    forall i | 0 <= i < |ics|
      ensures |ics[i].name| < NameSize
      ensures forall k :: 0 <= k < |ics[i].vectors| ==> PackVector(ics[i].vectors[k]).Success?
    {
      assert BuildEntry(ics[i], i).Success?;
    }
  }

  /** parseJsonFile fails exactly when some name is too long or some vector does not pack. */
  lemma BuiltSucceedsIff(ics: seq<TomlIc>)
    ensures Built(ics).Success? <==> Buildable(ics)
  {
    if Buildable(ics) {
      BuildableEntriesSucceed(ics);
    }
    if BuildEntries(ics).Success? {
      BuiltEntriesBuildable(ics);
    }
  }

  /** The header parseJsonFile builds. */
  lemma BuiltHeader(ics: seq<TomlIc>)
    requires Built(ics).Success?
    ensures |Built(ics).value.entries| == |ics|
    ensures Built(ics).value.header.uiFlag == FileFlag
    ensures Built(ics).value.header.res == 0
    ensures Built(ics).value.header.itemCount as int == |ics| % 0x1_0000_0000
    ensures Built(ics).value.header.allCrc32 == Crc32.AsUint32(Crc32.Update(0, BodyBytes(Built(ics).value.entries)))
    ensures forall i :: 0 <= i < MaxItemCount ==> Built(ics).value.header.itemStart[i] == 0
  {
    var entries := BuildEntries(ics).value;
  }

  /** The entry parseJsonFile builds for part number `index`, field by field. */
  lemma BuildEntryFields(ic: TomlIc, index: nat)
    requires BuildEntry(ic, index).Success?
    ensures var e := BuildEntry(ic, index).value;
      && |ic.name| < NameSize
      && e.item.itemName == PadName(ic.name).value
      && e.item.vectorCount as int == |ic.vectors| % 0x1_0000_0000
      && Value(e.item.pinCount) == ic.pins as int % 0x100
      && e.item.voltageLevel == MapVoltageLevel(ic.vcc)
      && e.item.res0 == 0 && e.item.res1 == 0 && e.item.uiRes == 0
      && |e.vectors| == |ic.vectors|
      && forall k :: 0 <= k < |ic.vectors| ==> PackVector(ic.vectors[k]) == Success(e.vectors[k])
  {
    ValueOfByte(ic.pins as int % 0x100);
  }

  /** The entry of part `i` in a built document is the one built for that part alone. */
  lemma BuiltEntry(ics: seq<TomlIc>, i: nat)
    requires Built(ics).Success? && i < |ics|
    ensures |Built(ics).value.entries| == |ics|
    ensures BuildEntry(ics[i], i) == Success(Built(ics).value.entries[i])
  {
  }

  /** Each built entry counts its own vectors, when that count fits in 32 bits. */
  lemma BuiltEntriesCounted(ics: seq<TomlIc>, es: seq<Entry>)
    requires BuildEntries(ics) == Success(es)
    requires forall i :: 0 <= i < |ics| ==> |ics[i].vectors| < 0x1_0000_0000
    ensures forall i :: 0 <= i < |es| ==> es[i].item.vectorCount as int == |es[i].vectors|
  {
    forall i | 0 <= i < |es|
      ensures es[i].item.vectorCount as int == |es[i].vectors|
    {
      assert BuildEntry(ics[i], i) == Success(es[i]);
      BuildEntryFields(ics[i], i);
      U32Exact(|ics[i].vectors|);
    }
  }

  /** Built entries under a header that counts them are laid out consistently. */
  lemma BuiltEntriesWellFormed(ics: seq<TomlIc>, f: LgcFile)
    requires BuildEntries(ics) == Success(f.entries)
    requires |ics| <= MaxItemCount && f.header.itemCount as int == |ics|
    requires forall i :: 0 <= i < |ics| ==> |ics[i].vectors| < 0x1_0000_0000
    ensures WellFormed(f)
  {
    BuiltEntriesCounted(ics, f.entries);
  }

  /** A built document is laid out consistently whenever its counts fit in 32 bits. */
  lemma BuiltWellFormed(ics: seq<TomlIc>)
    requires Built(ics).Success?
    requires |ics| <= MaxItemCount
    requires forall i :: 0 <= i < |ics| ==> |ics[i].vectors| < 0x1_0000_0000
    ensures WellFormed(Built(ics).value)
  {
    var f := Built(ics).value;
    assert f.header.itemCount == U32(|ics|);
    U32Exact(|ics|);
    BuiltEntriesWellFormed(ics, f);
  }

  /** The stored checksum changes if any single byte of any item record or vector changes. */
  lemma ChecksumDetectsByteChange(f: LgcFile, body: seq<byte>, i: nat, v: byte)
    requires f.header.allCrc32 == Crc32.AsUint32(Crc32.Update(0, BodyBytes(f.entries)))
    requires i < |BodyBytes(f.entries)| && v != BodyBytes(f.entries)[i]
    requires body == BodyBytes(f.entries)[i := v]
    ensures f.header.allCrc32 != Crc32.AsUint32(Crc32.Update(0, body))
  {
    Crc32.UpdateDetectsByteChange(0, BodyBytes(f.entries), i, v);
    Crc32.AsUint32Injective(Crc32.Update(0, BodyBytes(f.entries)), Crc32.Update(0, body));
  }
}
