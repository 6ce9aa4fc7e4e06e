# A verified model of the xgpro-logic LGC codec

xgpro-logic converts the LGC files of the Xgpro programmer software into text and back. An LGC file holds integrated-circuit test vectors. This project models the codec at the core of `internal/xgpro/xgpro.go`, in Dafny, and proves its properties:

- **Symbols** (`Symbols`). `mapVector` and `unmapVector` translate between the nine pin-state codes 0..8 and the characters `0 1 L H C Z X G V`.
- **Vectors** (`Vectors`).
  - `parseVectorString` packs a symbol string two pins per byte into a 24-byte record.
  - The loops in `writeToml`, `writeJson`, `writeXml` and `DumpLGCFile` render the first `PinCount/2` bytes of a record back into symbols.
- **Voltages** (`Voltage`). `mapVoltageLevel` and `unmapVoltageLevel` translate between supply voltages and level bytes.
- **Names** (`Names`).
  - `parseJsonFile` pads a name into its 32-byte slot.
  - `cleanItemName` recovers a name from the slot.
- **Records** (`Records`). The document types (`lgcFileHeader`, `lgcFileItem`, `lgcLogicVectors`, `lgcFileEntry`, `lgcFile`) and their little-endian byte layout:
  - a 2064-byte header with a 512-slot offset table;
  - a 44-byte item record per part;
  - 24 bytes per vector.
- **Building** (`Build`). `parseJsonFile` turns already-decoded part descriptions into a document. It threads a CRC-32 (`Crc32`) over every item record and vector.
- **Writing** (`Writer`). `WriteLgc` writes the header, then each item record and its vectors. It records each item's file offset in place, in the caller's header (a class holding a 512-slot array). At the end it rewrites the header.
- **Reading** (`Reader`). `ParseLGCFile` and `readFileItem` read the header, then each item from the offset recorded for it.
- **Round trips** (`RoundTrip`). The writer and reader together:
  - a written file parses back to the same document;
  - no truncated file parses;
  - the reader ignores the checksum and the flag;
  - a part's name, voltage and vectors survive building, writing, reading and rendering.

Modelling choices:

- A file is a `seq<byte>` (`byte` is `bv8`) and `uint32` is a bounded integer type. Every `uint32(...)` and `byte(...)` conversion the source makes is written out as reduction modulo 2^32 or 2^8.
- Each loop of the packing, building, writing and reading code, and the render loop of `writeToml`, is a method with its loop and invariants. Each method is proved equal to a function, and the properties are proved about that function.
- Several inputs make the source panic:
  - an unknown vector character;
  - a name of 32 bytes or more;
  - a vector string whose pair would land in byte 24 of the record;
  - an item index past the offset table.

  Each of these is an explicit error value (`PackError`, `BuildError`, `ReadError`).

Behaviour a reader might not expect:

- **Rendering order.** Each byte renders low nibble first, then high nibble, so packing followed by rendering is the identity, although the render loops name the low nibble `pinHigh` and the high one `pinLow`.
- **Unknown codes.** A nibble code 9..15 renders as a blank. Decoding never looks at nibble codes.
- **Unsupported voltages.** A voltage outside the table becomes the sentinel 255, not an error.
- **Vector length.** No vector string is compared with `Pins`. A 49-symbol string packs: its unpaired last symbol is dropped. Only a 50th symbol overflows the record.
- **Checksum and flag on load.** The reader compares neither `AllCrc32` nor `UIFlag` with anything. The CRC-32 that `readFileItem` computes is dropped.
- **Item count on load.** An `ItemCount` above 512 is not rejected up front. The reader fails only when it reaches item 512, or earlier on a short read.
- **Checksum on write.** `WriteLgc` computes no checksum. It writes the header it is given, with the offset table filled in.

## Model

| member | source | states |
|---|---|---|
| Bytes.U32 | internal/xgpro/xgpro.go:159 | Go's `uint32(n)` of a count keeps it modulo 2^32 |
| Bytes.ValueOfByte | internal/xgpro/xgpro.go:547 | `byte(n)` of a number below 256 has value n |
| Bytes.ByteOfValue | internal/xgpro/xgpro.go:547 | every byte is the conversion of its value, which is below 256 |
| Bytes.DecodeOfLE32 | internal/xgpro/xgpro.go:192 | a uint32 field written little-endian reads back as itself |
| Bytes.LE32OfDecode | internal/xgpro/xgpro.go:192 | every four bytes are the little-endian encoding of exactly the uint32 read from them |
| Bytes.LE32sAt | internal/xgpro/xgpro.go:43 | slot i of the ItemStart table occupies bytes 4i..4i+4 of its encoding |
| Bytes.DecodeLE32s | internal/xgpro/xgpro.go:43 | decoding each four-byte slot of an encoded table gives the table back |
| Crc32.Update | internal/xgpro/xgpro.go:556 | the reference definition of `crc32.Update` with the IEEE table: reflected polynomial 0xEDB88320, register inverted on entry and exit |
| Crc32.UpdateCheckValue | internal/xgpro/xgpro.go:537 | the CRC-32 of the ASCII digits "123456789" is 0xCBF43926, the standard check value of the IEEE table's CRC |
| Crc32.UpdateConcat | internal/xgpro/xgpro.go:554-572 | feeding the CRC-32 piece by piece equals one update over the concatenation, which is how the running hashValue chains |
| Crc32.UpdateEmpty | internal/xgpro/xgpro.go:538 | an update with no data leaves the running checksum unchanged |
| Crc32.RawConcat | internal/xgpro/xgpro.go:556 | the shift register after a + b is the register after a, then b |
| Crc32.StepDistinguishesBytes | internal/xgpro/xgpro.go:556 | two different bytes absorbed into the same register give different registers |
| Crc32.RawDistinguishesRegisters | internal/xgpro/xgpro.go:572 | two different registers stay different after absorbing the same data |
| Crc32.UpdateKeepsDistinct | internal/xgpro/xgpro.go:572 | two different running checksums stay different after the same update |
| Crc32.UpdateDetectsByteChange | internal/xgpro/xgpro.go:556-572 | changing any single byte of the data changes the CRC-32 |
| Crc32.AsUint32Injective | internal/xgpro/xgpro.go:576 | different registers are stored as different AllCrc32 values |
| Voltage.MapVoltageLevel | internal/xgpro/xgpro.go:358-370 | the level is 0..3 exactly for 5.0, 3.3, 2.5 and 1.8, and 255 otherwise |
| Voltage.UnmapVoltageLevel | internal/xgpro/xgpro.go:372-384 | a level 0..3 gives a supported voltage; any other level gives 255.0 |
| Voltage.VoltageRoundTrip | internal/xgpro/xgpro.go:358-384 | each supported voltage comes back from its level byte |
| Voltage.LevelRoundTrip | internal/xgpro/xgpro.go:358-384 | each level 0..3 comes back from its voltage |
| Voltage.InvalidLevelRoundTrip | internal/xgpro/xgpro.go:358-384 | any level above 3 maps to 255.0, and 255.0 maps back to the sentinel 255 |
| Symbols.MapVector | internal/xgpro/xgpro.go:310-332 | codes 0..8 give one of the nine symbols; codes 9 and above, and only they, give a blank |
| Symbols.UnmapVector | internal/xgpro/xgpro.go:334-356 | succeeds exactly on the nine symbols, with a code below 9 that maps back to the same symbol; every other character is an error (a panic in the source) |
| Symbols.CodeRoundTrip | internal/xgpro/xgpro.go:310-356 | every code 0..8 survives mapVector followed by unmapVector |
| Vectors.NibblesOfPair | internal/xgpro/xgpro.go:396 | OR-ing lo with hi shifted left by 4 keeps lo in the low nibble and hi in the high nibble |
| Vectors.PairOfNibbles | internal/xgpro/xgpro.go:433-434 | every byte is its low nibble joined with its high nibble |
| Vectors.Code | internal/xgpro/xgpro.go:392 | the code of a valid symbol is below 9 and maps back to that symbol |
| Vectors.FirstNonSymbol | internal/xgpro/xgpro.go:391-392 | the position of the first character unmapVector rejects: all before it are symbols |
| Vectors.PackVector | internal/xgpro/xgpro.go:386-402 | succeeds exactly for at most 49 valid symbols. Byte k then holds symbol 2k in the low nibble and 2k+1 in the high nibble, and bytes from len/2 on are zero. Otherwise it names the first invalid position, or the overflow once 50 symbols are valid |
| Vectors.PackVectorInvalid | internal/xgpro/xgpro.go:391-392 | the first invalid symbol within the examined range is the reported failure |
| Vectors.PackVectorOverflow | internal/xgpro/xgpro.go:396-397 | 50 valid leading symbols overflow the 24-byte record |
| Vectors.PackVectorSuccess | internal/xgpro/xgpro.go:386-402 | a short enough string of symbols packs to the pairwise packed record |
| Vectors.PackingStep | internal/xgpro/xgpro.go:395-398 | completing a pair fills the next byte of the record and leaves the others |
| Vectors.PackingOddTail | internal/xgpro/xgpro.go:393-394 | an unpaired last symbol does not change the record |
| Vectors.SymbolPrefixStep | internal/xgpro/xgpro.go:391-392 | one more accepted symbol extends the all-symbols prefix |
| Vectors.PairPrefixStep | internal/xgpro/xgpro.go:395-398 | reading an odd-position symbol completes byte i/2 of the record |
| Vectors.OddPrefixEnd | internal/xgpro/xgpro.go:400 | an odd-length string packs to the same record as its even-length prefix |
| Vectors.ParseVectorString | internal/xgpro/xgpro.go:386-402 | the vByte/vOffset loop over a 24-byte array returns exactly the packed record or packing error |
| Vectors.RenderedPins | internal/xgpro/xgpro.go:432-436 | output position 2k is the symbol of byte k's low nibble, and 2k+1 that of its high nibble |
| Vectors.RenderVector | internal/xgpro/xgpro.go:508-512 | rendering succeeds exactly when PinCount/2 is at most 24 (else the source indexes past the record) and yields 2·(PinCount/2) symbols, in the order writeXml and DumpLGCFile (lines 264-268) print them |
| Vectors.BuildVectorString | internal/xgpro/xgpro.go:432-436 | the string-building loop of writeToml, the same as writeJson's at lines 464-468, returns the rendered vector |
| Vectors.PackRenderRoundTrip | internal/xgpro/xgpro.go:386-436 | with PinCount equal to the string length, packing then rendering gives the string back, minus an unpaired last symbol |
| Vectors.PackRenderEven | internal/xgpro/xgpro.go:432-436 | an even-length valid string of up to 48 pins renders back exactly |
| Vectors.RenderPackRoundTrip | internal/xgpro/xgpro.go:386-436 | a record of defined codes, zero past byte n, is packed back from its rendering |
| Names.Spaces | internal/xgpro/xgpro.go:543 | the `%-32s` padding is a run of spaces |
| Names.PadName | internal/xgpro/xgpro.go:543-552 | a name below 32 bytes fills the slot with itself, then a NUL at index len(name), then spaces; a longer one is an error (a panic in the source) |
| Names.KeepPrintable | internal/xgpro/xgpro.go:406-411 | the strings.Map step keeps only printable bytes and never grows the string |
| Names.KeepPrintableConcat | internal/xgpro/xgpro.go:406-411 | filtering distributes over concatenation |
| Names.KeepPrintableOne | internal/xgpro/xgpro.go:406-411 | a single byte is kept exactly when it is printable (0x20..0x7E) and dropped otherwise |
| Names.KeepPrintableOfPrintable | internal/xgpro/xgpro.go:406-411 | filtering a printable string leaves it unchanged |
| Names.TrimLeft | internal/xgpro/xgpro.go:412 | removes exactly the leading spaces: a suffix remains, beginning with a non-space |
| Names.TrimRight | internal/xgpro/xgpro.go:412 | removes exactly the trailing spaces: a prefix remains, ending in a non-space |
| Names.TrimSpaces | internal/xgpro/xgpro.go:412 | strings.Trim(s, " ") neither begins nor ends with a space |
| Names.TrimRightSpaces | internal/xgpro/xgpro.go:412 | spaces appended to a string are exactly what trimming removes again |
| Names.CleanItemName | internal/xgpro/xgpro.go:404-414 | the cleaned name is printable and neither begins nor ends with a space |
| Names.PrintableSlice | internal/xgpro/xgpro.go:406-412 | trimming a printable string keeps it printable |
| Names.KeepPrintablePadded | internal/xgpro/xgpro.go:543-552 | of a padded slot, filtering removes only the NUL terminator |
| Names.CleanPaddedName | internal/xgpro/xgpro.go:404-414 | cleanItemName of a padded printable name is that name without its own surrounding spaces |
| Names.CleanPaddedTrimmedName | internal/xgpro/xgpro.go:404-414 | a printable name without surrounding spaces comes back unchanged |
| Records.HeaderBytes | internal/xgpro/xgpro.go:38-44 | binary.Write of the header is 2064 bytes |
| Records.DecodeHeader | internal/xgpro/xgpro.go:192 | the reference definition of `binary.Read` of a header: four little-endian uint32 fields, then 512 offset slots |
| Records.DecodeHeaderBytes | internal/xgpro/xgpro.go:38-44 | every header, offset table included, reads back as written |
| Records.ItemBytes | internal/xgpro/xgpro.go:46-54 | binary.Write of an item record is 44 bytes |
| Records.DecodeItem | internal/xgpro/xgpro.go:284 | the reference definition of `binary.Read` of an item record: VectorCount, the 32-byte name, four single bytes, UIRes |
| Records.DecodeItemBytes | internal/xgpro/xgpro.go:46-54 | every item record, reserved fields included, reads back as written |
| Records.VectorsBytes | internal/xgpro/xgpro.go:56-58 | n vectors take 24·n bytes |
| Records.VectorsBytesAt | internal/xgpro/xgpro.go:165-171 | vector k occupies bytes 24k..24k+24 of an item's vector block |
| Records.EntryBytes | internal/xgpro/xgpro.go:160-171 | an item record and its vectors take 44 + 24·n bytes |
| Records.FileBytes | internal/xgpro/xgpro.go:151-176 | the file is the header's 2064 bytes followed by the body |
| Records.BodyBytes | internal/xgpro/xgpro.go:156-172 | the reference definition of the bytes the item loop writes after the header: each entry's record then its vectors, in order |
| Records.BodyBytesAppend | internal/xgpro/xgpro.go:156-172 | the body of two runs of entries is their bodies one after the other |
| Records.VectorsBytesAppend | internal/xgpro/xgpro.go:165-171 | writing one more vector appends its 24 bytes |
| Records.BodyBytesStep | internal/xgpro/xgpro.go:156-172 | each item iteration appends that entry's bytes |
| Records.BodySize | internal/xgpro/xgpro.go:156-172 | the body's length is the sum of 44 + 24·VectorCount over the entries |
| Records.ItemOffset | internal/xgpro/xgpro.go:158 | the reference definition of the position `Seek(0, SeekCurrent)` returns before entry i: the header plus the bytes of the entries before i |
| Records.ItemOffsetFormula | internal/xgpro/xgpro.go:158-159 | entry i starts at 2064 plus the sizes of all entries before it |
| Records.ItemOffsetBound | internal/xgpro/xgpro.go:158 | every entry starts, and every entry ends, within the file |
| Records.ItemOffsetStep | internal/xgpro/xgpro.go:158 | each offset is the previous one plus the size of the entry in between |
| Records.ItemOffsetsIncrease | internal/xgpro/xgpro.go:156-172 | entries occupy disjoint ranges in increasing order |
| Records.EntryInBody | internal/xgpro/xgpro.go:156-172 | the body is the entries before i, entry i, and the entries after i |
| Build.ItemOf | internal/xgpro/xgpro.go:545-551 | the reference definition of the `lgcFileItem` literal: uint32 of the vector count, the padded name, the mapped voltage, byte(Pins), zero reserved fields |
| Build.BuildEntry | internal/xgpro/xgpro.go:540-573 | the reference definition of one parseJsonFile iteration: the name is padded first, then the vectors are packed, and either failure names the part |
| Build.PackVectors | internal/xgpro/xgpro.go:562-573 | the vectors of one part all pack, in order, or the first that fails is reported with its index and cause |
| Build.BuildEntries | internal/xgpro/xgpro.go:540-574 | success yields one entry per part, each the entry built for that part alone; failure is the error of the first part that fails, every earlier part building |
| Build.Built | internal/xgpro/xgpro.go:525-579 | the reference definition of parseJsonFile: the entries, and a header with AllCrc32 the CRC-32 from 0 over the body, FileFlag, uint32 of the part count, Res 0 and a zero offset table |
| Build.PackVectorsPrefixFailure | internal/xgpro/xgpro.go:562-566 | a failing vector ends the part: later vectors do not change the outcome |
| Build.BuildEntriesPrefixFailure | internal/xgpro/xgpro.go:540-574 | a failing part ends the build: later parts do not change the outcome |
| Build.BodyBytesAppendOne | internal/xgpro/xgpro.go:554-572 | each part adds its item record and then its vectors to the hashed bytes |
| Build.PadItemName | internal/xgpro/xgpro.go:543-552 | padding, writing the NUL and copying 32 bytes gives the padded slot or the too-long error |
| Build.ParseVectorStrings | internal/xgpro/xgpro.go:562-573 | the vector loop packs every string and advances the running CRC-32 over exactly the packed records |
| Build.PackVectorsStep | internal/xgpro/xgpro.go:562-566 | one more vector string either packs onto the packed prefix or is the first failure, reported with its index |
| Build.BuildLgcFile | internal/xgpro/xgpro.go:525-579 | the parseJsonFile loop returns the built document, with AllCrc32 the CRC-32 from 0 over the whole body |
| Build.BuildEntriesStep | internal/xgpro/xgpro.go:540-573 | one more part either builds onto the entries so far or is the first failure |
| Build.PackVectorsSucceed | internal/xgpro/xgpro.go:562-573 | when every vector packs, the part's vectors pack |
| Build.BuildableEntriesSucceed | internal/xgpro/xgpro.go:540-574 | when every name fits and every vector packs, every entry is built |
| Build.BuiltEntriesBuildable | internal/xgpro/xgpro.go:540-574 | when every entry is built, every name fits and every vector packs |
| Build.BuiltSucceedsIff | internal/xgpro/xgpro.go:525-579 | parseJsonFile succeeds if and only if every name is below 32 bytes and every vector packs |
| Build.BuiltHeader | internal/xgpro/xgpro.go:527-576 | the built header has UIFlag 0xABABABEE, Res 0, ItemCount len(ICs) modulo 2^32, an all-zero offset table, and AllCrc32 the CRC-32 of the body |
| Build.BuildEntryFields | internal/xgpro/xgpro.go:541-560 | each built item has the padded name, VectorCount len(Vectors) modulo 2^32, PinCount Pins modulo 256, the mapped voltage, zero reserved fields, and the packed vectors |
| Build.BuiltEntry | internal/xgpro/xgpro.go:558-560 | entry i of a built document is the one built for part i |
| Build.BuiltEntriesCounted | internal/xgpro/xgpro.go:549 | each VectorCount counts its vectors when that count fits in 32 bits |
| Build.BuiltEntriesWellFormed | internal/xgpro/xgpro.go:527-560 | built entries under a header counting them form a consistent document |
| Build.BuiltWellFormed | internal/xgpro/xgpro.go:525-579 | a built document of at most 512 parts is consistent: ItemCount and every VectorCount are exact |
| Build.ChecksumDetectsByteChange | internal/xgpro/xgpro.go:576 | the stored AllCrc32 differs from that of any body differing in a single byte |
| Writer.FileHeader.Value | internal/xgpro/xgpro.go:38-44 | the header object read as a value has the array's contents as its offset table |
| Writer.FileHeader.constructor | internal/xgpro/xgpro.go:38-44 | a fresh header object holds the given header |
| Writer.Patched | internal/xgpro/xgpro.go:156-159 | recording offsets changes only ItemStart slots below len(entries) |
| Writer.PatchedAt | internal/xgpro/xgpro.go:159 | slot i holds uint32 of entry i's offset |
| Writer.PatchedOffsets | internal/xgpro/xgpro.go:158-159 | slot i holds 2064 plus the sizes of the entries before i, modulo 2^32 |
| Writer.PatchedOffsetExact | internal/xgpro/xgpro.go:158-159 | when the file fits in 32 bits, slot i is exactly where entry i starts |
| Writer.PatchedOffsetsIncrease | internal/xgpro/xgpro.go:156-172 | when the file fits in 32 bits, each recorded entry ends no later than the next one starts |
| Writer.Written | internal/xgpro/xgpro.go:144-182 | the reference definition of the file WriteLgc leaves: the header with its offset table filled in, then the body |
| Writer.WriteVectors | internal/xgpro/xgpro.go:165-171 | the vector loop appends the item's vectors in order |
| Writer.WriteEntry | internal/xgpro/xgpro.go:160-171 | one item iteration appends the item record and then its vectors |
| Writer.WriteItems | internal/xgpro/xgpro.go:156-172 | the item loop appends the body, records uint32 of each entry's offset in its ItemStart slot, and leaves the other slots |
| Writer.OffsetTableAt | internal/xgpro/xgpro.go:158-159 | the file position reached before entry i is written is the offset recorded in slot i, modulo 2^32 |
| Writer.WrittenStep | internal/xgpro/xgpro.go:160-171 | writing entry i after the first i entries leaves the first i + 1 entries in the file |
| Writer.WriteLgc | internal/xgpro/xgpro.go:144-182 | the header object ends up patched, and the file is the patched header followed by the body |
| Reader.ReadVectors | internal/xgpro/xgpro.go:293-305 | the reference definition of readFileItem's vector loop: VectorCount consecutive 24-byte records, or the first short read |
| Reader.ReadEntry | internal/xgpro/xgpro.go:276-308 | the reference definition of readFileItem: the item record at ItemStart[itemID] and its vectors, or the index, short-item or short-vector error |
| Reader.ReadEntries | internal/xgpro/xgpro.go:201-209 | the reference definition of ParseLGCFile's item loop: the first n entries in order, or the first error |
| Reader.Decode | internal/xgpro/xgpro.go:184-212 | the reference definition of ParseLGCFile: the header from the first 2064 bytes, then ItemCount entries, or the first error |
| Reader.ReadItemVectors | internal/xgpro/xgpro.go:293-305 | the vector loop reads VectorCount consecutive records or reports the first short read, and the CRC-32 runs over what it read |
| Reader.ReadFileItem | internal/xgpro/xgpro.go:276-308 | readFileItem returns the entry at the item's offset or its first error, whatever the CRC-32 |
| Reader.ParseLgcFile | internal/xgpro/xgpro.go:184-212 | ParseLGCFile returns the decoded document or the first error |
| Reader.ReadEntriesPrefixFailure | internal/xgpro/xgpro.go:201-205 | an item that fails ends the parse with that error |
| Reader.ReadVectorsPrefixFailure | internal/xgpro/xgpro.go:295-300 | a vector that fails ends the item with that error |
| Reader.ReadVectorsSucceedsIff | internal/xgpro/xgpro.go:295-300 | the vectors read exactly when there are none or all lie within the file, and then there are VectorCount of them |
| Reader.ReadVectorsWritten | internal/xgpro/xgpro.go:295-305 | vectors written consecutively read back as written |
| Reader.ReadEntryWritten | internal/xgpro/xgpro.go:276-308 | an item record and its vectors at the recorded offset read back as written |
| Reader.EntryAtOffset | internal/xgpro/xgpro.go:282 | in a file holding the body after the header, entry i lies at its offset |
| Reader.ReadEntriesAll | internal/xgpro/xgpro.go:201-209 | when every item reads back as given, the parse yields them in order |
| Reader.ReadEntriesStep | internal/xgpro/xgpro.go:201-209 | one more successfully read item extends the parsed entries |
| Reader.ReadEntriesEach | internal/xgpro/xgpro.go:201-209 | each entry of a successful parse is the one read for its index |
| Reader.ReadEntriesLength | internal/xgpro/xgpro.go:199-209 | a successful parse of n items has n entries |
| Reader.ReadEntryBounds | internal/xgpro/xgpro.go:282-300 | an item that reads has an index inside the table and lies wholly within the file, and its VectorCount counts its vectors |
| Reader.DecodedWellFormed | internal/xgpro/xgpro.go:184-212 | whatever the reader accepts has at most 512 items, each counting its vectors |
| RoundTrip.DecodeWithHeader | internal/xgpro/xgpro.go:184-212 | a file starting with header h whose items all read back parses to exactly that document |
| RoundTrip.WrittenEntryReads | internal/xgpro/xgpro.go:276-308 | each entry of a written file reads back from its recorded offset |
| RoundTrip.WriteReadRoundTrip | internal/xgpro/xgpro.go:144-212 | a file written by WriteLgc parses back to the same entries and the patched header, field for field |
| RoundTrip.WrittenOffsetsRead | internal/xgpro/xgpro.go:158-159 | each offset the reader seeks to is 2064 plus the sizes of the entries before it |
| RoundTrip.AnyChecksumAndFlagAccepted | internal/xgpro/xgpro.go:190-211 | whatever AllCrc32 and UIFlag hold, the written file parses and returns them unchanged |
| RoundTrip.PrefixHeader | internal/xgpro/xgpro.go:192-198 | a prefix holding the whole header decodes to that header |
| RoundTrip.ItemInPrefix | internal/xgpro/xgpro.go:284 | an item record wholly inside a prefix reads from it as written |
| RoundTrip.LastEntryEndsFile | internal/xgpro/xgpro.go:295-300 | a prefix holding the last item and all its announced vectors is the whole file |
| RoundTrip.ParsedPrefixIsWhole | internal/xgpro/xgpro.go:201-209 | a prefix from which every item parses at the file's own offsets is the whole file |
| RoundTrip.TruncatedFileRejected | internal/xgpro/xgpro.go:184-212 | no proper prefix of a written file parses |
| RoundTrip.BuiltFileReadsBack | internal/xgpro/xgpro.go:525-579 | a built and written document parses back to the built entries, with ItemCount, flag and the CRC-32 of its body |
| RoundTrip.NameReadsBack | internal/xgpro/xgpro.go:404-414 | cleanItemName of a built entry's slot is the part's name without surrounding spaces |
| RoundTrip.VoltageReadsBack | internal/xgpro/xgpro.go:358-384 | a supported voltage comes back from a built entry's level byte |
| RoundTrip.VectorReadsBack | internal/xgpro/xgpro.go:432-436 | with one symbol per pin and an even pin count up to 48, each vector string is rendered back from the built entry exactly |
| RoundTrip.PackedVectorRendersBack | internal/xgpro/xgpro.go:432-436 | a packed record whose PinCount is byte(Pins), with Pins the even string length, renders back to its string |

## Left out

- File and stream handling is not modelled: `os.Open`/`os.Create`, `Seek`, `bufio` and the error wrapping. A file is the byte sequence read or written, and an error is a datatype value, not a message.
- Write failures are not modelled: `WriteLgc` always succeeds.
- The JSON and TOML front ends and `ConvertFile` are left out. So are the `Describe*`/`WriteToml` wrappers, `cmd/xgpro-logic.app/main.go` (command-line wiring) and `src/internal/xgpro/logic.go` (an incomplete stub that only repeats constants).
- The render loops of `writeXml` (xgpro.go:508-512), `writeJson` and `DumpLGCFile` (xgpro.go:264-268) are modelled by the function Vectors.RenderVector only, not as loops of their own. They emit the same symbols in the same order as the `writeToml` loop, which Vectors.BuildVectorString models and proves equal to RenderVector. The per-entry and per-vector loops of all the text writers are not modelled.
- Text emission is modelled only as the symbol string each writer builds per vector. Quoting, separators, the spaces between symbols in the XML and dump output, the XML envelope and `%0.1f` formatting are not modelled.
- Floating point: voltages are exact reals and only the four equality tests are modelled.
- Names are byte strings, and printable means 0x20..0x7E. Go's `unicode.IsPrint` on multi-byte runes, invalid UTF-8, and `%-32s` counting runes rather than bytes are not modelled.
- Crc32.Update: the CRC-32 is defined bit by bit (reflected polynomial 0xEDB88320, inverted on entry and exit). Its equality with the table-driven `hash/crc32`, which is not part of this model, is not proved for all inputs; Crc32.UpdateCheckValue proves only that both give the standard check value 0xCBF43926 for "123456789".
- Writer.WriteLgc: requires at most 512 entries, because the source panics on `ItemStart[512]` after writing part of the file. That partial file is not modelled.
- Reader.ParseLgcFile, Reader.ReadFileItem: do not model the memory `make` would need for a huge `ItemCount` (xgpro.go:199) or a corrupt `VectorCount` (xgpro.go:293, up to 2^32 vectors of 24 bytes each), nor what the Go runtime does when it cannot allocate it; the model reports the short read instead.
- RoundTrip.WriteReadRoundTrip: proved only for files shorter than 2^32 bytes with consistent counts. In longer files `uint32(offset)` wraps and the recorded offsets point elsewhere. Writer.PatchedOffsets states the wrapped values, but no lemma describes what such a file reads back as.
- Build.BuiltWellFormed: requires at most 512 parts and fewer than 2^32 vectors per part. Beyond those, the `uint32` conversions of the counts wrap and the document is not consistent. Build.BuiltHeader and Build.BuildEntryFields state the wrapped values.
- RoundTrip.VectorReadsBack: stated for even pin counts. For an odd pin count, Vectors.PackRenderRoundTrip states that the last pin is not rendered.
