# A Dafny model of the Dart VM's Mach-O writer

This project models the Mach-O writer of the Dart VM (`runtime/vm/mach_o.cc`).
The writer turns a snapshot, or its separate debugging information, into a
Mach-O dynamic library or dSYM file. The model covers:

- the header and its load commands;
- segments and sections, built from portions;
- the string table and the symbol tables;
- the code signature and the hashing output stream;
- the UUID and BSS generation;
- the reordering of commands and renumbering of sections that
  `FinalizeCommands` performs;
- the offset and address computation of `ComputeOffsets`.

Four smaller pieces of the VM are modelled beside it:

- the ARM instruction and register constants (`runtime/vm/constants_arm.h`);
- the standalone launcher's option helpers (`runtime/bin/main_options.cc`);
- the compiler's constant folding of integer operations
  (`runtime/vm/compiler/backend/evaluator.cc`);
- the block label of the regular expression assembler
  (`runtime/vm/regexp/regexp_assembler.h`).

The writer keeps a tree of mutable objects. The model writes each object as an
immutable datatype and each operation as a pure function from the old value to
the new one. The source states many invariants only as debug-mode
`ASSERT`s. The model states them as preconditions where the source demands
them of callers, and proves them as postconditions where the source relies on
them.

Output is modelled as the sequence of fields written (`MachOFields.Field`),
each with a width and optional alignment padding. The position reached after
writing fields is `MachOFields.End`. All the layout statements about
`WriteSelf` are statements about `End`: the position checks pass and the
write ends at `SelfMemorySize`. The hashing stream is modelled at byte level.
The SHA-256 digest is an uninterpreted function of the chunk it hashes.

Modules, one per file:

- `Alignment` — powers of two, `RoundUp` and rounded-up division.
- `CStrings` — fixed-width and NUL-terminated names.
- `MachOFields` — written fields and the positions they reach.
- `MachOStream` — the hashing write stream.
- `MachOFormat` — Mach-O constants and version encodings.
- `MachOSection` — sections and their portions.
- `MachOCommands` — segments, commands, and the load command sizes.
- `MachOStrings` — the string table.
- `MachOSymbols` — the symbol table.
- `MachOSignature` — the code signature layout.
- `MachOLoadCommands` — the header and load command layout.
- `MachOLayout` — the offset and address visitor of `ComputeOffsets`.
- `MachOHeader` — command lookup, the miscellaneous commands, and
  `InitializeSymbolTables`.
- `MachOGenerate` — UUID and BSS generation.
- `MachOReorder` — command bins and section reordering.
- `MachOFinalize` — `FinalizeCommands`.
- `MachOConsistency` — `AssertConsistency`.
- `ArmConstants`, `MainOptions`, `Evaluator` and `RegExpLabel` — the four
  smaller pieces.

## Model

| member | source | states |
|---|---|---|
| CStrings.FixedLengthCString | runtime/vm/mach_o.cc:116-124 | the field is exactly `n` characters: the name's characters where it has them, NUL after |
| CStrings.FixedLengthCStringRoundTrip | runtime/vm/mach_o.cc:116-124 | a name that fits its field reads back unchanged; a longer one reads back cut to the field width |
| CStrings.ReadCStringOfTerminated | runtime/vm/mach_o.cc:112-114 | a C string followed by a NUL, or by nothing, reads back as itself |
| MachOFields.EndAppend | runtime/vm/mach_o.cc:87-124 | writing two runs of fields in turn reaches the same position as writing their concatenation |
| MachOFields.EndShift | runtime/vm/mach_o.cc:87-124 | fields whose alignments divide the start offset occupy the same bytes wherever such a start lies |
| MachOStream.Chunks | runtime/vm/mach_o.cc:260-274 | one digest per page started, each of a non-empty chunk of at most a page |
| MachOStream.ChunksCover | runtime/vm/mach_o.cc:260-274 | the chunks, in order, are exactly the hashed bytes; every chunk but the last is a full page |
| MachOStream.ChunksAppend | runtime/vm/mach_o.cc:283-293 | hashing a page-aligned prefix and then the rest gives the digests of hashing everything at once |
| MachOStream.Hash | runtime/vm/mach_o.cc:262-274 | the loop yields the page digests of the first `count` buffered bytes, one per page started |
| MachOStream.FlushBytes | runtime/vm/mach_o.cc:298-309 | flushing moves bytes to the wrapped stream without changing what was written or the position |
| MachOStream.Flush | runtime/vm/mach_o.cc:283-293 | flushing keeps content and position; while hashing, less than a page stays buffered, otherwise nothing does |
| MachOStream.FlushChunksKeepsHashed | runtime/vm/mach_o.cc:311-320 | flushing whole chunks keeps the invariant that exactly the flushed pages have been hashed, in order |
| MachOStream.Write | runtime/vm/mach_o.cc:225-230 | a write appends its bytes, advances the position by their length and keeps the hashing invariant, whether or not the buffer grows |
| MachOStream.FinalizeHashedContent | runtime/vm/mach_o.cc:252-257 | finalizing flushes everything, stops hashing, and holds the digests of all pages written |
| MachOStream.HashesOfEverythingWritten | runtime/vm/mach_o.cc:252-257 | for any sequence of writes and buffer growth, the final digests are those of the pages of all bytes written, one per page started |
| MachOFormat.VersionEncodingDecodes | runtime/vm/mach_o.cc:922-923 | the x.y.z version encoding is injective: each field reads back |
| MachOFormat.BuildVersionConstants | runtime/vm/mach_o.cc:983-984 | the build version's minimum OS and SDK are the encodings of 15.0.0 and 15.4.0 |
| MachOFormat.SystemVersionConstants | runtime/vm/mach_o.cc:1082-1085 | libSystem's current and compatibility versions are the encodings of 1351.0.0 and 1.0.0 |
| MachOFormat.ZerofillCheckAsWritten | runtime/vm/mach_o.cc:558-560 | the constructor's zerofill check, as written, passes for every section type |
| MachOFormat.ZerofillCheckAdmitsContents | runtime/vm/mach_o.cc:558-560 | zerofill sections that claim file contents pass the check as written |
| MachOSection.NewSection | runtime/vm/mach_o.cc:541-561 | a new section has no portions, is well formed and keeps its name, type, attributes and alignment; a zerofill section may not have contents |
| MachOSection.NextOffset | runtime/vm/mach_o.cc:615-621 | the next offset is aligned and past the end of every laid-out portion |
| MachOSection.AddPortion | runtime/vm/mach_o.cc:601-624 | the new portion goes at the least aligned offset at or after the previous end (the first at 0); earlier portions and the section's fields are unchanged and well-formedness is kept |
| MachOSection.PortionsOrdered | runtime/vm/mach_o.cc:620-623 | in a laid-out section no portion overlaps a later one |
| MachOSection.SelfMemorySize | runtime/vm/mach_o.cc:626-629 | every portion lies within the section's memory size |
| MachOSection.WriteSelfMatchesLayout | runtime/vm/mach_o.cc:631-639 | writing a well-formed section at an aligned offset passes every position check and ends at fileOffset + SelfMemorySize |
| MachOSection.FindPortion | runtime/vm/mach_o.cc:641-648 | the result is the first portion with the name, and None exactly when no portion has it |
| MachOSection.ContainsSymbols | runtime/vm/mach_o.cc:650-655 | true exactly when some portion is named or carries symbols |
| MachOCommands.NewSegment | runtime/vm/mach_o.cc:708-723 | a new segment keeps its name and protections and has no contents |
| MachOCommands.AddContents | runtime/vm/mach_o.cc:1792-1812 | the header goes first, a child with contents at the end of the content block, a zerofill child at the very end; no child is lost |
| MachOCommands.AddAllOrders | runtime/vm/mach_o.cc:1796-1811 | after any sequence of additions the segment holds its content-bearing children first and its zerofill children last, each in insertion order, and is a permutation of what was added |
| MachOCommands.HasZerofillSections | runtime/vm/mach_o.cc:747-749 | true exactly when some child has no contents |
| MachOCommands.SectionsMembers | runtime/vm/mach_o.cc:865-873 | a section is among the segment's sections exactly when it is one of its children |
| MachOCommands.AddHeaderKeepsSections | runtime/vm/mach_o.cc:1800-1803 | adding the header changes no section number |
| MachOCommands.CommandsOnlyNoSections | runtime/vm/mach_o.cc:1805 | a segment built only from commands has no sections |
| MachOCommands.FindSection | runtime/vm/mach_o.cc:856-863 | the result is the first section with the name, and None exactly when no section has it |
| MachOCommands.CmdSize | runtime/vm/mach_o.cc:751-762 | every command size is word-aligned; a segment's holds one section header per section; a dylib's holds its NUL-terminated name in less than one extra word |
| MachOCommands.DylibCmdSizeLeast | runtime/vm/mach_o.cc:991-994 | the dylib command size is the least word multiple that holds the fixed part and the name |
| MachOStrings.At | runtime/vm/mach_o.cc:1126-1129 | a name is found exactly for indices inside the text, and it is the NUL-terminated run starting there |
| MachOStrings.AtRecorded | runtime/vm/mach_o.cc:1114-1129 | every recorded name reads back from its offset |
| MachOStrings.Add | runtime/vm/mach_o.cc:1114-1124 | a known name keeps its offset and the table; a new one is appended with its NUL at the old length; either way the name reads back |
| MachOStrings.AddIdempotent | runtime/vm/mach_o.cc:1116-1118 | adding a name a second time changes nothing |
| MachOStrings.Empty | runtime/vm/mach_o.cc:1105-1112 | the new table holds " " at 0 and the empty name at 1 |
| MachOStrings.OffsetsDistinct | runtime/vm/mach_o.cc:1114-1124 | distinct recorded names have distinct offsets |
| MachOStrings.AddGrows | runtime/vm/mach_o.cc:1114-1124 | adding never moves a recorded name |
| MachOStrings.FileSize | runtime/vm/mach_o.cc:1131 | every recorded name and its NUL lie within the file size |
| MachOSymbols.NewTable | runtime/vm/mach_o.cc:1096-1101 | a new table has no symbols, no labels and no counts |
| MachOSymbols.NameIndexZero | runtime/vm/mach_o.cc:1211-1212 | only " " has string index 0, so a non-empty name index identifies a name other than " " |
| MachOSymbols.AddSymbol | runtime/vm/mach_o.cc:1197-1220 | the symbol is appended with its name recorded, earlier symbols are unchanged, a label maps to the new symbol's 1-based index and the largest label is kept |
| MachOSymbols.AddEntriesLabel | runtime/vm/mach_o.cc:1215-1219 | after a run of additions, each entry's label maps to the symbol that entry added |
| MachOSymbols.AddEntriesNoLabel | runtime/vm/mach_o.cc:1215-1219 | a label neither known before nor given to an entry stays unknown |
| MachOSymbols.FindLabel | runtime/vm/mach_o.cc:1222-1228 | a symbol is found exactly for the labels recorded |
| MachOSymbols.FindLabelAfterAdding | runtime/vm/mach_o.cc:1222-1228 | the label of an added entry finds the symbol that entry added |
| MachOSymbols.FindLabelNotAdded | runtime/vm/mach_o.cc:1222-1228 | a label never added finds nothing |
| MachOSymbols.ExternalHasLabel | runtime/vm/mach_o.cc:1205-1209 | an external section symbol always carries a label |
| MachOSymbols.DebuggingEntries | runtime/vm/mach_o.cc:2569-2600 | a function gets four unlabelled debugging symbols, anything else one named after the symbol |
| MachOSymbols.SymbolListEntries | runtime/vm/mach_o.cc:2550-2557 | the section pass adds one local section symbol per listed symbol; the debugging pass adds only unlabelled debugging symbols |
| MachOSymbols.PortionEntries | runtime/vm/mach_o.cc:2640-2645 | the external pass adds exactly the external symbol of a named portion, and nothing for an unnamed one |
| MachOSymbols.PortionsEntries | runtime/vm/mach_o.cc:2637-2646 | the external pass adds one external symbol per named portion, all in the given section |
| MachOSymbols.SectionsEntries | runtime/vm/mach_o.cc:2637-2646 | the external pass adds one symbol per named portion, each numbered within the given sections; the other passes add no external symbol |
| MachOSymbols.LocalEntries | runtime/vm/mach_o.cc:2546-2632 | local entries are never external, and a stripped table has none |
| MachOSymbols.ExternalEntries | runtime/vm/mach_o.cc:2635-2646 | one external symbol per named portion, each in one of the sections |
| MachOSymbols.Initialize | runtime/vm/mach_o.cc:2533-2648 | the local and external counts add up to the number of symbols; the external count is the number of named portions; a stripped table has no locals |
| MachOSymbols.InitializeRecords | runtime/vm/mach_o.cc:2633-2647 | the symbols before numLocal are the local entries and those after it are the external ones, each as added |
| MachOSymbols.InitializeOrdersSymbols | runtime/vm/mach_o.cc:2633-2647 | a symbol is external exactly when it is at or past numLocal, and every external symbol lies in a real section |
| MachOSymbols.StrippedTable | runtime/vm/mach_o.cc:2533-2648 | a stripped table holds exactly one external symbol per named portion |
| MachOSymbols.StrippedFindsLabel | runtime/vm/mach_o.cc:2640-2645 | in a stripped table each portion's label finds its external symbol |
| MachOSymbols.UpdateSectionIndices | runtime/vm/mach_o.cc:1234-1253 | every symbol's new section index is the map's image of its old one; nothing else changes, and NO_SECT stays exactly for the symbols that had it |
| MachOSymbols.UpdateSectionIndicesInverse | runtime/vm/mach_o.cc:1234-1253 | renumbering with a map and then with its inverse restores the table |
| MachOSymbols.Finalize | runtime/vm/mach_o.cc:1255-1273 | only symbol values change, they fit a word, and symbols without a section are untouched |
| MachOSymbols.FinalizeRebases | runtime/vm/mach_o.cc:1269-1272 | a symbol in a section moves to its section's address plus its offset, when that fits a word |
| MachOSignature.DirectoryOffset | runtime/vm/mach_o.cc:1463-1468 | the code directory is header-aligned and follows the superblob and its index entry |
| MachOSignature.IdentOffset | runtime/vm/mach_o.cc:1475-1482 | the identifier follows the code directory structure and is header-aligned |
| MachOSignature.HashOffset | runtime/vm/mach_o.cc:1485-1491 | the digests are hash-aligned and follow the NUL-terminated identifier, with less than one alignment of padding |
| MachOSignature.ExpectedNumHashesIsPages | runtime/vm/mach_o.cc:1493-1499 | the expected number of digests is the number of pages started before the signature |
| MachOSignature.DirectoryLength | runtime/vm/mach_o.cc:1470-1472 | the code directory ends after one digest per page |
| MachOSignature.SuperblobEnd | runtime/vm/mach_o.cc:1410-1420 | the superblob and its index end at the code directory offset |
| MachOSignature.DirectoryEnd | runtime/vm/mach_o.cc:1421-1449 | the code directory structure ends at the identifier offset |
| MachOSignature.IdentifierEnd | runtime/vm/mach_o.cc:1449-1452 | the identifier and its padding end at the hash offset |
| MachOSignature.WholeLayout | runtime/vm/mach_o.cc:1452-1454 | with the expected number of digests, the signature ends SelfMemorySize past its start |
| MachOSignature.WriteSelfLayout | runtime/vm/mach_o.cc:1404-1455 | every position assertion of the signature's WriteSelf holds, and it writes exactly SelfMemorySize bytes |
| MachOSignature.NumHashesAtSignature | runtime/vm/mach_o.cc:1408-1409 | the hashing stream holds exactly the expected number of digests when the signature is written |
| MachOLoadCommands.ReportedFileSize | runtime/vm/mach_o.cc:837-842 | a segment reports its file size, or 0 only for the initial segment whose only contents are the header |
| MachOLoadCommands.SectionHeaderEnd | runtime/vm/mach_o.cc:663-682 | a section header takes exactly the section header size |
| MachOLoadCommands.SectionHeadersEnd | runtime/vm/mach_o.cc:850-853 | the section headers take one header size each |
| MachOLoadCommands.SegmentCommandEnd | runtime/vm/mach_o.cc:831-854 | a segment's load command writes exactly its cmdsize |
| MachOLoadCommands.DylibCommandEnd | runtime/vm/mach_o.cc:996-1004 | a dylib's load command writes exactly its cmdsize |
| MachOLoadCommands.LoadCommandEnd | runtime/vm/mach_o.cc:1664-1670 | every load command written at a word-aligned position writes exactly its cmdsize |
| MachOLoadCommands.LoadCommandsEnd | runtime/vm/mach_o.cc:1664-1670 | the load commands together write the sum of their sizes |
| MachOLoadCommands.FileType | runtime/vm/mach_o.cc:1591-1597 | a snapshot is a dynamic library and debugging information a dSYM, and nothing else is either |
| MachOLoadCommands.HeaderFlags | runtime/vm/mach_o.cc:1599-1606 | the flags are zero exactly for debugging information |
| MachOLoadCommands.SumCmdSizes | runtime/vm/mach_o.cc:1654-1658 | the load commands' total size is word-aligned |
| MachOLoadCommands.HeaderSize | runtime/vm/mach_o.cc:1583-1589 | the header is at least the header structure and word-aligned |
| MachOLoadCommands.HeaderOffset | runtime/vm/mach_o.cc:2504-2511 | each load command's header offset is word-aligned and past the header structure |
| MachOLoadCommands.HeaderOffsetsStep | runtime/vm/mach_o.cc:2504-2511 | the first load command follows the header structure, each next one follows the one before, and the last ends at the header size |
| MachOLoadCommands.HeaderFieldsEnd | runtime/vm/mach_o.cc:1642-1663 | the header structure takes exactly sizeof(mach_header_64) |
| MachOLoadCommands.HeaderWriteLayout | runtime/vm/mach_o.cc:1642-1671 | the i-th load command is written at the header offset ComputeOffsets gave it, and the header ends at its SelfMemorySize |
| MachOLayout.FileSize | runtime/vm/mach_o.cc:774-785 | a segment's file size is page-aligned unless it is __LINKEDIT |
| MachOLayout.MemorySize | runtime/vm/mach_o.cc:787-799 | a segment's memory size is page-aligned |
| MachOLayout.Step | runtime/vm/mach_o.cc:2441-2463 | visiting a child only moves forward; a section adds one address map entry, between the addresses before and after it |
| MachOLayout.VisitChildren | runtime/vm/mach_o.cc:876-880 | visiting a segment's children adds one address map entry per section and keeps the earlier ones |
| MachOLayout.VisitSegment | runtime/vm/mach_o.cc:2465-2484 | a segment starts on a page in the file and in memory, ends on a page in memory, and adds one address per section |
| MachOLayout.VisitChildrenTiles | runtime/vm/mach_o.cc:2441-2463 | the children visited from a page-aligned start end where the segment's own size computation says |
| MachOLayout.VisitSegmentEnds | runtime/vm/mach_o.cc:2481-2483 | a segment ends FileSize past its file offset and MemorySize past its address, as the visitor asserts |
| MachOLayout.Start | runtime/vm/mach_o.cc:2436-2439 | the visitor starts at 0 with NO_SECT's address 0 in the map |
| MachOLayout.InitialSegmentAddresses | runtime/vm/mach_o.cc:2466-2467 | with the header first, every section of the initial segment gets a non-zero address |
| MachOLayout.SegmentAddressesPositive | runtime/vm/mach_o.cc:2465-2484 | a segment visited past address 0 and its sections get non-zero addresses |
| MachOLayout.ComputeOffsetsAddressMap | runtime/vm/mach_o.cc:2513-2525 | the initial segment sits at 0 and every other one past it; the address map has one entry per section after NO_SECT and meets the symbol table's Finalize checks |
| MachOHeader.FindSegment | runtime/vm/mach_o.cc:1706-1713 | the result is the first segment with the name, and None exactly when there is none |
| MachOHeader.FindCommand | runtime/vm/mach_o.cc:1683-1695 | the result is the first command with the code, and None exactly when there is none |
| MachOHeader.HasCommand | runtime/vm/mach_o.cc:1698-1703 | true exactly when some command has the code |
| MachOHeader.FindSectionIn | runtime/vm/mach_o.cc:1717-1721 | a section found has the name and belongs to a segment with the segment name |
| MachOHeader.MiscellaneousCommands | runtime/vm/mach_o.cc:2183-2189 | the commands are header-only: always a build version, an ID dylib exactly for a snapshot, and a libSystem load exactly for a macOS snapshot |
| MachOHeader.LoadSystemDylib | runtime/vm/mach_o.cc:1063-1066 | the libSystem load command has no timestamp and the fixed current and compatibility versions |
| MachOHeader.GenerateMiscellaneousCommands | runtime/vm/mach_o.cc:2177-2190 | afterwards the header has a build version, an ID dylib exactly for a snapshot and a libSystem load exactly for a macOS snapshot; nothing else changes |
| MachOHeader.MiscellaneousCommandsHeaderOnly | runtime/vm/mach_o.cc:2183-2189 | the new commands join the header-only commands, after them, and move no segment or linkedit command |
| MachOHeader.SymbolTableCommands | runtime/vm/mach_o.cc:2221-2227 | a symbol table command for the table, plus a dynamic symbol table for a snapshot |
| MachOHeader.TableCommands | runtime/vm/mach_o.cc:2224-2227 | the dynamic symbol table splits exactly the table's symbols into locals and externals |
| MachOHeader.InitializeSymbolTables | runtime/vm/mach_o.cc:2192-2228 | the full table holds every section's symbols and its counts add up to its size; only the commands and the full table change |
| MachOHeader.InitializeSymbolTablesBins | runtime/vm/mach_o.cc:2221-2227 | the table commands are appended to the linkedit commands; segments and header-only commands are unchanged |
| MachOHeader.InitializeSymbolTablesHasSymtab | runtime/vm/mach_o.cc:2221 | afterwards there is a symbol table command |
| MachOHeader.InitializeSymbolTablesWritesFullTable | runtime/vm/mach_o.cc:2213-2221 | every symbol table command written is the full table |
| MachOHeader.StrippedHeaderWritesLocals | runtime/vm/mach_o.cc:2215-2221 | when stripping with a path, the table written still has local symbols, although the stripped table built has none, so the commands differ from the intended version's |
| MachOHeader.InitializeSymbolTablesIntended | runtime/vm/mach_o.cc:2211-2222 | the full table is the one built as written, kept for relocations; without stripping the result is the version as written |
| MachOHeader.InitializeSymbolTablesIntendedWritesStripped | runtime/vm/mach_o.cc:2215-2227 | the commands added write the table built with the header's stripping; when stripping it has no local symbols and one symbol per named portion |
| MachOHeader.TableCommandsAppended | runtime/vm/mach_o.cc:2221-2227 | the table commands land after the linkedit commands, the segments are untouched, and the one table written is the table given |
| MachOGenerate.HashPortion | runtime/vm/mach_o.cc:1985-1990 | the hash is a word, zero exactly for a portion without bytes, and otherwise the truncated content hash unless that is zero |
| MachOGenerate.NamedHash | runtime/vm/mach_o.cc:2012-2034 | a UUID word is non-zero exactly when the section and the named portion exist and the portion has bytes |
| MachOGenerate.HashWords | runtime/vm/mach_o.cc:2029-2034 | the four words are the VM and isolate instructions hashes, then the VM and isolate data hashes |
| MachOGenerate.WordRoundTrip | runtime/vm/mach_o.cc:897-906 | a word stored as four little-endian bytes reads back |
| MachOGenerate.BytesRoundTrip | runtime/vm/mach_o.cc:897-906 | any four bytes are the memory image of exactly one word |
| MachOGenerate.UuidRoundTrip | runtime/vm/mach_o.cc:897-906 | the UUID holds each of its four words intact |
| MachOGenerate.GenerateUuid | runtime/vm/mach_o.cc:1999-2038 | without a text section nothing changes; otherwise exactly one UUID command is appended |
| MachOGenerate.GenerateUuidWords | runtime/vm/mach_o.cc:2029-2037 | the UUID's words are the portion hashes in order, and one instructions word is non-zero when the portions have bytes |
| MachOGenerate.GenerateUuidOnce | runtime/vm/mach_o.cc:2000-2010 | afterwards there is a UUID exactly when there is a text section, and the sections it read are unchanged |
| MachOGenerate.BssSymbol | runtime/vm/mach_o.cc:2063-2083 | VM instructions get the VM's BSS symbol and entry count, isolate instructions the isolate's, at offset 0 |
| MachOGenerate.AddBssPortions | runtime/vm/mach_o.cc:2059-2086 | one byteless BSS portion per text portion, in order, keeping the section well formed |
| MachOGenerate.EmptyBss | runtime/vm/mach_o.cc:2053-2056 | the BSS section is a word-aligned zerofill section without contents or portions |
| MachOGenerate.CreateBss | runtime/vm/mach_o.cc:2040-2057 | exactly one read-write __DATA segment is appended, and it has no file contents |
| MachOGenerate.CreateBssSection | runtime/vm/mach_o.cc:2053-2086 | the data segment holds only the BSS section, with one laid-out portion per text portion, in order |
| MachOGenerate.CreateBssOnce | runtime/vm/mach_o.cc:2045-2047 | afterwards there is a __DATA segment, so the call cannot be repeated, and the text section is unchanged |
| MachOReorder.OrderInRange | runtime/vm/mach_o.cc:2392-2408 | the new order lists one in-range old position per section |
| MachOReorder.OrderAtNewPos | runtime/vm/mach_o.cc:2392-2408 | every old position sits at its new position in the new order |
| MachOReorder.NewPosAtOrder | runtime/vm/mach_o.cc:2392-2408 | every new position holds the old position mapped to it |
| MachOReorder.IndexMap | runtime/vm/mach_o.cc:2389-2408 | the map covers NO_SECT and every section, and fixes NO_SECT |
| MachOReorder.IndexMapBijective | runtime/vm/mach_o.cc:2392-2408 | the section map is a bijection fixing NO_SECT, with its inverse undoing it in both directions |
| MachOReorder.Rank | runtime/vm/mach_o.cc:2340-2346 | rank 0 is exactly the text segment, rank 1 exactly the other segments with symbols |
| MachOReorder.ByRankSplit | runtime/vm/mach_o.cc:2340-2346 | the three rank bins together hold every segment exactly once |
| MachOReorder.ByRankSections | runtime/vm/mach_o.cc:2373-2378 | the sections of one rank's segments are the sections of that rank, in their old order |
| MachOReorder.ReorderedSections | runtime/vm/mach_o.cc:2396-2408 | the sections after reordering are the old sections in stable-partition order |
| MachOReorder.IndexMapKeepsSections | runtime/vm/mach_o.cc:2396-2408 | old section x is new section index_map[x] |
| MachOReorder.BinsPartition | runtime/vm/mach_o.cc:2330-2352 | every command lands in exactly one bin |
| MachOReorder.BinsAppend | runtime/vm/mach_o.cc:2330-2352 | sorting two runs into bins sorts each run |
| MachOReorder.BinMembers | runtime/vm/mach_o.cc:2330-2352 | every binned command is one of the input commands |
| MachOReorder.BinsOfOne | runtime/vm/mach_o.cc:2333-2351 | each command goes to the bin its kind selects |
| MachOFinalize.LinkeditSegment | runtime/vm/mach_o.cc:2358-2363 | the __LINKEDIT segment is read-only, holds the linkedit commands in order and no section, and ranks last |
| MachOFinalize.SectionMap | runtime/vm/mach_o.cc:2389-2408 | index_map fits the renumbering checks and covers every section |
| MachOFinalize.FinalizeCommands | runtime/vm/mach_o.cc:2282-2433 | only the commands and the full symbol table change |
| MachOFinalize.FinalizeCommandsBins | runtime/vm/mach_o.cc:2386-2416 | the result is in bin order, with the same header-only commands, the reordered segments and the final linkedit commands |
| MachOFinalize.FinalizeCommandsCount | runtime/vm/mach_o.cc:2413 | every command is kept, plus __LINKEDIT, plus the code signature for a snapshot |
| MachOFinalize.FinalizeCommandsSegments | runtime/vm/mach_o.cc:2373-2384 | the text segment comes first with the header and its sections; the others follow unchanged in rank order; __LINKEDIT comes last |
| MachOFinalize.FinalizeCommandsLinkedit | runtime/vm/mach_o.cc:2361-2371 | the linkedit commands keep their order and are renumbered; a snapshot gets the code signature last |
| MachOFinalize.FinalSections | runtime/vm/mach_o.cc:2389-2408 | the sections in the new segment order are the sections reordered by rank |
| MachOFinalize.FinalizeCommandsSections | runtime/vm/mach_o.cc:2392-2408 | there are as many sections as before, and old section x is new section index_map[x] |
| MachOFinalize.FinalizeCommandsSymbols | runtime/vm/mach_o.cc:2426-2427 | every symbol still names the section it named, and NO_SECT stays NO_SECT |
| MachOFinalize.FinalizeCommandsSymbolsInverse | runtime/vm/mach_o.cc:2426-2427 | renumbering the result's table back through the inverse map gives the original table |
| MachOFinalize.FinalizeCommandsKeepsFullTable | runtime/vm/mach_o.cc:2427-2432 | the symbol table command still writes the full table after renumbering |
| MachOFinalize.FinalizeCommandsRenumbersWrittenTable | runtime/vm/mach_o.cc:2427-2432 | a written table other than the full one is renumbered with the same map |
| MachOFinalize.FinalizeCommandsNotIdempotent | runtime/vm/mach_o.cc:2283-2285 | afterwards there is a __LINKEDIT segment, and a code signature exactly for a snapshot, so a second call fails its assertions |
| MachOConsistency.AssertConsistencyAsWritten | runtime/vm/mach_o.cc:1955-1983 | the check as written passes exactly when the largest labels agree and every label below the largest agrees |
| MachOConsistency.AssertConsistency | runtime/vm/mach_o.cc:1955-1983 | the corrected check passes exactly when the largest labels agree and every label up to and including the largest agrees |
| MachOConsistency.ConsistencyMeansAllLabels | runtime/vm/mach_o.cc:1958-1981 | passing the corrected check means the tables agree on every label whatsoever |
| MachOConsistency.AsWrittenMissesLargestLabel | runtime/vm/mach_o.cc:1967 | two tables that disagree on their only label pass the check as written and fail the corrected one |
| Alignment.RoundUpIsLeast | runtime/vm/mach_o.cc:621 | RoundUp gives the least multiple of the alignment at or above its argument |
| ArmConstants.InvertCondition | runtime/vm/constants_arm.h:808-820 | the inverse of a real condition is a different condition of the same pair |
| ArmConstants.InvertConditionPairs | runtime/vm/constants_arm.h:809-815 | inversion swaps exactly the seven pairs the header lists |
| ArmConstants.InvertConditionInvolution | runtime/vm/constants_arm.h:808-820 | inverting twice gives the condition back |
| ArmConstants.Signed | runtime/vm/constants_arm.h:1011-1013 | the signed reading of the instruction bits is congruent to them modulo 2^32, and negative exactly when the top bit is set |
| ArmConstants.Bits | runtime/vm/constants_arm.h:1024-1026 | a field of `count` bits is in [0, 2^count) |
| ArmConstants.BitsOfUnsigned | runtime/vm/constants_arm.h:1024-1026 | a field inside the 32 bits reads the unsigned pattern, unaffected by the arithmetic shift's sign bits |
| ArmConstants.DataProcessingFieldsTile | runtime/vm/constants_arm.h:1031-1075 | the condition, type, opcode, S, Rn, Rd and operand fields together encode every bit of the instruction exactly once |
| ArmConstants.SImmed24Field | runtime/vm/constants_arm.h:1087-1090 | the branch offset is the low 24 bits read as a signed 24-bit number |
| ArmConstants.BkptField | runtime/vm/constants_arm.h:1096-1098 | the breakpoint immediate is a 16-bit value |
| ArmConstants.MovwField | runtime/vm/constants_arm.h:1101-1103 | the MOVW immediate is a 16-bit value |
| ArmConstants.MovwDecodes | runtime/vm/constants_arm.h:1101-1103 | the MOVW word 0xE30B_3EEF decodes to immediate 0xbeef, destination R3 and condition AL |
| ArmConstants.BreakpointConstants | runtime/vm/constants_arm.h:990-997 | both breakpoint constants are unconditional BKPT instructions, not SVCs, and the breakpoint instruction carries kBreakPointCode |
| ArmConstants.BreakpointMasks | runtime/vm/constants_arm.h:1177-1184 | both breakpoint constants pass the BKPT mask test on their 32 bits and fail the SVC one |
| ArmConstants.RegisterOverlap | runtime/vm/constants_arm.h:255-287 | each Q register is its two D registers, each low D register its two S registers, and the maps agree |
| ArmConstants.VfpFieldsAgree | runtime/vm/constants_arm.h:1187-1216 | the S, D and Q decodings of one operand slot name overlapping registers |
| ArmConstants.AvailableRegisterValues | runtime/vm/constants_arm.h:668-675 | the reserved and available registers, register by register |
| ArmConstants.AvailableRegistersPartition | runtime/vm/constants_arm.h:674-675 | the available and reserved registers partition the sixteen CPU registers |
| ArmConstants.AvailableRegisterCount | runtime/vm/constants_arm.h:671-677 | kNumberOfDartAvailableCpuRegs counts the available registers: eight |
| ArmConstants.PreservedRegisterCount | runtime/vm/constants_arm.h:654-663 | kAbiPreservedCpuRegCount counts the ABI-preserved registers on both kinds of target |
| ArmConstants.DartVolatileCountMismatch | runtime/vm/constants_arm.h:682-687 | the declared volatile register count is one more than the registers in the list |
| ArmConstants.VolatileRegisterValues | runtime/vm/constants_arm.h:682-683 | the volatile registers are R0-R3, plus R9 on Apple targets |
| ArmConstants.DartVolatileCpuRegCount | runtime/vm/constants_arm.h:682-687 | the corrected count is the size of the volatile register list: 5 on Apple targets, 4 elsewhere |
| ArmConstants.VolatileRegisters | runtime/vm/constants_arm.h:682-683 | a register is volatile exactly when it is neither reserved nor ABI-preserved |
| MainOptions.DigitsPrefix | runtime/bin/main_options.cc:379 | the run read is the longest run of leading digits |
| MainOptions.AtoiDecimal | runtime/bin/main_options.cc:379 | `atoi` reads back the decimal numeral of any natural number up to INT_MAX followed by a non-digit |
| MainOptions.FindSlash | runtime/bin/main_options.cc:380 | the result is the first '/', and None exactly when there is none |
| MainOptions.ExtractPortAndAddress | runtime/bin/main_options.cc:356-390 | "" keeps both defaults, a value not starting with '=' or ':' is refused, and otherwise the port is read after the separator and the address after the first '/' |
| MainOptions.ExtractPortAndAddressRoundTrip | runtime/bin/main_options.cc:356-390 | a port up to INT_MAX and an address written as ":port/ip" or "=port/ip" read back, and ":port" alone keeps the default address |
| MainOptions.IsOption | runtime/bin/main_options.cc:394-410 | the argument matches exactly when it is "--" then the option, reading '_' as '-' |
| MainOptions.NamesIgnoresUnderscores | runtime/bin/main_options.cc:394-410 | spelling an argument with underscores or dashes names the same options |
| MainOptions.FirstMatch | runtime/bin/main_options.cc:495-500 | the first flag that is a prefix of the argument, and None exactly when none is |
| MainOptions.ProcessVMDebuggingOptions | runtime/bin/main_options.cc:493-526 | an argument starting with a forwarded flag is appended to the VM options and reported handled; any other leaves them alone |
| MainOptions.ForwardsFlagWithValue | runtime/bin/main_options.cc:507-519 | a forwarded flag with a value attached is forwarded whole |
| MainOptions.ForwardedArgumentsAreLongFlags | runtime/bin/main_options.cc:507-519 | only double-dash arguments of at least sixteen characters are forwarded |
| MainOptions.CheckConsistency | runtime/bin/main_options.cc:783-824 | success gives well-formed options with the depfile alias folded in and a kind set when a snapshot is named; both depfiles are refused |
| MainOptions.CheckConsistencyAccepts | runtime/bin/main_options.cc:783-824 | the checks accept exactly the option sets that satisfy each post-parse condition |
| MainOptions.SnapshotDefaultAfterRunCheck | runtime/bin/main_options.cc:812-822 | a bare --snapshot is accepted while running from an app snapshot and gets the kernel kind |
| MainOptions.CheckConsistencyIdempotent | runtime/bin/main_options.cc:783-824 | a second pass changes nothing, except when a snapshot file is named while running from an app snapshot |
| Evaluator.SignExtend | runtime/vm/compiler/backend/evaluator.cc:79-84 | the result is the low bits read as a two's complement number: in range, congruent to the input, and the input itself when it fits |
| Evaluator.TruncateTo | runtime/vm/compiler/backend/evaluator.cc:76-92 | each representation gets a value in its range, congruent to the input modulo its width; Int64 is unchanged |
| Evaluator.TruncateToIdempotent | runtime/vm/compiler/backend/evaluator.cc:76-92 | truncation leaves a representable value alone, so truncating twice is truncating once |
| Evaluator.BinaryIntegerEvaluateRaw | runtime/vm/compiler/backend/evaluator.cc:9-49 | `/` never folds, `~/` and `%` do not fold a zero divisor, shifts do not fold a negative count; otherwise the integer operation decides |
| Evaluator.BinaryIntegerEvaluate | runtime/vm/compiler/backend/evaluator.cc:94-127 | a non-integer operand never folds; a folded value is representable; a truncating operation folds to the truncated result; a non-truncating one only to a representable result |
| Evaluator.UnaryIntegerEvaluate | runtime/vm/compiler/backend/evaluator.cc:129-156 | a non-integer never folds; `~v` folds to -v-1 when representable; negation folds exactly when the product with -1 exists and is representable, and then to that product |
| Evaluator.BitLengthEvaluate | runtime/vm/compiler/backend/evaluator.cc:158-184 | a non-integer never folds; a folded value is the bit length and is representable; a bit length of at most 64 always folds when a Smi has 7 or more payload bits |
| RegExpLabel.Unuse | runtime/vm/regexp/regexp_assembler.h:50-54 | Unuse gives back a fresh label |
| RegExpLabel.BindTo | runtime/vm/regexp/regexp_assembler.h:56-64 | a bound label is at the position, not linked, and may be destroyed |
| RegExpLabel.LinkTo | runtime/vm/regexp/regexp_assembler.h:68-75 | a linked label is at the position, unbound, and may not be destroyed |
| RegExpLabel.SetLinked | runtime/vm/regexp/regexp_assembler.h:78-85 | a bound label is unchanged; an unbound one becomes linked at its position |
| RegExpLabel.RunFromFresh | runtime/vm/regexp/regexp_assembler.h:41-85 | from a fresh label, it is bound exactly when a BindTo was not undone, and linked exactly when unbound with a link after the last reset |
| RegExpLabel.GlobalModePredicates | runtime/vm/regexp/regexp_assembler.h:252-257 | the three global-mode predicates are nested, and they differ exactly on GLOBAL_NO_ZERO_LENGTH_CHECK |

## Left out

- DWARF generation and unwinding information (`GenerateUnwindingInformation`, `FinalizeDwarfSections`) are not modelled. Their contents come from other parts of the compiler.
- SHA-256 and `Utils::StringHash` are left uninterpreted and passed in as parameters. Only how their results are placed and counted is modelled.
- Bytes are modelled as written fields with widths, not as an exact byte-level encoding. `WriteSelf` contents are modelled as layout only, and so is `WriteBytesWithRelocations`.
- Buffer management (`Realloc`, capacity) is reduced to a `grows` flag on each write. The non-hashing stream is the hashing stream with hashing off.
- The page size is fixed at 16 KiB, the Apple arm64 value. `mach_o.h`, which defines it and the platform constants, is not part of this model.
- The platform, CPU type, minimum OS and SDK `#if` selections are passed in as parameters. So are the assembler symbol names and the BSS entry counts and labels.
- Only 64-bit targets are modelled, not the 32-bit `TARGET_ARCH_IS_32_BIT` variants.
- The UUID bytes assume a little-endian target. All targets that produce Mach-O (x64 and arm64) are little-endian.
- The writer-level compositions are not modelled as single functions: `MachOWriter::Finalize`, `MachOHeader::Finalize`, `AddText`, `AddROData` and `HasValueForLabel`. Each step they call is modelled and proved on its own.
- `file_offset_is_set` bookkeeping and the debug assertions that only check it are not modelled.
- MachOReorder.IndexMapBijective: requires fewer than 256 sections. The source's debug check that every new index fits `n_sect`'s byte fails beyond that.
- MachOHeader.FindCommand: states the release behaviour (the first match). It does not state the debug build's assertion that no second match exists.
- MainOptions: the argument loop of `Options::ParseArguments` and the generated per-flag handlers are not modelled. Only the helpers and the final consistency checks are.
- MainOptions.Atoi: returns an unbounded integer. C leaves `atoi` undefined for a numeral past INT_MAX, which the model reads as its exact value.
- MainOptions.AtoiDecimal: stated only for numerals up to INT_MAX, the range of the `int` the source stores the result in.
- MainOptions.ExtractPortAndAddressRoundTrip: stated only for ports up to INT_MAX, because `int port = atoi(...)` has no defined value beyond.
- MachOSection.FindPortion: passes over a portion without a name. In the source `strcmp` with a null name is undefined. NamedHash, CanGenerateUuid and GenerateUuid inherit this reading.
- Evaluator: the floating-point evaluation paths are not modelled. The integer operations (`ArithmeticOp`, `ShiftOp`, `BitOp`, `BitLength`) are passed in as parameters.
- RegExpLabel: the `block_` pointer of the IR assembler is not modelled. LinkTo's assertion that it is null and SetLinked's that it is not are left out.
- ArmConstants: the instruction decoders beyond the fields listed, and the simulator helpers, are not modelled.
- MachOSymbols.AddSymbol: requires a label not already in the table, reading `by_label_index_.Insert` (mach_o.cc:1215-1218) as the insertion of a new key. The source does not check this. What a repeated label would do is not modelled: the hash map behind `Insert` is not part of this model. `CanInitialize` (through `LabelsFresh`) and the `AddEntries` lemmas inherit the requirement.
- ArmConstants: the VFP register types model the VFPv3-D32 profile (32 D and 16 Q registers). The VFPv3-D16 profile that `constants_arm.h` selects on Android and Linux, with 16 D and 8 Q registers and no D16, is not modelled.

## Findings

| source | as written | input that shows it | evidently intended | confidence | as-written member | corrected member |
|---|---|---|---|---|---|---|
| runtime/vm/mach_o.cc:558-560 | the zerofill check tests `type == S_ZEROFILL && type == S_GB_ZEROFILL` before asserting no contents, so it never fires | a section of type S_ZEROFILL created with contents | `||`: a zerofill section of either type has no file contents | high, not executed | MachOFormat.ZerofillCheckAsWritten | MachOSection.NewSection |
| runtime/vm/mach_o.cc:1967 | the label loop runs `1 <= i < max_label`, so the largest label is never compared | two tables whose only label, 1, has different values | `i <= max_label` | high, not executed | MachOConsistency.AssertConsistencyAsWritten | MachOConsistency.AssertConsistency |
| runtime/vm/mach_o.cc:2213-2222 | the stripped table is built into a local `table` that shadows the outer one and is dropped, so the command added writes the full table | a stripped snapshot with a path: the written table has the N_OSO local symbol | the written table is the stripped table (no local symbols, one external symbol per named portion), and the full table is kept for relocations | high, not executed | MachOHeader.StrippedHeaderWritesLocals | MachOHeader.InitializeSymbolTablesIntended |
| runtime/vm/constants_arm.h:682-687 | kDartVolatileCpuRegCount is 6 on Apple targets and 5 elsewhere | the list kDartAvailableCpuRegs & ~kAbiPreservedCpuRegs has 5 registers on Apple targets and 4 elsewhere | the count of the list, as for kNumberOfDartAvailableCpuRegs | medium, not executed | ArmConstants.DartVolatileCountMismatch | ArmConstants.DartVolatileCpuRegCount |

`MachOFormat.ZerofillCheckAdmitsContents`, `MachOConsistency.AsWrittenMissesLargestLabel`, `MachOHeader.StrippedHeaderWritesLocals` and `ArmConstants.DartVolatileCountMismatch` exhibit the discrepancies. `MachOSection.NewSection`, `MachOConsistency.ConsistencyMeansAllLabels`, `MachOHeader.InitializeSymbolTablesIntendedWritesStripped` and `ArmConstants.VolatileRegisters` prove the intended properties.

`MachOHeader::InitializeSymbolTables` (`runtime/vm/mach_o.cc:2213-2222`) builds the stripped table into a local that shadows the outer `table`. The symbol table command therefore writes the full table, every local and debugging symbol included, although the comment at 2216-2217 says the stripped table is the one written. `IncludedSymbolTable` (1765-1771) and `FinalizeCommands` (2427-2432) are written for a separate stripped table, which never exists. Relocations use the full table either way (1546-1548). `MachOFinalize.FinalizeCommandsRenumbersWrittenTable` shows that renumbering handles the intended, separate table.
