/** The header of the file and the load commands in it (runtime/vm/mach_o.cc:
    505-513, 662-682, 831-857, 908-913, 970-976, 991-1003, 1275-1288,
    1332-1350, 1369-1377, 1577-1671, 2504-2511): the fields each
    WriteLoadCommand writes, the header fields, and where each load command
    starts. What a load command reports about its contents (file offsets,
    addresses, sizes) comes from the layout and is passed in. */
module MachOLoadCommands {
  import opened Alignment
  import opened CStrings
  import opened MachOFormat
  import MachOSection
  import MachOSymbols
  import MachOStrings
  import opened MachOCommands
  import opened MachOFields
  import opened MachOLayout

  /** MH_MAGIC_64, the magic number of a 64-bit Mach-O header. */
  const MH_MAGIC_64: nat := 0xfeed_facf

  /** What a load command reports about its command's contents: the file
      offset, address and sizes the layout computed, and for a segment the
      placement of each of its sections, in order. */
  datatype Info = Info(fileOffset: nat, memoryAddress: nat, fileSize: nat, memorySize: nat,
                       sections: seq<Placement>)

  /** What the load command of a section header needs of the section: the
      portions that give it a size and a power-of-two alignment. */
  predicate HeaderReady(s: MachOSection.Section) {
    |s.portions| > 0 && IsPowerOfTwo(s.alignment)
  }

  predicate SectionsReady(ss: seq<MachOSection.Section>) {
    forall i :: 0 <= i < |ss| ==> HeaderReady(ss[i])
  }

  /** MachOSection::WriteHeaderInfo. The flags are SectionFlags(type,
      attributes), a bitwise or of a type below 0x100 and attributes with a
      zero low byte, so a sum. */
  function SectionHeaderFields(s: MachOSection.Section, segname: CString, p: Placement): (r: seq<Field>)
    requires HeaderReady(s)
    ensures |r| == 4 && forall i :: 0 <= i < |r| ==> !r[i].AlignTo?
  {
    [FixedName(s.name, NameFieldSize), FixedName(segname, NameFieldSize),
     U64s([p.memoryAddress, MachOSection.SelfMemorySize(s)]),
     U32s([p.fileOffset, Log2(s.alignment), 0, 0, s.sectionType + s.attributes, 0, 0, 0])]
  }

  /** The section headers nested in a segment's load command, in order. */
  function SectionHeaders(ss: seq<MachOSection.Section>, segname: CString, ps: seq<Placement>): (r: seq<Field>)
    requires |ss| == |ps| && SectionsReady(ss)
    ensures forall i :: 0 <= i < |r| ==> !r[i].AlignTo?
    decreases |ss|
  {
    if |ss| == 0 then []
    else
      var rest := SectionHeaders(ss[1..], segname, ps[1..]);
      var r := SectionHeaderFields(ss[0], segname, ps[0]) + rest;
      assert forall i :: 0 <= i < |r| ==> !r[i].AlignTo? by {
        forall i | 0 <= i < |r| ensures !r[i].AlignTo? {
          if i >= 4 { assert r[i] == rest[i - 4]; }
        }
      }
      r
  }

  /** The file size a segment's load command reports: 0 for the initial
      segment when the header is its only content with file contents. */
  function ReportedFileSize(s: Segment, info: Info): (r: nat)
    ensures r == 0 || r == info.fileSize
    ensures r != info.fileSize ==> IsInitial(s) && s.nextContents == 1
  {
    if IsInitial(s) && s.nextContents == 1 then 0 else info.fileSize
  }

  /** What a command's load command needs: a segment's info lists one
      placement per section and its sections can describe themselves, and a
      UUID has 16 bytes. */
  predicate Ready(c: Command, info: Info) {
    match c
    case SegmentCommand(s) =>
      |info.sections| == NumSections(s) && SectionsReady(Sections(s.contents))
    case UuidCommand(u) => |u| == UuidSize
    case _ => true
  }

  /** sizeof(uuid_command::uuid). */
  const UuidSize: nat := 16

  /** The fields each command's WriteLoadCommand writes, starting with the
      common cmd and cmdsize. */
  function LoadCommandFields(c: Command, info: Info): seq<Field>
    requires Ready(c, info)
  {
    var prefix := [Code(c), CmdSize(c)];
    match c
    case SegmentCommand(s) =>
      [U32s(prefix), FixedName(s.name, NameFieldSize),
       U64s([info.memoryAddress, info.memorySize, info.fileOffset, ReportedFileSize(s, info)]),
       U32s([s.maxProt, s.initProt, NumSections(s), 0])] +
      SectionHeaders(Sections(s.contents), s.name, info.sections)
    case UuidCommand(u) => [U32s(prefix), U8s(u)]
    case BuildVersionCommand(platform, minos, sdk) => [U32s(prefix + [platform, minos, sdk, 0])]
    case DylibCommand(_, name, timestamp, current, compat) =>
      [U32s(prefix + [DylibNameOffset, timestamp, current, compat]), NulTerminated(name), AlignTo(WordSize)]
    case LinkeditData(SymtabCommand(t)) =>
      [U32s(prefix + [info.fileOffset, |t.symbols|,
                      info.fileOffset + MachOSymbols.SymbolsSize(t), MachOStrings.FileSize(t.strings)])]
    case LinkeditData(DysymtabCommand(numLocal, numExternal)) =>
      // Locals, then externals, then no undefined symbols; six unused pairs.
      [U32s(prefix + [0, numLocal, numLocal, numExternal, numLocal + numExternal, 0] + Zeros32(12))]
    case LinkeditData(CodeSignatureCommand(_)) =>
      [U32s(prefix + [info.fileOffset, info.fileSize])]
  }

  function Zeros32(n: nat): (r: seq<nat>)
    ensures |r| == n && forall i :: 0 <= i < n ==> r[i] == 0
  {
    seq(n, _ => 0)
  }

  // ---------------------------------------------------------------------
  // WriteLoadCommand's assertion: each load command is cmdsize() long.

  lemma SectionHeaderEnd(pos: nat, s: MachOSection.Section, segname: CString, p: Placement)
    requires HeaderReady(s)
    ensures AlignmentsPositive(SectionHeaderFields(s, segname, p))
    ensures End(pos, SectionHeaderFields(s, segname, p)) == pos + SectionHeaderSize
  {
    var fs := SectionHeaderFields(s, segname, p);
    EndCons(pos + 48, fs[3], []);
    EndCons(pos + 32, fs[2], [fs[3]]);
    EndCons(pos + 16, fs[1], [fs[2], fs[3]]);
    EndCons(pos, fs[0], [fs[1], fs[2], fs[3]]);
    assert fs == [fs[0]] + [fs[1], fs[2], fs[3]];
  }

  lemma {:induction false} SectionHeadersEnd(pos: nat, ss: seq<MachOSection.Section>, segname: CString, ps: seq<Placement>)
    requires |ss| == |ps| && SectionsReady(ss)
    ensures AlignmentsPositive(SectionHeaders(ss, segname, ps))
    ensures End(pos, SectionHeaders(ss, segname, ps)) == pos + SectionHeaderSize * |ss|
    decreases |ss|
  {
    if |ss| > 0 {
      var head := SectionHeaderFields(ss[0], segname, ps[0]);
      var rest := SectionHeaders(ss[1..], segname, ps[1..]);
      SectionHeaderEnd(pos, ss[0], segname, ps[0]);
      SectionHeadersEnd(pos + SectionHeaderSize, ss[1..], segname, ps[1..]);
      EndAppend(pos, head, rest);
    }
  }

  lemma SegmentCommandEnd(pos: nat, c: Command, info: Info)
    requires c.SegmentCommand? && Ready(c, info)
    ensures AlignmentsPositive(LoadCommandFields(c, info))
    ensures End(pos, LoadCommandFields(c, info)) == pos + CmdSize(c)
  {
    var s := c.segment;
    var fs := LoadCommandFields(c, info);
    var fixed := fs[..4];
    var headers := SectionHeaders(Sections(s.contents), s.name, info.sections);
    assert fs == fixed + headers;
    SegmentFixedEnd(pos, fixed, fixed[0], fixed[1], fixed[2], fixed[3]);
    SectionHeadersEnd(pos + SegmentCommandSize, Sections(s.contents), s.name, info.sections);
    EndAppend(pos, fixed, headers);
  }

  /** The fixed part of a segment's load command: cmd and cmdsize, the
      segment name, four 64-bit and four 32-bit values. */
  lemma SegmentFixedEnd(pos: nat, fixed: seq<Field>, f0: Field, f1: Field, f2: Field, f3: Field)
    requires fixed == [f0, f1, f2, f3]
    requires f0.U32s? && |f0.values| == 2 && f1.FixedName? && f1.width == NameFieldSize
    requires f2.U64s? && |f2.values| == 4 && f3.U32s? && |f3.values| == 4
    ensures AlignmentsPositive(fixed) && End(pos, fixed) == pos + SegmentCommandSize
  {
    EndCons(pos + 56, f3, []);
    EndCons(pos + 24, f2, [f3]);
    EndCons(pos + 8, f1, [f2, f3]);
    EndCons(pos, f0, [f1, f2, f3]);
    assert fixed == [f0] + [f1, f2, f3];
  }

  lemma DylibCommandEnd(pos: nat, c: Command, info: Info)
    requires c.DylibCommand? && Ready(c, info) && pos % WordSize == 0
    ensures AlignmentsPositive(LoadCommandFields(c, info))
    ensures End(pos, LoadCommandFields(c, info)) == pos + CmdSize(c)
  {
    var fs := LoadCommandFields(c, info);
    var n := DylibNameOffset + |c.name| + 1;
    DylibFieldsEnd(pos, fs, fs[0], c.name);
    RoundUpShift(pos, n, WordSize);
  }

  /** The fields of a dylib's load command: the six words of the fixed part,
      the NUL-terminated name, then word alignment. */
  lemma DylibFieldsEnd(pos: nat, fs: seq<Field>, f0: Field, name: CString)
    requires fs == [f0, NulTerminated(name), AlignTo(WordSize)] && f0.U32s? && |f0.values| == 6
    ensures AlignmentsPositive(fs)
    ensures End(pos, fs) == RoundUp(pos + DylibNameOffset + |name| + 1, WordSize)
  {
    var n := DylibNameOffset + |name| + 1;
    EndCons(pos + n, fs[2], []);
    EndCons(pos + DylibNameOffset, fs[1], [fs[2]]);
    EndCons(pos, fs[0], [fs[1], fs[2]]);
    assert fs == [fs[0]] + [fs[1], fs[2]];
  }

  /** WriteLoadCommand writes exactly cmdsize() bytes for every command,
      started at a word-aligned position. */
  lemma LoadCommandEnd(pos: nat, c: Command, info: Info)
    requires Ready(c, info) && pos % WordSize == 0
    ensures AlignmentsPositive(LoadCommandFields(c, info))
    ensures End(pos, LoadCommandFields(c, info)) == pos + CmdSize(c)
  {
    var fs := LoadCommandFields(c, info);
    match c
    case SegmentCommand(_) => SegmentCommandEnd(pos, c, info);
    case DylibCommand(_, _, _, _, _) => DylibCommandEnd(pos, c, info);
    case UuidCommand(_) =>
      EndCons(pos + 8, fs[1], []);
      EndCons(pos, fs[0], [fs[1]]);
      assert fs == [fs[0]] + [fs[1]];
    case _ =>
      EndCons(pos, fs[0], []);
      assert fs == [fs[0]];
  }

  // ---------------------------------------------------------------------
  // The header.

  /** What is being written: a snapshot to load, or debugging information
      to go with one. */
  datatype SnapshotType = Snapshot | DebugInfo

  /** MachOHeader::filetype: a snapshot is a dynamic library, debugging
      information a dSYM companion file. */
  function FileType(t: SnapshotType): (r: nat)
    ensures r == MH_DYLIB <==> t == Snapshot
    ensures r == MH_DSYM <==> t == DebugInfo
  {
    match t
    case Snapshot => MH_DYLIB
    case DebugInfo => MH_DSYM
  }

  /** MachOHeader::flags: MH_NOUNDEFS | MH_DYLDLINK | MH_NO_REEXPORTED_DYLIBS
      for a snapshot (disjoint bits, so a sum), none for debugging
      information. */
  function HeaderFlags(t: SnapshotType): (r: nat)
    ensures t == DebugInfo <==> r == 0
  {
    match t
    case Snapshot => MH_NOUNDEFS + MH_DYLDLINK + MH_NO_REEXPORTED_DYLIBS
    case DebugInfo => 0
  }

  /** The sum of cmdsize() over `cmds`, in unbounded arithmetic. */
  function SumCmdSizes(cmds: seq<Command>): (r: nat)
    ensures r % WordSize == 0
    decreases |cmds|
  {
    if |cmds| == 0 then 0
    else
      var rest := SumCmdSizes(cmds[1..]);
      ModAddMultiple(rest, CmdSize(cmds[0]) / WordSize, WordSize);
      CmdSize(cmds[0]) + rest
  }

  /** MachOHeader::SelfMemorySize: the header structure and every load
      command. */
  function HeaderSize(cmds: seq<Command>): (r: nat)
    ensures r >= MachHeaderSize && r % WordSize == 0
  {
    ModAddMultiple(SumCmdSizes(cmds), MachHeaderSize / WordSize, WordSize);
    MachHeaderSize + SumCmdSizes(cmds)
  }

  /** The header_offset ComputeOffsets gives the i-th command: the header
      structure and the load commands before it. */
  function HeaderOffset(cmds: seq<Command>, i: nat): (r: nat)
    requires i <= |cmds|
    ensures r % WordSize == 0 && r >= MachHeaderSize
  {
    ModAddMultiple(SumCmdSizes(cmds[..i]), MachHeaderSize / WordSize, WordSize);
    MachHeaderSize + SumCmdSizes(cmds[..i])
  }

  predicate AllReady(cmds: seq<Command>, infos: seq<Info>) {
    |cmds| == |infos| && forall i :: 0 <= i < |cmds| ==> Ready(cmds[i], infos[i])
  }

  /** The load commands, one after the other. */
  function LoadCommandsFields(cmds: seq<Command>, infos: seq<Info>): seq<Field>
    requires AllReady(cmds, infos)
    decreases |cmds|
  {
    if |cmds| == 0 then [] else LoadCommandFields(cmds[0], infos[0]) + LoadCommandsFields(cmds[1..], infos[1..])
  }

  /** The fields of MachOHeader::WriteSelf before the load commands. The
      command count and sizeofcmds are uint32 values; sizeofcmds is summed
      in uint32 arithmetic. */
  function HeaderFields(t: SnapshotType, cpuType: nat, cpuSubtype: nat, cmds: seq<Command>): seq<Field> {
    [U32s([MH_MAGIC_64, cpuType, cpuSubtype, FileType(t), |cmds| % 0x1_0000_0000,
           SumCmdSizes(cmds) % 0x1_0000_0000, HeaderFlags(t), 0])]
  }

  /** MachOHeader::WriteSelf. */
  function HeaderWrite(t: SnapshotType, cpuType: nat, cpuSubtype: nat, cmds: seq<Command>, infos: seq<Info>): seq<Field>
    requires AllReady(cmds, infos)
  {
    HeaderFields(t, cpuType, cpuSubtype, cmds) + LoadCommandsFields(cmds, infos)
  }

  lemma {:induction false} LoadCommandsEnd(pos: nat, cmds: seq<Command>, infos: seq<Info>)
    requires AllReady(cmds, infos) && pos % WordSize == 0
    ensures AlignmentsPositive(LoadCommandsFields(cmds, infos))
    ensures End(pos, LoadCommandsFields(cmds, infos)) == pos + SumCmdSizes(cmds)
    decreases |cmds|
  {
    if |cmds| > 0 {
      LoadCommandEnd(pos, cmds[0], infos[0]);
      var next := pos + CmdSize(cmds[0]);
      ModAddMultiple(pos, CmdSize(cmds[0]) / WordSize, WordSize);
      LoadCommandsEnd(next, cmds[1..], infos[1..]);
      EndAppend(pos, LoadCommandFields(cmds[0], infos[0]), LoadCommandsFields(cmds[1..], infos[1..]));
    }
  }

  lemma HeaderFieldsEnd(t: SnapshotType, cpuType: nat, cpuSubtype: nat, cmds: seq<Command>)
    ensures AlignmentsPositive(HeaderFields(t, cpuType, cpuSubtype, cmds))
    ensures End(0, HeaderFields(t, cpuType, cpuSubtype, cmds)) == MachHeaderSize
  {
    var fs := HeaderFields(t, cpuType, cpuSubtype, cmds);
    EndCons(0, fs[0], []);
    assert fs == [fs[0]];
  }

  /** The assertions of MachOHeader::WriteSelf: written from the start of
      the file, the header structure takes sizeof(mach_header_64), the i-th
      load command starts at the header_offset ComputeOffsets gave it, and
      the whole header ends at its SelfMemorySize. */
  lemma HeaderWriteLayout(t: SnapshotType, cpuType: nat, cpuSubtype: nat, cmds: seq<Command>, infos: seq<Info>, i: nat)
    requires AllReady(cmds, infos) && i <= |cmds|
    ensures AllReady(cmds[..i], infos[..i])
    ensures var before := HeaderFields(t, cpuType, cpuSubtype, cmds) + LoadCommandsFields(cmds[..i], infos[..i]);
            AlignmentsPositive(before) && End(0, before) == HeaderOffset(cmds, i)
    ensures AlignmentsPositive(HeaderWrite(t, cpuType, cpuSubtype, cmds, infos))
    ensures End(0, HeaderWrite(t, cpuType, cpuSubtype, cmds, infos)) == HeaderSize(cmds)
  {
    var hf := HeaderFields(t, cpuType, cpuSubtype, cmds);
    HeaderFieldsEnd(t, cpuType, cpuSubtype, cmds);
    assert AllReady(cmds[..i], infos[..i]) by {
      forall k | 0 <= k < i ensures Ready(cmds[..i][k], infos[..i][k]) {
        assert cmds[..i][k] == cmds[k] && infos[..i][k] == infos[k];
      }
    }
    LoadCommandsEnd(MachHeaderSize, cmds[..i], infos[..i]);
    EndAppend(0, hf, LoadCommandsFields(cmds[..i], infos[..i]));
    LoadCommandsEnd(MachHeaderSize, cmds, infos);
    EndAppend(0, hf, LoadCommandsFields(cmds, infos));
  }

  /** ComputeOffsets' header offsets: the first load command follows the
      header structure, each next one follows the one before, and every one
      is word-aligned. */
  lemma HeaderOffsetsStep(cmds: seq<Command>, i: nat)
    requires i < |cmds|
    ensures HeaderOffset(cmds, 0) == MachHeaderSize
    ensures HeaderOffset(cmds, i + 1) == HeaderOffset(cmds, i) + CmdSize(cmds[i])
    ensures HeaderOffset(cmds, |cmds|) == HeaderSize(cmds)
  {
    SumCmdSizesAppend(cmds[..i], [cmds[i]]);
    assert cmds[..i + 1] == cmds[..i] + [cmds[i]];
    assert [cmds[i]][1..] == [];
    assert cmds[..|cmds|] == cmds;
  }

  lemma {:induction false} SumCmdSizesAppend(a: seq<Command>, b: seq<Command>)
    ensures SumCmdSizes(a + b) == SumCmdSizes(a) + SumCmdSizes(b)
    decreases |a|
  {
    if |a| == 0 {
      assert a + b == b;
    } else {
      assert (a + b)[1..] == a[1..] + b;
      SumCmdSizesAppend(a[1..], b);
    }
  }
}
