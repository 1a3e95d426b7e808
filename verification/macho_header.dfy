/** MachOHeader (runtime/vm/mach_o.cc:1520-1790, 1924-2433): the header of
    the file, which owns the list of load commands and the full symbol table,
    and the steps of MachOHeader::Finalize that add commands to it and put
    them in their final order. */
module MachOHeader {
  import opened Wrappers
  import opened CStrings
  import opened MachOFormat
  import MachOSection
  import MachOSymbols
  import opened MachOCommands
  import opened MachOLoadCommands
  import opened MachOReorder

  /** The state of a MachOHeader: the kind of output, whether it is
      stripped, the identifier (used by the LC_ID_DYLIB command and the code
      signature), the optional absolute path (for the N_OSO symbol), the
      commands in order, and the full symbol table used for relocations. */
  datatype Header = Header(
    snapshotType: SnapshotType,
    isStripped: bool,
    identifier: CString,
    path: Option<CString>,
    commands: seq<Command>,
    fullSymtab: MachOSymbols.SymbolTable)

  // ---------------------------------------------------------------------
  // Looking up commands.

  predicate IsSegmentNamed(c: Command, name: CString) {
    c.SegmentCommand? && c.segment.name == name
  }

  /** FindSegment: the position of the first segment named `name`. */
  function FindSegment(cmds: seq<Command>, name: CString): (r: Option<nat>)
    ensures r.Some? ==> r.value < |cmds| && IsSegmentNamed(cmds[r.value], name) &&
                        forall j :: 0 <= j < r.value ==> !IsSegmentNamed(cmds[j], name)
    ensures r.None? <==> forall j :: 0 <= j < |cmds| ==> !IsSegmentNamed(cmds[j], name)
  {
    if |cmds| == 0 then None
    else if IsSegmentNamed(cmds[0], name) then Some(0)
    else
      match FindSegment(cmds[1..], name)
      case None => None
      case Some(i) => Some(i + 1)
  }

  /** FindCommand: the position of the first command with the given code
      (the release build stops at the first; the debug build also asserts
      there is no second). */
  function FindCommand(cmds: seq<Command>, code: nat): (r: Option<nat>)
    ensures r.Some? ==> r.value < |cmds| && Code(cmds[r.value]) == code &&
                        forall j :: 0 <= j < r.value ==> Code(cmds[j]) != code
    ensures r.None? <==> forall j :: 0 <= j < |cmds| ==> Code(cmds[j]) != code
  {
    if |cmds| == 0 then None
    else if Code(cmds[0]) == code then Some(0)
    else
      match FindCommand(cmds[1..], code)
      case None => None
      case Some(i) => Some(i + 1)
  }

  /** HasCommand: some command has the given code. */
  function HasCommand(cmds: seq<Command>, code: nat): (r: bool)
    ensures r <==> exists i :: 0 <= i < |cmds| && Code(cmds[i]) == code
  {
    FindCommand(cmds, code).Some?
  }

  /** FindSection(segname, sectname): the first section named `sectname`
      in the first segment named `segname`. */
  function FindSectionIn(cmds: seq<Command>, segname: CString, sectname: CString): (r: Option<MachOSection.Section>)
    ensures r.Some? ==> exists i :: 0 <= i < |cmds| && IsSegmentNamed(cmds[i], segname) &&
                                    r.value in Sections(cmds[i].segment.contents) && r.value.name == sectname
  {
    match FindSegment(cmds, segname)
    case None => None
    case Some(i) =>
      var ss := Sections(cmds[i].segment.contents);
      match FindSection(ss, sectname)
      case None => None
      case Some(k) => Some(ss[k])
  }

  /** Appending commands that are not segments leaves every segment lookup
      as it was. */
  lemma FindSegmentAppend(cmds: seq<Command>, more: seq<Command>, name: CString)
    requires forall j :: 0 <= j < |more| ==> !more[j].SegmentCommand?
    ensures FindSegment(cmds + more, name) == FindSegment(cmds, name)
  {
    var all := cmds + more;
    match FindSegment(all, name)
    case None =>
      forall j | 0 <= j < |cmds| ensures !IsSegmentNamed(cmds[j], name) {
        assert all[j] == cmds[j];
      }
    case Some(i) =>
      assert all[i] == cmds[i];
      forall j | 0 <= j < i ensures !IsSegmentNamed(cmds[j], name) {
        assert all[j] == cmds[j];
      }
  }

  // ---------------------------------------------------------------------
  // GenerateMiscellaneousCommands.

  /** The load commands GenerateMiscellaneousCommands adds: the build
      version, and for a snapshot an LC_ID_DYLIB command for the identifier
      and, on macOS targets, an LC_LOAD_DYLIB command for libSystem. */
  function MiscellaneousCommands(t: SnapshotType, identifier: CString, platform: nat, minos: nat, sdk: nat,
                                 targetsMacOS: bool): (r: seq<Command>)
    ensures forall i :: 0 <= i < |r| ==> IsHeaderOnly(r[i])
    ensures HasCommand(r, LC_BUILD_VERSION)
    ensures HasCommand(r, LC_ID_DYLIB) <==> t == Snapshot
    ensures HasCommand(r, LC_LOAD_DYLIB) <==> t == Snapshot && targetsMacOS
  {
    var build := BuildVersionCommand(platform, minos, sdk);
    var id := DylibCommand(LC_ID_DYLIB, identifier, 0, NoVersion, NoVersion);
    var system := LoadSystemDylib();
    var tail := if targetsMacOS then [system] else [];
    var rest := if t == Snapshot then [id] + tail else [];
    MiscellaneousCodes(build, id, system, tail, rest, t, targetsMacOS);
    [build] + rest
  }

  /** MachOLoadDylib::CreateLoadSystemDylib: a load command for libSystem,
      with no timestamp and the fixed current and compatibility versions. */
  function LoadSystemDylib(): (r: Command)
    ensures r.DylibCommand? && Code(r) == LC_LOAD_DYLIB && IsHeaderOnly(r)
    ensures r.name == SystemDylibName && r.timestamp == 0
    ensures r.currentVersion == SystemCurrentVersion && r.compatVersion == SystemCompatVersion
  {
    DylibCommand(LC_LOAD_DYLIB, SystemDylibName, 0, SystemCurrentVersion, SystemCompatVersion)
  }

  lemma MiscellaneousCodes(build: Command, id: Command, system: Command, tail: seq<Command>, rest: seq<Command>,
                           t: SnapshotType, targetsMacOS: bool)
    requires Code(build) == LC_BUILD_VERSION && Code(id) == LC_ID_DYLIB && Code(system) == LC_LOAD_DYLIB
    requires IsHeaderOnly(build) && IsHeaderOnly(id) && IsHeaderOnly(system)
    requires tail == (if targetsMacOS then [system] else [])
    requires rest == (if t == Snapshot then [id] + tail else [])
    ensures forall i :: 0 <= i < |[build] + rest| ==> IsHeaderOnly(([build] + rest)[i])
    ensures HasCommand([build] + rest, LC_BUILD_VERSION)
    ensures HasCommand([build] + rest, LC_ID_DYLIB) <==> t == Snapshot
    ensures HasCommand([build] + rest, LC_LOAD_DYLIB) <==> t == Snapshot && targetsMacOS
  {
    HasCommandAppend([build], rest, LC_BUILD_VERSION);
    HasCommandAppend([build], rest, LC_ID_DYLIB);
    HasCommandAppend([build], rest, LC_LOAD_DYLIB);
    HasCommandOne(build, LC_ID_DYLIB);
    HasCommandOne(build, LC_LOAD_DYLIB);
    HasCommandOne(build, LC_BUILD_VERSION);
    if t == Snapshot {
      HasCommandAppend([id], tail, LC_ID_DYLIB);
      HasCommandAppend([id], tail, LC_LOAD_DYLIB);
      HasCommandOne(id, LC_ID_DYLIB);
      HasCommandOne(id, LC_LOAD_DYLIB);
      if targetsMacOS {
        HasCommandOne(system, LC_ID_DYLIB);
        HasCommandOne(system, LC_LOAD_DYLIB);
      }
    }
  }

  lemma HasCommandOne(c: Command, code: nat)
    ensures HasCommand([c], code) <==> Code(c) == code
  {
    if Code(c) == code {
      assert Code([c][0]) == code;
    }
  }

  /** GenerateMiscellaneousCommands: not idempotent, so none of the commands
      it adds may be present yet. */
  function GenerateMiscellaneousCommands(h: Header, platform: nat, minos: nat, sdk: nat, targetsMacOS: bool): (r: Header)
    requires !HasCommand(h.commands, LC_BUILD_VERSION)
    requires !HasCommand(h.commands, LC_ID_DYLIB) && !HasCommand(h.commands, LC_LOAD_DYLIB)
    ensures r == h.(commands := r.commands)
    ensures HasCommand(r.commands, LC_BUILD_VERSION)
    ensures HasCommand(r.commands, LC_ID_DYLIB) <==> h.snapshotType == Snapshot
    ensures HasCommand(r.commands, LC_LOAD_DYLIB) <==> h.snapshotType == Snapshot && targetsMacOS
  {
    var more := MiscellaneousCommands(h.snapshotType, h.identifier, platform, minos, sdk, targetsMacOS);
    HasCommandAppend(h.commands, more, LC_BUILD_VERSION);
    HasCommandAppend(h.commands, more, LC_ID_DYLIB);
    HasCommandAppend(h.commands, more, LC_LOAD_DYLIB);
    h.(commands := h.commands + more)
  }

  lemma HasCommandAppend(a: seq<Command>, b: seq<Command>, code: nat)
    ensures HasCommand(a + b, code) <==> HasCommand(a, code) || HasCommand(b, code)
  {
    var ab := a + b;
    if HasCommand(ab, code) {
      var i :| 0 <= i < |ab| && Code(ab[i]) == code;
      if i < |a| { assert ab[i] == a[i]; } else { assert ab[i] == b[i - |a|]; }
    }
    if HasCommand(a, code) {
      var i :| 0 <= i < |a| && Code(a[i]) == code;
      assert ab[i] == a[i];
    }
    if HasCommand(b, code) {
      var i :| 0 <= i < |b| && Code(b[i]) == code;
      assert ab[|a| + i] == b[i];
    }
  }

  /** The commands GenerateMiscellaneousCommands adds live only in the
      header: FinalizeCommands keeps them with the other header-only
      commands, after them, and sorts no segment or linkedit command
      differently. */
  lemma MiscellaneousCommandsHeaderOnly(h: Header, platform: nat, minos: nat, sdk: nat, targetsMacOS: bool)
    requires !HasCommand(h.commands, LC_BUILD_VERSION)
    requires !HasCommand(h.commands, LC_ID_DYLIB) && !HasCommand(h.commands, LC_LOAD_DYLIB)
    ensures var r := GenerateMiscellaneousCommands(h, platform, minos, sdk, targetsMacOS);
            var more := MiscellaneousCommands(h.snapshotType, h.identifier, platform, minos, sdk, targetsMacOS);
            HeaderOnly(r.commands) == HeaderOnly(h.commands) + more &&
            Segments(r.commands) == Segments(h.commands) &&
            Linkedit(r.commands) == Linkedit(h.commands)
  {
    var more := MiscellaneousCommands(h.snapshotType, h.identifier, platform, minos, sdk, targetsMacOS);
    BinsAppend(h.commands, more);
    HeaderOnlyRun(more);
  }

  /** A run of header-only commands is its own header-only bin. */
  lemma {:induction false} HeaderOnlyRun(cs: seq<Command>)
    requires forall i :: 0 <= i < |cs| ==> IsHeaderOnly(cs[i])
    ensures HeaderOnly(cs) == cs && Segments(cs) == [] && Linkedit(cs) == []
    decreases |cs|
  {
    if |cs| > 0 {
      var front := cs[..|cs| - 1];
      var c := cs[|cs| - 1];
      HeaderOnlyRun(front);
      assert !c.SegmentCommand? && !c.LinkeditData?;
      assert front + [c] == cs;
    }
  }

  // ---------------------------------------------------------------------
  // InitializeSymbolTables.

  /** The sections of every segment, in command order, numbered from 1: the
      numbering the symbol tables use until FinalizeCommands. */
  function AllSectionsOf(cmds: seq<Command>): seq<MachOSection.Section> {
    AllSections(Segments(cmds))
  }

  /** What InitializeSymbolTables asserts (it is not idempotent: the full
      table is still empty and there is no symbol table command), and what
      MachOSymbolTable::Initialize asserts for each table it builds: the full
      one, and when stripping the stripped one as well. */
  predicate CanInitializeSymbolTables(h: Header) {
    var sections := AllSectionsOf(h.commands);
    h.fullSymtab.symbols == [] && !HasCommand(h.commands, LC_SYMTAB) &&
    MachOSymbols.CanInitialize(h.path, sections, false) &&
    (h.isStripped ==> MachOSymbols.CanInitialize(h.path, sections, true))
  }

  /** The commands added for the table that is written: the symbol table,
      and for a snapshot a dynamic symbol table that records how many of its
      symbols are local and how many external. */
  function SymbolTableCommands(t: SnapshotType, table: MachOSymbols.SymbolTable): (r: seq<Command>)
    requires table.numLocal.Some? && table.numExternal.Some?
    ensures |r| == (if t == Snapshot then 2 else 1) && r[0] == LinkeditData(SymtabCommand(table))
    ensures forall i :: 0 <= i < |r| ==> r[i].LinkeditData?
  {
    [LinkeditData(SymtabCommand(table))] +
    (if t == Snapshot then [LinkeditData(DysymtabCommand(table.numLocal.value, table.numExternal.value))] else [])
  }

  /** MachOHeader::InitializeSymbolTables as written: the full table is built
      over all sections with every symbol. When stripping, the stripped table
      is built into a local that shadows the outer `table` and is then
      dropped, so the command added (and the dynamic symbol table's split)
      is always that of the full table. */
  function InitializeSymbolTables(h: Header): (r: Header)
    requires CanInitializeSymbolTables(h)
    ensures r == h.(commands := r.commands, fullSymtab := r.fullSymtab)
    ensures r.fullSymtab == MachOSymbols.Initialize(h.path, AllSectionsOf(h.commands), false)
    ensures |r.fullSymtab.symbols| == r.fullSymtab.numLocal.value + r.fullSymtab.numExternal.value
  {
    var full := MachOSymbols.Initialize(h.path, AllSectionsOf(h.commands), false);
    h.(commands := h.commands + SymbolTableCommands(h.snapshotType, full), fullSymtab := full)
  }

  /** Every symbol table command among `ls` writes `table`. */
  predicate TablesAre(ls: seq<LinkeditCommand>, table: MachOSymbols.SymbolTable) {
    forall i :: 0 <= i < |ls| ==> (ls[i].SymtabCommand? ==> ls[i].table == table)
  }

  /** Every symbol table among the linkedit commands is the full table: the
      one table the source both writes and uses for relocations. */
  predicate WritesFullTable(h: Header) {
    TablesAre(Linkedit(h.commands), h.fullSymtab)
  }

  /** The table commands land in the linkedit bin, after the linkedit
      commands already there; the segments, and so the sections the tables
      number, and the header-only commands stay as they were. The symbol
      table command writes the full table, and the dynamic symbol table
      splits exactly its symbols. */
  lemma InitializeSymbolTablesBins(h: Header)
    requires CanInitializeSymbolTables(h)
    ensures var r := InitializeSymbolTables(h);
            HeaderOnly(r.commands) == HeaderOnly(h.commands) &&
            Segments(r.commands) == Segments(h.commands) &&
            Linkedit(r.commands) == Linkedit(h.commands) + TableCommands(h.snapshotType, r.fullSymtab)
  {
    var r := InitializeSymbolTables(h);
    var more := SymbolTableCommands(h.snapshotType, r.fullSymtab);
    assert r.commands == h.commands + more;
    BinsAppend(h.commands, more);
    SymbolTableBins(h.snapshotType, r.fullSymtab, more);
  }

  /** The linkedit commands SymbolTableCommands holds. */
  function TableCommands(t: SnapshotType, table: MachOSymbols.SymbolTable): (r: seq<LinkeditCommand>)
    requires table.numLocal.Some? && table.numExternal.Some?
    ensures |r| == (if t == Snapshot then 2 else 1) && r[0] == SymtabCommand(table)
    ensures t == Snapshot ==>
              r[1].DysymtabCommand? &&
              r[1].numLocal + r[1].numExternal == table.numLocal.value + table.numExternal.value
    ensures TablesAre(r, table)
  {
    [SymtabCommand(table)] +
    (if t == Snapshot then [DysymtabCommand(table.numLocal.value, table.numExternal.value)] else [])
  }

  lemma SymbolTableBins(t: SnapshotType, table: MachOSymbols.SymbolTable, more: seq<Command>)
    requires table.numLocal.Some? && table.numExternal.Some?
    requires more == SymbolTableCommands(t, table)
    ensures HeaderOnly(more) == [] && Segments(more) == []
    ensures Linkedit(more) == TableCommands(t, table)
  {
    var first := LinkeditData(SymtabCommand(table));
    BinsOfOne(first);
    if t == Snapshot {
      var second := LinkeditData(DysymtabCommand(table.numLocal.value, table.numExternal.value));
      assert more == [first] + [second];
      BinsAppend([first], [second]);
      BinsOfOne(second);
    } else {
      assert more == [first];
    }
  }

  /** After the call there is a symbol table command. */
  lemma InitializeSymbolTablesHasSymtab(h: Header)
    requires CanInitializeSymbolTables(h)
    ensures HasCommand(InitializeSymbolTables(h).commands, LC_SYMTAB)
  {
    var r := InitializeSymbolTables(h);
    HasSymtabAppended(h.commands, SymbolTableCommands(h.snapshotType, r.fullSymtab), h.snapshotType, r.fullSymtab);
  }

  lemma HasSymtabAppended(cmds: seq<Command>, more: seq<Command>, t: SnapshotType, table: MachOSymbols.SymbolTable)
    requires table.numLocal.Some? && table.numExternal.Some?
    requires more == SymbolTableCommands(t, table)
    ensures HasCommand(cmds + more, LC_SYMTAB)
  {
    assert Code(more[0]) == LC_SYMTAB;
    HasCommandAppend(cmds, more, LC_SYMTAB);
  }

  /** With no symbol table command, no linkedit command writes a table. */
  lemma NoSymtabTables(cmds: seq<Command>, table: MachOSymbols.SymbolTable)
    requires !HasCommand(cmds, LC_SYMTAB)
    ensures TablesAre(Linkedit(cmds), table)
  {
    var ls := Linkedit(cmds);
    BinMembers(cmds);
    forall i | 0 <= i < |ls| ensures !ls[i].SymtabCommand? {
      assert LinkeditData(ls[i]) in cmds;
      var j :| 0 <= j < |cmds| && cmds[j] == LinkeditData(ls[i]);
      assert Code(cmds[j]) != LC_SYMTAB;
    }
  }

  lemma TablesAppend(a: seq<LinkeditCommand>, b: seq<LinkeditCommand>, table: MachOSymbols.SymbolTable)
    requires TablesAre(a, table) && TablesAre(b, table)
    ensures TablesAre(a + b, table)
  {
    forall i | 0 <= i < |a + b| && (a + b)[i].SymtabCommand? ensures (a + b)[i].table == table {
      if i < |a| { assert (a + b)[i] == a[i]; } else { assert (a + b)[i] == b[i - |a|]; }
    }
  }

  /** InitializeSymbolTables sets up the invariant FinalizeCommands keeps:
      the symbol table that is written is the full table. */
  lemma InitializeSymbolTablesWritesFullTable(h: Header)
    requires CanInitializeSymbolTables(h)
    ensures WritesFullTable(InitializeSymbolTables(h))
  {
    var r := InitializeSymbolTables(h);
    InitializeSymbolTablesBins(h);
    NoSymtabTables(h.commands, r.fullSymtab);
    TablesAppend(Linkedit(h.commands), TableCommands(h.snapshotType, r.fullSymtab), r.fullSymtab);
  }

  /** The consequence of the shadowing: a stripped header with a path still
      writes a table with local symbols (at least the N_OSO symbol for the
      path), where the stripped table it built and dropped has none; so its
      commands differ from those the intended version adds. */
  lemma StrippedHeaderWritesLocals(h: Header)
    requires CanInitializeSymbolTables(h) && h.isStripped && h.path.Some?
    ensures var sections := AllSectionsOf(h.commands);
            InitializeSymbolTables(h).fullSymtab.numLocal.value > 0 &&
            MachOSymbols.Initialize(h.path, sections, true).numLocal.value == 0
    ensures InitializeSymbolTables(h).commands != InitializeSymbolTablesIntended(h).commands
  {
    var sections := AllSectionsOf(h.commands);
    var r := MachOSymbols.Initialize(h.path, sections, false);
    MachOSymbols.InitializeRecords(h.path, sections, false, 0, r);
    var locals := MachOSymbols.LocalEntries(h.path, sections, false);
    assert |locals| > 0;
    var stripped := MachOSymbols.Initialize(h.path, sections, true);
    var n := |h.commands|;
    assert InitializeSymbolTables(h).commands[n] == LinkeditData(SymtabCommand(r));
    assert InitializeSymbolTablesIntended(h).commands[n] == LinkeditData(SymtabCommand(stripped));
  }

  /** MachOHeader::InitializeSymbolTables as evidently intended: the full
      table is still built over all sections for relocations, but the
      command added (and the dynamic symbol table's split) is that of the
      table built with the header's stripping, the stripped table when
      stripping. Without stripping it is the version as written. */
  function InitializeSymbolTablesIntended(h: Header): (r: Header)
    requires CanInitializeSymbolTables(h)
    ensures r == h.(commands := r.commands, fullSymtab := r.fullSymtab)
    ensures r.fullSymtab == InitializeSymbolTables(h).fullSymtab
    ensures !h.isStripped ==> r == InitializeSymbolTables(h)
  {
    var sections := AllSectionsOf(h.commands);
    var full := MachOSymbols.Initialize(h.path, sections, false);
    var written := MachOSymbols.Initialize(h.path, sections, h.isStripped);
    h.(commands := h.commands + SymbolTableCommands(h.snapshotType, written), fullSymtab := full)
  }

  /** The intended version writes the stripped table when stripping: a
      table of no local symbols and one external symbol per named portion,
      which is also the split the dynamic symbol table records. */
  lemma InitializeSymbolTablesIntendedWritesStripped(h: Header)
    requires CanInitializeSymbolTables(h)
    ensures var r := InitializeSymbolTablesIntended(h);
            var sections := AllSectionsOf(h.commands);
            var written := MachOSymbols.Initialize(h.path, sections, h.isStripped);
            Segments(r.commands) == Segments(h.commands) &&
            Linkedit(r.commands) == Linkedit(h.commands) + TableCommands(h.snapshotType, written) &&
            TablesAre(Linkedit(r.commands), written) &&
            (h.isStripped ==>
               written.numLocal == Some(0) && |written.symbols| == MachOSymbols.NamedPortionsIn(sections))
  {
    var sections := AllSectionsOf(h.commands);
    var written := MachOSymbols.Initialize(h.path, sections, h.isStripped);
    TableCommandsAppended(h.commands, h.snapshotType, written);
  }

  /** Appending the table commands to commands without a symbol table puts
      them after the linkedit commands, leaves the segments alone, and makes
      `table` the only table written. */
  lemma TableCommandsAppended(cmds: seq<Command>, t: SnapshotType, table: MachOSymbols.SymbolTable)
    requires !HasCommand(cmds, LC_SYMTAB) && table.numLocal.Some? && table.numExternal.Some?
    ensures var all := cmds + SymbolTableCommands(t, table);
            Segments(all) == Segments(cmds) &&
            Linkedit(all) == Linkedit(cmds) + TableCommands(t, table) &&
            TablesAre(Linkedit(all), table)
  {
    var more := SymbolTableCommands(t, table);
    BinsAppend(cmds, more);
    SymbolTableBins(t, table, more);
    NoSymtabTables(cmds, table);
    TablesAppend(Linkedit(cmds), TableCommands(t, table), table);
  }
}
