/** MachOSymbolTable (runtime/vm/mach_o.cc:1091-1300, 2533-2648): the nlist
    entries of a snapshot, their string table, and the map from relocation
    labels to the symbols added for them. A table holds its local symbols
    first and its external ones after them. */
module MachOSymbols {
  import opened Wrappers
  import opened CStrings
  import opened MachOFormat
  import opened MachOStrings
  import opened MachOSection

  /** One nlist_64 entry. */
  datatype Symbol = Symbol(nameIndex: nat, symbolType: nat, sectionIndex: nat, description: nat, value: nat)

  /** The arguments of one AddSymbol call; a label of 0 or less means none. */
  datatype Entry = Entry(name: CString, symbolType: nat, sectionIndex: nat, description: nat, value: nat, labelId: int)

  /** 2^64: a target uword wraps around at this value. */
  const WordModulus: nat := 0x1_0000_0000_0000_0000

  /** `type & N_STAB` is non-zero. N_STAB covers bits 5 to 7, so for a
      byte this says the type is at least 0x20. */
  predicate IsStab(symbolType: nat) {
    symbolType >= 0x20
  }

  /** `(type & N_TYPE) == N_SECT`. N_TYPE and N_SECT are both bits 1 to 3,
      so this says the low nibble is 0xe or 0xf. */
  predicate IsSectionType(symbolType: nat) {
    symbolType % 0x10 >= N_SECT
  }

  /** AddSymbol's label rule: symbolic debugging symbols have no label, and
      otherwise exactly the section symbols have one. */
  predicate LabelRule(symbolType: nat, labelId: int) {
    if IsStab(symbolType) then labelId <= 0 else IsSectionType(symbolType) == (labelId > 0)
  }

  /** What AddSymbol and the Symbol constructor assert of one call: each field
      fits its nlist width, the label rule holds, and the name's string-table
      index is non-zero unless the name is empty, which, with " " fixed at
      index 0, rules out the name " ". */
  predicate EntryOk(e: Entry) {
    e.symbolType < 0x100 && e.sectionIndex < 0x100 && e.description < 0x1_0000 &&
    e.value < WordModulus && LabelRule(e.symbolType, e.labelId) && e.name != Space
  }

  /** The symbol table: strings, symbols, the 1-based index of the symbol
      added for each label, the largest label seen, and the two write-once
      counts (None until set). */
  datatype SymbolTable = SymbolTable(
    strings: StringTable,
    symbols: seq<Symbol>,
    byLabel: map<int, nat>,
    maxLabel: int,
    numLocal: Option<nat>,
    numExternal: Option<nat>)

  /** Every symbol's fields fit their nlist widths. */
  predicate Fits(t: SymbolTable) {
    forall k :: 0 <= k < |t.symbols| ==>
      t.symbols[k].symbolType < 0x100 && t.symbols[k].sectionIndex < 0x100 &&
      t.symbols[k].description < 0x1_0000 && t.symbols[k].value < WordModulus
  }

  predicate Inv(t: SymbolTable) {
    Fits(t) && Valid(t.strings) && Space in t.strings.offsets && t.strings.offsets[Space] == 0 &&
    t.maxLabel >= 0 &&
    forall l :: l in t.byLabel ==> 0 < l <= t.maxLabel && 1 <= t.byLabel[l] <= |t.symbols|
  }

  /** The constructor: an empty string table, no symbols, no labels. */
  function NewTable(): (r: SymbolTable)
    ensures Inv(r) && r.symbols == [] && r.byLabel == map[] && r.maxLabel == 0
    ensures r.numLocal.None? && r.numExternal.None?
  {
    SymbolTable(Empty(), [], map[], 0, None, None)
  }

  /** Symbol `k` of `t` is the one entry `e` adds: its name is recorded in
      the string table at the symbol's name index, and every other field is
      the entry's. */
  predicate Records(t: SymbolTable, k: int, e: Entry) {
    0 <= k < |t.symbols| && e.name in t.strings.offsets &&
    t.symbols[k] == Symbol(t.strings.offsets[e.name], e.symbolType, e.sectionIndex, e.description, e.value)
  }

  /** Only " " has string index 0 in a table that keeps it there. */
  lemma NameIndexZero(t: StringTable, s: CString)
    requires Valid(t) && Space in t.offsets && t.offsets[Space] == 0 && s in t.offsets
    ensures t.offsets[s] == 0 <==> s == Space
  {
    OffsetsDistinct(t, s, Space);
  }

  /** MachOSymbolTable::AddSymbol. */
  function AddSymbol(t: SymbolTable, e: Entry): (r: SymbolTable)
    requires Inv(t) && EntryOk(e)
    requires e.labelId > 0 ==> e.labelId !in t.byLabel
    ensures Inv(r)
    ensures |r.symbols| == |t.symbols| + 1 && r.symbols[..|t.symbols|] == t.symbols
    ensures Records(r, |t.symbols|, e)
    ensures r.symbols[|t.symbols|].nameIndex == 0 <==> e.name == Space
    ensures Grows(t.strings, r.strings)
    ensures r.byLabel == if e.labelId > 0 then t.byLabel[e.labelId := |t.symbols| + 1] else t.byLabel
    ensures r.maxLabel == if e.labelId > t.maxLabel then e.labelId else t.maxLabel
    ensures r.numLocal == t.numLocal && r.numExternal == t.numExternal
  {
    var added := Add(t.strings, e.name);
    AddGrows(t.strings, e.name);
    NameIndexZero(added.0, e.name);
    var symbol := Symbol(added.1, e.symbolType, e.sectionIndex, e.description, e.value);
    var n := |t.symbols|;
    var r := t.(strings := added.0, symbols := t.symbols + [symbol],
                byLabel := if e.labelId > 0 then t.byLabel[e.labelId := n + 1] else t.byLabel,
                maxLabel := if e.labelId > t.maxLabel then e.labelId else t.maxLabel);
    assert r.symbols[..n] == t.symbols;
    r
  }

  /** Growth keeps a recorded symbol recorded. */
  lemma RecordsKept(t: SymbolTable, r: SymbolTable, k: int, e: Entry)
    requires Records(t, k, e)
    requires |t.symbols| <= |r.symbols| && r.symbols[..|t.symbols|] == t.symbols
    requires Grows(t.strings, r.strings)
    ensures Records(r, k, e)
  {
    assert r.symbols[k] == r.symbols[..|t.symbols|][k];
  }

  /** The (positive) labels of `es`. */
  function Labels(es: seq<Entry>): set<int> {
    if |es| == 0 then {}
    else (if es[0].labelId > 0 then {es[0].labelId} else {}) + Labels(es[1..])
  }

  /** No two entries of `es` share a label. */
  predicate LabelsDistinct(es: seq<Entry>) {
    |es| == 0 || ((es[0].labelId > 0 ==> es[0].labelId !in Labels(es[1..])) && LabelsDistinct(es[1..]))
  }

  /** The labels of `es` are new to `t` and distinct from each other. */
  predicate LabelsFresh(t: SymbolTable, es: seq<Entry>) {
    LabelsDistinct(es) && Labels(es) !! t.byLabel.Keys
  }

  lemma {:induction false} LabelOfEntry(es: seq<Entry>, i: nat)
    requires i < |es| && es[i].labelId > 0
    ensures es[i].labelId in Labels(es)
    decreases i
  {
    if i > 0 {
      LabelOfEntry(es[1..], i - 1);
      assert es[1..][i - 1] == es[i];
    }
  }

  lemma {:induction false} LabelsOfEntries(es: seq<Entry>, l: int)
    ensures l in Labels(es) <==> l > 0 && exists i :: 0 <= i < |es| && es[i].labelId == l
    decreases |es|
  {
    if |es| > 0 {
      LabelsOfEntries(es[1..], l);
      if l > 0 && exists i :: 0 <= i < |es| && es[i].labelId == l {
        var i :| 0 <= i < |es| && es[i].labelId == l;
        LabelOfEntry(es, i);
      }
      if l in Labels(es[1..]) {
        var i :| 0 <= i < |es| - 1 && es[1..][i].labelId == l;
        assert es[i + 1].labelId == l;
      }
    }
  }

  /** Every entry of `es` passes AddSymbol's checks. */
  predicate AllOk(es: seq<Entry>) {
    |es| == 0 || (EntryOk(es[0]) && AllOk(es[1..]))
  }

  lemma {:induction false} AllOkAt(es: seq<Entry>, i: nat)
    requires AllOk(es) && i < |es|
    ensures EntryOk(es[i])
    decreases i
  {
    if i > 0 {
      AllOkAt(es[1..], i - 1);
      assert es[1..][i - 1] == es[i];
    }
  }

  /** A sequence of AddSymbol calls, in order. */
  function AddEntries(t: SymbolTable, es: seq<Entry>): (r: SymbolTable)
    requires Inv(t) && AllOk(es) && LabelsFresh(t, es)
    ensures Inv(r) && |r.symbols| == |t.symbols| + |es|
    ensures r.numLocal == t.numLocal && r.numExternal == t.numExternal
    decreases |es|
  {
    if |es| == 0 then t
    else
      var u := AddSymbol(t, es[0]);
      RestFresh(t, es, u);
      AddEntries(u, es[1..])
  }

  /** After the first entry, the labels of the rest are still fresh. */
  lemma RestFresh(t: SymbolTable, es: seq<Entry>, u: SymbolTable)
    requires |es| > 0 && Inv(t) && AllOk(es) && LabelsFresh(t, es)
    requires u == AddSymbol(t, es[0])
    ensures AllOk(es[1..]) && LabelsFresh(u, es[1..])
  {
  }

  /** What AddEntries already recorded stays recorded. */
  lemma {:induction false} AddEntriesKeeps(t: SymbolTable, es: seq<Entry>, k: int, e: Entry)
    requires Inv(t) && AllOk(es) && LabelsFresh(t, es)
    requires Records(t, k, e)
    ensures Records(AddEntries(t, es), k, e)
    decreases |es|
  {
    if |es| > 0 {
      var u := AddSymbol(t, es[0]);
      RestFresh(t, es, u);
      RecordsKept(t, u, k, e);
      AddEntriesKeeps(u, es[1..], k, e);
    }
  }

  /** Entry `i` of `es` adds symbol number k = |t.symbols| + i; `k` and
      `e` name that index and entry. */
  lemma {:induction false} AddEntriesRecords(t: SymbolTable, es: seq<Entry>, i: nat, r: SymbolTable, k: int, e: Entry)
    requires Inv(t) && AllOk(es) && LabelsFresh(t, es) && i < |es|
    requires r == AddEntries(t, es) && k == |t.symbols| + i && e == es[i]
    ensures Records(r, k, e)
    decreases |es|
  {
    var u := AddSymbol(t, es[0]);
    RestFresh(t, es, u);
    var rest := es[1..];
    if i == 0 {
      assert Records(u, k, e);
      AddEntriesKeeps(u, rest, k, e);
    } else {
      assert rest[i - 1] == e;
      AddEntriesRecords(u, rest, i - 1, r, k, e);
    }
  }

  /** Labels known before keep their symbols. */
  lemma {:induction false} AddEntriesKeepsLabel(t: SymbolTable, es: seq<Entry>, l: int)
    requires Inv(t) && AllOk(es) && LabelsFresh(t, es) && l in t.byLabel
    ensures l in AddEntries(t, es).byLabel && AddEntries(t, es).byLabel[l] == t.byLabel[l]
    decreases |es|
  {
    if |es| > 0 {
      var u := AddSymbol(t, es[0]);
      RestFresh(t, es, u);
      AddEntriesKeepsLabel(u, es[1..], l);
    }
  }

  /** The label of entry `i` maps to the 1-based index of the symbol it added. */
  lemma {:induction false} AddEntriesLabel(t: SymbolTable, es: seq<Entry>, i: nat)
    requires Inv(t) && AllOk(es) && LabelsFresh(t, es) && i < |es| && es[i].labelId > 0
    ensures es[i].labelId in AddEntries(t, es).byLabel
    ensures AddEntries(t, es).byLabel[es[i].labelId] == |t.symbols| + i + 1
    decreases |es|
  {
    var u := AddSymbol(t, es[0]);
    RestFresh(t, es, u);
    if i == 0 {
      AddEntriesKeepsLabel(u, es[1..], es[0].labelId);
    } else {
      AddEntriesLabel(u, es[1..], i - 1);
      assert es[1..][i - 1] == es[i];
    }
  }

  /** A label that is neither known nor given to an entry stays unknown. */
  lemma {:induction false} AddEntriesNoLabel(t: SymbolTable, es: seq<Entry>, l: int)
    requires Inv(t) && AllOk(es) && LabelsFresh(t, es) && l !in t.byLabel && l !in Labels(es)
    ensures l !in AddEntries(t, es).byLabel
    decreases |es|
  {
    if |es| > 0 {
      var u := AddSymbol(t, es[0]);
      RestFresh(t, es, u);
      AddEntriesNoLabel(u, es[1..], l);
    }
  }

  /** MachOSymbolTable::FindLabel: the symbol stored for a positive label, or
      None (the null pointer) when no symbol was added with it. */
  function FindLabel(t: SymbolTable, labelId: int): (r: Option<Symbol>)
    requires Inv(t) && labelId > 0
    ensures r.Some? <==> labelId in t.byLabel
  {
    var stored: int := if labelId in t.byLabel then t.byLabel[labelId] else 0;
    var index := stored - 1;
    if index < 0 then None else Some(t.symbols[index])
  }

  /** The label `l` of added entry `i` finds the symbol that entry added,
      number k = |t.symbols| + i (the one AddEntriesRecords describes). */
  lemma FindLabelAfterAdding(t: SymbolTable, es: seq<Entry>, i: nat, r: SymbolTable, l: int, k: nat)
    requires Inv(t) && AllOk(es) && LabelsFresh(t, es)
    requires i < |es| && es[i].labelId > 0
    requires r == AddEntries(t, es) && l == es[i].labelId && k == |t.symbols| + i
    ensures FindLabel(r, l) == Some(r.symbols[k])
  {
    AddEntriesLabel(t, es, i);
    FindStored(r, l, k);
  }

  /** A label given to none of the added entries, and unknown before, finds
      nothing. */
  lemma FindLabelNotAdded(t: SymbolTable, es: seq<Entry>, labelId: int, r: SymbolTable)
    requires Inv(t) && AllOk(es) && LabelsFresh(t, es)
    requires labelId > 0 && labelId !in t.byLabel
    requires forall i :: 0 <= i < |es| ==> es[i].labelId != labelId
    requires r == AddEntries(t, es)
    ensures FindLabel(r, labelId).None?
  {
    LabelsOfEntries(es, labelId);
    AddEntriesNoLabel(t, es, labelId);
  }

  lemma FindStored(t: SymbolTable, labelId: int, k: nat)
    requires Inv(t) && labelId > 0 && labelId in t.byLabel && t.byLabel[labelId] == k + 1
    ensures FindLabel(t, labelId) == Some(t.symbols[k])
  {
  }

  // ---------------------------------------------------------------------
  // MachOSymbolTable::Initialize: the entries of its three passes.

  /** The passes of Initialize: section symbols for the symbols inside
      portions, symbolic debugging symbols, and external symbols for named
      portions. */
  datatype Pass = SectionSymbols | DebuggingSymbols | ExternalSymbols

  /** The symbolic debugging symbols for one symbol: a function gets
      BNSYM, FUN, an unnamed FUN carrying its size, and ENSYM; a section or
      object symbol gets a GSYM if global and an STSYM otherwise. */
  function DebuggingEntries(name: CString, kind: SymbolKind, sect: nat, offset: nat, size: nat, isGlobal: bool): (r: seq<Entry>)
    ensures forall e :: e in r ==> IsStab(e.symbolType) && e.labelId < 0 && e.description == 0
    ensures kind == FunctionSymbol ==> |r| == 4
    ensures kind != FunctionSymbol ==> |r| == 1 && r[0].name == name
  {
    match kind
    case FunctionSymbol =>
      [Entry(NoName, N_BNSYM, sect, 0, offset, -1),
       Entry(name, N_FUN, sect, 0, offset, -1),
       Entry(NoName, N_FUN, NO_SECT, 0, size, -1),
       Entry(NoName, N_ENSYM, sect, 0, offset + size, -1)]
    case _ =>
      if isGlobal then [Entry(name, N_GSYM, NO_SECT, 0, 0, -1)]
      else [Entry(name, N_STSYM, sect, 0, offset, -1)]
  }

  /** The first symbol of a named text portion must exist when the portion
      has a symbol list, since its offset is the portion symbol's size. */
  predicate FirstSymbolReadable(p: Portion, isText: bool) {
    isText && p.symbolName.Some? && p.symbols.Some? ==> |p.symbols.value| > 0
  }

  /** The entries of one symbol list, `f` applied to each. */
  function SymbolListEntries(syms: seq<SymbolData>, p: Portion, sect: nat, desc: nat, pass: Pass): (r: seq<Entry>)
    requires pass != ExternalSymbols
    ensures pass == SectionSymbols ==> |r| == |syms|
    ensures forall e :: e in r ==> e.symbolType != N_SECT_EXT
    ensures pass == DebuggingSymbols ==> forall e :: e in r ==> IsStab(e.symbolType) && e.labelId < 0
    ensures pass == SectionSymbols ==> forall e :: e in r ==> e.symbolType == N_SECT && e.sectionIndex == sect
    decreases |syms|
  {
    if |syms| == 0 then []
    else
      var d := syms[0];
      var first :=
        if pass == SectionSymbols then [Entry(d.name, N_SECT, sect, desc, p.offset + d.offset, d.labelId)]
        else DebuggingEntries(d.name, d.kind, sect, p.offset + d.offset, d.size, false);
      first + SymbolListEntries(syms[1..], p, sect, desc, pass)
  }

  /** The entries one pass adds for one portion of section number `sect`. */
  function PortionEntries(p: Portion, sect: nat, isText: bool, desc: nat, pass: Pass): (r: seq<Entry>)
    requires FirstSymbolReadable(p, isText)
    ensures pass == ExternalSymbols ==>
              (if p.symbolName.Some? then r == [Entry(p.symbolName.value, N_SECT_EXT, sect, desc, p.offset, p.labelId)]
               else r == [])
    ensures pass != ExternalSymbols ==> forall e :: e in r ==> e.symbolType != N_SECT_EXT
    ensures pass == DebuggingSymbols ==> forall e :: e in r ==> IsStab(e.symbolType) && e.labelId < 0
  {
    var syms := if p.symbols.Some? then p.symbols.value else [];
    match pass
    case SectionSymbols => SymbolListEntries(syms, p, sect, desc, pass)
    case DebuggingSymbols =>
      var own :=
        if p.symbolName.Some? then
          var size := if isText && p.symbols.Some? then p.symbols.value[0].offset else p.size;
          DebuggingEntries(p.symbolName.value, if isText then FunctionSymbol else SectionSymbol, sect, p.offset, size, true)
        else [];
      own + SymbolListEntries(syms, p, sect, desc, pass)
    case ExternalSymbols =>
      if p.symbolName.Some? then [Entry(p.symbolName.value, N_SECT_EXT, sect, desc, p.offset, p.labelId)] else []
  }

  function NamedPortions(ps: seq<Portion>): (r: nat)
    ensures r <= |ps|
  {
    if |ps| == 0 then 0 else (if ps[0].symbolName.Some? then 1 else 0) + NamedPortions(ps[1..])
  }

  function PortionsEntries(ps: seq<Portion>, sect: nat, isText: bool, desc: nat, pass: Pass): (r: seq<Entry>)
    requires forall i :: 0 <= i < |ps| ==> FirstSymbolReadable(ps[i], isText)
    ensures pass == ExternalSymbols ==> |r| == NamedPortions(ps)
    ensures pass == ExternalSymbols ==> forall e :: e in r ==> e.symbolType == N_SECT_EXT && e.sectionIndex == sect
    ensures pass != ExternalSymbols ==> forall e :: e in r ==> e.symbolType != N_SECT_EXT
    ensures pass == DebuggingSymbols ==> forall e :: e in r ==> IsStab(e.symbolType) && e.labelId < 0
    decreases |ps|
  {
    if |ps| == 0 then []
    else PortionEntries(ps[0], sect, isText, desc, pass) + PortionsEntries(ps[1..], sect, isText, desc, pass)
  }

  predicate IsTextSection(s: Section) { s.name == SECT_TEXT }

  predicate SectionsReadable(sections: seq<Section>) {
    forall i, j :: 0 <= i < |sections| && 0 <= j < |sections[i].portions| ==>
      FirstSymbolReadable(sections[i].portions[j], IsTextSection(sections[i]))
  }

  function NamedPortionsIn(sections: seq<Section>): nat {
    if |sections| == 0 then 0 else NamedPortions(sections[0].portions) + NamedPortionsIn(sections[1..])
  }

  /** The entries of one pass over `sections`, the first of which has section
      number `first` (sections are numbered from 1; 0 is NO_SECT). */
  function SectionsEntries(sections: seq<Section>, first: nat, desc: nat, pass: Pass): (r: seq<Entry>)
    requires SectionsReadable(sections)
    ensures pass == ExternalSymbols ==> |r| == NamedPortionsIn(sections)
    ensures pass == ExternalSymbols ==> forall e :: e in r ==>
              e.symbolType == N_SECT_EXT && first <= e.sectionIndex < first + |sections|
    ensures pass != ExternalSymbols ==> forall e :: e in r ==> e.symbolType != N_SECT_EXT
    ensures pass == DebuggingSymbols ==> forall e :: e in r ==> IsStab(e.symbolType) && e.labelId < 0
    decreases |sections|
  {
    if |sections| == 0 then []
    else
      var rest := sections[1..];
      assert SectionsReadable(rest) by {
        forall i, j | 0 <= i < |rest| && 0 <= j < |rest[i].portions|
          ensures FirstSymbolReadable(rest[i].portions[j], IsTextSection(rest[i]))
        {
          assert rest[i] == sections[i + 1];
        }
      }
      PortionsEntries(sections[0].portions, first, IsTextSection(sections[0]), desc, pass) +
      SectionsEntries(rest, first + 1, desc, pass)
  }

  /** Section symbols are marked as alternate entries when debugging symbols
      are emitted. */
  function Description(isStripped: bool): nat {
    if isStripped then 0 else N_ALT_ENTRY
  }

  /** The local symbols Initialize adds: none when stripped; otherwise the
      section symbols, the OSO symbol for `path` when there is one, and the
      symbolic debugging symbols. */
  function LocalEntries(path: Option<CString>, sections: seq<Section>, isStripped: bool): (r: seq<Entry>)
    requires SectionsReadable(sections)
    ensures forall e :: e in r ==> e.symbolType != N_SECT_EXT
    ensures isStripped ==> r == []
  {
    if isStripped then []
    else
      var desc := Description(isStripped);
      var oso := if path.Some? then [Entry(path.value, N_OSO, NO_SECT, 1, 0, -1)] else [];
      SectionsEntries(sections, 1, desc, SectionSymbols) + oso + SectionsEntries(sections, 1, desc, DebuggingSymbols)
  }

  /** The external symbols Initialize adds, one per named portion. */
  function ExternalEntries(sections: seq<Section>, isStripped: bool): (r: seq<Entry>)
    requires SectionsReadable(sections)
    ensures |r| == NamedPortionsIn(sections)
    ensures forall e :: e in r ==> e.symbolType == N_SECT_EXT && 1 <= e.sectionIndex <= |sections|
  {
    SectionsEntries(sections, 1, Description(isStripped), ExternalSymbols)
  }

  /** What every AddSymbol call of Initialize asserts, and the labels being
      distinct, which by_label_index_ needs to keep one symbol per label. */
  predicate CanInitialize(path: Option<CString>, sections: seq<Section>, isStripped: bool) {
    SectionsReadable(sections) &&
    var es := LocalEntries(path, sections, isStripped) + ExternalEntries(sections, isStripped);
    AllOk(es) && LabelsFresh(NewTable(), es)
  }

  /** MachOSymbolTable::Initialize on a new table: the local entries, then
      the external ones, with the count of each recorded. */
  function Initialize(path: Option<CString>, sections: seq<Section>, isStripped: bool): (r: SymbolTable)
    requires CanInitialize(path, sections, isStripped)
    ensures Inv(r) && r.numLocal.Some? && r.numExternal.Some?
    ensures r.numLocal.value + r.numExternal.value == |r.symbols|
    ensures r.numExternal.value == NamedPortionsIn(sections)
    ensures isStripped ==> r.numLocal.value == 0
  {
    var locals := LocalEntries(path, sections, isStripped);
    var externals := ExternalEntries(sections, isStripped);
    var all := AddEntries(NewTable(), locals + externals);
    all.(numLocal := Some(|locals|), numExternal := Some(|externals|))
  }

  /** Splitting Initialize at numLocal: the symbols before it are the local
      entries and those after it the external ones, each as added. */
  lemma InitializeRecords(path: Option<CString>, sections: seq<Section>, isStripped: bool, k: nat, r: SymbolTable)
    requires CanInitialize(path, sections, isStripped)
    requires r == Initialize(path, sections, isStripped)
    ensures r.numLocal == Some(|LocalEntries(path, sections, isStripped)|)
    ensures k < r.numLocal.value ==> Records(r, k, LocalEntries(path, sections, isStripped)[k])
    ensures r.numLocal.value <= k < |r.symbols| ==>
              Records(r, k, ExternalEntries(sections, isStripped)[k - r.numLocal.value])
  {
    var locals := LocalEntries(path, sections, isStripped);
    var externals := ExternalEntries(sections, isStripped);
    var es := locals + externals;
    InitializeUnfolds(path, sections, isStripped, locals, externals, r);
    var all := AddEntries(NewTable(), es);
    assert r.numLocal.value == |locals| && |r.symbols| == |locals| + |externals|;
    ConcatRecords(locals, externals, all, r, k);
    if |locals| <= k < |r.symbols| {
      var i := k - |locals|;
      assert Records(r, k, externals[i]);
    }
  }

  lemma InitializeUnfolds(path: Option<CString>, sections: seq<Section>, isStripped: bool,
                          locals: seq<Entry>, externals: seq<Entry>, r: SymbolTable)
    requires CanInitialize(path, sections, isStripped) && r == Initialize(path, sections, isStripped)
    requires locals == LocalEntries(path, sections, isStripped) && externals == ExternalEntries(sections, isStripped)
    ensures AllOk(locals + externals) && LabelsFresh(NewTable(), locals + externals)
    ensures r == AddEntries(NewTable(), locals + externals).(numLocal := Some(|locals|), numExternal := Some(|externals|))
  {
  }

  /** The symbols AddEntries records for two lists added one after the
      other, kept by a table that differs only in its counts. */
  lemma ConcatRecords(locals: seq<Entry>, externals: seq<Entry>, all: SymbolTable, r: SymbolTable, k: nat)
    requires AllOk(locals + externals) && LabelsFresh(NewTable(), locals + externals)
    requires all == AddEntries(NewTable(), locals + externals)
    requires r.symbols == all.symbols && r.strings == all.strings
    ensures k < |locals| ==> Records(r, k, locals[k])
    ensures |locals| <= k < |locals| + |externals| ==> Records(r, k, externals[k - |locals|])
  {
    var es := locals + externals;
    if k < |es| {
      var e := if k < |locals| then locals[k] else externals[k - |locals|];
      assert es[k] == e;
      AddEntriesRecords(NewTable(), es, k, all, k, e);
      RecordsOtherCounts(all, r, k, e);
    }
  }

  lemma RecordsOtherCounts(t: SymbolTable, r: SymbolTable, k: int, e: Entry)
    requires Records(t, k, e) && r.symbols == t.symbols && r.strings == t.strings
    ensures Records(r, k, e)
  {
  }

  /** Every external (N_SECT | N_EXT) symbol follows every local one, and
      each external symbol lies in one of the sections. */
  lemma InitializeOrdersSymbols(path: Option<CString>, sections: seq<Section>, isStripped: bool, k: nat, r: SymbolTable)
    requires CanInitialize(path, sections, isStripped)
    requires r == Initialize(path, sections, isStripped) && k < |r.symbols|
    ensures r.symbols[k].symbolType == N_SECT_EXT <==> k >= r.numLocal.value
    ensures k >= r.numLocal.value ==> NO_SECT < r.symbols[k].sectionIndex <= |sections|
  {
    var locals := LocalEntries(path, sections, isStripped);
    var externals := ExternalEntries(sections, isStripped);
    InitializeRecords(path, sections, isStripped, k, r);
    if k < |locals| {
      assert locals[k] in locals;
    } else {
      assert externals[k - |locals|] in externals;
    }
  }

  /** A stripped table holds exactly one symbol per named portion: the
      external symbol for it. */
  lemma StrippedTable(path: Option<CString>, sections: seq<Section>, isStripped: bool, k: nat, r: SymbolTable)
    requires CanInitialize(path, sections, isStripped) && isStripped
    requires r == Initialize(path, sections, isStripped)
    ensures |r.symbols| == NamedPortionsIn(sections) && r.numLocal == Some(0)
    ensures k < |r.symbols| ==>
              Records(r, k, ExternalEntries(sections, isStripped)[k]) && r.symbols[k].symbolType == N_SECT_EXT
  {
    var externals := ExternalEntries(sections, isStripped);
    InitializeRecords(path, sections, isStripped, k, r);
    if k < |externals| {
      assert externals[k] in externals;
    }
  }

  /** In a stripped table FindLabel finds the external symbol of a portion
      by the portion's label. */
  lemma StrippedFindsLabel(path: Option<CString>, sections: seq<Section>, isStripped: bool, k: nat, r: SymbolTable, e: Entry)
    requires CanInitialize(path, sections, isStripped) && isStripped
    requires r == Initialize(path, sections, isStripped)
    requires k < |r.symbols| && e == ExternalEntries(sections, isStripped)[k]
    ensures e.labelId > 0 && FindLabel(r, e.labelId) == Some(r.symbols[k])
  {
    var externals := ExternalEntries(sections, isStripped);
    var es := LocalEntries(path, sections, isStripped) + externals;
    var all := AddEntries(NewTable(), es);
    assert es[k] == e && e.symbolType == N_SECT_EXT by {
      assert es == externals;
      assert e in externals;
    }
    assert r.symbols == all.symbols && r.byLabel == all.byLabel;
    FindAddedExternal(es, k, all, e);
    FindLabelSameTable(all, r, e.labelId);
  }

  /** An added external entry carries a label, which finds its symbol. */
  lemma FindAddedExternal(es: seq<Entry>, k: nat, all: SymbolTable, e: Entry)
    requires AllOk(es) && LabelsFresh(NewTable(), es) && k < |es| && es[k] == e
    requires e.symbolType == N_SECT_EXT && all == AddEntries(NewTable(), es)
    ensures e.labelId > 0 && FindLabel(all, e.labelId) == Some(all.symbols[k])
  {
    AllOkAt(es, k);
    ExternalHasLabel(e);
    FindLabelAfterAdding(NewTable(), es, k, all, e.labelId, k);
  }

  /** An external symbol defined in a section must carry a label. */
  lemma ExternalHasLabel(e: Entry)
    requires EntryOk(e) && e.symbolType == N_SECT_EXT
    ensures e.labelId > 0
  {
    assert IsSectionType(e.symbolType);
  }

  /** FindLabel reads only the symbols and the label index. */
  lemma FindLabelSameTable(t: SymbolTable, r: SymbolTable, l: int)
    requires Inv(t) && Inv(r) && l > 0 && r.symbols == t.symbols && r.byLabel == t.byLabel
    ensures FindLabel(r, l) == FindLabel(t, l)
  {
  }

  // ---------------------------------------------------------------------
  // Renumbering sections and rebasing values.

  /** The checks UpdateSectionIndices makes of its map in debug builds: every
      new index fits a byte and the map's range, NO_SECT stays NO_SECT and no
      real section becomes NO_SECT. */
  predicate IndexMapOk(indexMap: seq<nat>) {
    forall i :: 0 <= i < |indexMap| ==>
      indexMap[i] < 0x100 && indexMap[i] < |indexMap| &&
      (i == NO_SECT <==> indexMap[i] == NO_SECT)
  }

  predicate SectionsInRange(t: SymbolTable, size: nat) {
    forall k :: 0 <= k < |t.symbols| ==> t.symbols[k].sectionIndex < size
  }

  /** MachOSymbolTable::UpdateSectionIndices: every symbol's section index
      is replaced by its image under the map. */
  function UpdateSectionIndices(t: SymbolTable, indexMap: seq<nat>): (r: SymbolTable)
    requires IndexMapOk(indexMap) && SectionsInRange(t, |indexMap|)
    ensures r.strings == t.strings && r.byLabel == t.byLabel && r.maxLabel == t.maxLabel
    ensures r.numLocal == t.numLocal && r.numExternal == t.numExternal
    ensures |r.symbols| == |t.symbols| && SectionsInRange(r, |indexMap|)
    ensures forall k :: 0 <= k < |t.symbols| ==>
              r.symbols[k].nameIndex == t.symbols[k].nameIndex &&
              r.symbols[k].symbolType == t.symbols[k].symbolType &&
              r.symbols[k].description == t.symbols[k].description &&
              r.symbols[k].value == t.symbols[k].value &&
              r.symbols[k].sectionIndex == indexMap[t.symbols[k].sectionIndex] &&
              (r.symbols[k].sectionIndex == NO_SECT <==> t.symbols[k].sectionIndex == NO_SECT)
  {
    var symbols := seq(|t.symbols|, k requires 0 <= k < |t.symbols| =>
      t.symbols[k].(sectionIndex := indexMap[t.symbols[k].sectionIndex]));
    t.(symbols := symbols)
  }

  /** `back` undoes `indexMap`. */
  predicate Inverts(back: seq<nat>, indexMap: seq<nat>) {
    forall i :: 0 <= i < |indexMap| ==> indexMap[i] < |back| && back[indexMap[i]] == i
  }

  /** Renumbering with a map and then with its inverse restores the table, so
      the renumbering loses nothing. */
  lemma UpdateSectionIndicesInverse(t: SymbolTable, indexMap: seq<nat>, back: seq<nat>)
    requires IndexMapOk(indexMap) && IndexMapOk(back) && |back| == |indexMap|
    requires SectionsInRange(t, |indexMap|) && Inverts(back, indexMap)
    ensures UpdateSectionIndices(UpdateSectionIndices(t, indexMap), back) == t
  {
    var u := UpdateSectionIndices(UpdateSectionIndices(t, indexMap), back);
    assert u.symbols == t.symbols;
  }

  /** The checks Finalize makes of its map in debug builds: NO_SECT maps to
      address 0 and every real section starts past the beginning. */
  predicate AddressMapOk(addressMap: seq<nat>) {
    forall i :: 0 <= i < |addressMap| ==>
      (i == NO_SECT <==> addressMap[i] == 0)
  }

  /** MachOSymbolTable::Finalize: every symbol's value gets the address of its
      section added, with uword wrap-around. */
  function Finalize(t: SymbolTable, addressMap: seq<nat>): (r: SymbolTable)
    requires Fits(t) && AddressMapOk(addressMap) && SectionsInRange(t, |addressMap|)
    ensures r.strings == t.strings && r.byLabel == t.byLabel && r.maxLabel == t.maxLabel
    ensures r.numLocal == t.numLocal && r.numExternal == t.numExternal
    ensures |r.symbols| == |t.symbols| && SectionsInRange(r, |addressMap|)
    ensures forall k :: 0 <= k < |t.symbols| && t.symbols[k].sectionIndex == NO_SECT ==>
              r.symbols[k] == t.symbols[k]
    ensures forall k :: 0 <= k < |t.symbols| ==>
              r.symbols[k] == t.symbols[k].(value := r.symbols[k].value) && r.symbols[k].value < WordModulus
  {
    var symbols := seq(|t.symbols|, k requires 0 <= k < |t.symbols| =>
      var s := t.symbols[k];
      s.(value := (s.value + addressMap[s.sectionIndex]) % WordModulus));
    FinalizeNoSect(t, addressMap, symbols);
    t.(symbols := symbols)
  }

  lemma FinalizeNoSect(t: SymbolTable, addressMap: seq<nat>, symbols: seq<Symbol>)
    requires AddressMapOk(addressMap) && SectionsInRange(t, |addressMap|)
    requires forall k :: 0 <= k < |t.symbols| ==> t.symbols[k].value < WordModulus
    requires |symbols| == |t.symbols|
    requires forall k :: 0 <= k < |t.symbols| ==>
               symbols[k] == t.symbols[k].(value := (t.symbols[k].value + addressMap[t.symbols[k].sectionIndex]) % WordModulus)
    ensures forall k :: 0 <= k < |t.symbols| && t.symbols[k].sectionIndex == NO_SECT ==> symbols[k] == t.symbols[k]
  {
  }

  /** A symbol in a section ends up at its section's address plus its offset
      within the section, when that fits a uword. */
  lemma FinalizeRebases(t: SymbolTable, addressMap: seq<nat>, k: nat)
    requires Fits(t) && AddressMapOk(addressMap) && SectionsInRange(t, |addressMap|) && k < |t.symbols|
    requires t.symbols[k].value + addressMap[t.symbols[k].sectionIndex] < WordModulus
    ensures Finalize(t, addressMap).symbols[k].value == t.symbols[k].value + addressMap[t.symbols[k].sectionIndex]
  {
  }

  /** SymbolsSize: one nlist per symbol. */
  function SymbolsSize(t: SymbolTable): nat { |t.symbols| * NlistSize }

  /** SelfMemorySize: the nlist entries followed by the string table. */
  function SelfMemorySize(t: SymbolTable): nat {
    SymbolsSize(t) + FileSize(t.strings)
  }
}
