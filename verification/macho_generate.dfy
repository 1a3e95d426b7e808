/** Two steps of MachOHeader::Finalize that derive new contents from the
    text segment (runtime/vm/mach_o.cc:1985-2087): GenerateUuid, which hashes
    the snapshot's instruction and data portions into the LC_UUID command,
    and CreateBSS, which adds a __DATA segment with one zerofill BSS portion
    per instructions portion. */
module MachOGenerate {
  import opened Wrappers
  import opened CStrings
  import opened MachOFormat
  import opened MachOStream
  import opened MachOSection
  import opened MachOCommands
  import opened MachOLoadCommands
  import opened MachOHeader

  /** The assembly symbol names the snapshot writer gives its portions
      (kVmSnapshotInstructionsAsmSymbol and its siblings); they are defined
      outside mach_o.cc, so they are parameters here. */
  datatype AsmSymbols = AsmSymbols(
    vmInstructions: CString,
    isolateInstructions: CString,
    vmData: CString,
    isolateData: CString,
    vmBss: CString,
    isolateBss: CString)

  /** The text section and the constant data section of the text segment,
      looked up the way the source does: the first segment named __TEXT,
      then its first section of that name. */
  function TextSection(h: Header): Option<Section> {
    FindSectionIn(h.commands, SEG_TEXT, SECT_TEXT)
  }

  function DataSection(h: Header): Option<Section> {
    FindSectionIn(h.commands, SEG_TEXT, SECT_CONST)
  }

  // ---------------------------------------------------------------------
  // GenerateUuid.

  /** Hashes are uint32_t. */
  const WordModulus: nat := 0x1_0000_0000

  /** HashPortion: 0 for a portion without bytes; otherwise the hash of the
      bytes (`hash` stands for Utils::StringHash, whose value is truncated to
      32 bits), with a hash of 0 replaced by 1 so that a present portion
      never contributes 0. */
  function HashPortion(p: Portion, hash: seq<Byte> -> nat): (r: nat)
    ensures r < WordModulus
    ensures r == 0 <==> p.bytes.None?
    ensures p.bytes.Some? && hash(p.bytes.value) % WordModulus != 0 ==> r == hash(p.bytes.value) % WordModulus
  {
    if p.bytes.None? then 0
    else
      var v := hash(p.bytes.value) % WordModulus;
      if v == 0 then 1 else v
  }

  /** One word of the UUID: the hash of the first portion named `name` in
      the section, or 0 when there is no such section or portion. */
  function NamedHash(s: Option<Section>, name: CString, hash: seq<Byte> -> nat): (r: nat)
    ensures r < WordModulus
    ensures r != 0 <==> s.Some? && FindPortion(s.value.portions, name).Some? &&
                        s.value.portions[FindPortion(s.value.portions, name).value].bytes.Some?
  {
    match s
    case None => 0
    case Some(section) =>
      match FindPortion(section.portions, name)
      case None => 0
      case Some(i) => HashPortion(section.portions[i], hash)
  }

  /** The four words of the UUID, in order: the VM's and the isolate's
      instructions, then the VM's and the isolate's data. */
  function UuidHashes(h: Header, names: AsmSymbols, hash: seq<Byte> -> nat): (r: seq<nat>)
    ensures |r| == 4 && Words(r)
  {
    HashWords(TextSection(h), DataSection(h), names, hash)
  }

  function HashWords(text: Option<Section>, data: Option<Section>, names: AsmSymbols, hash: seq<Byte> -> nat): (r: seq<nat>)
    ensures |r| == 4 && Words(r)
    ensures r[0] == NamedHash(text, names.vmInstructions, hash) && r[1] == NamedHash(text, names.isolateInstructions, hash)
    ensures r[2] == NamedHash(data, names.vmData, hash) && r[3] == NamedHash(data, names.isolateData, hash)
  {
    var a := NamedHash(text, names.vmInstructions, hash);
    var b := NamedHash(text, names.isolateInstructions, hash);
    var c := NamedHash(data, names.vmData, hash);
    var d := NamedHash(data, names.isolateData, hash);
    [a, b, c, d]
  }

  predicate Words(ws: seq<nat>) {
    forall i :: 0 <= i < |ws| ==> ws[i] < WordModulus
  }

  /** The four bytes of a uint32_t in memory, least significant first: all
      the targets that use Mach-O (x64 and arm64) are little-endian. */
  function WordBytes(w: nat): (r: seq<nat>)
    requires w < WordModulus
    ensures |r| == 4 && Bytes(r)
  {
    var q1 := w / 0x100;
    var q2 := q1 / 0x100;
    var q3 := q2 / 0x100;
    [w % 0x100, q1 % 0x100, q2 % 0x100, q3]
  }

  predicate Bytes(bs: seq<nat>) {
    forall i :: 0 <= i < |bs| ==> bs[i] < 0x100
  }

  /** Reading four bytes back as a little-endian word. */
  function ReadWord(b0: nat, b1: nat, b2: nat, b3: nat): nat {
    b0 + 0x100 * (b1 + 0x100 * (b2 + 0x100 * b3))
  }

  lemma WordRoundTrip(w: nat)
    requires w < WordModulus
    ensures var b := WordBytes(w); ReadWord(b[0], b[1], b[2], b[3]) == w
  {
    var q1 := w / 0x100;
    var q2 := q1 / 0x100;
    var q3 := q2 / 0x100;
    assert w == w % 0x100 + 0x100 * q1;
    assert q1 == q1 % 0x100 + 0x100 * q2;
    assert q2 == q2 % 0x100 + 0x100 * q3;
    assert q3 < 0x100;
  }

  /** Four bytes are the memory image of exactly one word. */
  lemma BytesRoundTrip(b0: nat, b1: nat, b2: nat, b3: nat)
    requires b0 < 0x100 && b1 < 0x100 && b2 < 0x100 && b3 < 0x100
    ensures ReadWord(b0, b1, b2, b3) < WordModulus
    ensures WordBytes(ReadWord(b0, b1, b2, b3)) == [b0, b1, b2, b3]
  {
    var q2 := b2 + 0x100 * b3;
    var q1 := b1 + 0x100 * q2;
    var w := b0 + 0x100 * q1;
    assert q2 < 0x1_0000;
    assert q1 < 0x100_0000;
    Alignment.DivModUnique(w, 0x100, q1, b0);
    Alignment.DivModUnique(q1, 0x100, q2, b1);
    Alignment.DivModUnique(q2, 0x100, b3, b2);
  }

  /** The MachOUuid constructor copies the 16 bytes of the hash array. */
  function UuidBytes(ws: seq<nat>): (r: seq<nat>)
    requires |ws| == 4 && Words(ws)
    ensures |r| == UuidSize && Bytes(r)
  {
    WordBytes(ws[0]) + WordBytes(ws[1]) + WordBytes(ws[2]) + WordBytes(ws[3])
  }

  /** Reading the UUID back as four words. */
  function UuidWords(u: seq<nat>): (r: seq<nat>)
    requires |u| == UuidSize
  {
    [ReadWord(u[0], u[1], u[2], u[3]), ReadWord(u[4], u[5], u[6], u[7]),
     ReadWord(u[8], u[9], u[10], u[11]), ReadWord(u[12], u[13], u[14], u[15])]
  }

  /** The UUID holds each of the four words intact. */
  lemma UuidRoundTrip(ws: seq<nat>)
    requires |ws| == 4 && Words(ws)
    ensures UuidWords(UuidBytes(ws)) == ws
  {
    var u := UuidBytes(ws);
    forall k | 0 <= k < 4 ensures ReadWord(u[4 * k], u[4 * k + 1], u[4 * k + 2], u[4 * k + 3]) == ws[k] {
      WordRoundTrip(ws[k]);
      assert u[4 * k..4 * k + 4] == WordBytes(ws[k]);
    }
    assert UuidWords(u)[0] == ws[0] && UuidWords(u)[1] == ws[1];
  }

  /** What GenerateUuid asserts: there is no UUID yet, and a text section
      holds at least one of the two instructions portions. */
  predicate CanGenerateUuid(h: Header, names: AsmSymbols) {
    !HasCommand(h.commands, LC_UUID) &&
    (TextSection(h).Some? ==>
       FindPortion(TextSection(h).value.portions, names.vmInstructions).Some? ||
       FindPortion(TextSection(h).value.portions, names.isolateInstructions).Some?)
  }

  /** MachOHeader::GenerateUuid: without a text section no UUID is needed
      (it only serves to symbolize stack traces); otherwise an LC_UUID
      command holding the four hashes is added after the others. */
  function GenerateUuid(h: Header, names: AsmSymbols, hash: seq<Byte> -> nat): (r: Header)
    requires CanGenerateUuid(h, names)
    ensures r == h.(commands := r.commands)
    ensures TextSection(h).None? ==> r == h
    ensures TextSection(h).Some? ==>
              |r.commands| == |h.commands| + 1 && r.commands[..|h.commands|] == h.commands &&
              r.commands[|h.commands|].UuidCommand?
  {
    if TextSection(h).None? then h
    else h.(commands := h.commands + [UuidCommand(UuidBytes(UuidHashes(h, names, hash)))])
  }

  /** The UUID command is a well-formed 16-byte load command whose words are
      the portion hashes in order; a word is 0 exactly when its portion (or
      its section) is missing or has no bytes, so one of the two
      instructions words is always non-zero when the portions have bytes. */
  lemma GenerateUuidWords(h: Header, names: AsmSymbols, hash: seq<Byte> -> nat)
    requires CanGenerateUuid(h, names) && TextSection(h).Some?
    ensures var c := GenerateUuid(h, names, hash).commands[|h.commands|];
            |c.uuid| == UuidSize && Bytes(c.uuid) &&
            UuidWords(c.uuid) == [NamedHash(TextSection(h), names.vmInstructions, hash),
                                  NamedHash(TextSection(h), names.isolateInstructions, hash),
                                  NamedHash(DataSection(h), names.vmData, hash),
                                  NamedHash(DataSection(h), names.isolateData, hash)]
    ensures var ps := TextSection(h).value.portions;
            (forall i :: 0 <= i < |ps| ==> ps[i].bytes.Some?) ==>
              UuidHashes(h, names, hash)[0] != 0 || UuidHashes(h, names, hash)[1] != 0
  {
    UuidRoundTrip(UuidHashes(h, names, hash));
  }

  /** GenerateUuid is not idempotent: afterwards there is a UUID exactly
      when there is a text section, and the segments are untouched. */
  lemma GenerateUuidOnce(h: Header, names: AsmSymbols, hash: seq<Byte> -> nat)
    requires CanGenerateUuid(h, names)
    ensures var r := GenerateUuid(h, names, hash);
            (HasCommand(r.commands, LC_UUID) <==> TextSection(h).Some?) &&
            TextSection(r) == TextSection(h) && DataSection(r) == DataSection(h)
  {
    var r := GenerateUuid(h, names, hash);
    if TextSection(h).Some? {
      var more := [UuidCommand(UuidBytes(UuidHashes(h, names, hash)))];
      assert r.commands == h.commands + more;
      HasCommandAppend(h.commands, more, LC_UUID);
      HasCommandOne(more[0], LC_UUID);
      FindSegmentAppend(h.commands, more, SEG_TEXT);
      SegmentPrefix(h.commands, more, SEG_TEXT);
    }
  }

  /** Appending commands after the segment a lookup finds does not change
      the segment found. */
  lemma SegmentPrefix(cmds: seq<Command>, more: seq<Command>, name: CString)
    requires FindSegment(cmds + more, name) == FindSegment(cmds, name)
    ensures FindSegment(cmds, name).Some? ==>
              (cmds + more)[FindSegment(cmds, name).value] == cmds[FindSegment(cmds, name).value]
  {
  }

  // ---------------------------------------------------------------------
  // CreateBSS.

  /** The sizes and labels of the two BSS portions (BSS::kVmEntryCount,
      BSS::kIsolateGroupEntryCount, SharedObjectWriter::kVmBssLabel and
      kIsolateBssLabel), defined outside mach_o.cc. */
  datatype BssLayout = BssLayout(vmEntryCount: nat, isolateEntryCount: nat, vmLabel: int, isolateLabel: int)

  /** The protections of the data segment: VM_PROT_READ | VM_PROT_WRITE, a
      sum since the two flags are distinct bits. */
  const DataProtection: nat := VM_PROT_READ + VM_PROT_WRITE

  /** Each text portion must be the VM's or the isolate's instructions; the
      source reaches UNREACHABLE for any other (and a portion without a name
      would be passed to strcmp). */
  predicate IsInstructions(p: Portion, names: AsmSymbols) {
    p.symbolName == Some(names.vmInstructions) || p.symbolName == Some(names.isolateInstructions)
  }

  /** The one section symbol of the BSS portion for a text portion, compared
      against the VM's name first. */
  function BssSymbol(p: Portion, names: AsmSymbols, bss: BssLayout): (r: MachOSection.SymbolData)
    requires IsInstructions(p, names)
    ensures r.kind == SectionSymbol && r.offset == 0
    ensures p.symbolName == Some(names.vmInstructions) ==>
              r.name == names.vmBss && r.size == bss.vmEntryCount * WordSize && r.labelId == bss.vmLabel
    ensures p.symbolName != Some(names.vmInstructions) ==>
              r.name == names.isolateBss && r.size == bss.isolateEntryCount * WordSize && r.labelId == bss.isolateLabel
  {
    if p.symbolName == Some(names.vmInstructions) then
      MachOSection.SymbolData(names.vmBss, SectionSymbol, 0, bss.vmEntryCount * WordSize, bss.vmLabel)
    else
      MachOSection.SymbolData(names.isolateBss, SectionSymbol, 0, bss.isolateEntryCount * WordSize, bss.isolateLabel)
  }

  /** The portion CreateBSS adds for a text portion: no bytes, no
      relocations, no name of its own, and just the section symbol. */
  predicate IsBssPortion(q: Portion, p: Portion, names: AsmSymbols, bss: BssLayout)
    requires IsInstructions(p, names)
  {
    var sym := BssSymbol(p, names, bss);
    q.bytes.None? && !q.hasRelocations && q.symbolName.None? && q.labelId == 0 &&
    q.size == sym.size && q.symbols == Some([sym])
  }

  predicate AllInstructions(ps: seq<Portion>, names: AsmSymbols) {
    forall i :: 0 <= i < |ps| ==> IsInstructions(ps[i], names)
  }

  predicate NoBytes(ps: seq<Portion>) {
    forall i :: 0 <= i < |ps| ==> ps[i].bytes.None?
  }

  /** The loop of CreateBSS: one BSS portion per text portion, in order. */
  function AddBssPortions(s: Section, ps: seq<Portion>, names: AsmSymbols, bss: BssLayout): (r: Section)
    requires WellFormed(s) && !s.hasContents && NoBytes(s.portions) && AllInstructions(ps, names)
    ensures WellFormed(r) && r == s.(portions := r.portions) && NoBytes(r.portions)
    ensures |r.portions| == |s.portions| + |ps| && r.portions[..|s.portions|] == s.portions
    ensures forall i :: 0 <= i < |ps| ==> IsBssPortion(r.portions[|s.portions| + i], ps[i], names, bss)
    decreases |ps|
  {
    if |ps| == 0 then s
    else
      var front := AddBssPortions(s, ps[..|ps| - 1], names, bss);
      var p := ps[|ps| - 1];
      var sym := BssSymbol(p, names, bss);
      var r := AddPortion(front, None, sym.size, false, Some([sym]), None, 0);
      assert forall i :: 0 <= i < |ps| - 1 ==> ps[..|ps| - 1][i] == ps[i];
      assert forall i :: 0 <= i < |front.portions| ==> r.portions[i] == front.portions[i];
      r
  }

  /** What CreateBSS asserts: there is a text section, whose portions are
      all instructions portions, and no __DATA segment yet. */
  predicate CanCreateBss(h: Header, names: AsmSymbols) {
    TextSection(h).Some? && AllInstructions(TextSection(h).value.portions, names) &&
    FindSegment(h.commands, SEG_DATA).None?
  }

  /** The empty BSS section: zerofill, no attributes, word-aligned. */
  function EmptyBss(): (r: Section)
    ensures WellFormed(r) && r.portions == [] && !r.hasContents
    ensures r.name == SECT_BSS && r.sectionType == S_ZEROFILL && r.attributes == S_NO_ATTRIBUTES && r.alignment == WordSize
  {
    assert Alignment.IsPowerOfTwo(WordSize);
    NewSection(SECT_BSS, S_ZEROFILL, S_NO_ATTRIBUTES, false, WordSize)
  }

  function BssSection(h: Header, names: AsmSymbols, bss: BssLayout): (r: Section)
    requires CanCreateBss(h, names)
  {
    AddBssPortions(EmptyBss(), TextSection(h).value.portions, names, bss)
  }

  /** MachOHeader::CreateBSS: a new read-write __DATA segment holding the
      BSS section is added after the other commands. */
  function CreateBss(h: Header, names: AsmSymbols, bss: BssLayout): (r: Header)
    requires CanCreateBss(h, names)
    ensures r == h.(commands := r.commands)
    ensures |r.commands| == |h.commands| + 1 && r.commands[..|h.commands|] == h.commands
    ensures var c := r.commands[|h.commands|];
            c.SegmentCommand? && c.segment.name == SEG_DATA &&
            c.segment.initProt == DataProtection && c.segment.maxProt == DataProtection &&
            Ordered(c.segment) && !HasContents(c.segment)
  {
    var section := BssSection(h, names, bss);
    var data := AddContents(NewSegment(SEG_DATA, DataProtection, DataProtection), SectionChild(section));
    h.(commands := h.commands + [SegmentCommand(data)])
  }

  /** The data segment holds just the BSS section, and the BSS section has
      one portion per text portion: the VM's instructions get the VM's BSS
      symbol and size, the isolate's get the isolate's, each portion
      word-aligned and after the one before. */
  lemma CreateBssSection(h: Header, names: AsmSymbols, bss: BssLayout)
    requires CanCreateBss(h, names)
    ensures var seg := CreateBss(h, names, bss).commands[|h.commands|].segment;
            var text := TextSection(h).value.portions;
            var b := BssSection(h, names, bss);
            Sections(seg.contents) == [b] &&
            b.name == SECT_BSS && b.sectionType == S_ZEROFILL && !b.hasContents && b.alignment == WordSize &&
            |b.portions| == |text| &&
            (forall i :: 0 <= i < |text| ==> IsBssPortion(b.portions[i], text[i], names, bss)) &&
            LaidOut(b.portions, WordSize)
  {
    var b := BssSection(h, names, bss);
    var seg := CreateBss(h, names, bss).commands[|h.commands|].segment;
    assert seg.contents == [SectionChild(b)];
    assert Sections(seg.contents) == Sections([]) + [b];
  }

  /** After CreateBSS there is a __DATA segment, so it cannot run twice, and
      the text section it read is unchanged. */
  lemma CreateBssOnce(h: Header, names: AsmSymbols, bss: BssLayout)
    requires CanCreateBss(h, names)
    ensures var r := CreateBss(h, names, bss);
            FindSegment(r.commands, SEG_DATA).Some? && !CanCreateBss(r, names) &&
            TextSection(r) == TextSection(h)
  {
    var r := CreateBss(h, names, bss);
    var i := |h.commands|;
    assert IsSegmentNamed(r.commands[i], SEG_DATA);
    TextSegmentKept(h.commands, r.commands[i]);
  }

  /** Adding a segment not named __TEXT does not change the __TEXT lookup. */
  lemma TextSegmentKept(cmds: seq<Command>, c: Command)
    requires !IsSegmentNamed(c, SEG_TEXT)
    ensures FindSectionIn(cmds + [c], SEG_TEXT, SECT_TEXT) == FindSectionIn(cmds, SEG_TEXT, SECT_TEXT)
  {
    FindSegmentSkip(cmds, c, SEG_TEXT);
  }

  lemma {:induction false} FindSegmentSkip(cmds: seq<Command>, c: Command, name: CString)
    requires !IsSegmentNamed(c, name)
    ensures FindSegment(cmds + [c], name) == FindSegment(cmds, name)
    ensures FindSegment(cmds, name).Some? ==> (cmds + [c])[FindSegment(cmds, name).value] == cmds[FindSegment(cmds, name).value]
    decreases |cmds|
  {
    if |cmds| > 0 {
      assert (cmds + [c])[1..] == cmds[1..] + [c];
      FindSegmentSkip(cmds[1..], c, name);
    }
  }
}
