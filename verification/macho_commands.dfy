/** Segments and load commands of the Mach-O writer (runtime/vm/mach_o.cc:
    470-1400, 1792-1812): what each command is, the size of its load command
    in the header, and how a segment orders what it holds. */
module MachOCommands {
  import opened Wrappers
  import opened Alignment
  import opened CStrings
  import opened MachOFormat
  import opened MachOSection
  import opened MachOSymbols

  /** The commands whose contents live in the __LINKEDIT segment: the symbol
      table, the dynamic symbol table (which only records the local/external
      split of the symbol table it was made for) and the code signature. */
  datatype LinkeditCommand =
    | SymtabCommand(table: SymbolTable)
    | DysymtabCommand(numLocal: nat, numExternal: nat)
    | CodeSignatureCommand(identifier: CString)

  /** What a segment holds: the header (only in the initial segment), a
      section, or a command with contents in the segment. */
  datatype Child =
    | HeaderChild
    | SectionChild(section: Section)
    | CommandChild(command: LinkeditCommand)
  {
    /** HasContents before offsets are computed: the header always has
        contents, a section when it was created with contents, and a linkedit
        command always (its file offset is still unset, hence non-zero). */
    predicate HasContents() {
      match this
      case HeaderChild => true
      case SectionChild(s) => s.hasContents
      case CommandChild(_) => true
    }

    /** Alignment(): words for the header and the table commands, the hash
        alignment for the code signature, and a section's own alignment. */
    function Alignment(): nat {
      match this
      case HeaderChild => WordSize
      case SectionChild(s) => s.alignment
      case CommandChild(c) => if c.CodeSignatureCommand? then SignatureAlignment else WordSize
    }
  }

  /** MachOCodeSignature::kHashAlignment. */
  const SignatureAlignment: nat := 16

  datatype Segment = Segment(name: CString, initProt: nat, maxProt: nat, contents: seq<Child>, nextContents: nat)

  /** The MachOSegment constructor: no contents yet. */
  function NewSegment(name: CString, initProt: nat, maxProt: nat): (r: Segment)
    requires |name| <= NameFieldSize && initProt < 0x8000_0000 && maxProt < 0x8000_0000
    ensures r.name == name && r.initProt == initProt && r.maxProt == maxProt
    ensures Ordered(r) && r.contents == [] && !HasContents(r)
  {
    Segment(name, initProt, maxProt, [], 0)
  }

  /** The children before `nextContents` have contents and those after it do
      not. */
  predicate Ordered(s: Segment) {
    s.nextContents <= |s.contents| &&
    (forall i :: 0 <= i < s.nextContents ==> s.contents[i].HasContents()) &&
    (forall i :: s.nextContents <= i < |s.contents| ==> !s.contents[i].HasContents())
  }

  /** The content-bearing block and the zerofill block of a segment. */
  function Bearing(s: Segment): seq<Child>
    requires Ordered(s)
  {
    s.contents[..s.nextContents]
  }

  function Zerofill(s: Segment): seq<Child>
    requires Ordered(s)
  {
    s.contents[s.nextContents..]
  }

  /** What AddContents asserts of a child other than the header: a child with
      contents is a command exactly when the segment is __LINKEDIT. */
  predicate Admissible(name: CString, c: Child) {
    !c.HeaderChild? && (c.HasContents() ==> (c.CommandChild? <==> name == SEG_LINKEDIT))
  }

  /** MachOSegment::AddContents: the header goes first, a child with contents
      goes at the end of the content-bearing block, and a child without
      contents (a zerofill section) at the very end. */
  function AddContents(s: Segment, c: Child): (r: Segment)
    requires Ordered(s)
    requires !c.HeaderChild? ==> Admissible(s.name, c)
    ensures Ordered(r)
    ensures r.name == s.name && r.initProt == s.initProt && r.maxProt == s.maxProt
    ensures multiset(r.contents) == multiset(s.contents) + multiset{c}
    ensures c.HeaderChild? ==> Bearing(r) == [c] + Bearing(s) && Zerofill(r) == Zerofill(s)
    ensures !c.HeaderChild? && c.HasContents() ==> Bearing(r) == Bearing(s) + [c] && Zerofill(r) == Zerofill(s)
    ensures !c.HasContents() ==> Bearing(r) == Bearing(s) && Zerofill(r) == Zerofill(s) + [c]
  {
    var n := s.nextContents;
    if c.HeaderChild? then
      var r := s.(contents := [c] + s.contents, nextContents := n + 1);
      InsertedFirst(s, c, r);
      r
    else if c.HasContents() then
      var r := s.(contents := s.contents[..n] + [c] + s.contents[n..], nextContents := n + 1);
      InsertedAtNext(s, c, r);
      r
    else
      var r := s.(contents := s.contents + [c]);
      Appended(s, c, r);
      r
  }

  lemma InsertedFirst(s: Segment, c: Child, r: Segment)
    requires Ordered(s) && c.HasContents()
    requires r == s.(contents := [c] + s.contents, nextContents := s.nextContents + 1)
    ensures Ordered(r) && Bearing(r) == [c] + Bearing(s) && Zerofill(r) == Zerofill(s)
    ensures multiset(r.contents) == multiset(s.contents) + multiset{c}
  {
    var n := s.nextContents;
    assert r.contents[..n + 1] == [c] + s.contents[..n];
    assert r.contents[n + 1..] == s.contents[n..];
  }

  lemma InsertedAtNext(s: Segment, c: Child, r: Segment)
    requires Ordered(s) && c.HasContents()
    requires r == s.(contents := s.contents[..s.nextContents] + [c] + s.contents[s.nextContents..],
                     nextContents := s.nextContents + 1)
    ensures Ordered(r) && Bearing(r) == Bearing(s) + [c] && Zerofill(r) == Zerofill(s)
    ensures multiset(r.contents) == multiset(s.contents) + multiset{c}
  {
    var n := s.nextContents;
    assert r.contents[..n + 1] == s.contents[..n] + [c];
    assert r.contents[n + 1..] == s.contents[n..];
    assert s.contents == s.contents[..n] + s.contents[n..];
  }

  lemma Appended(s: Segment, c: Child, r: Segment)
    requires Ordered(s) && !c.HasContents()
    requires r == s.(contents := s.contents + [c])
    ensures Ordered(r) && Bearing(r) == Bearing(s) && Zerofill(r) == Zerofill(s) + [c]
    ensures multiset(r.contents) == multiset(s.contents) + multiset{c}
  {
    var n := s.nextContents;
    assert r.contents[..n] == s.contents[..n];
    assert r.contents[n..] == s.contents[n..] + [c];
  }

  /** The children of `cs` with contents, in order. */
  function WithContents(cs: seq<Child>): (r: seq<Child>)
    ensures forall i :: 0 <= i < |r| ==> r[i].HasContents()
  {
    if |cs| == 0 then []
    else WithContents(cs[..|cs| - 1]) + (if cs[|cs| - 1].HasContents() then [cs[|cs| - 1]] else [])
  }

  /** The children of `cs` without contents, in order. */
  function WithoutContents(cs: seq<Child>): (r: seq<Child>)
    ensures forall i :: 0 <= i < |r| ==> !r[i].HasContents()
  {
    if |cs| == 0 then []
    else WithoutContents(cs[..|cs| - 1]) + (if cs[|cs| - 1].HasContents() then [] else [cs[|cs| - 1]])
  }

  predicate AllAdmissible(name: CString, cs: seq<Child>) {
    forall i :: 0 <= i < |cs| ==> Admissible(name, cs[i])
  }

  /** Adding children one after another. */
  function AddAll(s: Segment, cs: seq<Child>): (r: Segment)
    requires Ordered(s) && AllAdmissible(s.name, cs)
    ensures Ordered(r) && r.name == s.name && r.initProt == s.initProt && r.maxProt == s.maxProt
  {
    if |cs| == 0 then s
    else AddContents(AddAll(s, cs[..|cs| - 1]), cs[|cs| - 1])
  }

  /** Whatever the order of the calls, a segment ends up holding its
      content-bearing children first and its zerofill sections last, each
      block in the order the children were added; no child is lost. */
  lemma {:induction false} AddAllOrders(s: Segment, cs: seq<Child>, r: Segment)
    requires Ordered(s) && AllAdmissible(s.name, cs) && r == AddAll(s, cs)
    ensures Bearing(r) == Bearing(s) + WithContents(cs)
    ensures Zerofill(r) == Zerofill(s) + WithoutContents(cs)
    ensures multiset(r.contents) == multiset(s.contents) + multiset(cs)
    decreases |cs|
  {
    if |cs| > 0 {
      var front, c := cs[..|cs| - 1], cs[|cs| - 1];
      var t := AddAll(s, front);
      AddAllOrders(s, front, t);
      SnocSplit(cs);
      AddStep(Bearing(s), Zerofill(s), Bearing(t), Zerofill(t), Bearing(r), Zerofill(r), front, c);
      AddStepMultiset(multiset(r.contents), multiset(t.contents), multiset(s.contents), front, c);
    }
  }

  lemma SnocSplit<T>(cs: seq<T>)
    requires |cs| > 0
    ensures cs == cs[..|cs| - 1] + [cs[|cs| - 1]]
  {
  }

  /** The two blocks after one more child, given the blocks before it. */
  lemma AddStep(bs: seq<Child>, zs: seq<Child>, bt: seq<Child>, zt: seq<Child>,
                br: seq<Child>, zr: seq<Child>, front: seq<Child>, c: Child)
    requires bt == bs + WithContents(front) && zt == zs + WithoutContents(front)
    requires c.HasContents() ==> br == bt + [c] && zr == zt
    requires !c.HasContents() ==> br == bt && zr == zt + [c]
    ensures br == bs + WithContents(front + [c]) && zr == zs + WithoutContents(front + [c])
  {
    SplitSnoc(front, c);
    BlockStep(bs, bt, br, WithContents(front), WithContents(front + [c]), c, c.HasContents());
    BlockStep(zs, zt, zr, WithoutContents(front), WithoutContents(front + [c]), c, !c.HasContents());
  }

  /** One block after one more child: it grows by the child exactly when the
      child belongs to it. */
  lemma BlockStep(bs: seq<Child>, bt: seq<Child>, br: seq<Child>, w: seq<Child>, w': seq<Child>, c: Child, takes: bool)
    requires bt == bs + w && w' == w + (if takes then [c] else [])
    requires br == if takes then bt + [c] else bt
    ensures br == bs + w'
  {
    if takes {
      assert bs + w + [c] == bs + (w + [c]);
    } else {
      assert w + [] == w;
    }
  }

  /** The multiset of children after one more child. */
  lemma AddStepMultiset(rm: multiset<Child>, tm: multiset<Child>, sm: multiset<Child>, front: seq<Child>, c: Child)
    requires rm == tm + multiset{c} && tm == sm + multiset(front)
    ensures rm == sm + multiset(front + [c])
  {
    assert multiset(front + [c]) == multiset(front) + multiset{c};
  }

  /** The two blocks of one more child. */
  lemma SplitSnoc(front: seq<Child>, c: Child)
    ensures WithContents(front + [c]) == WithContents(front) + (if c.HasContents() then [c] else [])
    ensures WithoutContents(front + [c]) == WithoutContents(front) + (if c.HasContents() then [] else [c])
  {
    assert (front + [c])[..|front|] == front;
  }

  /** The contents of an ordered segment are its two blocks. */
  lemma Blocks(s: Segment)
    requires Ordered(s)
    ensures s.contents == Bearing(s) + Zerofill(s)
  {
  }

  /** MachOSegment::HasZerofillSections: some child has no contents. */
  function HasZerofillSections(s: Segment): (r: bool)
    requires Ordered(s)
    ensures r <==> exists i :: 0 <= i < |s.contents| && !s.contents[i].HasContents()
  {
    if s.nextContents != |s.contents| then
      assert !s.contents[s.nextContents].HasContents();
      true
    else false
  }

  /** A segment has contents when its content-bearing block is non-empty. */
  predicate HasContents(s: Segment) { s.nextContents > 0 }

  /** The initial segment holds the header as its first child. */
  predicate IsInitial(s: Segment) { |s.contents| > 0 && s.contents[0].HeaderChild? }

  /** PadFileSizeToAlignment: every segment but __LINKEDIT is padded to a page
      in the file, so that the code signature stays last. */
  predicate PadFileSizeToAlignment(s: Segment) { s.name != SEG_LINKEDIT }

  /** The sections among `cs`, in order. */
  function Sections(cs: seq<Child>): (r: seq<Section>)
    ensures |r| <= |cs|
  {
    if |cs| == 0 then []
    else Sections(cs[..|cs| - 1]) + (if cs[|cs| - 1].SectionChild? then [cs[|cs| - 1].section] else [])
  }

  lemma {:induction false} SectionsAppend(a: seq<Child>, b: seq<Child>)
    ensures Sections(a + b) == Sections(a) + Sections(b)
    decreases |b|
  {
    if |b| == 0 {
      assert a + b == a;
    } else {
      assert (a + b)[..|a + b| - 1] == a + b[..|b| - 1];
      SectionsAppend(a, b[..|b| - 1]);
    }
  }

  /** A section belongs to the segment exactly when it is one of its
      children. */
  lemma {:induction false} SectionsMembers(cs: seq<Child>, x: Section)
    ensures x in Sections(cs) <==> SectionChild(x) in cs
    decreases |cs|
  {
    if |cs| > 0 {
      SectionsMembers(cs[..|cs| - 1], x);
      assert cs == cs[..|cs| - 1] + [cs[|cs| - 1]];
    }
  }

  /** NumSections: the number of section children. */
  function NumSections(s: Segment): nat { |Sections(s.contents)| }

  /** The header is not a section, so adding it changes no section number. */
  lemma AddHeaderKeepsSections(s: Segment)
    requires Ordered(s)
    ensures Sections(AddContents(s, HeaderChild).contents) == Sections(s.contents)
  {
    SectionsAppend([HeaderChild], s.contents);
    assert Sections([HeaderChild]) == Sections([]) + [];
  }

  /** A run of children with no section among them numbers no section. */
  lemma {:induction false} NoSections(cs: seq<Child>)
    requires forall c :: c in cs ==> !c.SectionChild?
    ensures Sections(cs) == []
    decreases |cs|
  {
    if |cs| > 0 {
      NoSections(cs[..|cs| - 1]);
    }
  }

  /** A segment built from commands alone (the linkedit segment) has no
      sections. */
  lemma CommandsOnlyNoSections(s: Segment, cs: seq<Child>, r: Segment)
    requires Ordered(s) && s.contents == [] && AllAdmissible(s.name, cs) && r == AddAll(s, cs)
    requires forall i :: 0 <= i < |cs| ==> cs[i].CommandChild?
    ensures Sections(r.contents) == []
  {
    AddAllOrders(s, cs, r);
    forall c | c in r.contents ensures !c.SectionChild? {
      assert c in multiset(r.contents);
    }
    NoSections(r.contents);
  }

  /** ContainsSymbols: some section of the segment has a named portion or
      portion symbols. */
  predicate ContainsSymbols(s: Segment) {
    exists i :: 0 <= i < |s.contents| && s.contents[i].SectionChild? &&
                MachOSection.ContainsSymbols(s.contents[i].section.portions)
  }

  /** FindSection: the first section with the given name. */
  function FindSection(ss: seq<Section>, name: CString): (r: Option<nat>)
    ensures r.Some? ==> r.value < |ss| && ss[r.value].name == name &&
                        forall j :: 0 <= j < r.value ==> ss[j].name != name
    ensures r.None? <==> forall j :: 0 <= j < |ss| ==> ss[j].name != name
  {
    if |ss| == 0 then None
    else if ss[0].name == name then Some(0)
    else
      match FindSection(ss[1..], name)
      case None => None
      case Some(k) => Some(k + 1)
  }

  /** The concrete commands of the writer. */
  datatype Command =
    | SegmentCommand(segment: Segment)
    | UuidCommand(uuid: seq<nat>)
    | BuildVersionCommand(platform: nat, minos: nat, sdk: nat)
    | DylibCommand(code: nat, name: CString, timestamp: nat, currentVersion: nat, compatVersion: nat)
    | LinkeditData(linkedit: LinkeditCommand)

  /** cmd(): the load command code of each command. */
  function Code(c: Command): nat {
    match c
    case SegmentCommand(_) => LC_SEGMENT_64
    case UuidCommand(_) => LC_UUID
    case BuildVersionCommand(_, _, _) => LC_BUILD_VERSION
    case DylibCommand(code, _, _, _, _) => code
    case LinkeditData(SymtabCommand(_)) => LC_SYMTAB
    case LinkeditData(DysymtabCommand(_, _)) => LC_DYSYMTAB
    case LinkeditData(CodeSignatureCommand(_)) => LC_CODE_SIGNATURE
  }

  /** HasContents of a command that is not a segment: the UUID, build version
      and dylib commands are created without a file offset and live only in
      the header; the linkedit commands have contents. */
  predicate CommandHasContents(c: Command) {
    match c
    case SegmentCommand(s) => HasContents(s)
    case LinkeditData(_) => true
    case _ => false
  }

  /** MachODylib::NameOffset: the name follows the fixed dylib_command. */
  const DylibNameOffset: nat := DylibCommandSize

  /** cmdsize(): the size of each command's load command. A segment's holds
      one section header per section; a dylib's holds its NUL-terminated name
      after the fixed part, rounded up to the load command alignment. */
  function CmdSize(c: Command): (r: nat)
    ensures r % WordSize == 0 && r >= 16
    ensures c.SegmentCommand? ==> r == SegmentCommandSize + SectionHeaderSize * NumSections(c.segment)
    ensures c.DylibCommand? ==> DylibNameOffset + |c.name| + 1 <= r < DylibNameOffset + |c.name| + 1 + WordSize
  {
    match c
    case SegmentCommand(s) =>
      var n := NumSections(s);
      assert SegmentCommandSize + SectionHeaderSize * n == (9 + 10 * n) * 8;
      MultipleMod(9 + 10 * n, 8);
      SegmentCommandSize + SectionHeaderSize * n
    case UuidCommand(_) => UuidCommandSize
    case BuildVersionCommand(_, _, _) => BuildVersionCommandSize
    case DylibCommand(_, name, _, _, _) => RoundUp(DylibNameOffset + |name| + 1, WordSize)
    case LinkeditData(SymtabCommand(_)) => SymtabCommandSize
    case LinkeditData(DysymtabCommand(_, _)) => DysymtabCommandSize
    case LinkeditData(CodeSignatureCommand(_)) => LinkeditDataCommandSize
  }

  /** The dylib load command is the smallest whole number of words that holds
      the fixed part and the NUL-terminated name. */
  lemma DylibCmdSizeLeast(c: Command, m: nat)
    requires c.DylibCommand? && m % WordSize == 0 && m >= DylibNameOffset + |c.name| + 1
    ensures CmdSize(c) <= m
  {
    RoundUpIsLeast(DylibNameOffset + |c.name| + 1, WordSize, m);
  }
}
