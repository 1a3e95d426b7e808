/** MachOHeader::FinalizeCommands (runtime/vm/mach_o.cc:2282-2433): the last
    step before offsets are computed. The commands are sorted into bins and
    put back in the final order: the commands that live only in the header,
    the text segment (which now also holds the header), the segments with
    symbols, the other segments, a new __LINKEDIT segment, and last the
    commands whose contents that segment holds (with the code signature at
    the very end for a snapshot). The sections are renumbered to follow the
    new segment order, and so are the section indices of the symbols. */
module MachOFinalize {
  import opened Wrappers
  import opened CStrings
  import opened MachOFormat
  import MachOSection
  import MachOSymbols
  import opened MachOCommands
  import opened MachOLoadCommands
  import opened MachOReorder
  import opened MachOHeader

  // ---------------------------------------------------------------------
  // The pieces of the new command list.

  /** Every symbol table among the linkedit contents numbers sections below
      `size`. */
  predicate TablesInRange(ls: seq<LinkeditCommand>, size: nat) {
    forall i :: 0 <= i < |ls| ==> (ls[i].SymtabCommand? ==> MachOSymbols.SectionsInRange(ls[i].table, size))
  }

  /** Linkedit contents after the renumbering: a symbol table has its
      section indices mapped by UpdateSectionIndices; the dynamic symbol
      table and the code signature hold no section index. */
  function Renumber(l: LinkeditCommand, m: seq<nat>): LinkeditCommand
    requires MachOSymbols.IndexMapOk(m)
    requires l.SymtabCommand? ==> MachOSymbols.SectionsInRange(l.table, |m|)
  {
    match l
    case SymtabCommand(t) => SymtabCommand(MachOSymbols.UpdateSectionIndices(t, m))
    case _ => l
  }

  function RenumberAll(ls: seq<LinkeditCommand>, m: seq<nat>): (r: seq<LinkeditCommand>)
    requires MachOSymbols.IndexMapOk(m) && TablesInRange(ls, |m|)
    ensures |r| == |ls| && forall i :: 0 <= i < |ls| ==> r[i] == Renumber(ls[i], m)
  {
    seq(|ls|, i requires 0 <= i < |ls| => Renumber(ls[i], m))
  }

  function CommandChildren(ls: seq<LinkeditCommand>): (r: seq<Child>)
    ensures |r| == |ls| && forall i :: 0 <= i < |ls| ==> r[i] == CommandChild(ls[i])
  {
    seq(|ls|, i requires 0 <= i < |ls| => CommandChild(ls[i]))
  }

  /** Commands all have contents. */
  lemma {:induction false} CommandChildrenBear(cs: seq<Child>)
    requires forall i :: 0 <= i < |cs| ==> cs[i].CommandChild?
    ensures WithContents(cs) == cs && WithoutContents(cs) == []
    decreases |cs|
  {
    if |cs| > 0 {
      CommandChildrenBear(cs[..|cs| - 1]);
      assert cs == cs[..|cs| - 1] + [cs[|cs| - 1]];
    }
  }

  /** The __LINKEDIT segment: created with the MachOSegment default
      protections (readable only), it holds the linkedit contents in the
      order they were added and no section, and it ranks with the segments
      without symbols. */
  function LinkeditSegment(ls: seq<LinkeditCommand>): (r: Segment)
    ensures r.name == SEG_LINKEDIT && r.initProt == VM_PROT_READ && r.maxProt == VM_PROT_READ
    ensures Ordered(r) && r.contents == CommandChildren(ls)
    ensures Sections(r.contents) == [] && Rank(r) == 2
  {
    var s := NewSegment(SEG_LINKEDIT, VM_PROT_READ, VM_PROT_READ);
    var cs := CommandChildren(ls);
    CommandsAdmissible(cs);
    var r := AddAll(s, cs);
    CommandsOnlySegment(s, cs, r);
    r
  }

  lemma CommandsAdmissible(cs: seq<Child>)
    requires forall i :: 0 <= i < |cs| ==> cs[i].CommandChild?
    ensures AllAdmissible(SEG_LINKEDIT, cs)
  {
  }

  /** A new segment given only commands holds them in order, and no section
      or symbol. */
  lemma CommandsOnlySegment(s: Segment, cs: seq<Child>, r: Segment)
    requires Ordered(s) && s.contents == [] && AllAdmissible(s.name, cs) && r == AddAll(s, cs)
    requires forall i :: 0 <= i < |cs| ==> cs[i].CommandChild?
    ensures r.contents == cs && Sections(r.contents) == [] && !ContainsSymbols(r)
  {
    CommandsOnlyContents(s, cs, r);
    forall c | c in cs ensures !c.SectionChild? {
    }
    NoSections(cs);
    NoSectionsNoSymbols(r);
  }

  lemma NoSectionsNoSymbols(s: Segment)
    requires forall i :: 0 <= i < |s.contents| ==> s.contents[i].CommandChild?
    ensures !ContainsSymbols(s)
  {
  }

  lemma CommandsOnlyContents(s: Segment, cs: seq<Child>, r: Segment)
    requires Ordered(s) && s.contents == [] && AllAdmissible(s.name, cs) && r == AddAll(s, cs)
    requires forall i :: 0 <= i < |cs| ==> cs[i].CommandChild?
    ensures r.contents == cs
  {
    AddAllOrders(s, cs, r);
    CommandChildrenBear(cs);
    Blocks(r);
    assert Bearing(s) == [] && Zerofill(s) == [];
    assert Bearing(r) == cs && Zerofill(r) == [];
  }

  // ---------------------------------------------------------------------
  // FinalizeCommands.

  /** What FinalizeCommands asserts: it is not idempotent, so there is no
      __LINKEDIT segment and no code signature yet; the text segment
      (text_segment_) is the one segment named __TEXT; there is a command
      with linkedit contents (at least the symbol table). And what the
      renumbering needs: segments keep their contents in order, and the map
      fits n_sect's byte and covers every table's section indices. */
  predicate CanFinalizeCommands(h: Header) {
    var segs := Segments(h.commands);
    var n := |AllSections(segs)|;
    FindSegment(h.commands, SEG_LINKEDIT).None? &&
    !HasCommand(h.commands, LC_CODE_SIGNATURE) &&
    |ByRank(segs, 0)| == 1 &&
    (forall s :: s in segs ==> Ordered(s)) &&
    |Linkedit(h.commands)| > 0 &&
    n < 0x100 &&
    MachOSymbols.SectionsInRange(h.fullSymtab, n + 1) &&
    TablesInRange(Linkedit(h.commands), n + 1)
  }

  /** index_map, from the sections in their old order. */
  function SectionMap(h: Header): (m: seq<nat>)
    requires CanFinalizeCommands(h)
    ensures MachOSymbols.IndexMapOk(m) && |m| == |AllSections(Segments(h.commands))| + 1
  {
    var ranks := SectionRanks(Segments(h.commands));
    IndexMapBijective(ranks);
    IndexMap(ranks)
  }

  /** The linkedit commands in their final order: as they were, renumbered,
      then the code signature for a snapshot. */
  function FinalLinkedit(h: Header): seq<LinkeditCommand>
    requires CanFinalizeCommands(h)
  {
    RenumberAll(Linkedit(h.commands), SectionMap(h)) +
    (if h.snapshotType == Snapshot then [CodeSignatureCommand(h.identifier)] else [])
  }

  /** The text segment. */
  function TextSegment(h: Header): (s: Segment)
    requires CanFinalizeCommands(h)
    ensures s in Segments(h.commands) && Ordered(s) && Rank(s) == 0
  {
    var segs := Segments(h.commands);
    ByRankMembers(segs, 0, ByRank(segs, 0)[0]);
    ByRank(segs, 0)[0]
  }

  /** The segments in their final order. */
  function FinalSegments(h: Header): seq<Segment>
    requires CanFinalizeCommands(h)
  {
    var segs := Segments(h.commands);
    [AddContents(TextSegment(h), HeaderChild)] + ByRank(segs, 1) + ByRank(segs, 2) +
    [LinkeditSegment(FinalLinkedit(h))]
  }

  /** The commands in their final order. */
  function FinalCommands(h: Header): seq<Command>
    requires CanFinalizeCommands(h)
  {
    HeaderOnly(h.commands) + SegmentCommands(FinalSegments(h)) + LinkeditCommands(FinalLinkedit(h))
  }

  /** MachOHeader::FinalizeCommands: only the commands and the full symbol
      table change. */
  function FinalizeCommands(h: Header): (r: Header)
    requires CanFinalizeCommands(h)
    ensures r == h.(commands := r.commands, fullSymtab := r.fullSymtab)
  {
    h.(commands := FinalCommands(h), fullSymtab := MachOSymbols.UpdateSectionIndices(h.fullSymtab, SectionMap(h)))
  }

  // ---------------------------------------------------------------------
  // The order of the commands.

  /** A list of commands in bin order: the header-only commands, then the
      segments, then the linkedit commands. */
  predicate InBinOrder(cmds: seq<Command>) {
    cmds == HeaderOnly(cmds) + SegmentCommands(Segments(cmds)) + LinkeditCommands(Linkedit(cmds))
  }

  /** Sorting the result into bins gives back the pieces it was built from:
      the header-only commands are those of the input, in the same order, and
      the result is in bin order. */
  lemma FinalizeCommandsBins(h: Header)
    requires CanFinalizeCommands(h)
    ensures var r := FinalizeCommands(h);
            HeaderOnly(r.commands) == HeaderOnly(h.commands) &&
            Segments(r.commands) == FinalSegments(h) &&
            Linkedit(r.commands) == FinalLinkedit(h) &&
            InBinOrder(r.commands)
  {
    BinsOfHeaderOnly(h.commands);
    Layout(HeaderOnly(h.commands), FinalSegments(h), FinalLinkedit(h), FinalCommands(h));
  }

  /** Header-only commands, then segments, then linkedit commands, sort back
      into the same bins. */
  lemma Layout(a: seq<Command>, ss: seq<Segment>, ls: seq<LinkeditCommand>, cmds: seq<Command>)
    requires HeaderOnly(a) == a && Segments(a) == [] && Linkedit(a) == []
    requires cmds == a + SegmentCommands(ss) + LinkeditCommands(ls)
    ensures HeaderOnly(cmds) == a && Segments(cmds) == ss && Linkedit(cmds) == ls && InBinOrder(cmds)
  {
    var ab := a + SegmentCommands(ss);
    LayoutSegments(a, ss, ab);
    LayoutLinkedit(a, ss, ab, ls, cmds);
  }

  lemma LayoutSegments(a: seq<Command>, ss: seq<Segment>, ab: seq<Command>)
    requires HeaderOnly(a) == a && Segments(a) == [] && Linkedit(a) == []
    requires ab == a + SegmentCommands(ss)
    ensures HeaderOnly(ab) == a && Segments(ab) == ss && Linkedit(ab) == []
  {
    BinsAppend(a, SegmentCommands(ss));
    BinsOfSegmentCommands(ss);
  }

  lemma LayoutLinkedit(a: seq<Command>, ss: seq<Segment>, ab: seq<Command>, ls: seq<LinkeditCommand>, cmds: seq<Command>)
    requires HeaderOnly(ab) == a && Segments(ab) == ss && Linkedit(ab) == []
    requires ab == a + SegmentCommands(ss) && cmds == ab + LinkeditCommands(ls)
    ensures HeaderOnly(cmds) == a && Segments(cmds) == ss && Linkedit(cmds) == ls
  {
    BinsAppend(ab, LinkeditCommands(ls));
    BinsOfLinkeditCommands(ls);
  }

  /** Every command is kept and two are added: the __LINKEDIT segment, and
      for a snapshot the code signature (num_commands in the source). */
  lemma FinalizeCommandsCount(h: Header)
    requires CanFinalizeCommands(h)
    ensures |FinalizeCommands(h).commands| == |h.commands| + 1 + (if h.snapshotType == Snapshot then 1 else 0)
  {
    var segs := Segments(h.commands);
    BinsPartition(h.commands);
    ByRankSplit(segs);
    assert |FinalSegments(h)| == 1 + |ByRank(segs, 1)| + |ByRank(segs, 2)| + 1;
  }

  /** The segments are sorted by rank. */
  predicate SortedByRank(ss: seq<Segment>) {
    forall i, j :: 0 <= i < j < |ss| ==> Rank(ss[i]) <= Rank(ss[j])
  }

  predicate AllOfRank(ss: seq<Segment>, r: nat) {
    forall i :: 0 <= i < |ss| ==> Rank(ss[i]) == r
  }

  lemma SortedBlocks(t: Segment, b1: seq<Segment>, b2: seq<Segment>, l: Segment)
    requires Rank(t) == 0 && AllOfRank(b1, 1) && AllOfRank(b2, 2) && Rank(l) == 2
    ensures SortedByRank([t] + b1 + b2 + [l])
  {
    var ss := [t] + b1 + b2 + [l];
    forall i | 0 <= i < |ss| ensures Rank(ss[i]) == if i == 0 then 0 else if i <= |b1| then 1 else 2 {
      if i == 0 {
      } else if i <= |b1| {
        assert ss[i] == b1[i - 1];
      } else if i <= |b1| + |b2| {
        assert ss[i] == b2[i - 1 - |b1|];
      }
    }
  }

  /** The shape of the final segment list, from the facts about its pieces. */
  lemma SegmentsShape(segs: seq<Segment>, text: Segment, t: Segment, b0: seq<Segment>, b1: seq<Segment>,
                      b2: seq<Segment>, l: Segment, ss: seq<Segment>)
    requires multiset(b0) + multiset(b1) + multiset(b2) == multiset(segs) && |b0| + |b1| + |b2| == |segs|
    requires b0 == [text] && t.name == text.name && IsInitial(t) && Rank(t) == 0
    requires AllOfRank(b1, 1) && AllOfRank(b2, 2) && Rank(l) == 2
    requires ss == [t] + b1 + b2 + [l]
    ensures |ss| == |segs| + 1 && ss[0] == t && ss[|ss| - 1] == l && SortedByRank(ss)
    ensures multiset(ss[1..|ss| - 1]) + multiset{text} == multiset(segs)
  {
    SortedBlocks(t, b1, b2, l);
    assert ss[1..|ss| - 1] == b1 + b2;
  }

  /** The segments come out in the order the file needs: the text segment
      first, holding the header at its start and its sections as before;
      then the other segments, unchanged and in rank order; and last the new
      __LINKEDIT segment, readable only, with no section, holding the
      linkedit commands in the order they follow the segments. */
  lemma FinalizeCommandsSegments(h: Header)
    requires CanFinalizeCommands(h)
    ensures var r := FinalizeCommands(h);
            var ss := Segments(r.commands);
            var text := TextSegment(h);
            |ss| == |Segments(h.commands)| + 1 &&
            ss[0].name == SEG_TEXT && IsInitial(ss[0]) && Sections(ss[0].contents) == Sections(text.contents) &&
            SortedByRank(ss) &&
            multiset(ss[1..|ss| - 1]) + multiset{text} == multiset(Segments(h.commands)) &&
            ss[|ss| - 1].name == SEG_LINKEDIT &&
            ss[|ss| - 1].initProt == VM_PROT_READ && ss[|ss| - 1].maxProt == VM_PROT_READ &&
            ss[|ss| - 1].contents == CommandChildren(Linkedit(r.commands)) &&
            Sections(ss[|ss| - 1].contents) == []
  {
    var segs := Segments(h.commands);
    var text := TextSegment(h);
    var t := AddContents(text, HeaderChild);
    var l := LinkeditSegment(FinalLinkedit(h));
    FinalizeCommandsBins(h);
    ByRankSplit(segs);
    AddHeaderKeepsSections(text);
    assert t.contents[0] == HeaderChild;
    SegmentsShape(segs, text, t, ByRank(segs, 0), ByRank(segs, 1), ByRank(segs, 2), l, FinalSegments(h));
  }

  /** The linkedit commands keep their order and are renumbered; a snapshot
      gets the code signature as the last one. */
  lemma FinalizeCommandsLinkedit(h: Header)
    requires CanFinalizeCommands(h)
    ensures var ls := Linkedit(h.commands);
            var ls' := Linkedit(FinalizeCommands(h).commands);
            |ls'| == |ls| + (if h.snapshotType == Snapshot then 1 else 0) &&
            (forall i :: 0 <= i < |ls| ==> ls'[i] == Renumber(ls[i], SectionMap(h))) &&
            (h.snapshotType == Snapshot ==> ls'[|ls'| - 1] == CodeSignatureCommand(h.identifier))
  {
    FinalizeCommandsBins(h);
  }

  // ---------------------------------------------------------------------
  // The renumbering.

  /** The sections of the final segment list, from the facts about its
      pieces: those of the text segment, then of the other segments. */
  lemma SectionsShape(text: Segment, t: Segment, b0: seq<Segment>, b1: seq<Segment>, b2: seq<Segment>,
                      l: Segment, ss: seq<Segment>)
    requires b0 == [text] && Sections(t.contents) == Sections(text.contents) && Sections(l.contents) == []
    requires ss == [t] + b1 + b2 + [l]
    ensures AllSections(ss) == AllSections(b0 + b1 + b2)
  {
    AllSectionsAppend([t] + b1 + b2, [l]);
    AllSectionsAppend([t] + b1, b2);
    AllSectionsAppend([t], b1);
    AllSectionsSingle(l);
    AllSectionsSingle(t);
    AllSectionsSingle(text);
    AllSectionsAppend(b0 + b1, b2);
    AllSectionsAppend(b0, b1);
  }

  /** The sections in the new segment order are the sections reordered by
      rank: the header and the linkedit segment add none. */
  lemma FinalSections(h: Header)
    requires CanFinalizeCommands(h)
    ensures AllSections(Segments(FinalizeCommands(h).commands)) == AllSections(Reordered(Segments(h.commands)))
  {
    var segs := Segments(h.commands);
    var text := TextSegment(h);
    FinalizeCommandsBins(h);
    ByRankSplit(segs);
    AddHeaderKeepsSections(text);
    SectionsShape(text, AddContents(text, HeaderChild), ByRank(segs, 0), ByRank(segs, 1), ByRank(segs, 2),
                  LinkeditSegment(FinalLinkedit(h)), FinalSegments(h));
  }

  /** Every section keeps its number under the map: old section x is new
      section index_map[x]; and there are as many sections as before. */
  lemma FinalizeCommandsSections(h: Header, x: nat)
    requires CanFinalizeCommands(h) && 1 <= x <= |AllSections(Segments(h.commands))|
    ensures var before := AllSections(Segments(h.commands));
            var after := AllSections(Segments(FinalizeCommands(h).commands));
            var m := SectionMap(h);
            |after| == |before| && 1 <= m[x] <= |after| && after[m[x] - 1] == before[x - 1]
  {
    var segs := Segments(h.commands);
    var ranks := SectionRanks(segs);
    var before := AllSections(segs);
    var after := AllSections(Segments(FinalizeCommands(h).commands));
    FinalSections(h);
    ReorderedSections(segs);
    OrderInRange(ranks);
    assert after == Pick(before, Order(ranks));
    PickedAtIndexMap(before, ranks, after, x);
    assert SectionMap(h) == IndexMap(ranks);
  }

  /** Section number x of `before` and section number y of `after` are the
      same section. */
  predicate SameSection(before: seq<MachOSection.Section>, after: seq<MachOSection.Section>, x: nat, y: nat) {
    1 <= x <= |before| && 1 <= y <= |after| && after[y - 1] == before[x - 1]
  }

  /** Every symbol of the full table still names the section it named: the
      new section index picks out, in the new order, the section the old
      index picked out in the old order; symbols with no section keep
      NO_SECT. */
  lemma FinalizeCommandsSymbols(h: Header, k: nat)
    requires CanFinalizeCommands(h) && k < |h.fullSymtab.symbols|
    ensures var r := FinalizeCommands(h);
            var x := h.fullSymtab.symbols[k].sectionIndex;
            var y := r.fullSymtab.symbols[k].sectionIndex;
            (x == NO_SECT <==> y == NO_SECT) &&
            (x != NO_SECT ==> SameSection(AllSections(Segments(h.commands)), AllSections(Segments(r.commands)), x, y))
  {
    var x := h.fullSymtab.symbols[k].sectionIndex;
    var m := SectionMap(h);
    var t := FinalizeCommands(h).fullSymtab;
    assert x < |m|;
    assert t == MachOSymbols.UpdateSectionIndices(h.fullSymtab, m);
    assert t.symbols[k].sectionIndex == m[x];
    if x != NO_SECT {
      var before := AllSections(Segments(h.commands));
      var after := AllSections(Segments(FinalizeCommands(h).commands));
      FinalizeCommandsSections(h, x);
      assert SameSection(before, after, x, m[x]);
    }
  }

  /** The renumbering loses nothing: renumbering the result's full table
      back through the inverse map gives the table before. */
  lemma FinalizeCommandsSymbolsInverse(h: Header)
    requires CanFinalizeCommands(h)
    ensures var back := BackMap(SectionRanks(Segments(h.commands)));
            var t := FinalizeCommands(h).fullSymtab;
            MachOSymbols.IndexMapOk(back) && MachOSymbols.SectionsInRange(t, |back|) &&
            MachOSymbols.UpdateSectionIndices(t, back) == h.fullSymtab
  {
    var ranks := SectionRanks(Segments(h.commands));
    IndexMapBijective(ranks);
    MachOSymbols.UpdateSectionIndicesInverse(h.fullSymtab, IndexMap(ranks), BackMap(ranks));
  }

  /** Renumbering the full table and the command's table alike keeps them
      the same, as the source does by renumbering the one table both name. */
  lemma FinalizeCommandsKeepsFullTable(h: Header)
    requires CanFinalizeCommands(h) && WritesFullTable(h)
    ensures WritesFullTable(FinalizeCommands(h))
  {
    var r := FinalizeCommands(h);
    FinalizeCommandsLinkedit(h);
    var ls := Linkedit(h.commands);
    var ls' := Linkedit(r.commands);
    forall i | 0 <= i < |ls'| && ls'[i].SymtabCommand? ensures ls'[i].table == r.fullSymtab {
      if i < |ls| {
        assert ls'[i] == Renumber(ls[i], SectionMap(h));
      }
    }
  }

  /** A written table other than the full one (the stripped table of the
      intended InitializeSymbolTables) is renumbered with the same map, as
      the source does for an included table that is not the full one. */
  lemma FinalizeCommandsRenumbersWrittenTable(h: Header, t: MachOSymbols.SymbolTable)
    requires CanFinalizeCommands(h) && TablesAre(Linkedit(h.commands), t)
    requires MachOSymbols.SectionsInRange(t, |AllSections(Segments(h.commands))| + 1)
    ensures TablesAre(Linkedit(FinalizeCommands(h).commands), MachOSymbols.UpdateSectionIndices(t, SectionMap(h)))
  {
    var r := FinalizeCommands(h);
    FinalizeCommandsLinkedit(h);
    var ls := Linkedit(h.commands);
    var ls' := Linkedit(r.commands);
    var t' := MachOSymbols.UpdateSectionIndices(t, SectionMap(h));
    forall i | 0 <= i < |ls'| && ls'[i].SymtabCommand? ensures ls'[i].table == t' {
      if i < |ls| {
        assert ls'[i] == Renumber(ls[i], SectionMap(h));
      }
    }
  }

  // ---------------------------------------------------------------------
  // Not idempotent.

  /** A header with no code signature has none among its header-only or
      linkedit commands. */
  lemma NoSignatureInBins(cmds: seq<Command>)
    requires !HasCommand(cmds, LC_CODE_SIGNATURE)
    ensures !HasCommand(HeaderOnly(cmds), LC_CODE_SIGNATURE)
    ensures forall i :: 0 <= i < |Linkedit(cmds)| ==> !Linkedit(cmds)[i].CodeSignatureCommand?
  {
    BinMembers(cmds);
    var a := HeaderOnly(cmds);
    forall i | 0 <= i < |a| ensures Code(a[i]) != LC_CODE_SIGNATURE {
      assert a[i] in cmds;
    }
    forall i | 0 <= i < |Linkedit(cmds)| ensures !Linkedit(cmds)[i].CodeSignatureCommand? {
      assert LinkeditData(Linkedit(cmds)[i]) in cmds;
    }
  }

  /** Commands in bin order hold a code signature exactly when it is among
      the linkedit commands. */
  lemma SignatureCodes(a: seq<Command>, ss: seq<Segment>, kept: seq<LinkeditCommand>, sig: seq<LinkeditCommand>,
                       cmds: seq<Command>)
    requires !HasCommand(a, LC_CODE_SIGNATURE)
    requires forall i :: 0 <= i < |kept| ==> !kept[i].CodeSignatureCommand?
    requires |sig| <= 1 && forall i :: 0 <= i < |sig| ==> sig[i].CodeSignatureCommand?
    requires cmds == a + SegmentCommands(ss) + LinkeditCommands(kept + sig)
    ensures HasCommand(cmds, LC_CODE_SIGNATURE) <==> |sig| == 1
  {
    var b := SegmentCommands(ss);
    var c := LinkeditCommands(kept + sig);
    HasCommandAppend(a + b, c, LC_CODE_SIGNATURE);
    HasCommandAppend(a, b, LC_CODE_SIGNATURE);
    assert !HasCommand(b, LC_CODE_SIGNATURE);
    if |sig| == 1 {
      assert Code(c[|kept|]) == LC_CODE_SIGNATURE;
    } else {
      assert kept + sig == kept;
    }
  }

  /** Commands in bin order whose last segment is __LINKEDIT have a
      __LINKEDIT segment. */
  lemma LinkeditFound(a: seq<Command>, ss: seq<Segment>, ls: seq<LinkeditCommand>, cmds: seq<Command>)
    requires |ss| > 0 && ss[|ss| - 1].name == SEG_LINKEDIT
    requires cmds == a + SegmentCommands(ss) + LinkeditCommands(ls)
    ensures FindSegment(cmds, SEG_LINKEDIT).Some?
  {
    assert cmds[|a| + |ss| - 1] == SegmentCommands(ss)[|ss| - 1];
    assert IsSegmentNamed(cmds[|a| + |ss| - 1], SEG_LINKEDIT);
  }

  /** After FinalizeCommands there is a __LINKEDIT segment, and a code
      signature exactly for a snapshot: a second call would fail its
      assertions. */
  lemma FinalizeCommandsNotIdempotent(h: Header)
    requires CanFinalizeCommands(h)
    ensures var r := FinalizeCommands(h);
            FindSegment(r.commands, SEG_LINKEDIT).Some? &&
            (HasCommand(r.commands, LC_CODE_SIGNATURE) <==> h.snapshotType == Snapshot)
  {
    var ss := FinalSegments(h);
    var kept := RenumberAll(Linkedit(h.commands), SectionMap(h));
    var sig := if h.snapshotType == Snapshot then [CodeSignatureCommand(h.identifier)] else [];
    assert FinalLinkedit(h) == kept + sig;
    NoSignatureInBins(h.commands);
    LinkeditFound(HeaderOnly(h.commands), ss, FinalLinkedit(h), FinalCommands(h));
    SignatureCodes(HeaderOnly(h.commands), ss, kept, sig, FinalCommands(h));
  }
}
