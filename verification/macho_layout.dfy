/** File and memory layout (runtime/vm/mach_o.cc:370-460, 764-799, 2437-2525):
    the sizes of a segment's children, the file and memory sizes of a
    segment, and ContentOffsetsVisitor, which walks the segments in command
    order and gives every segment and child its file offset and memory
    address, collecting the address of each section on the way.

    The code signature's size depends on the file offset it is placed at, so
    the sizes here take the child's file offset as an argument; the header's
    size depends on every load command, so it is passed in as `headerSize`. */
module MachOLayout {
  import opened Wrappers
  import opened Alignment
  import opened MachOFormat
  import MachOSection
  import MachOSymbols
  import MachOSignature
  import opened MachOCommands

  /** What the layout needs of a child: a section has at least one portion
      (SelfMemorySize reads the last one) and an alignment dividing the page
      size, so that segment-relative and absolute rounding agree. */
  predicate ChildOk(c: Child) {
    c.SectionChild? ==>
      |c.section.portions| > 0 && c.section.alignment > 0 && PageSize % c.section.alignment == 0
  }

  predicate ChildrenOk(cs: seq<Child>) {
    forall i :: 0 <= i < |cs| ==> ChildOk(cs[i])
  }

  lemma ChildAlignmentDividesPage(c: Child)
    requires ChildOk(c)
    ensures c.Alignment() > 0 && PageSize % c.Alignment() == 0
  {
  }

  /** SelfMemorySize of each child, when placed at `fileOffset`. */
  function ChildSize(c: Child, headerSize: nat, fileOffset: nat): nat
    requires ChildOk(c)
  {
    match c
    case HeaderChild => headerSize
    case SectionChild(s) => MachOSection.SelfMemorySize(s)
    case CommandChild(SymtabCommand(t)) => MachOSymbols.SelfMemorySize(t)
    case CommandChild(DysymtabCommand(_, _)) => 0
    case CommandChild(CodeSignatureCommand(id)) => MachOSignature.SelfMemorySize(id, fileOffset)
  }

  // ---------------------------------------------------------------------
  // Segment sizes, relative to the segment's start.

  /** The loops of MachOSegment::FileSize and UnpaddedMemorySize run in step
      over the children: `f` tiles the children with contents (each rounded
      up to its alignment) and `m` tiles all of them. The memory loop reads
      each child's size, which for the code signature depends on the file
      offset the file loop gives it, `base + f`. */
  /** One child's turn in the two loops, at relative file offset `f` and
      memory offset `m`. */
  function TileStep(c: Child, headerSize: nat, base: nat, f: nat, m: nat): (r: (nat, nat))
    requires ChildOk(c)
    ensures r.0 >= f && r.1 >= m
  {
    var a := c.Alignment();
    var at := if c.HasContents() then RoundUp(f, a) else f;
    var size := ChildSize(c, headerSize, base + at);
    (if c.HasContents() then at + size else f, RoundUp(m, a) + size)
  }

  function Tile(cs: seq<Child>, headerSize: nat, base: nat, f: nat, m: nat): (r: (nat, nat))
    requires ChildrenOk(cs)
    ensures r.0 >= f && r.1 >= m
    decreases |cs|
  {
    if |cs| == 0 then (f, m)
    else
      var t := TileStep(cs[0], headerSize, base, f, m);
      Tile(cs[1..], headerSize, base, t.0, t.1)
  }

  /** MachOSegment::FileSize for a segment placed at `base`: the tiled
      content-bearing children, padded to a page unless the segment is
      __LINKEDIT. */
  function FileSize(s: Segment, headerSize: nat, base: nat): (r: nat)
    requires ChildrenOk(s.contents)
    ensures PadFileSizeToAlignment(s) ==> r % PageSize == 0
  {
    var f := Tile(s.contents, headerSize, base, 0, 0).0;
    if PadFileSizeToAlignment(s) then RoundUp(f, PageSize) else f
  }

  /** MachOSegment::MemorySize: all children tiled, rounded up to a page. */
  function MemorySize(s: Segment, headerSize: nat, base: nat): (r: nat)
    requires ChildrenOk(s.contents)
    ensures r % PageSize == 0
  {
    RoundUp(Tile(s.contents, headerSize, base, 0, 0).1, PageSize)
  }

  // ---------------------------------------------------------------------
  // ContentOffsetsVisitor.

  /** Where a segment or child was put. */
  datatype Placement = Placement(fileOffset: nat, memoryAddress: nat)

  /** The visitor's state: the next free file offset and memory address, the
      address map (NO_SECT first, then one address per section visited), and
      the placements given so far to segments and to sections. A section
      without contents keeps file offset 0. */
  datatype Cursor = Cursor(fileOffset: nat, memoryAddress: nat, addressMap: seq<nat>,
                           segments: seq<Placement>, sections: seq<Placement>)

  /** Default() for one child, and VisitMachOSection's addition to the
      address map. Children of a segment hold no nested contents. */
  function Step(c: Child, headerSize: nat, cur: Cursor): (r: Cursor)
    requires ChildOk(c)
    ensures r.fileOffset >= cur.fileOffset && r.memoryAddress >= cur.memoryAddress
    ensures r.segments == cur.segments
    ensures var added := if c.SectionChild? then 1 else 0;
            |r.addressMap| == |cur.addressMap| + added && r.addressMap[..|cur.addressMap|] == cur.addressMap &&
            |r.sections| == |cur.sections| + added && r.sections[..|cur.sections|] == cur.sections
    ensures forall i :: |cur.addressMap| <= i < |r.addressMap| ==> cur.memoryAddress <= r.addressMap[i] <= r.memoryAddress
  {
    var a := c.Alignment();
    var fo := if c.HasContents() then RoundUp(cur.fileOffset, a) else cur.fileOffset;
    var size := ChildSize(c, headerSize, fo);
    var ma := RoundUp(cur.memoryAddress, a);
    Cursor(
      if c.HasContents() then fo + size else cur.fileOffset,
      ma + size,
      if c.SectionChild? then cur.addressMap + [ma] else cur.addressMap,
      cur.segments,
      if c.SectionChild? then cur.sections + [Placement(if c.HasContents() then fo else 0, ma)] else cur.sections)
  }

  /** Each child of a segment in turn. */
  function VisitChildren(cs: seq<Child>, headerSize: nat, cur: Cursor): (r: Cursor)
    requires ChildrenOk(cs)
    ensures r.fileOffset >= cur.fileOffset && r.memoryAddress >= cur.memoryAddress
    ensures r.segments == cur.segments
    ensures |r.addressMap| == |cur.addressMap| + |Sections(cs)| && r.addressMap[..|cur.addressMap|] == cur.addressMap
    ensures |r.sections| == |cur.sections| + |Sections(cs)| && r.sections[..|cur.sections|] == cur.sections
    decreases |cs|
  {
    if |cs| == 0 then cur
    else
      SectionsCons(cs);
      VisitChildren(cs[1..], headerSize, Step(cs[0], headerSize, cur))
  }

  lemma SectionsCons(cs: seq<Child>)
    requires |cs| > 0
    ensures |Sections(cs)| == |Sections(cs[1..])| + (if cs[0].SectionChild? then 1 else 0)
  {
    SectionsAppend([cs[0]], cs[1..]);
    assert cs == [cs[0]] + cs[1..];
    assert Sections([cs[0]]) == Sections([]) + (if cs[0].SectionChild? then [cs[0].section] else []);
  }

  /** VisitMachOSegment: a segment starts on a page in the file and in
      memory, even when it writes nothing; after its children the file offset
      is padded to a page unless the segment is __LINKEDIT, and the memory
      address always is. */
  function VisitSegment(s: Segment, headerSize: nat, cur: Cursor): (r: Cursor)
    requires ChildrenOk(s.contents)
    ensures r.fileOffset >= cur.fileOffset && r.memoryAddress >= cur.memoryAddress
    ensures r.memoryAddress % PageSize == 0
    ensures r.segments == cur.segments + [Placement(RoundUp(cur.fileOffset, PageSize), RoundUp(cur.memoryAddress, PageSize))]
    ensures |r.addressMap| == |cur.addressMap| + NumSections(s) && r.addressMap[..|cur.addressMap|] == cur.addressMap
    ensures |r.sections| == |cur.sections| + NumSections(s) && r.sections[..|cur.sections|] == cur.sections
  {
    var here := Placement(RoundUp(cur.fileOffset, PageSize), RoundUp(cur.memoryAddress, PageSize));
    var start := Cursor(here.fileOffset, here.memoryAddress, cur.addressMap, cur.segments + [here], cur.sections);
    var inner := VisitChildren(s.contents, headerSize, start);
    inner.(fileOffset := if PadFileSizeToAlignment(s) then RoundUp(inner.fileOffset, PageSize) else inner.fileOffset,
           memoryAddress := RoundUp(inner.memoryAddress, PageSize))
  }

  /** The visitor over the segments, in command order. */
  function VisitSegments(segs: seq<Segment>, headerSize: nat, cur: Cursor): (r: Cursor)
    requires forall i :: 0 <= i < |segs| ==> ChildrenOk(segs[i].contents)
    ensures |r.segments| == |cur.segments| + |segs| && r.segments[..|cur.segments|] == cur.segments
    ensures |r.addressMap| == |cur.addressMap| + TotalSections(segs) && r.addressMap[..|cur.addressMap|] == cur.addressMap
    ensures r.memoryAddress >= cur.memoryAddress
    decreases |segs|
  {
    if |segs| == 0 then cur
    else
      var next := VisitSegment(segs[0], headerSize, cur);
      var r := VisitSegments(segs[1..], headerSize, next);
      PrefixTrans(cur.segments, next.segments, r.segments);
      PrefixTrans(cur.addressMap, next.addressMap, r.addressMap);
      r
  }

  lemma PrefixTrans<T>(a: seq<T>, b: seq<T>, c: seq<T>)
    requires |a| <= |b| <= |c| && b[..|a|] == a && c[..|b|] == b
    ensures c[..|a|] == a
  {
    assert c[..|a|] == c[..|b|][..|a|];
  }

  /** The number of sections in all the segments. */
  function TotalSections(segs: seq<Segment>): nat {
    if |segs| == 0 then 0 else NumSections(segs[0]) + TotalSections(segs[1..])
  }

  // ---------------------------------------------------------------------
  // What the visitor's assertions check.

  /** One child visited at `base + f`, `mbase + m` lands where TileStep
      puts it relative to the page-aligned segment start. */
  lemma StepTiles(c: Child, headerSize: nat, base: nat, mbase: nat, f: nat, m: nat, cur: Cursor)
    requires ChildOk(c) && base % PageSize == 0 && mbase % PageSize == 0
    requires cur.fileOffset == base + f && cur.memoryAddress == mbase + m
    ensures Step(c, headerSize, cur).fileOffset == base + TileStep(c, headerSize, base, f, m).0
    ensures Step(c, headerSize, cur).memoryAddress == mbase + TileStep(c, headerSize, base, f, m).1
  {
    var a := c.Alignment();
    ChildAlignmentDividesPage(c);
    AlignedDivides(base, a, PageSize);
    AlignedDivides(mbase, a, PageSize);
    RoundUpShift(base, f, a);
    RoundUpShift(mbase, m, a);
  }

  /** Children visited from a page-aligned start end where the segment's own
      tiling says, shifted by the start. */
  lemma {:induction false} VisitChildrenTiles(cs: seq<Child>, headerSize: nat, base: nat, mbase: nat,
                                              f: nat, m: nat, cur: Cursor)
    requires ChildrenOk(cs) && base % PageSize == 0 && mbase % PageSize == 0
    requires cur.fileOffset == base + f && cur.memoryAddress == mbase + m
    ensures VisitChildren(cs, headerSize, cur).fileOffset == base + Tile(cs, headerSize, base, f, m).0
    ensures VisitChildren(cs, headerSize, cur).memoryAddress == mbase + Tile(cs, headerSize, base, f, m).1
    decreases |cs|
  {
    if |cs| > 0 {
      var t := TileStep(cs[0], headerSize, base, f, m);
      StepTiles(cs[0], headerSize, base, mbase, f, m, cur);
      VisitChildrenTiles(cs[1..], headerSize, base, mbase, t.0, t.1, Step(cs[0], headerSize, cur));
    }
  }

  /** The assertions closing VisitMachOSegment: a segment ends FileSize past
      its file offset and MemorySize past its memory address. */
  lemma VisitSegmentEnds(s: Segment, headerSize: nat, cur: Cursor, r: Cursor, here: Placement)
    requires ChildrenOk(s.contents) && r == VisitSegment(s, headerSize, cur)
    requires here == r.segments[|cur.segments|]
    ensures r.fileOffset == here.fileOffset + FileSize(s, headerSize, here.fileOffset)
    ensures r.memoryAddress == here.memoryAddress + MemorySize(s, headerSize, here.fileOffset)
  {
    assert here == Placement(RoundUp(cur.fileOffset, PageSize), RoundUp(cur.memoryAddress, PageSize));
    var start := Cursor(here.fileOffset, here.memoryAddress, cur.addressMap, cur.segments + [here], cur.sections);
    var inner := VisitChildren(s.contents, headerSize, start);
    VisitChildrenTiles(s.contents, headerSize, here.fileOffset, here.memoryAddress, 0, 0, start);
    var t := Tile(s.contents, headerSize, here.fileOffset, 0, 0);
    SegmentEndArithmetic(here, t.0, t.1, inner, r, FileSize(s, headerSize, here.fileOffset),
                         MemorySize(s, headerSize, here.fileOffset), PadFileSizeToAlignment(s));
  }

  /** The rounding step of VisitSegmentEnds, on numbers alone. */
  lemma SegmentEndArithmetic(here: Placement, f: nat, m: nat, inner: Cursor, r: Cursor,
                             fileSize: nat, memorySize: nat, pad: bool)
    requires here.fileOffset % PageSize == 0 && here.memoryAddress % PageSize == 0
    requires inner.fileOffset == here.fileOffset + f && inner.memoryAddress == here.memoryAddress + m
    requires r.fileOffset == (if pad then RoundUp(inner.fileOffset, PageSize) else inner.fileOffset)
    requires r.memoryAddress == RoundUp(inner.memoryAddress, PageSize)
    requires fileSize == (if pad then RoundUp(f, PageSize) else f) && memorySize == RoundUp(m, PageSize)
    ensures r.fileOffset == here.fileOffset + fileSize && r.memoryAddress == here.memoryAddress + memorySize
  {
    RoundUpShift(here.fileOffset, f, PageSize);
    RoundUpShift(here.memoryAddress, m, PageSize);
  }

  /** Every entry of `addressMap` from index `k` on is a real address. */
  predicate PositiveFrom(addressMap: seq<nat>, k: nat) {
    forall i :: k <= i < |addressMap| ==> addressMap[i] > 0
  }

  /** Sections visited at a non-zero memory address get non-zero addresses,
      since addresses only grow. */
  lemma {:induction false} ChildrenAddressesPositive(cs: seq<Child>, headerSize: nat, cur: Cursor)
    requires ChildrenOk(cs) && cur.memoryAddress > 0
    ensures PositiveFrom(VisitChildren(cs, headerSize, cur).addressMap, |cur.addressMap|)
    decreases |cs|
  {
    if |cs| > 0 {
      var next := Step(cs[0], headerSize, cur);
      ChildrenAddressesPositive(cs[1..], headerSize, next);
      var r := VisitChildren(cs, headerSize, cur);
      assert r == VisitChildren(cs[1..], headerSize, next);
      forall i | |cur.addressMap| <= i < |r.addressMap| ensures r.addressMap[i] > 0 {
        if i < |next.addressMap| {
          assert r.addressMap[i] == r.addressMap[..|next.addressMap|][i];
          assert next.addressMap[i] >= cur.memoryAddress;
        }
      }
    }
  }

  /** The visitor's state before the first segment: nothing placed yet and the
      address map holding only NO_SECT's 0. */
  function Start(): (r: Cursor)
    ensures r.fileOffset == 0 && r.memoryAddress == 0 && |r.addressMap| == 1 && r.addressMap[NO_SECT] == 0
  {
    Cursor(0, 0, [0], [], [])
  }

  /** The initial segment, visited at 0, starts with the header; with a
      non-empty header every section after it gets a non-zero address. */
  lemma InitialSegmentAddresses(s: Segment, headerSize: nat, cur: Cursor)
    requires ChildrenOk(s.contents) && IsInitial(s) && headerSize > 0
    ensures var r := VisitSegment(s, headerSize, cur);
            r.memoryAddress > 0 && PositiveFrom(r.addressMap, |cur.addressMap|)
  {
    var here := Placement(RoundUp(cur.fileOffset, PageSize), RoundUp(cur.memoryAddress, PageSize));
    var start := Cursor(here.fileOffset, here.memoryAddress, cur.addressMap, cur.segments + [here], cur.sections);
    var afterHeader := Step(s.contents[0], headerSize, start);
    assert afterHeader.memoryAddress >= headerSize;
    ChildrenAddressesPositive(s.contents[1..], headerSize, afterHeader);
    assert VisitChildren(s.contents, headerSize, start) == VisitChildren(s.contents[1..], headerSize, afterHeader);
  }

  /** A segment visited past address 0 gives every section a non-zero
      address. */
  lemma SegmentAddressesPositive(s: Segment, headerSize: nat, cur: Cursor)
    requires ChildrenOk(s.contents) && cur.memoryAddress > 0
    ensures var r := VisitSegment(s, headerSize, cur);
            r.memoryAddress > 0 && r.segments[|cur.segments|].memoryAddress > 0 &&
            PositiveFrom(r.addressMap, |cur.addressMap|)
  {
    var here := Placement(RoundUp(cur.fileOffset, PageSize), RoundUp(cur.memoryAddress, PageSize));
    var start := Cursor(here.fileOffset, here.memoryAddress, cur.addressMap, cur.segments + [here], cur.sections);
    assert start.memoryAddress > 0;
    ChildrenAddressesPositive(s.contents, headerSize, start);
    var inner := VisitChildren(s.contents, headerSize, start);
    var r := VisitSegment(s, headerSize, cur);
    assert r.addressMap == inner.addressMap;
    forall i | |cur.addressMap| <= i < |r.addressMap| ensures r.addressMap[i] > 0 {
      assert inner.addressMap[i] > 0;
    }
    assert r.segments[|cur.segments|] == here;
    assert here.memoryAddress >= cur.memoryAddress;
  }

  lemma {:induction false} SegmentsAddressesPositive(segs: seq<Segment>, headerSize: nat, cur: Cursor)
    requires forall i :: 0 <= i < |segs| ==> ChildrenOk(segs[i].contents)
    requires cur.memoryAddress > 0
    ensures var r := VisitSegments(segs, headerSize, cur);
            PositiveFrom(r.addressMap, |cur.addressMap|) &&
            (forall i :: |cur.segments| <= i < |r.segments| ==> r.segments[i].memoryAddress > 0)
    decreases |segs|
  {
    if |segs| > 0 {
      var next := VisitSegment(segs[0], headerSize, cur);
      SegmentAddressesPositive(segs[0], headerSize, cur);
      SegmentsAddressesPositive(segs[1..], headerSize, next);
      var r := VisitSegments(segs, headerSize, cur);
      assert r == VisitSegments(segs[1..], headerSize, next);
      forall i | |cur.addressMap| <= i < |r.addressMap| ensures r.addressMap[i] > 0 {
        if i < |next.addressMap| {
          assert r.addressMap[i] == r.addressMap[..|next.addressMap|][i];
        }
      }
      forall i | |cur.segments| <= i < |r.segments| ensures r.segments[i].memoryAddress > 0 {
        if i < |next.segments| {
          assert r.segments[i] == r.segments[..|next.segments|][i];
        }
      }
    }
  }

  /** MachOHeader::ComputeOffsets: visiting the segments in command order,
      the initial one (holding the header) first, places it at file offset
      and address 0 and every other segment at a non-zero address, and
      yields an address map with one entry per section after NO_SECT that
      meets the checks of MachOSymbolTable::Finalize. */
  lemma ComputeOffsetsAddressMap(segs: seq<Segment>, headerSize: nat)
    requires forall i :: 0 <= i < |segs| ==> ChildrenOk(segs[i].contents)
    requires |segs| > 0 && IsInitial(segs[0]) && headerSize > 0
    ensures var r := VisitSegments(segs, headerSize, Start());
            |r.segments| == |segs| && r.segments[0] == Placement(0, 0) &&
            (forall i :: 1 <= i < |segs| ==> r.segments[i].memoryAddress > 0) &&
            |r.addressMap| == TotalSections(segs) + 1 &&
            MachOSymbols.AddressMapOk(r.addressMap)
  {
    var first := VisitSegment(segs[0], headerSize, Start());
    InitialSegmentAddresses(segs[0], headerSize, Start());
    SegmentsAddressesPositive(segs[1..], headerSize, first);
    var r := VisitSegments(segs, headerSize, Start());
    assert r == VisitSegments(segs[1..], headerSize, first);
    assert r.segments[0] == r.segments[..|first.segments|][0];
    forall i | 0 <= i < |r.addressMap| ensures i == NO_SECT <==> r.addressMap[i] == 0 {
      if i < |first.addressMap| {
        assert r.addressMap[i] == r.addressMap[..|first.addressMap|][i];
        if i < 1 {
          assert first.addressMap[i] == first.addressMap[..1][i];
        }
      }
    }
  }
}
