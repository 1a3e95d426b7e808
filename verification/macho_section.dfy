/** MachOSection and its portions (runtime/vm/mach_o.cc:533-692): a section
    is a sequence of byte ranges ("portions") appended one after another, each
    aligned to the section's alignment. Portion bytes are opaque; relocations
    are only recorded as present or absent. */
module MachOSection {
  import opened Wrappers
  import opened Alignment
  import opened CStrings
  import opened MachOFormat
  import opened MachOStream

  /** SharedObjectWriter::SymbolData::Type. */
  datatype SymbolKind = FunctionSymbol | SectionSymbol | ObjectSymbol

  /** A symbol inside a portion: its name, kind, offset in the portion, size
      and relocation label. */
  datatype SymbolData = SymbolData(name: CString, kind: SymbolKind, offset: nat, size: nat, labelId: int)

  datatype Portion = Portion(
    offset: nat,
    symbolName: Option<CString>,
    labelId: int,
    bytes: Option<seq<Byte>>,
    size: nat,
    hasRelocations: bool,
    symbols: Option<seq<SymbolData>>)
  {
    function End(): nat { offset + size }

    /** Portion::ContainsSymbols: the portion is named or carries symbols. */
    predicate ContainsSymbols() {
      symbolName.Some? || (symbols.Some? && |symbols.value| > 0)
    }
  }

  datatype Section = Section(
    name: CString,
    sectionType: nat,
    attributes: nat,
    hasContents: bool,
    alignment: nat,
    portions: seq<Portion>)

  /** Each portion starts at the end of the one before it rounded up to the
      alignment, the first at 0. */
  predicate LaidOut(ps: seq<Portion>, alignment: nat) {
    alignment > 0 &&
    (|ps| > 0 ==> ps[0].offset == 0) &&
    forall i :: 0 < i < |ps| ==> ps[i].offset == RoundUp(ps[i - 1].End(), alignment)
  }

  /** What AddPortion's assertions demand of every portion: a named portion
      has a label, a section with contents has bytes for each portion, only
      portions with bytes carry relocations, and either all portions have
      bytes or none does. */
  predicate PortionsConsistent(ps: seq<Portion>, hasContents: bool) {
    forall i :: 0 <= i < |ps| ==>
      (ps[i].symbolName.Some? ==> ps[i].labelId > 0) &&
      (hasContents ==> ps[i].bytes.Some?) &&
      (ps[i].bytes.None? ==> !ps[i].hasRelocations) &&
      (ps[i].bytes.Some? <==> ps[0].bytes.Some?)
  }

  /** The invariants the constructor's and AddPortion's assertions keep. */
  predicate WellFormed(s: Section) {
    |s.name| <= NameFieldSize &&
    IsPowerOfTwo(s.alignment) &&
    s.sectionType < 0x100 && s.attributes % 0x100 == 0 &&
    (IsZerofillType(s.sectionType) ==> !s.hasContents) &&
    LaidOut(s.portions, s.alignment) &&
    PortionsConsistent(s.portions, s.hasContents)
  }

  lemma PowerOfTwoPositive(a: nat)
    requires IsPowerOfTwo(a)
    ensures a > 0
  {
  }

  /** The MachOSection constructor, with its zerofill check as evidently
      intended: a zerofill section (S_ZEROFILL or S_GB_ZEROFILL) may not have
      file contents. */
  function NewSection(name: CString, sectionType: nat, attributes: nat, hasContents: bool, alignment: nat): (r: Section)
    requires |name| <= NameFieldSize && IsPowerOfTwo(alignment)
    requires sectionType < 0x100 && attributes % 0x100 == 0
    requires IsZerofillType(sectionType) ==> !hasContents
    ensures WellFormed(r) && r.portions == []
    ensures r.name == name && r.hasContents == hasContents && r.alignment == alignment
    ensures r.sectionType == sectionType && r.attributes == attributes
  {
    PowerOfTwoPositive(alignment);
    Section(name, sectionType, attributes, hasContents, alignment, [])
  }

  /** Where the next portion goes: the end of the last one, rounded up. */
  function NextOffset(s: Section): (r: nat)
    requires s.alignment > 0
    ensures r % s.alignment == 0
    ensures forall i :: 0 <= i < |s.portions| && LaidOut(s.portions, s.alignment) ==> s.portions[i].End() <= r
  {
    var end := if |s.portions| == 0 then 0 else s.portions[|s.portions| - 1].End();
    PortionsOrdered(s.portions, s.alignment);
    RoundUp(end, s.alignment)
  }

  /** AddPortion: the new portion is placed at the least aligned offset at or
      after the end of the previous one, and nothing else changes. */
  function AddPortion(s: Section, bytes: Option<seq<Byte>>, size: nat, hasRelocations: bool,
                      symbols: Option<seq<SymbolData>>, symbolName: Option<CString>, labelId: int): (r: Section)
    requires WellFormed(s)
    requires symbolName.Some? ==> labelId > 0
    requires s.hasContents ==> bytes.Some?
    requires bytes.None? ==> !hasRelocations
    requires |s.portions| > 0 ==> (s.portions[0].bytes.Some? <==> bytes.Some?)
    ensures WellFormed(r)
    ensures r == s.(portions := r.portions) && |r.portions| == |s.portions| + 1
    ensures r.portions[..|s.portions|] == s.portions
    ensures var p := r.portions[|s.portions|];
            p == Portion(p.offset, symbolName, labelId, bytes, size, hasRelocations, symbols) &&
            p.offset % s.alignment == 0 &&
            (|s.portions| == 0 ==> p.offset == 0) &&
            (|s.portions| > 0 ==> s.portions[|s.portions| - 1].End() <= p.offset < s.portions[|s.portions| - 1].End() + s.alignment)
  {
    var p := Portion(NextOffset(s), symbolName, labelId, bytes, size, hasRelocations, symbols);
    AppendKeepsLaidOut(s.portions, p, s.alignment);
    AppendKeepsConsistent(s.portions, p, s.hasContents);
    var r := s.(portions := s.portions + [p]);
    assert r.portions[..|s.portions|] == s.portions;
    r
  }

  lemma AppendKeepsLaidOut(ps: seq<Portion>, p: Portion, alignment: nat)
    requires LaidOut(ps, alignment)
    requires p.offset == RoundUp(if |ps| == 0 then 0 else ps[|ps| - 1].End(), alignment)
    ensures LaidOut(ps + [p], alignment)
  {
    var qs := ps + [p];
    forall i | 0 < i < |qs| ensures qs[i].offset == RoundUp(qs[i - 1].End(), alignment) {
      if i < |ps| {
        assert qs[i] == ps[i] && qs[i - 1] == ps[i - 1];
      }
    }
  }

  lemma AppendKeepsConsistent(ps: seq<Portion>, p: Portion, hasContents: bool)
    requires PortionsConsistent(ps, hasContents)
    requires p.symbolName.Some? ==> p.labelId > 0
    requires hasContents ==> p.bytes.Some?
    requires p.bytes.None? ==> !p.hasRelocations
    requires |ps| > 0 ==> (ps[0].bytes.Some? <==> p.bytes.Some?)
    ensures PortionsConsistent(ps + [p], hasContents)
  {
    var qs := ps + [p];
    forall i | 0 <= i < |qs|
      ensures (qs[i].symbolName.Some? ==> qs[i].labelId > 0) &&
              (hasContents ==> qs[i].bytes.Some?) &&
              (qs[i].bytes.None? ==> !qs[i].hasRelocations) &&
              (qs[i].bytes.Some? <==> qs[0].bytes.Some?)
    {
      if i < |ps| {
        assert qs[i] == ps[i];
      }
      if |ps| > 0 {
        assert qs[0] == ps[0];
      }
    }
  }

  /** In a laid-out section a portion ends before any later one starts. */
  lemma {:induction false} PortionsOrdered(ps: seq<Portion>, alignment: nat)
    ensures LaidOut(ps, alignment) ==>
              forall i, j :: 0 <= i < j < |ps| ==> ps[i].End() <= ps[j].offset
    ensures LaidOut(ps, alignment) ==>
              forall i :: 0 <= i < |ps| ==> ps[i].End() <= ps[|ps| - 1].End()
    decreases |ps|
  {
    if LaidOut(ps, alignment) && |ps| > 1 {
      var pre := ps[..|ps| - 1];
      assert LaidOut(pre, alignment);
      PortionsOrdered(pre, alignment);
      var last := |ps| - 1;
      assert ps[last - 1].End() <= ps[last].offset;
      forall i, j | 0 <= i < j < |ps| ensures ps[i].End() <= ps[j].offset {
        if j < last {
          assert pre[i] == ps[i] && pre[j] == ps[j];
        } else {
          assert pre[i].End() <= pre[last - 1].End();
        }
      }
    }
  }

  /** SelfMemorySize: the end of the last portion. Every portion lies inside it. */
  function SelfMemorySize(s: Section): (r: nat)
    requires |s.portions| > 0
    ensures LaidOut(s.portions, s.alignment) ==>
              forall i :: 0 <= i < |s.portions| ==> s.portions[i].offset + s.portions[i].size <= r
  {
    PortionsOrdered(s.portions, s.alignment);
    s.portions[|s.portions| - 1].End()
  }

  /** WriteSelf's position checks: starting from `start`, each portion is
      written after aligning the stream, and the stream must then stand at
      `fileOffset + portion.offset`. None when a check fails; otherwise the
      position after the last portion. */
  function WriteEnd(ps: seq<Portion>, alignment: nat, fileOffset: nat, start: nat): (r: Option<nat>)
    requires alignment > 0
  {
    if |ps| == 0 then Some(start)
    else
      var at := RoundUp(start, alignment);
      if at != fileOffset + ps[0].offset || ps[0].bytes.None? then None
      else WriteEnd(ps[1..], alignment, fileOffset, at + ps[0].size)
  }

  /** Writing a laid-out section with contents at an aligned file offset
      passes every position check and ends at fileOffset + SelfMemorySize,
      which is what the write visitor requires of SelfFileSize. */
  lemma WriteSelfMatchesLayout(s: Section, fileOffset: nat)
    requires WellFormed(s) && s.hasContents && |s.portions| > 0
    requires fileOffset % s.alignment == 0
    ensures WriteEnd(s.portions, s.alignment, fileOffset, fileOffset) == Some(fileOffset + SelfMemorySize(s))
  {
    WriteEndFrom(s.portions, 0, s.alignment, fileOffset);
  }

  lemma {:induction false} WriteEndFrom(ps: seq<Portion>, k: nat, alignment: nat, fileOffset: nat)
    requires alignment > 0 && 0 <= k < |ps| && LaidOut(ps, alignment)
    requires fileOffset % alignment == 0
    requires forall i :: 0 <= i < |ps| ==> ps[i].bytes.Some?
    ensures WriteEnd(ps[k..], alignment, fileOffset, if k == 0 then fileOffset else fileOffset + ps[k - 1].End())
            == Some(fileOffset + ps[|ps| - 1].End())
    decreases |ps| - k
  {
    var start := if k == 0 then fileOffset else fileOffset + ps[k - 1].End();
    if k == 0 {
      RoundUpShift(fileOffset, 0, alignment);
    } else {
      RoundUpShift(fileOffset, ps[k - 1].End(), alignment);
    }
    assert RoundUp(start, alignment) == fileOffset + ps[k].offset;
    assert ps[k..][0] == ps[k];
    assert ps[k..][1..] == ps[k + 1..];
    if k + 1 < |ps| {
      WriteEndFrom(ps, k + 1, alignment, fileOffset);
    } else {
      assert ps[k + 1..] == [];
    }
  }

  /** FindPortion: the first portion named `name`, by index. */
  function FindPortion(ps: seq<Portion>, name: CString): (r: Option<nat>)
    ensures r.Some? ==> r.value < |ps| && ps[r.value].symbolName == Some(name) &&
                        forall j :: 0 <= j < r.value ==> ps[j].symbolName != Some(name)
    ensures r.None? <==> forall j :: 0 <= j < |ps| ==> ps[j].symbolName != Some(name)
  {
    if |ps| == 0 then None
    else if ps[0].symbolName == Some(name) then Some(0)
    else
      match FindPortion(ps[1..], name)
      case None => None
      case Some(i) => Some(i + 1)
  }

  /** MachOSection::ContainsSymbols. */
  function ContainsSymbols(ps: seq<Portion>): (r: bool)
    ensures r <==> exists i :: 0 <= i < |ps| && ps[i].ContainsSymbols()
  {
    if |ps| == 0 then false
    else if ps[0].ContainsSymbols() then true
    else
      var rest := ContainsSymbols(ps[1..]);
      assert rest <==> exists i :: 0 <= i < |ps| && i > 0 && ps[i].ContainsSymbols() by {
        if rest {
          var i :| 0 <= i < |ps[1..]| && ps[1..][i].ContainsSymbols();
          assert ps[i + 1] == ps[1..][i];
        }
        if exists i :: 0 <= i < |ps| && i > 0 && ps[i].ContainsSymbols() {
          var i :| 0 <= i < |ps| && i > 0 && ps[i].ContainsSymbols();
          assert ps[1..][i - 1] == ps[i];
        }
      }
      rest
  }
}
