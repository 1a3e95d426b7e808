/** MachOWriter::AssertConsistency (runtime/vm/mach_o.cc:1954-1983): the
    debug-mode check that a snapshot and its separate debugging information
    agree on every labelled symbol used for relocation. A failed ASSERT or
    FATAL is modelled as a `false` verdict. */
module MachOConsistency {
  import opened Wrappers
  import opened MachOFormat
  import opened MachOSymbols
  import opened MachOStrings

  /** The check for one label: either both tables have a symbol for it,
      with the same value, or neither has. */
  predicate LabelAgrees(s: SymbolTable, d: SymbolTable, l: int)
    requires Inv(s) && Inv(d) && l > 0
  {
    match FindLabel(s, l)
    case Some(x) => FindLabel(d, l).Some? && FindLabel(d, l).value.value == x.value
    case None => FindLabel(d, l).None?
  }

  /** Every label from 1 up to (excluding) `limit` agrees. */
  predicate AgreeBelow(s: SymbolTable, d: SymbolTable, limit: int)
    requires Inv(s) && Inv(d)
  {
    forall l :: 1 <= l < limit ==> LabelAgrees(s, d, l)
  }

  /** The check as written: the largest labels must be equal, and the loop
      runs over 1 <= i < max_label, so the largest label itself is never
      compared. */
  method AssertConsistencyAsWritten(s: SymbolTable, d: SymbolTable) returns (ok: bool)
    requires Inv(s) && Inv(d)
    ensures ok <==> s.maxLabel == d.maxLabel && AgreeBelow(s, d, s.maxLabel)
  {
    if s.maxLabel != d.maxLabel {
      return false;
    }
    var i := 1;
    while i < s.maxLabel
      invariant 1 <= i && (s.maxLabel >= 1 ==> i <= s.maxLabel)
      invariant AgreeBelow(s, d, i)
    {
      if !LabelAgrees(s, d, i) {
        return false;
      }
      i := i + 1;
    }
    return true;
  }

  /** The check with the loop bound corrected to 1 <= i <= max_label. */
  method AssertConsistency(s: SymbolTable, d: SymbolTable) returns (ok: bool)
    requires Inv(s) && Inv(d)
    ensures ok <==> s.maxLabel == d.maxLabel && AgreeBelow(s, d, s.maxLabel + 1)
  {
    if s.maxLabel != d.maxLabel {
      return false;
    }
    var i := 1;
    while i <= s.maxLabel
      invariant 1 <= i <= s.maxLabel + 1
      invariant AgreeBelow(s, d, i)
    {
      if !LabelAgrees(s, d, i) {
        return false;
      }
      i := i + 1;
    }
    return true;
  }

  /** No table has a symbol for a label above its largest one. */
  lemma NoLabelAbove(t: SymbolTable, l: int)
    requires Inv(t) && l > t.maxLabel && l > 0
    ensures FindLabel(t, l).None?
  {
  }

  /** What the check is for: with the corrected bound, passing it means the
      two tables agree on every label whatsoever, and agreeing on every label
      (with equal largest labels) means passing it. */
  lemma ConsistencyMeansAllLabels(s: SymbolTable, d: SymbolTable)
    requires Inv(s) && Inv(d) && s.maxLabel == d.maxLabel
    ensures AgreeBelow(s, d, s.maxLabel + 1) <==> forall l :: l > 0 ==> LabelAgrees(s, d, l)
  {
    if AgreeBelow(s, d, s.maxLabel + 1) {
      forall l | l > 0 ensures LabelAgrees(s, d, l) {
        if l > s.maxLabel {
          NoLabelAbove(s, l);
          NoLabelAbove(d, l);
        }
      }
    }
  }

  /** Two tables with one symbol each, under label 1 (so 1 is also the
      largest label), at different addresses. */
  function OneLabelTable(value: nat): (r: SymbolTable)
    requires value < MachOSymbols.WordModulus
    ensures Inv(r) && r.maxLabel == 1 && FindLabel(r, 1).Some? && FindLabel(r, 1).value.value == value
  {
    var t := NewTable();
    var e := LabelledEntry(value);
    var r := AddSymbol(t, e);
    assert r.byLabel == map[1 := 1];
    assert Records(r, 0, e);
    FindStored(r, 1, 0);
    r
  }

  /** A section symbol with label 1. */
  function LabelledEntry(value: nat): (e: Entry)
    requires value < MachOSymbols.WordModulus
    ensures EntryOk(e) && e.labelId == 1 && e.value == value
  {
    assert !IsStab(N_SECT_EXT) && IsSectionType(N_SECT_EXT);
    assert "a" != Space;
    Entry("a", N_SECT_EXT, 1, 0, value, 1)
  }

  /** The as-written check passes two tables whose only labelled symbols
      have different values, since the one label is the largest one; the
      corrected check rejects them. */
  lemma AsWrittenMissesLargestLabel()
    ensures var s := OneLabelTable(0);
            var d := OneLabelTable(0x10);
            s.maxLabel == d.maxLabel && AgreeBelow(s, d, s.maxLabel) &&
            !LabelAgrees(s, d, 1) && !AgreeBelow(s, d, s.maxLabel + 1)
  {
    var s := OneLabelTable(0);
    var d := OneLabelTable(0x10);
    assert !LabelAgrees(s, d, 1);
  }
}
