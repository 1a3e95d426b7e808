/** The jump-target label of the regular expression compiler and the global
    matching modes of its macro assembler (runtime/vm/regexp/regexp_assembler.h). */
module RegExpLabel {
  import opened Wrappers

  /** BlockLabel's state. `linkedFlag` is the stored `is_linked_` field; the
      label reports itself linked only while it is unbound. */
  datatype BlockLabel = BlockLabel(pos: int, isBound: bool, linkedFlag: bool) {
    predicate IsLinked() { !isBound && linkedFlag }

    /** The destructor's assertion: a label still linked has jumps that were
        never resolved. */
    predicate MayBeDestroyed() { !IsLinked() }
  }

  /** A new label: position -1, neither bound nor linked. */
  const Fresh := BlockLabel(-1, false, false)

  function Unuse(l: BlockLabel): (r: BlockLabel)
    ensures r == Fresh && !r.IsLinked() && !r.isBound
  {
    BlockLabel(-1, false, false)
  }

  function BindTo(l: BlockLabel, pos: int): (r: BlockLabel)
    ensures r.isBound && r.pos == pos && !r.IsLinked() && r.MayBeDestroyed()
  {
    BlockLabel(pos, true, false)
  }

  /** LinkTo asserts that the label is not bound yet. */
  function LinkTo(l: BlockLabel, pos: int): (r: BlockLabel)
    requires !l.isBound
    ensures r.IsLinked() && r.pos == pos && !r.isBound && !r.MayBeDestroyed()
  {
    l.(pos := pos, linkedFlag := true)
  }

  function SetLinked(l: BlockLabel): (r: BlockLabel)
    ensures l.isBound ==> r == l
    ensures !l.isBound ==> r.IsLinked() && r.pos == l.pos
  {
    if !l.isBound then l.(linkedFlag := true) else l
  }

  datatype LabelOp = UnuseOp | BindToOp(bindPos: int) | LinkToOp(linkPos: int) | SetLinkedOp

  /** The label after a sequence of operations from `l`, or None if some
      LinkTo meets a bound label (the assertion fails). */
  function Run(l: BlockLabel, ops: seq<LabelOp>): Option<BlockLabel>
    decreases |ops|
  {
    if |ops| == 0 then Some(l)
    else
      match Run(l, ops[..|ops| - 1])
      case None => None
      case Some(m) =>
        match ops[|ops| - 1]
        case UnuseOp => Some(Unuse(m))
        case BindToOp(p) => Some(BindTo(m, p))
        case LinkToOp(p) => if m.isBound then None else Some(LinkTo(m, p))
        case SetLinkedOp => Some(SetLinked(m))
  }

  predicate Resets(op: LabelOp) { op.UnuseOp? || op.BindToOp? }
  predicate Links(op: LabelOp) { op.LinkToOp? || op.SetLinkedOp? }

  /** Some BindTo is not followed by an Unuse. */
  predicate BoundBy(ops: seq<LabelOp>) {
    exists i :: 0 <= i < |ops| && ops[i].BindToOp? && forall j :: i < j < |ops| ==> !ops[j].UnuseOp?
  }

  /** Some LinkTo or SetLinked is not followed by an Unuse or a BindTo. */
  predicate LinkedBy(ops: seq<LabelOp>) {
    exists i :: 0 <= i < |ops| && Links(ops[i]) && forall j :: i < j < |ops| ==> !Resets(ops[j])
  }

  /** From a fresh label, whatever operations succeed: the label is bound
      exactly when some BindTo was not undone by an Unuse, and it is linked
      exactly when it is unbound and some LinkTo or SetLinked came after the
      last Unuse or BindTo. */
  lemma {:induction false} RunFromFresh(ops: seq<LabelOp>)
    requires Run(Fresh, ops).Some?
    ensures Run(Fresh, ops).value.isBound <==> BoundBy(ops)
    ensures Run(Fresh, ops).value.IsLinked() <==> !BoundBy(ops) && LinkedBy(ops)
    decreases |ops|
  {
    if |ops| > 0 {
      var pre := ops[..|ops| - 1];
      var last := ops[|ops| - 1];
      assert ops == pre + [last];
      RunFromFresh(pre);
      match last
      case UnuseOp =>
        NotBoundAfterUnuse(pre);
        NotLinkedAfterReset(pre, last);
      case BindToOp(p) =>
        assert ops[|ops| - 1].BindToOp?;
      case LinkToOp(p) =>
        BoundByExtend(pre, last);
        assert Links(ops[|ops| - 1]);
      case SetLinkedOp =>
        BoundByExtend(pre, last);
        assert Links(ops[|ops| - 1]);
    }
  }

  /** An operation other than Unuse keeps an earlier BindTo in force, and one
      other than BindTo adds no new one. */
  lemma BoundByExtend(pre: seq<LabelOp>, last: LabelOp)
    requires !last.UnuseOp? && !last.BindToOp?
    ensures BoundBy(pre + [last]) <==> BoundBy(pre)
  {
    var ops := pre + [last];
    if BoundBy(pre) {
      var i :| 0 <= i < |pre| && pre[i].BindToOp? && forall j :: i < j < |pre| ==> !pre[j].UnuseOp?;
      assert ops[i].BindToOp? && forall j :: i < j < |ops| ==> !ops[j].UnuseOp?;
    }
    if BoundBy(ops) {
      var i :| 0 <= i < |ops| && ops[i].BindToOp? && forall j :: i < j < |ops| ==> !ops[j].UnuseOp?;
      assert i < |pre|;
      forall j | i < j < |pre| ensures !pre[j].UnuseOp? {
        assert pre[j] == ops[j];
      }
      assert pre[i] == ops[i];
    }
  }

  lemma NotBoundAfterUnuse(pre: seq<LabelOp>)
    ensures !BoundBy(pre + [UnuseOp])
  {
    var ops := pre + [UnuseOp];
    forall i | 0 <= i < |ops| && ops[i].BindToOp?
      ensures exists j :: i < j < |ops| && ops[j].UnuseOp?
    {
      assert ops[|ops| - 1].UnuseOp?;
    }
  }

  lemma NotLinkedAfterReset(pre: seq<LabelOp>, last: LabelOp)
    requires Resets(last)
    ensures !LinkedBy(pre + [last])
  {
    var ops := pre + [last];
    forall i | 0 <= i < |ops| && Links(ops[i])
      ensures exists j :: i < j < |ops| && Resets(ops[j])
    {
      assert Resets(ops[|ops| - 1]);
    }
  }

  datatype GlobalMode = NOT_GLOBAL | GLOBAL | GLOBAL_NO_ZERO_LENGTH_CHECK | GLOBAL_UNICODE

  predicate Global(m: GlobalMode) { m != NOT_GLOBAL }
  predicate GlobalWithZeroLengthCheck(m: GlobalMode) { m == GLOBAL || m == GLOBAL_UNICODE }
  predicate GlobalUnicode(m: GlobalMode) { m == GLOBAL_UNICODE }

  /** The three predicates are nested: unicode global matching checks for
      empty matches, which only global matching does. */
  lemma GlobalModePredicates(m: GlobalMode)
    ensures !Global(m) <==> m == NOT_GLOBAL
    ensures GlobalUnicode(m) ==> GlobalWithZeroLengthCheck(m)
    ensures GlobalWithZeroLengthCheck(m) ==> Global(m)
    ensures Global(m) && !GlobalWithZeroLengthCheck(m) <==> m == GLOBAL_NO_ZERO_LENGTH_CHECK
  {
  }
}
