/** MachOHeader::FinalizeCommands (runtime/vm/mach_o.cc:2282-2425): the
    commands are put in their final order (header-only commands, the text
    segment, segments with symbols, the other segments, a new __LINKEDIT
    segment, then the commands with contents in it), and the sections,
    which keep their order within each segment, are renumbered to follow the
    new segment order.

    Renumbering is a stable partition of the sections by the rank of the
    segment holding them (0 for the text segment, 1 for a segment with
    symbols, 2 for the rest): section x keeps its relative order among the
    sections of the same rank. */
module MachOReorder {
  import opened Wrappers
  import opened CStrings
  import opened MachOFormat
  import MachOSection
  import MachOSymbols
  import opened MachOCommands

  /** The number of ranks. */
  const RankCount: nat := 3

  predicate RanksOk(ranks: seq<nat>) {
    forall i :: 0 <= i < |ranks| ==> ranks[i] < RankCount
  }

  /** The positions below `k` whose rank is `r`, in increasing order. */
  function IndicesUpTo(ranks: seq<nat>, r: nat, k: nat): (res: seq<nat>)
    requires k <= |ranks|
    ensures |res| <= k
    ensures forall j :: 0 <= j < |res| ==> res[j] < k && ranks[res[j]] == r
    decreases k
  {
    if k == 0 then []
    else IndicesUpTo(ranks, r, k - 1) + (if ranks[k - 1] == r then [k - 1] else [])
  }

  function Indices(ranks: seq<nat>, r: nat): seq<nat> {
    IndicesUpTo(ranks, r, |ranks|)
  }

  /** Looking further only appends. */
  lemma {:induction false} IndicesPrefix(ranks: seq<nat>, r: nat, k: nat, k': nat)
    requires k <= k' <= |ranks|
    ensures |IndicesUpTo(ranks, r, k)| <= |IndicesUpTo(ranks, r, k')|
    ensures IndicesUpTo(ranks, r, k')[..|IndicesUpTo(ranks, r, k)|] == IndicesUpTo(ranks, r, k)
    decreases k' - k
  {
    if k < k' {
      IndicesPrefix(ranks, r, k, k' - 1);
      var a := IndicesUpTo(ranks, r, k);
      var b := IndicesUpTo(ranks, r, k' - 1);
      var c := IndicesUpTo(ranks, r, k');
      assert c[..|b|] == b;
      assert c[..|a|] == c[..|b|][..|a|];
    }
  }

  /** Every position is counted under exactly one rank. */
  lemma {:induction false} IndicesPartition(ranks: seq<nat>, k: nat)
    requires RanksOk(ranks) && k <= |ranks|
    ensures |IndicesUpTo(ranks, 0, k)| + |IndicesUpTo(ranks, 1, k)| + |IndicesUpTo(ranks, 2, k)| == k
    decreases k
  {
    if k > 0 {
      IndicesPartition(ranks, k - 1);
    }
  }

  /** Where the sections of rank `r` start in the new numbering: after all
      sections of lower rank. */
  function RankStart(ranks: seq<nat>, r: nat): (res: nat)
    requires r < RankCount
  {
    if r == 0 then 0
    else if r == 1 then |Indices(ranks, 0)|
    else |Indices(ranks, 0)| + |Indices(ranks, 1)|
  }

  /** The new order of the old positions: the stable partition by rank. */
  function Order(ranks: seq<nat>): seq<nat> {
    Indices(ranks, 0) + Indices(ranks, 1) + Indices(ranks, 2)
  }

  /** The new (0-based) position of old position `x`: the start of its
      rank, plus the number of sections of the same rank before it. */
  function NewPos(ranks: seq<nat>, x: nat): nat
    requires RanksOk(ranks) && x < |ranks|
  {
    RankStart(ranks, ranks[x]) + |IndicesUpTo(ranks, ranks[x], x)|
  }

  /** The new order holds every old position once: it has as many entries as
      there are positions, all of them in range. */
  lemma OrderInRange(ranks: seq<nat>)
    requires RanksOk(ranks)
    ensures |Order(ranks)| == |ranks|
    ensures forall q :: 0 <= q < |ranks| ==> Order(ranks)[q] < |ranks|
  {
    IndicesPartition(ranks, |ranks|);
    var o := Order(ranks);
    forall q | 0 <= q < |ranks| ensures o[q] < |ranks| {
      var i0 := Indices(ranks, 0);
      var i1 := Indices(ranks, 1);
      var i2 := Indices(ranks, 2);
      if q < |i0| {
        assert o[q] == i0[q];
      } else if q < |i0| + |i1| {
        assert o[q] == i1[q - |i0|];
      } else {
        assert o[q] == i2[q - |i0| - |i1|];
      }
    }
  }

  /** Old position `x` sits at NewPos(x) in the new order. */
  lemma OrderAtNewPos(ranks: seq<nat>, x: nat)
    requires RanksOk(ranks) && x < |ranks|
    ensures NewPos(ranks, x) < |Order(ranks)| && Order(ranks)[NewPos(ranks, x)] == x
  {
    var r := ranks[x];
    var before := IndicesUpTo(ranks, r, x);
    IndicesPrefix(ranks, r, x + 1, |ranks|);
    var upto := IndicesUpTo(ranks, r, x + 1);
    assert upto == before + [x];
    var all := Indices(ranks, r);
    assert all[..|upto|] == upto;
    assert all[|before|] == upto[|before|] == x;
    var i0 := Indices(ranks, 0);
    var i1 := Indices(ranks, 1);
    var o := Order(ranks);
    if r == 0 {
      assert o[|before|] == i0[|before|];
    } else if r == 1 {
      assert o[|i0| + |before|] == i1[|before|];
    } else {
      assert o[|i0| + |i1| + |before|] == Indices(ranks, 2)[|before|];
    }
  }

  /** The position of the j-th index of rank `r` counts the j indices of
      that rank before it. */
  lemma {:induction false} IndicesCountBefore(ranks: seq<nat>, r: nat, k: nat, j: nat)
    requires k <= |ranks| && j < |IndicesUpTo(ranks, r, k)|
    ensures |IndicesUpTo(ranks, r, IndicesUpTo(ranks, r, k)[j])| == j
    decreases k
  {
    var prev := IndicesUpTo(ranks, r, k - 1);
    var cur := IndicesUpTo(ranks, r, k);
    if j < |prev| {
      assert cur[j] == prev[j];
      IndicesCountBefore(ranks, r, k - 1, j);
    } else {
      assert cur[j] == k - 1;
    }
  }

  /** The entry at new position q lands back at q. */
  lemma NewPosAtOrder(ranks: seq<nat>, q: nat)
    requires RanksOk(ranks) && q < |ranks|
    ensures |Order(ranks)| == |ranks| && Order(ranks)[q] < |ranks| && NewPos(ranks, Order(ranks)[q]) == q
  {
    OrderInRange(ranks);
    var i0 := Indices(ranks, 0);
    var i1 := Indices(ranks, 1);
    var o := Order(ranks);
    if q < |i0| {
      assert o[q] == i0[q];
      IndicesCountBefore(ranks, 0, |ranks|, q);
    } else if q < |i0| + |i1| {
      assert o[q] == i1[q - |i0|];
      IndicesCountBefore(ranks, 1, |ranks|, q - |i0|);
    } else {
      assert o[q] == Indices(ranks, 2)[q - |i0| - |i1|];
      IndicesCountBefore(ranks, 2, |ranks|, q - |i0| - |i1|);
    }
  }

  // ---------------------------------------------------------------------
  // index_map and its inverse.

  /** index_map: NO_SECT to NO_SECT, old section number x + 1 to
      NewPos(x) + 1 (section numbers count from 1). */
  function IndexMap(ranks: seq<nat>): (r: seq<nat>)
    requires RanksOk(ranks)
    ensures |r| == |ranks| + 1 && r[NO_SECT] == NO_SECT
  {
    [NO_SECT] + seq(|ranks|, x requires 0 <= x < |ranks| => NewPos(ranks, x) + 1)
  }

  /** The inverse renumbering, from the new order. */
  function BackMap(ranks: seq<nat>): (r: seq<nat>)
    requires RanksOk(ranks)
    ensures |r| == |ranks| + 1 && r[NO_SECT] == NO_SECT
  {
    OrderInRange(ranks);
    [NO_SECT] + seq(|ranks|, q requires 0 <= q < |ranks| => Order(ranks)[q] + 1)
  }

  /** The map FinalizeCommands builds is a bijection on section numbers that
      fixes NO_SECT: it meets what UpdateSectionIndices needs (including
      fitting n_sect's byte when there are fewer than 256 sections), and the
      inverse map undoes it in both directions. */
  lemma IndexMapBijective(ranks: seq<nat>)
    requires RanksOk(ranks) && |ranks| < 0x100
    ensures MachOSymbols.IndexMapOk(IndexMap(ranks)) && MachOSymbols.IndexMapOk(BackMap(ranks))
    ensures MachOSymbols.Inverts(BackMap(ranks), IndexMap(ranks))
    ensures MachOSymbols.Inverts(IndexMap(ranks), BackMap(ranks))
  {
    IndexMapInverted(ranks);
    BackMapInverted(ranks);
  }

  lemma IndexMapInverted(ranks: seq<nat>)
    requires RanksOk(ranks) && |ranks| < 0x100
    ensures MachOSymbols.IndexMapOk(IndexMap(ranks)) && MachOSymbols.Inverts(BackMap(ranks), IndexMap(ranks))
  {
    var m := IndexMap(ranks);
    var b := BackMap(ranks);
    forall i | 0 <= i < |m|
      ensures m[i] < 0x100 && m[i] < |m| && (i == NO_SECT <==> m[i] == NO_SECT)
      ensures m[i] < |b| && b[m[i]] == i
    {
      if i > 0 {
        OrderInRange(ranks);
        OrderAtNewPos(ranks, i - 1);
        assert m[i] == NewPos(ranks, i - 1) + 1;
      }
    }
  }

  lemma BackMapInverted(ranks: seq<nat>)
    requires RanksOk(ranks) && |ranks| < 0x100
    ensures MachOSymbols.IndexMapOk(BackMap(ranks)) && MachOSymbols.Inverts(IndexMap(ranks), BackMap(ranks))
  {
    var m := IndexMap(ranks);
    var b := BackMap(ranks);
    forall i | 0 <= i < |b|
      ensures b[i] < 0x100 && b[i] < |b| && (i == NO_SECT <==> b[i] == NO_SECT)
      ensures b[i] < |m| && m[b[i]] == i
    {
      if i > 0 {
        NewPosAtOrder(ranks, i - 1);
        assert b[i] == Order(ranks)[i - 1] + 1;
      }
    }
  }

  // ---------------------------------------------------------------------
  // From segments to section ranks.

  /** Which bin FinalizeCommands sorts a segment into: the text segment
      first, then segments containing symbols, then the rest. */
  function Rank(s: Segment): (r: nat)
    ensures r < RankCount
    ensures r == 0 <==> s.name == SEG_TEXT
    ensures r == 1 <==> s.name != SEG_TEXT && ContainsSymbols(s)
  {
    if s.name == SEG_TEXT then 0 else if ContainsSymbols(s) then 1 else 2
  }

  /** The sections of `segs` in order, numbered from 1 as section indices. */
  function AllSections(segs: seq<Segment>): (r: seq<MachOSection.Section>)
    decreases |segs|
  {
    if |segs| == 0 then [] else AllSections(segs[..|segs| - 1]) + Sections(segs[|segs| - 1].contents)
  }

  /** The rank of the segment holding each section. */
  function SectionRanks(segs: seq<Segment>): (r: seq<nat>)
    ensures |r| == |AllSections(segs)| && RanksOk(r)
    decreases |segs|
  {
    if |segs| == 0 then []
    else
      var last := segs[|segs| - 1];
      var prefix := SectionRanks(segs[..|segs| - 1]);
      var r := prefix + seq(NumSections(last), _ => Rank(last));
      assert RanksOk(r) by {
        forall i | 0 <= i < |r| ensures r[i] < RankCount {
          if i < |prefix| { assert r[i] == prefix[i]; }
        }
      }
      r
  }

  /** The segments of rank `r`, in command order. */
  function ByRank(segs: seq<Segment>, r: nat): (res: seq<Segment>)
    ensures forall i :: 0 <= i < |res| ==> Rank(res[i]) == r
    decreases |segs|
  {
    if |segs| == 0 then []
    else
      var last := segs[|segs| - 1];
      ByRank(segs[..|segs| - 1], r) + (if Rank(last) == r then [last] else [])
  }

  /** The segments in their final order. */
  function Reordered(segs: seq<Segment>): seq<Segment> {
    ByRank(segs, 0) + ByRank(segs, 1) + ByRank(segs, 2)
  }

  /** The three bins of segments together hold every segment exactly once. */
  lemma {:induction false} ByRankSplit(segs: seq<Segment>)
    ensures multiset(ByRank(segs, 0)) + multiset(ByRank(segs, 1)) + multiset(ByRank(segs, 2)) == multiset(segs)
    ensures |ByRank(segs, 0)| + |ByRank(segs, 1)| + |ByRank(segs, 2)| == |segs|
    decreases |segs|
  {
    if |segs| > 0 {
      var front := segs[..|segs| - 1];
      var last := segs[|segs| - 1];
      ByRankSplit(front);
      assert segs == front + [last];
      SplitStep(ByRank(front, 0), ByRank(front, 1), ByRank(front, 2),
                ByRank(segs, 0), ByRank(segs, 1), ByRank(segs, 2), front, last, Rank(last));
    }
  }

  /** One more element, put in bin `k`. */
  lemma SplitStep<T>(b0: seq<T>, b1: seq<T>, b2: seq<T>, c0: seq<T>, c1: seq<T>, c2: seq<T>,
                     front: seq<T>, last: T, k: nat)
    requires multiset(b0) + multiset(b1) + multiset(b2) == multiset(front)
    requires |b0| + |b1| + |b2| == |front| && k < RankCount
    requires c0 == b0 + (if k == 0 then [last] else [])
    requires c1 == b1 + (if k == 1 then [last] else [])
    requires c2 == b2 + (if k == 2 then [last] else [])
    ensures multiset(c0) + multiset(c1) + multiset(c2) == multiset(front + [last])
    ensures |c0| + |c1| + |c2| == |front| + 1
  {
  }

  /** Every segment of a bin is one of the segments sorted. */
  lemma ByRankMembers(segs: seq<Segment>, r: nat, s: Segment)
    requires s in ByRank(segs, r)
    ensures s in segs
  {
    ByRankSplit(segs);
    assert s in multiset(ByRank(segs, r));
  }

  /** The elements of `ss` at the positions `idx`. */
  function Pick<T>(ss: seq<T>, idx: seq<nat>): (r: seq<T>)
    requires forall j :: 0 <= j < |idx| ==> idx[j] < |ss|
    ensures |r| == |idx| && forall j :: 0 <= j < |idx| ==> r[j] == ss[idx[j]]
  {
    seq(|idx|, j requires 0 <= j < |idx| => ss[idx[j]])
  }

  function Range(lo: nat, count: nat): (r: seq<nat>)
    ensures |r| == count && forall j :: 0 <= j < count ==> r[j] == lo + j
  {
    seq(count, j => lo + j)
  }

  lemma {:induction false} AllSectionsAppend(a: seq<Segment>, b: seq<Segment>)
    ensures AllSections(a + b) == AllSections(a) + AllSections(b)
    decreases |b|
  {
    if |b| == 0 {
      assert a + b == a;
    } else {
      var b' := b[..|b| - 1];
      var last := Sections(b[|b| - 1].contents);
      assert (a + b)[..|a + b| - 1] == a + b';
      assert (a + b)[|a + b| - 1] == b[|b| - 1];
      AllSectionsAppend(a, b');
      assert AllSections(a + b) == AllSections(a + b') + last;
      assert AllSections(b) == AllSections(b') + last;
    }
  }

  /** Ranks past the end of `ranks` do not change the indices below it. */
  lemma {:induction false} IndicesSame(ranks: seq<nat>, more: seq<nat>, r: nat, k: nat)
    requires k <= |ranks|
    ensures IndicesUpTo(ranks + more, r, k) == IndicesUpTo(ranks, r, k)
    decreases k
  {
    if k > 0 {
      IndicesSame(ranks, more, r, k - 1);
      assert (ranks + more)[k - 1] == ranks[k - 1];
    }
  }

  /** Appending `t` positions of rank `v` appends them all to the indices
      of rank `v` and nothing to the others. */
  lemma {:induction false} IndicesConstExtend(ranks: seq<nat>, v: nat, t: nat, r: nat)
    ensures IndicesUpTo(ranks + seq(t, _ => v), r, |ranks| + t) ==
            Indices(ranks, r) + (if v == r then Range(|ranks|, t) else [])
    decreases t
  {
    var ext := ranks + seq(t, _ => v);
    if t == 0 {
      IndicesSame(ranks, ext[|ranks|..], r, |ranks|);
      assert ranks + ext[|ranks|..] == ext;
    } else {
      var shorter := ranks + seq(t - 1, _ => v);
      IndicesConstExtend(ranks, v, t - 1, r);
      assert ext == shorter + [v];
      IndicesSame(shorter, [v], r, |ranks| + t - 1);
      assert ext[|ranks| + t - 1] == v;
      if v == r {
        assert Range(|ranks|, t) == Range(|ranks|, t - 1) + [|ranks| + t - 1];
      }
    }
  }

  lemma PickAppend<T>(ss: seq<T>, a: seq<nat>, b: seq<nat>)
    requires forall j :: 0 <= j < |a| ==> a[j] < |ss|
    requires forall j :: 0 <= j < |b| ==> b[j] < |ss|
    ensures forall j :: 0 <= j < |a + b| ==> (a + b)[j] < |ss|
    ensures Pick(ss, a + b) == Pick(ss, a) + Pick(ss, b)
  {
    assert forall j :: 0 <= j < |a + b| ==> (a + b)[j] < |ss| by {
      forall j | 0 <= j < |a + b| ensures (a + b)[j] < |ss| {
        if j >= |a| { assert (a + b)[j] == b[j - |a|]; }
      }
    }
    var l := Pick(ss, a + b);
    var r := Pick(ss, a) + Pick(ss, b);
    forall j | 0 <= j < |l| ensures l[j] == r[j] {
      if j >= |a| { assert (a + b)[j] == b[j - |a|]; }
    }
  }

  /** Picking below the end of `ss` ignores what follows it. */
  lemma PickPrefix<T>(ss: seq<T>, extra: seq<T>, idx: seq<nat>)
    requires forall j :: 0 <= j < |idx| ==> idx[j] < |ss|
    ensures forall j :: 0 <= j < |idx| ==> idx[j] < |ss + extra|
    ensures Pick(ss + extra, idx) == Pick(ss, idx)
  {
    var l := Pick(ss + extra, idx);
    forall j | 0 <= j < |idx| ensures l[j] == Pick(ss, idx)[j] {
      assert (ss + extra)[idx[j]] == ss[idx[j]];
    }
  }

  lemma PickRange<T>(ss: seq<T>, extra: seq<T>)
    ensures forall j :: 0 <= j < |extra| ==> Range(|ss|, |extra|)[j] < |ss + extra|
    ensures Pick(ss + extra, Range(|ss|, |extra|)) == extra
  {
    var l := Pick(ss + extra, Range(|ss|, |extra|));
    forall j | 0 <= j < |extra| ensures l[j] == extra[j] {
      assert (ss + extra)[|ss| + j] == extra[j];
    }
  }

  /** One step of ByRankSections: the last segment's sections join the
      picked sections exactly when its rank is `r`. */
  lemma ByRankStep(segs: seq<Segment>, r: nat, before: seq<MachOSection.Section>, ranks: seq<nat>, ss: seq<MachOSection.Section>)
    requires |segs| > 0
    requires before == AllSections(segs[..|segs| - 1]) && ranks == SectionRanks(segs[..|segs| - 1])
    requires ss == Sections(segs[|segs| - 1].contents)
    requires forall j :: 0 <= j < |Indices(ranks, r)| ==> Indices(ranks, r)[j] < |before|
    requires AllSections(ByRank(segs[..|segs| - 1], r)) == Pick(before, Indices(ranks, r))
    ensures forall j :: 0 <= j < |Indices(SectionRanks(segs), r)| ==>
              Indices(SectionRanks(segs), r)[j] < |AllSections(segs)|
    ensures AllSections(ByRank(segs, r)) == Pick(AllSections(segs), Indices(SectionRanks(segs), r))
  {
    var last := segs[|segs| - 1];
    var prefix := segs[..|segs| - 1];
    assert AllSections(segs) == before + ss;
    assert SectionRanks(segs) == ranks + seq(|ss|, _ => Rank(last));
    IndicesConstExtend(ranks, Rank(last), |ss|, r);
    PickPrefix(before, ss, Indices(ranks, r));
    if Rank(last) == r {
      PickRange(before, ss);
      PickAppend(before + ss, Indices(ranks, r), Range(|before|, |ss|));
      assert ByRank(segs, r) == ByRank(prefix, r) + [last];
      AllSectionsAppend(ByRank(prefix, r), [last]);
      assert AllSections([last]) == ss by {
        assert [last][..0] == [];
      }
    } else {
      assert ByRank(segs, r) == ByRank(prefix, r);
      assert Indices(SectionRanks(segs), r) == Indices(ranks, r) + [];
    }
  }

  /** The sections of the segments of one rank are the sections of that
      rank, in their old order. */
  lemma {:induction false} ByRankSections(segs: seq<Segment>, r: nat)
    ensures forall j :: 0 <= j < |Indices(SectionRanks(segs), r)| ==>
              Indices(SectionRanks(segs), r)[j] < |AllSections(segs)|
    ensures AllSections(ByRank(segs, r)) == Pick(AllSections(segs), Indices(SectionRanks(segs), r))
    decreases |segs|
  {
    if |segs| > 0 {
      var prefix := segs[..|segs| - 1];
      ByRankSections(prefix, r);
      ByRankStep(segs, r, AllSections(prefix), SectionRanks(prefix), Sections(segs[|segs| - 1].contents));
    }
  }

  /** The sections of the reordered segments, numbered from 0, are the old
      sections in the stable-partition order. */
  lemma ReorderedSections(segs: seq<Segment>)
    ensures forall q :: 0 <= q < |Order(SectionRanks(segs))| ==> Order(SectionRanks(segs))[q] < |AllSections(segs)|
    ensures AllSections(Reordered(segs)) == Pick(AllSections(segs), Order(SectionRanks(segs)))
  {
    var ranks := SectionRanks(segs);
    var all := AllSections(segs);
    ByRankSections(segs, 0);
    ByRankSections(segs, 1);
    ByRankSections(segs, 2);
    AllSectionsAppend(ByRank(segs, 0), ByRank(segs, 1));
    AllSectionsAppend(ByRank(segs, 0) + ByRank(segs, 1), ByRank(segs, 2));
    PickAppend(all, Indices(ranks, 0), Indices(ranks, 1));
    PickAppend(all, Indices(ranks, 0) + Indices(ranks, 1), Indices(ranks, 2));
  }

  /** Renumbering keeps every section: old section x is new section
      IndexMap[x], for every x. */
  lemma IndexMapKeepsSections(segs: seq<Segment>, x: nat)
    requires 1 <= x <= |AllSections(segs)|
    ensures var m := IndexMap(SectionRanks(segs));
            1 <= m[x] <= |AllSections(Reordered(segs))| &&
            AllSections(Reordered(segs))[m[x] - 1] == AllSections(segs)[x - 1]
  {
    ReorderedSections(segs);
    PickedAtIndexMap(AllSections(segs), SectionRanks(segs), AllSections(Reordered(segs)), x);
  }

  /** IndexMapKeepsSections on plain sequences: in the sections picked in
      the new order, old section x is at IndexMap[x]. */
  lemma PickedAtIndexMap<T>(all: seq<T>, ranks: seq<nat>, picked: seq<T>, x: nat)
    requires RanksOk(ranks) && |ranks| == |all| && 1 <= x <= |all|
    requires forall q :: 0 <= q < |Order(ranks)| ==> Order(ranks)[q] < |all|
    requires picked == Pick(all, Order(ranks))
    ensures 1 <= IndexMap(ranks)[x] <= |picked| && picked[IndexMap(ranks)[x] - 1] == all[x - 1]
  {
    OrderAtNewPos(ranks, x - 1);
    var p := NewPos(ranks, x - 1);
    assert IndexMap(ranks)[x] == p + 1;
  }

  // ---------------------------------------------------------------------
  // The bins FinalizeCommands sorts the commands into.

  /** A command that lives only in the header: neither a segment nor a
      command with contents (the UUID, build version and dylib commands). */
  predicate IsHeaderOnly(c: Command) {
    !c.SegmentCommand? && !CommandHasContents(c)
  }

  /** The segments among `cmds`, in order. */
  function Segments(cmds: seq<Command>): (r: seq<Segment>)
    decreases |cmds|
  {
    if |cmds| == 0 then []
    else
      var c := cmds[|cmds| - 1];
      Segments(cmds[..|cmds| - 1]) + (if c.SegmentCommand? then [c.segment] else [])
  }

  /** The header-only commands among `cmds`, in order. */
  function HeaderOnly(cmds: seq<Command>): (r: seq<Command>)
    ensures forall i :: 0 <= i < |r| ==> IsHeaderOnly(r[i])
    decreases |cmds|
  {
    if |cmds| == 0 then []
    else
      var c := cmds[|cmds| - 1];
      HeaderOnly(cmds[..|cmds| - 1]) + (if IsHeaderOnly(c) then [c] else [])
  }

  /** The commands with contents in __LINKEDIT among `cmds`, in order. */
  function Linkedit(cmds: seq<Command>): (r: seq<LinkeditCommand>)
    decreases |cmds|
  {
    if |cmds| == 0 then []
    else
      var c := cmds[|cmds| - 1];
      Linkedit(cmds[..|cmds| - 1]) + (if c.LinkeditData? then [c.linkedit] else [])
  }

  /** Every command lands in exactly one bin. */
  lemma {:induction false} BinsPartition(cmds: seq<Command>)
    ensures |HeaderOnly(cmds)| + |Segments(cmds)| + |Linkedit(cmds)| == |cmds|
    decreases |cmds|
  {
    if |cmds| > 0 {
      BinsPartition(cmds[..|cmds| - 1]);
    }
  }

  /** Sorting two runs of commands into bins sorts each run. */
  lemma {:induction false} BinsAppend(a: seq<Command>, b: seq<Command>)
    ensures Segments(a + b) == Segments(a) + Segments(b)
    ensures HeaderOnly(a + b) == HeaderOnly(a) + HeaderOnly(b)
    ensures Linkedit(a + b) == Linkedit(a) + Linkedit(b)
    decreases |b|
  {
    if |b| == 0 {
      assert a + b == a;
    } else {
      var b' := b[..|b| - 1];
      assert (a + b)[..|a + b| - 1] == a + b';
      assert (a + b)[|a + b| - 1] == b[|b| - 1];
      BinsAppend(a, b');
    }
  }

  /** Segment commands for `ss`, in order. */
  function SegmentCommands(ss: seq<Segment>): (r: seq<Command>)
    ensures |r| == |ss| && forall i :: 0 <= i < |ss| ==> r[i] == SegmentCommand(ss[i])
  {
    seq(|ss|, i requires 0 <= i < |ss| => SegmentCommand(ss[i]))
  }

  /** The commands for linkedit contents `ls`, in order. */
  function LinkeditCommands(ls: seq<LinkeditCommand>): (r: seq<Command>)
    ensures |r| == |ls| && forall i :: 0 <= i < |ls| ==> r[i] == LinkeditData(ls[i])
  {
    seq(|ls|, i requires 0 <= i < |ls| => LinkeditData(ls[i]))
  }

  lemma {:induction false} BinsOfSegmentCommands(ss: seq<Segment>)
    ensures Segments(SegmentCommands(ss)) == ss
    ensures HeaderOnly(SegmentCommands(ss)) == [] && Linkedit(SegmentCommands(ss)) == []
    decreases |ss|
  {
    if |ss| > 0 {
      assert SegmentCommands(ss)[..|ss| - 1] == SegmentCommands(ss[..|ss| - 1]);
      BinsOfSegmentCommands(ss[..|ss| - 1]);
      assert ss[..|ss| - 1] + [ss[|ss| - 1]] == ss;
    }
  }

  lemma {:induction false} BinsOfLinkeditCommands(ls: seq<LinkeditCommand>)
    ensures Linkedit(LinkeditCommands(ls)) == ls
    ensures HeaderOnly(LinkeditCommands(ls)) == [] && Segments(LinkeditCommands(ls)) == []
    decreases |ls|
  {
    if |ls| > 0 {
      assert LinkeditCommands(ls)[..|ls| - 1] == LinkeditCommands(ls[..|ls| - 1]);
      BinsOfLinkeditCommands(ls[..|ls| - 1]);
      assert ls[..|ls| - 1] + [ls[|ls| - 1]] == ls;
    }
  }

  lemma {:induction false} BinsOfHeaderOnly(cmds: seq<Command>)
    ensures HeaderOnly(HeaderOnly(cmds)) == HeaderOnly(cmds)
    ensures Segments(HeaderOnly(cmds)) == [] && Linkedit(HeaderOnly(cmds)) == []
    decreases |cmds|
  {
    if |cmds| > 0 {
      var front := cmds[..|cmds| - 1];
      var c := cmds[|cmds| - 1];
      BinsOfHeaderOnly(front);
      if IsHeaderOnly(c) {
        var h := HeaderOnly(front);
        assert !c.SegmentCommand? && !c.LinkeditData?;
        assert HeaderOnly(cmds) == h + [c];
        BinsAppend(h, [c]);
        BinsOfOne(c);
        assert HeaderOnly(h + [c]) == h + [c];
        assert Segments(h + [c]) == [] + [];
        assert Linkedit(h + [c]) == [] + [];
      } else {
        var h := HeaderOnly(front);
        assert HeaderOnly(cmds) == h + [];
        assert HeaderOnly(cmds) == h;
      }
    }
  }

  /** The bin of a single command. */
  lemma BinsOfOne(c: Command)
    ensures HeaderOnly([c]) == (if IsHeaderOnly(c) then [c] else [])
    ensures Segments([c]) == (if c.SegmentCommand? then [c.segment] else [])
    ensures Linkedit([c]) == (if c.LinkeditData? then [c.linkedit] else [])
  {
    assert [c][..0] == [];
  }

  /** The sections of one segment. */
  lemma AllSectionsSingle(s: Segment)
    ensures AllSections([s]) == Sections(s.contents)
  {
    assert [s][..0] == [];
  }

  /** Every command of the header-only bin and every linkedit command is
      one of the commands sorted. */
  lemma {:induction false} BinMembers(cmds: seq<Command>)
    ensures forall c :: c in HeaderOnly(cmds) ==> c in cmds
    ensures forall l :: l in Linkedit(cmds) ==> LinkeditData(l) in cmds
    decreases |cmds|
  {
    if |cmds| > 0 {
      var front := cmds[..|cmds| - 1];
      BinMembers(front);
      assert cmds == front + [cmds[|cmds| - 1]];
    }
  }
}
