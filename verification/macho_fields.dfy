/** The primitive writes of MachOWriteStream (runtime/vm/mach_o.cc:87-124)
    as a list of fields, so that the position a run of writes ends at can be
    computed and compared with the sizes the writer predicts. Byte order is
    irrelevant to positions, so Write32 and WriteBE32 are the same field. */
module MachOFields {
  import opened Alignment
  import opened CStrings

  datatype Field =
    /** Consecutive WriteByte, Write32 (or WriteBE32) and WriteWord (or
        WriteBE64) calls. */
    | U8s(values: seq<nat>)
    | U32s(values: seq<nat>)
    | U64s(values: seq<nat>)
    /** WriteFixedLengthCString: the name cut or NUL-padded to `width`. */
    | FixedName(text: CString, width: nat)
    /** WriteNullTerminatedCString: the name and its NUL. */
    | NulTerminated(text: CString)
    /** WriteBytes of opaque content. */
    | Bytes(count: nat)
    /** Align: zero bytes up to the next multiple of `alignment`. */
    | AlignTo(alignment: nat)

  predicate AlignmentsPositive(fs: seq<Field>) {
    forall i :: 0 <= i < |fs| && fs[i].AlignTo? ==> fs[i].alignment > 0
  }

  /** The number of bytes a field occupies when written at `pos`. */
  function Width(f: Field, pos: nat): (r: nat)
    requires f.AlignTo? ==> f.alignment > 0
    ensures f.AlignTo? ==> (pos + r) % f.alignment == 0 && r < f.alignment
  {
    match f
    case U8s(vs) => |vs|
    case U32s(vs) => 4 * |vs|
    case U64s(vs) => 8 * |vs|
    case FixedName(_, width) => width
    case NulTerminated(text) => |text| + 1
    case Bytes(count) => count
    case AlignTo(a) => RoundUp(pos, a) - pos
  }

  /** The position after writing `fs` from `pos`. */
  function End(pos: nat, fs: seq<Field>): (r: nat)
    requires AlignmentsPositive(fs)
    ensures r >= pos
    decreases |fs|
  {
    if |fs| == 0 then pos else End(pos + Width(fs[0], pos), fs[1..])
  }

  /** Writing one field and then the rest. */
  lemma EndCons(pos: nat, f: Field, fs: seq<Field>)
    requires (f.AlignTo? ==> f.alignment > 0) && AlignmentsPositive(fs)
    ensures AlignmentsPositive([f] + fs)
    ensures End(pos, [f] + fs) == End(pos + Width(f, pos), fs)
  {
    assert ([f] + fs)[1..] == fs;
  }

  /** Writing two runs of fields one after the other. */
  lemma {:induction false} EndAppend(pos: nat, a: seq<Field>, b: seq<Field>)
    requires AlignmentsPositive(a) && AlignmentsPositive(b)
    ensures AlignmentsPositive(a + b)
    ensures End(pos, a + b) == End(End(pos, a), b)
    decreases |a|
  {
    if |a| > 0 {
      assert (a + b)[1..] == a[1..] + b;
      EndAppend(pos + Width(a[0], pos), a[1..], b);
    } else {
      assert a + b == b;
    }
  }

  /** Every alignment among the fields divides `m`. */
  predicate AlignmentsDivide(fs: seq<Field>, m: nat) {
    forall i :: 0 <= i < |fs| && fs[i].AlignTo? ==> fs[i].alignment > 0 && m % fs[i].alignment == 0
  }

  /** A run of fields started at a multiple of every alignment it pads to
      occupies what it would occupy from position 0. */
  lemma {:induction false} EndShift(base: nat, x: nat, fs: seq<Field>)
    requires AlignmentsDivide(fs, base)
    ensures AlignmentsPositive(fs)
    ensures End(base + x, fs) == base + End(x, fs)
    decreases |fs|
  {
    if |fs| > 0 {
      if fs[0].AlignTo? {
        RoundUpShift(base, x, fs[0].alignment);
      }
      assert Width(fs[0], base + x) == Width(fs[0], x);
      EndShift(base, x + Width(fs[0], x), fs[1..]);
    }
  }

  /** Without padding, a run of fields occupies the sum of their widths
      wherever it starts. */
  function Length(fs: seq<Field>): nat
    requires forall i :: 0 <= i < |fs| ==> !fs[i].AlignTo?
  {
    if |fs| == 0 then 0 else Width(fs[0], 0) + Length(fs[1..])
  }

  lemma {:induction false} EndUnpadded(pos: nat, fs: seq<Field>)
    requires forall i :: 0 <= i < |fs| ==> !fs[i].AlignTo?
    ensures AlignmentsPositive(fs) && End(pos, fs) == pos + Length(fs)
    decreases |fs|
  {
    if |fs| > 0 {
      EndUnpadded(pos + Width(fs[0], pos), fs[1..]);
    }
  }
}
