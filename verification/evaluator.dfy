/** Constant folding of integer operations in the optimizing compiler
    (runtime/vm/compiler/backend/evaluator.cc): the guards that make folding
    give up (a null result), and the truncation of a folded value to the
    representation of the instruction that produces it. Integer values are
    64-bit; the arithmetic, shift and bitwise operations themselves, and
    Utils::BitLength, are parameters. */
module Evaluator {
  import opened Wrappers
  import opened Alignment

  const Int64Min: int := -0x8000_0000_0000_0000
  const Int64Limit: int := 0x8000_0000_0000_0000
  type Int64 = v: int | Int64Min <= v < Int64Limit

  datatype Representation = Tagged | UnboxedInt32 | UnboxedUint32 | UnboxedInt64

  /** The payload width of a Smi on the target (kSmiBits): 62 on a 64-bit
      target without compressed pointers, 30 otherwise. */
  type SmiBits = b: nat | 1 <= b <= 62 witness 30

  /** The low `bits` bits of `v`, read as a two's complement number of that
      width: `ShiftLeftWithTruncation(v, 64 - bits) >> (64 - bits)`. */
  function SignExtend(v: int, bits: nat): (r: int)
    requires bits >= 1
    ensures -(Pow2(bits - 1) as int) <= r < Pow2(bits - 1)
    ensures (r - v) % Pow2(bits) == 0
    ensures -(Pow2(bits - 1) as int) <= v < Pow2(bits - 1) ==> r == v
  {
    var p := Pow2(bits);
    var h := Pow2(bits - 1);
    var m := v % p;
    SignExtendFacts(v, p, h);
    if m >= h then m - p else m
  }

  lemma SignExtendFacts(v: int, p: int, h: int)
    requires h >= 1 && p == 2 * h
    ensures var m := v % p; var r := if m >= h then m - p else m;
            -h <= r < h && (r - v) % p == 0 && (-h <= v < h ==> r == v)
  {
    var m := v % p;
    var r := if m >= h then m - p else m;
    var k := if m >= h then -(v / p) - 1 else -(v / p);
    assert v == (v / p) * p + m;
    assert r - v == k * p;
    MultipleMod(k, p);
    if -h <= v < h {
      if v >= 0 {
        DivModUnique(v, p, 0, v);
      } else {
        DivModUnique(v, p, -1, v + p);
      }
    }
  }

  /** Evaluator::TruncateTo: the value a truncating instruction of
      representation `rep` produces for the mathematically exact `v`. */
  function TruncateTo(v: Int64, rep: Representation, smiBits: SmiBits): (r: Int64)
    ensures rep == UnboxedUint32 ==> 0 <= r < 0x1_0000_0000 && (r - v) % 0x1_0000_0000 == 0
    ensures rep == UnboxedInt32 ==> -0x8000_0000 <= r < 0x8000_0000 && (r - v) % 0x1_0000_0000 == 0
    ensures rep == UnboxedInt32 && -0x8000_0000 <= v < 0x8000_0000 ==> r == v
    ensures rep == UnboxedInt64 ==> r == v
    ensures rep == Tagged ==> -(Pow2(smiBits) as int) <= r < Pow2(smiBits) && (r - v) % Pow2(smiBits + 1) == 0
    ensures Representable(r, rep, smiBits)
  {
    match rep
    case Tagged => TruncateToSmi(v, smiBits)
    case UnboxedInt32 => TruncateToInt32(v)
    case UnboxedUint32 => TruncateToUint32(v)
    case UnboxedInt64 => v
  }

  /** The low kSmiBits + 1 bits, sign-extended. */
  function TruncateToSmi(v: Int64, smiBits: SmiBits): (r: Int64)
    ensures -(Pow2(smiBits) as int) <= r < Pow2(smiBits) && (r - v) % Pow2(smiBits + 1) == 0
  {
    SmiRange(smiBits);
    SignExtend(v, smiBits + 1)
  }

  /** The low 32 bits, sign-extended. */
  function TruncateToInt32(v: Int64): (r: Int64)
    ensures -0x8000_0000 <= r < 0x8000_0000 && (r - v) % 0x1_0000_0000 == 0
    ensures -0x8000_0000 <= v < 0x8000_0000 ==> r == v
  {
    Pow2Values();
    assert Pow2(32 - 1) == 0x8000_0000;
    SignExtend(v, 32)
  }

  /** `v & kMaxUint32` on a two's complement value: the low 32 bits. */
  function TruncateToUint32(v: Int64): (r: Int64)
    ensures 0 <= r < 0x1_0000_0000 && (r - v) % 0x1_0000_0000 == 0
  {
    var r := v % 0x1_0000_0000;
    assert r - v == -(v / 0x1_0000_0000) * 0x1_0000_0000;
    MultipleMod(-(v / 0x1_0000_0000), 0x1_0000_0000);
    r
  }

  lemma SmiRange(smiBits: SmiBits)
    ensures 2 <= Pow2(smiBits) <= Pow2(62) < Int64Limit
  {
    Pow2Values();
    Pow2Monotone(smiBits, 62);
    assert Pow2(smiBits) == 2 * Pow2(smiBits - 1);
  }

  lemma {:induction false} Pow2Monotone(a: nat, b: nat)
    requires a <= b
    ensures Pow2(a) <= Pow2(b)
    decreases b - a
  {
    if a < b {
      Pow2Monotone(a, b - 1);
      assert Pow2(b) == 2 * Pow2(b - 1);
    }
  }

  /** FlowGraph::IsConstantRepresentable with a Smi required for tagged
      values: the value fits the representation's range. */
  predicate Representable(v: int, rep: Representation, smiBits: SmiBits) {
    match rep
    case Tagged => -(Pow2(smiBits) as int) <= v < Pow2(smiBits)
    case UnboxedInt32 => -0x8000_0000 <= v < 0x8000_0000
    case UnboxedUint32 => 0 <= v < 0x1_0000_0000
    case UnboxedInt64 => Int64Min <= v < Int64Limit
  }

  /** Truncation changes nothing that already fits, so it is idempotent. */
  lemma TruncateToIdempotent(v: Int64, rep: Representation, smiBits: SmiBits)
    ensures Representable(v, rep, smiBits) ==> TruncateTo(v, rep, smiBits) == v
    ensures TruncateTo(TruncateTo(v, rep, smiBits), rep, smiBits) == TruncateTo(v, rep, smiBits)
  {
    Pow2Values();
    if rep == UnboxedUint32 {
      if 0 <= v < 0x1_0000_0000 {
        DivModUnique(v, 0x1_0000_0000, 0, v);
      }
      var t := TruncateTo(v, rep, smiBits);
      DivModUnique(t, 0x1_0000_0000, 0, t);
    }
  }

  /** The Dart objects an operand can be; only integers fold. */
  datatype Object = Integer(value: Int64) | NonInteger

  datatype TokenKind = TRUNCDIV | MOD | ADD | SUB | MUL | SHL | SHR | USHR | BIT_AND | BIT_OR | BIT_XOR | DIV

  /** Integer::ArithmeticOp, Integer::ShiftOp and Integer::BitOp. */
  datatype IntegerOps = IntegerOps(
    arithmetic: (TokenKind, Int64, Int64) -> Option<Int64>,
    shift: (TokenKind, Int64, Int64) -> Option<Int64>,
    bitwise: (TokenKind, Int64, Int64) -> Option<Int64>,
    bitLength: Int64 -> Int64)

  /** BinaryIntegerEvaluateRaw: `/` never folds, `~/` and `%` do not fold a
      zero divisor (the operation would throw), and shifts do not fold a
      negative count; otherwise the matching integer operation decides. */
  function BinaryIntegerEvaluateRaw(left: Int64, right: Int64, op: TokenKind, ops: IntegerOps): (r: Option<Int64>)
    ensures op == DIV ==> r.None?
    ensures (op == TRUNCDIV || op == MOD) && right == 0 ==> r.None?
    ensures (op == SHL || op == SHR || op == USHR) && right < 0 ==> r.None?
    ensures op in {TRUNCDIV, MOD} && right != 0 ==> r == ops.arithmetic(op, left, right)
    ensures op in {ADD, SUB, MUL} ==> r == ops.arithmetic(op, left, right)
    ensures op in {SHL, SHR, USHR} && right >= 0 ==> r == ops.shift(op, left, right)
    ensures op in {BIT_AND, BIT_OR, BIT_XOR} ==> r == ops.bitwise(op, left, right)
  {
    match op
    case TRUNCDIV | MOD => if right == 0 then None else ops.arithmetic(op, left, right)
    case ADD | SUB | MUL => ops.arithmetic(op, left, right)
    case SHL | SHR | USHR => if right >= 0 then ops.shift(op, left, right) else None
    case BIT_AND | BIT_OR | BIT_XOR => ops.bitwise(op, left, right)
    case DIV => None
  }

  /** Evaluator::BinaryIntegerEvaluate: a truncating instruction folds to the
      truncated value; a non-truncating one folds only a value its
      representation holds, since at run time it would deoptimize instead. */
  function BinaryIntegerEvaluate(left: Object, right: Object, op: TokenKind, isTruncating: bool,
                                 rep: Representation, smiBits: SmiBits, ops: IntegerOps): (r: Option<Int64>)
    ensures !left.Integer? || !right.Integer? ==> r.None?
    ensures r.Some? ==> Representable(r.value, rep, smiBits)
    ensures r.Some? ==> left.Integer? && right.Integer? &&
                        BinaryIntegerEvaluateRaw(left.value, right.value, op, ops).Some?
    ensures r.Some? && isTruncating ==>
              r.value == TruncateTo(BinaryIntegerEvaluateRaw(left.value, right.value, op, ops).value, rep, smiBits)
    ensures r.Some? && !isTruncating ==>
              r.value == BinaryIntegerEvaluateRaw(left.value, right.value, op, ops).value
    ensures left.Integer? && right.Integer? && isTruncating ==>
              (r.Some? <==> BinaryIntegerEvaluateRaw(left.value, right.value, op, ops).Some?)
  {
    if !left.Integer? || !right.Integer? then None
    else
      match BinaryIntegerEvaluateRaw(left.value, right.value, op, ops)
      case None => None
      case Some(raw) =>
        if isTruncating then Some(TruncateTo(raw, rep, smiBits))
        else if !Representable(raw, rep, smiBits) then None
        else Some(raw)
  }

  datatype UnaryKind = NEGATE | BIT_NOT

  /** Evaluator::UnaryIntegerEvaluate: negation multiplies by -1 through the
      arithmetic operation, `~v` is -v - 1; a result the representation does
      not hold does not fold. */
  function UnaryIntegerEvaluate(value: Object, op: UnaryKind, rep: Representation,
                                smiBits: SmiBits, ops: IntegerOps): (r: Option<Int64>)
    ensures !value.Integer? ==> r.None?
    ensures r.Some? ==> Representable(r.value, rep, smiBits)
    ensures value.Integer? && op == BIT_NOT ==>
              r == if Representable(-(value.value as int) - 1, rep, smiBits) then Some(-(value.value as int) - 1) else None
    ensures value.Integer? && op == NEGATE && r.Some? ==> ops.arithmetic(MUL, value.value, -1) == r
    ensures value.Integer? && op == NEGATE ==>
              (r.Some? <==> ops.arithmetic(MUL, value.value, -1).Some? &&
                            Representable(ops.arithmetic(MUL, value.value, -1).value, rep, smiBits))
  {
    if !value.Integer? then None
    else
      var raw := match op
        case NEGATE => ops.arithmetic(MUL, value.value, -1)
        case BIT_NOT => Some(-(value.value as int) - 1);
      match raw
      case None => None
      case Some(v) => if Representable(v, rep, smiBits) then Some(v) else None
  }

  /** A Smi of 7 or more payload bits holds 64. */
  lemma SmiHoldsBitLength(smiBits: SmiBits)
    ensures smiBits >= 7 ==> 64 < Pow2(smiBits)
  {
    if smiBits >= 7 {
      Pow2Values();
      assert Pow2(8) == 2 * Pow2(7);
      Pow2Monotone(7, smiBits);
    }
  }

  /** Evaluator::BitLengthEvaluate: the bit length of an integer folds when
      the representation holds it. A bit length of a 64-bit value is at most
      64, which every representation holds once a Smi has 7 or more payload
      bits, so on any real target it always folds. */
  function BitLengthEvaluate(value: Object, rep: Representation, smiBits: SmiBits, ops: IntegerOps): (r: Option<Int64>)
    ensures !value.Integer? ==> r.None?
    ensures r.Some? ==> value.Integer? && r.value == ops.bitLength(value.value) && Representable(r.value, rep, smiBits)
    ensures value.Integer? && 0 <= ops.bitLength(value.value) <= 64 && smiBits >= 7 ==>
              r == Some(ops.bitLength(value.value))
  {
    SmiHoldsBitLength(smiBits);
    if !value.Integer? then None
    else if Representable(ops.bitLength(value.value), rep, smiBits) then Some(ops.bitLength(value.value))
    else None
  }
}
