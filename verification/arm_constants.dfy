/** ARM (A32) instruction fields, condition codes and register numbering
    from runtime/vm/constants_arm.h. An instruction is its raw 32-bit
    pattern, a number below 2^32; `InstructionBits()` reads it as a signed
    32-bit integer. The VFP configuration modelled is VFPv3-D32 (32 D
    registers, 16 Q registers). A register list (`RegList`, a bit mask with
    bit r set for register r) is the set of registers whose bits are set:
    `|` is union, `&` intersection and `& ~` difference. */
module ArmConstants {
  import opened Alignment

  /** The powers of two the instruction fields use. */
  lemma Pow2Table()
    ensures Pow2(0) == 1 && Pow2(1) == 2 && Pow2(3) == 8 && Pow2(4) == 16
    ensures Pow2(8) == 256 && Pow2(12) == 0x1000 && Pow2(16) == 0x1_0000
    ensures Pow2(20) == 0x10_0000 && Pow2(21) == 0x20_0000 && Pow2(24) == 0x100_0000
    ensures Pow2(25) == 0x200_0000 && Pow2(28) == 0x1000_0000
  {
    assert Pow2(4) == 16;
    Pow2Add(4, 4);
    Pow2Add(8, 4);
    Pow2Add(8, 8);
    Pow2Add(16, 4);
    Pow2Add(20, 1);
    Pow2Add(16, 8);
    Pow2Add(24, 1);
    Pow2Add(24, 4);
  }

  // ---------------------------------------------------------------------
  // Condition codes (section A3.2 of the ARM Architecture Reference Manual)

  const EQ := 0
  const NE := 1
  const CS := 2
  const CC := 3
  const MI := 4
  const PL := 5
  const VS := 6
  const VC := 7
  const HI := 8
  const LS := 9
  const GE := 10
  const LT := 11
  const GT := 12
  const LE := 13
  const AL := 14
  const SpecialCondition := 15
  const InvalidCondition := 16

  /** The values of the `Condition` enumeration other than kNoCondition. */
  type Condition = c: int | 0 <= c <= 16

  /** InvertCondition: flips the low bit of the condition code. */
  function InvertCondition(c: Condition): (r: Condition)
    requires c != AL && c != SpecialCondition && c != InvalidCondition
    ensures 0 <= r <= 13 && r != c
    ensures r / 2 == c / 2
  {
    ((c as bv8) ^ 1) as int
  }

  /** The seven pairs the source's compile-time assertions list. */
  lemma InvertConditionPairs()
    ensures InvertCondition(EQ) == NE && InvertCondition(NE) == EQ
    ensures InvertCondition(CS) == CC && InvertCondition(CC) == CS
    ensures InvertCondition(MI) == PL && InvertCondition(PL) == MI
    ensures InvertCondition(VS) == VC && InvertCondition(VC) == VS
    ensures InvertCondition(HI) == LS && InvertCondition(LS) == HI
    ensures InvertCondition(GE) == LT && InvertCondition(LT) == GE
    ensures InvertCondition(GT) == LE && InvertCondition(LE) == GT
  {
  }

  lemma InvertConditionInvolution(c: Condition)
    requires c != AL && c != SpecialCondition && c != InvalidCondition
    ensures InvertCondition(InvertCondition(c)) == c
  {
  }

  // ---------------------------------------------------------------------
  // Instruction bit fields (Figure A3-1 of the ARM Architecture Reference Manual)

  /** The 32 bits of an instruction. */
  type Word = w: int | 0 <= w < 0x1_0000_0000

  /** The instruction bits read as the signed 32-bit value `InstructionBits()`
      returns (two's complement). */
  function Signed(w: Word): (r: int)
    ensures -0x8000_0000 <= r < 0x8000_0000
    ensures (r - w) % 0x1_0000_0000 == 0
    ensures r < 0 <==> w >= 0x8000_0000
  {
    if w < 0x8000_0000 then w else w - 0x1_0000_0000
  }

  /** Instr::Bits: `(InstructionBits() >> shift) & ((1 << count) - 1)`. The
      C++ `>>` of a signed value is an arithmetic shift, which is floor
      division by 2^shift; masking the low `count` bits of a two's complement
      value is the (non-negative) remainder modulo 2^count. */
  function Bits(w: Word, shift: nat, count: nat): (r: int)
    ensures 0 <= r < Pow2(count)
  {
    (Signed(w) / Pow2(shift)) % Pow2(count)
  }

  /** Instr::Bit. */
  function Bit(w: Word, nr: nat): (r: int)
    ensures r == 0 || r == 1
  {
    assert Pow2(1) == 2;
    Bits(w, nr, 1)
  }

  /** Subtracting a multiple of `ps * pc` leaves the field of width `pc`
      above `ps` unchanged. */
  lemma FieldIgnoresHighMultiple(u: int, ps: int, pc: int, m: int)
    requires ps > 0 && pc > 0
    ensures ((u - ps * (pc * m)) / ps) % pc == (u / ps) % pc
  {
    var q, r := u / ps, u % ps;
    assert u == q * ps + r;
    assert u - ps * (pc * m) == (q - pc * m) * ps + r;
    DivModUnique(u - ps * (pc * m), ps, q - pc * m, r);
    var q2, r2 := q / pc, q % pc;
    assert q == q2 * pc + r2;
    assert q - pc * m == (q2 - m) * pc + r2;
    DivModUnique(q - pc * m, pc, q2 - m, r2);
  }

  /** A field that lies inside the 32 bits (2^shift * 2^count * pr == 2^32)
      never sees the sign bits the arithmetic shift brings in: it is the
      field of the unsigned pattern. */
  lemma BitsOfUnsigned(w: Word, shift: nat, count: nat, ps: nat, pc: nat, pr: nat)
    requires ps == Pow2(shift) && pc == Pow2(count) && ps * (pc * pr) == 0x1_0000_0000
    ensures Bits(w, shift, count) == (w / ps) % pc
  {
    if w >= 0x8000_0000 {
      FieldIgnoresHighMultiple(w, ps, pc, pr);
    }
  }

  /** Dividing by `a` and then by `b` is dividing by `a * b`. */
  lemma DivDiv(x: nat, a: nat, b: nat)
    requires a > 0 && b > 0
    ensures (x / a) / b == x / (a * b)
    ensures x / a == (x / (a * b)) * b + (x / a) % b
  {
    var q1, r1 := x / a, x % a;
    var q2, r2 := q1 / b, q1 % b;
    assert x == q2 * (a * b) + (r2 * a + r1) by {
      assert x == q1 * a + r1;
      assert q1 == q2 * b + r2;
    }
    assert r2 * a + r1 < a * b by {
      MulMono(r2, b - 1, a);
      assert (b - 1) * a == a * b - a;
    }
    MulNonneg(r2, a);
    DivModUnique(x, a * b, q2, r2 * a + r1);
  }

  // Named fields. Each reads the bits Figure A3-1 assigns to it.

  function ConditionField(w: Word): (r: Condition)
    ensures r < 16
  {
    Pow2Table();
    Bits(w, 28, 4)
  }

  function TypeField(w: Word): (r: int)
    ensures 0 <= r < 8
  {
    Pow2Table();
    Bits(w, 25, 3)
  }

  function OpcodeField(w: Word): (r: int)
    ensures 0 <= r < 16
  {
    Pow2Table();
    Bits(w, 21, 4)
  }

  function SField(w: Word): (r: int)
    ensures r == 0 || r == 1
  {
    Bit(w, 20)
  }

  function RnField(w: Word): (r: int)
    ensures 0 <= r < 16
  {
    Pow2Table();
    Bits(w, 16, 4)
  }

  function RdField(w: Word): (r: int)
    ensures 0 <= r < 16
  {
    Pow2Table();
    Bits(w, 12, 4)
  }

  function RsField(w: Word): (r: int)
    ensures 0 <= r < 16
  {
    Pow2Table();
    Bits(w, 8, 4)
  }

  function RmField(w: Word): (r: int)
    ensures 0 <= r < 16
  {
    Pow2Table();
    Bits(w, 0, 4)
  }

  /** The low twelve bits: the shifter operand or the 12-bit offset. */
  function Offset12Field(w: Word): (r: int)
    ensures 0 <= r < 0x1000
  {
    Pow2Table();
    Bits(w, 0, 12)
  }

  function SvcField(w: Word): (r: int)
    ensures 0 <= r < 0x100_0000
  {
    Pow2Table();
    Bits(w, 0, 24)
  }

  /** The seven fields of a data-processing instruction, as Instr::Bits reads them. */
  lemma {:induction false} BitsTile(w: Word)
    ensures w == Bits(w, 28, 4) * 0x1000_0000 + Bits(w, 25, 3) * 0x200_0000
               + Bits(w, 21, 4) * 0x20_0000 + Bits(w, 20, 1) * 0x10_0000
               + Bits(w, 16, 4) * 0x1_0000 + Bits(w, 12, 4) * 0x1000 + Bits(w, 0, 12)
  {
    Pow2Table();
    var q1, q2, q3 := w / 0x1000, w / 0x1_0000, w / 0x10_0000;
    var q4, q5, q6 := w / 0x20_0000, w / 0x200_0000, w / 0x1000_0000;
    assert Bits(w, 0, 12) == w % 0x1000 by { BitsOfUnsigned(w, 0, 12, 1, 0x1000, 0x10_0000); }
    assert Bits(w, 12, 4) == q1 % 16 by { BitsOfUnsigned(w, 12, 4, 0x1000, 16, 0x1_0000); }
    assert Bits(w, 16, 4) == q2 % 16 by { BitsOfUnsigned(w, 16, 4, 0x1_0000, 16, 0x1000); }
    assert Bits(w, 20, 1) == q3 % 2 by { BitsOfUnsigned(w, 20, 1, 0x10_0000, 2, 0x800); }
    assert Bits(w, 21, 4) == q4 % 16 by { BitsOfUnsigned(w, 21, 4, 0x20_0000, 16, 128); }
    assert Bits(w, 25, 3) == q5 % 8 by { BitsOfUnsigned(w, 25, 3, 0x200_0000, 8, 16); }
    assert Bits(w, 28, 4) == q6 by { BitsOfUnsigned(w, 28, 4, 0x1000_0000, 16, 1); }
    assert q1 / 16 == q2 by { DivDiv(w, 0x1000, 16); }
    assert q2 / 16 == q3 by { DivDiv(w, 0x1_0000, 16); }
    assert q3 / 2 == q4 by { DivDiv(w, 0x10_0000, 2); }
    assert q4 / 16 == q5 by { DivDiv(w, 0x20_0000, 16); }
    assert q5 / 8 == q6 by { DivDiv(w, 0x200_0000, 8); }
    Horner(w, q1, q2, q3, q4, q5, q6);
  }

  /** The linear arithmetic of BitsTile: peeling the fields off one by one. */
  lemma Horner(w: nat, q1: nat, q2: nat, q3: nat, q4: nat, q5: nat, q6: nat)
    requires w == w % 0x1000 + 0x1000 * q1 && q1 == q1 % 16 + 16 * q2 && q2 == q2 % 16 + 16 * q3
    requires q3 == q3 % 2 + 2 * q4 && q4 == q4 % 16 + 16 * q5 && q5 == q5 % 8 + 8 * q6
    ensures w == q6 * 0x1000_0000 + (q5 % 8) * 0x200_0000 + (q4 % 16) * 0x20_0000 + (q3 % 2) * 0x10_0000
                 + (q2 % 16) * 0x1_0000 + (q1 % 16) * 0x1000 + w % 0x1000
  {
  }

  /** A data-processing instruction is exactly the concatenation of its
      condition, type, opcode, S, Rn, Rd and shifter-operand fields, so the
      fields decode every bit once. */
  lemma DataProcessingFieldsTile(w: Word)
    ensures w == ConditionField(w) * 0x1000_0000 + TypeField(w) * 0x200_0000
               + OpcodeField(w) * 0x20_0000 + SField(w) * 0x10_0000
               + RnField(w) * 0x1_0000 + RdField(w) * 0x1000 + Offset12Field(w)
  {
    BitsTile(w);
  }

  /** `static_cast<int32_t>(bits << 8) >> 8`: bits 0..23 read as a signed
      24-bit number. The left shift drops the top eight bits of the word. */
  function SImmed24Field(w: Word): (r: int)
    ensures -0x80_0000 <= r < 0x80_0000
    ensures (r - w) % 0x100_0000 == 0
  {
    var shifted: Word := (w * 256) % 0x1_0000_0000;
    Signed(shifted) / 256
  }

  /** Instr::BkptField: bits 8..19 above bits 0..3, the 16-bit BKPT
      immediate. The two parts do not overlap, so their `|` is their sum. */
  function BkptField(w: Word): (r: int)
    ensures 0 <= r < 0x1_0000
  {
    Pow2Table();
    Bits(w, 8, 12) * 16 + Bits(w, 0, 4)
  }

  /** Instr::MovwField: bits 16..19 above bits 0..11, the 16-bit MOVW
      immediate. */
  function MovwField(w: Word): (r: int)
    ensures 0 <= r < 0x1_0000
  {
    Pow2Table();
    RnField(w) * 0x1000 + Offset12Field(w)
  }

  /** `movw r3, #0xbeef` (0xE30B_3EEF) decodes to its immediate, its
      destination and condition AL. */
  lemma MovwDecodes()
    ensures MovwField(0xE30B_3EEF) == 0xbeef
    ensures RdField(0xE30B_3EEF) == 3 && ConditionField(0xE30B_3EEF) == AL
  {
    Pow2Table();
  }

  /** `(InstructionBits() & 0x0ff000f0) == 0x01200070`: the mask keeps bits
      20..27 and 4..7, which must read 0x12 and 7. */
  predicate IsBkpt(w: Word) {
    Pow2Table();
    Bits(w, 20, 8) == 0x12 && Bits(w, 4, 4) == 7
  }

  /** `(InstructionBits() & 0x0f000000) == 0x0f000000`: bits 24..27 all set. */
  predicate IsSvc(w: Word) {
    Pow2Table();
    Bits(w, 24, 4) == 0xf
  }

  const BreakPointCode: int := 0xdeb0
  /** `(AL << 28) | (0x12 << 20) | (0xdeb << 8) | (0x7 << 4)`. */
  const BreakPointInstruction: Word := AL * 0x1000_0000 + 0x12 * 0x10_0000 + 0xdeb * 0x100 + 7 * 0x10
  const BreakInstructionFiller: Word := 0xE120_0070

  /** Both breakpoint constants are BKPT instructions with condition AL, and
      the breakpoint instruction carries kBreakPointCode; neither is an SVC. */
  lemma BreakpointConstants()
    ensures IsBkpt(BreakPointInstruction) && IsBkpt(BreakInstructionFiller)
    ensures !IsSvc(BreakPointInstruction) && !IsSvc(BreakInstructionFiller)
    ensures ConditionField(BreakPointInstruction) == AL && ConditionField(BreakInstructionFiller) == AL
    ensures BkptField(BreakPointInstruction) == BreakPointCode
    ensures BkptField(BreakInstructionFiller) == 0
  {
    Pow2Table();
    assert BreakPointInstruction == 0xE12D_EB70;
  }

  /** The instruction word as the 32 bits the mask tests read. */
  function WordBits(w: Word): bv32 {
    w as bv32
  }

  /** The same verdicts by the source's own mask tests on the 32-bit
      instruction: both constants pass IsBkpt's and fail IsSvc's. */
  lemma BreakpointMasks()
    ensures WordBits(BreakPointInstruction) & 0x0ff0_00f0 == 0x0120_0070
    ensures WordBits(BreakInstructionFiller) & 0x0ff0_00f0 == 0x0120_0070
    ensures WordBits(BreakPointInstruction) & 0x0f00_0000 != 0x0f00_0000
    ensures WordBits(BreakInstructionFiller) & 0x0f00_0000 != 0x0f00_0000
  {
    assert BreakPointInstruction == 0xE12D_EB70;
    assert WordBits(0xE12D_EB70) == 0xE12D_EB70;
    assert WordBits(0xE120_0070) == 0xE120_0070;
  }

  // ---------------------------------------------------------------------
  // VFP register numbering

  type SRegister = s: int | 0 <= s < 32
  type DRegister = d: int | 0 <= d < 32
  type QRegister = q: int | 0 <= q < 16

  function EvenDRegisterOf(q: QRegister): DRegister { q * 2 }
  function OddDRegisterOf(q: QRegister): DRegister { q * 2 + 1 }

  /** Only D0..D15 overlap S registers. */
  function EvenSRegisterOf(d: DRegister): SRegister
    requires d < 16
  {
    d * 2
  }

  function OddSRegisterOf(d: DRegister): SRegister
    requires d < 16
  {
    d * 2 + 1
  }

  function QRegisterOfD(d: DRegister): QRegister { d / 2 }
  function QRegisterOfS(s: SRegister): QRegister { s / 4 }
  function DRegisterOfS(s: SRegister): DRegister { s / 2 }

  /** Each Q register is made of the two D registers it names, each D
      register below D16 of two S registers, and the maps agree. */
  lemma RegisterOverlap(q: QRegister, d: DRegister, s: SRegister)
    ensures QRegisterOfD(EvenDRegisterOf(q)) == q && QRegisterOfD(OddDRegisterOf(q)) == q
    ensures OddDRegisterOf(q) == EvenDRegisterOf(q) + 1
    ensures d < 16 ==> DRegisterOfS(EvenSRegisterOf(d)) == d && DRegisterOfS(OddSRegisterOf(d)) == d
    ensures QRegisterOfS(s) == QRegisterOfD(DRegisterOfS(s))
    ensures d == EvenDRegisterOf(QRegisterOfD(d)) || d == OddDRegisterOf(QRegisterOfD(d))
  {
  }

  function SnField(w: Word): SRegister { RnField(w) * 2 + Bit(w, 7) }
  function SdField(w: Word): SRegister { RdField(w) * 2 + Bit(w, 22) }
  function SmField(w: Word): SRegister { RmField(w) * 2 + Bit(w, 5) }
  function DnField(w: Word): DRegister { RnField(w) + Bit(w, 7) * 16 }
  function DdField(w: Word): DRegister { RdField(w) + Bit(w, 22) * 16 }
  function DmField(w: Word): DRegister { RmField(w) + Bit(w, 5) * 16 }
  function QnField(w: Word): QRegister { (RnField(w) + Bit(w, 7) * 16) / 2 }
  function QdField(w: Word): QRegister { (RdField(w) + Bit(w, 22) * 16) / 2 }
  function QmField(w: Word): QRegister { (RmField(w) + Bit(w, 5) * 16) / 2 }

  /** The S, D and Q decodings of one operand slot agree: the D register of
      the S field is the 4-bit field, the Q field is the Q register of the D
      field, and the extra bit selects the upper sixteen D registers. */
  lemma VfpFieldsAgree(w: Word)
    ensures DRegisterOfS(SnField(w)) == RnField(w) && QnField(w) == QRegisterOfD(DnField(w))
    ensures DRegisterOfS(SdField(w)) == RdField(w) && QdField(w) == QRegisterOfD(DdField(w))
    ensures DRegisterOfS(SmField(w)) == RmField(w) && QmField(w) == QRegisterOfD(DmField(w))
    ensures DnField(w) < 16 <==> Bit(w, 7) == 0
  {
  }

  // ---------------------------------------------------------------------
  // Reserved and available CPU registers

  type CpuRegister = r: int | 0 <= r < 16

  const R4: CpuRegister := 4
  const R5: CpuRegister := 5
  const R6: CpuRegister := 6
  const R7: CpuRegister := 7
  const R8: CpuRegister := 8
  const R9: CpuRegister := 9
  const R10: CpuRegister := 10
  const R11: CpuRegister := 11
  const IP: CpuRegister := 12
  const SP: CpuRegister := 13
  const LR: CpuRegister := 14
  const PC: CpuRegister := 15
  const PP: CpuRegister := R5
  const THR: CpuRegister := R10
  const TMP: CpuRegister := IP

  /** FP is R7 on Apple targets and R11 elsewhere; NOTFP is the other one. */
  function FP(apple: bool): CpuRegister { if apple then R7 else R11 }
  function NOTFP(apple: bool): CpuRegister { if apple then R11 else R7 }

  type RegList = set<CpuRegister>

  /** kAllCpuRegistersList, 0xFFFF. */
  const AllCpuRegistersList: RegList := set r: CpuRegister | 0 <= r < 16

  function ReservedCpuRegisters(apple: bool): RegList {
    {SP, FP(apple), TMP, PP, THR, LR, PC, NOTFP(apple)}
  }

  function DartAvailableCpuRegs(apple: bool): RegList {
    AllCpuRegistersList - ReservedCpuRegisters(apple)
  }

  function AbiPreservedCpuRegs(apple: bool): RegList {
    if apple then {R4, R5, R6, R8, R10, R11}
    else {R4, R5, R6, R7, R8, R9, R10}
  }

  function AbiPreservedCpuRegCount(apple: bool): int { if apple then 6 else 7 }

  function DartVolatileCpuRegs(apple: bool): RegList {
    DartAvailableCpuRegs(apple) - AbiPreservedCpuRegs(apple)
  }

  const NumberOfCpuRegisters := 16

  /** kNumberOfReservedCpuRegisters = Utils::CountOneBits32(kReservedCpuRegisters). */
  function NumberOfReservedCpuRegisters(apple: bool): nat {
    |ReservedCpuRegisters(apple)|
  }

  function NumberOfDartAvailableCpuRegs(apple: bool): int {
    NumberOfCpuRegisters - NumberOfReservedCpuRegisters(apple)
  }

  /** The reserved and available lists, register by register. */
  lemma AvailableRegisterValues(apple: bool)
    ensures ReservedCpuRegisters(apple) == {5, 7, 10, 11, 12, 13, 14, 15}
    ensures DartAvailableCpuRegs(apple) == {0, 1, 2, 3, 4, 6, 8, 9}
  {
    assert ReservedCpuRegisters(apple) == {5, 7, 10, 11, 12, 13, 14, 15};
    forall r: CpuRegister
      ensures r in DartAvailableCpuRegs(apple) <==> r in {0, 1, 2, 3, 4, 6, 8, 9}
    {
      assert r in AllCpuRegistersList;
    }
  }

  /** kDartAvailableCpuRegs and the reserved registers split the sixteen
      CPU registers. */
  lemma AvailableRegistersPartition(apple: bool)
    ensures DartAvailableCpuRegs(apple) * ReservedCpuRegisters(apple) == {}
    ensures DartAvailableCpuRegs(apple) + ReservedCpuRegisters(apple) == AllCpuRegistersList
  {
    var avail := DartAvailableCpuRegs(apple);
    var reserved := ReservedCpuRegisters(apple);
    forall r: CpuRegister ensures r in avail + reserved {
      assert r in AllCpuRegistersList;
    }
  }

  /** The available list holds as many registers as
      kNumberOfDartAvailableCpuRegs says: eight. */
  lemma AvailableRegisterCount(apple: bool)
    ensures |DartAvailableCpuRegs(apple)| == NumberOfDartAvailableCpuRegs(apple) == 8
  {
    AvailableRegisterValues(apple);
    EightRegisters(ReservedCpuRegisters(apple), DartAvailableCpuRegs(apple));
  }

  lemma EightRegisters(reserved: RegList, available: RegList)
    requires reserved == {5, 7, 10, 11, 12, 13, 14, 15} && available == {0, 1, 2, 3, 4, 6, 8, 9}
    ensures |reserved| == 8 && |available| == 8
  {
  }

  /** kAbiPreservedCpuRegCount counts kAbiPreservedCpuRegs. */
  lemma PreservedRegisterCount(apple: bool)
    ensures |AbiPreservedCpuRegs(apple)| == AbiPreservedCpuRegCount(apple)
  {
    if apple {
      assert AbiPreservedCpuRegs(apple) == {4, 5, 6, 8, 10, 11};
    } else {
      assert AbiPreservedCpuRegs(apple) == {4, 5, 6, 7, 8, 9, 10};
    }
  }

  /** kDartVolatileCpuRegCount exactly as the header declares it. */
  function DartVolatileCpuRegCountAsWritten(apple: bool): int {
    if apple then 6 else 5
  }

  /** The declared count is one more than the number of registers in
      kDartVolatileCpuRegs, on both kinds of target. */
  lemma DartVolatileCountMismatch(apple: bool)
    ensures |DartVolatileCpuRegs(apple)| == DartVolatileCpuRegCountAsWritten(apple) - 1
  {
    VolatileRegisterValues(apple);
    var low: RegList := {0, 1, 2, 3};
    assert |low| == 4;
    if apple {
      assert DartVolatileCpuRegs(apple) == low + {9};
    }
  }

  /** kDartVolatileCpuRegs register by register: R0-R3, and R9 on Apple
      targets, where it is not preserved by the ABI. */
  lemma VolatileRegisterValues(apple: bool)
    ensures DartVolatileCpuRegs(apple) == if apple then {0, 1, 2, 3, 9} else {0, 1, 2, 3}
  {
    AvailableRegisterValues(apple);
  }

  /** The count derived from the register list, as its sibling
      kNumberOfDartAvailableCpuRegs is. */
  function DartVolatileCpuRegCount(apple: bool): (r: nat)
    ensures r == |DartVolatileCpuRegs(apple)|
    ensures r == if apple then 5 else 4
  {
    DartVolatileCountMismatch(apple);
    if apple then 5 else 4
  }

  /** A volatile Dart register is available and not preserved by the ABI,
      and every available register that is not preserved is volatile. */
  lemma VolatileRegisters(apple: bool, r: CpuRegister)
    ensures r in DartVolatileCpuRegs(apple) <==>
            r !in ReservedCpuRegisters(apple) && r !in AbiPreservedCpuRegs(apple)
  {
  }
}
