/**
 * The value-computing tables of ops.py: Branch.branchfuncs, ArithImm.arithfuncts
 * (with slli and sri) and ArithReg.arithfuncts (with addsub and sr).
 *
 * Every handler reads its register operands with get_signed, so the operands
 * here are signed Python integers; the results are unbounded and are masked to
 * 32 bits only when RegisterFile.set stores them.  The partner of each table is
 * the textbook RV32I rule on the unsigned register contents (section 2.4 and
 * section 2.5 of the RISC-V Unprivileged ISA), stated with ordinary arithmetic.
 */
module Alu {
  import opened Bits
  import opened Results
  import opened Decode

  // funct3 values of Branch
  const BEQ := 0
  const BNE := 1
  const BLT := 4
  const BGE := 5
  const BLTU := 6
  const BGEU := 7

  // funct3 values shared by ArithImm and ArithReg
  const ADD := 0
  const SLL := 1
  const SLT := 2
  const SLTU := 3
  const XOR := 4
  const SR := 5
  const OR := 6
  const AND := 7

  /** funct7 of SUB and SRA/SRAI. */
  const ALT_FUNCT7 := 0x20

  /** `Branch.branchfuncs[funct3](rs1, rs2)`; funct3 2 and 3 have no entry, a KeyError. */
  function BranchTaken(funct3: int, rs1: int, rs2: int): (r: Result<bool>)
    ensures r.Err? <==> funct3 !in {BEQ, BNE, BLT, BGE, BLTU, BGEU}
    ensures r.Err? ==> r.fault == InvalidFunct3
  {
    if funct3 == BEQ then Ok(rs1 == rs2)
    else if funct3 == BNE then Ok(rs1 != rs2)
    else if funct3 == BLT then Ok(rs1 < rs2)
    else if funct3 == BGE then Ok(rs1 >= rs2)
    else if funct3 == BLTU then Ok(Mask32(rs1) < Mask32(rs2))
    else if funct3 == BGEU then Ok(Mask32(rs1) >= Mask32(rs2))
    else Err(InvalidFunct3)
  }

  /** The branch conditions of section 2.5, on the unsigned register contents u1 and u2. */
  function BranchReference(funct3: int, u1: int, u2: int): bool
  {
    if funct3 == BEQ then u1 == u2
    else if funct3 == BNE then u1 != u2
    else if funct3 == BLT then ToSigned32(u1) < ToSigned32(u2)
    else if funct3 == BGE then ToSigned32(u1) >= ToSigned32(u2)
    else if funct3 == BLTU then u1 < u2
    else u1 >= u2
  }

  /** On operands read with get_signed, branchfuncs decides every branch as section 2.5 does. */
  lemma BranchMatchesReference(funct3: int, u1: int, u2: int)
    requires 0 <= u1 < TwoTo32 && 0 <= u2 < TwoTo32
    requires funct3 in {BEQ, BNE, BLT, BGE, BLTU, BGEU}
    ensures BranchTaken(funct3, SignExtend(u1, 31), SignExtend(u2, 31)) == Ok(BranchReference(funct3, u1, u2))
  {
    SignExtend31(u1);
    SignExtend31(u2);
    SignedMasksBack(u1);
    SignedMasksBack(u2);
  }

  // ---------------------------------------------------------------------------
  // ArithImm
  // ---------------------------------------------------------------------------

  /** `imm & 0b111111100000`, the funct7 bits that SLLI and SRLI/SRAI carry in their immediate. */
  function ShiftFunct7Bits(imm: int): (r: int)
  {
    BitAnd(imm, 0xFE0)
  }

  lemma ShiftFunct7BitsValue(imm: int)
    ensures ShiftFunct7Bits(imm) == ((imm / 32) % 128) * 32
  {
    Pow2Values();
    AndShiftedMask(imm, 7, 5);
  }

  /** ArithImm.slli: fails unless bits 11..5 of the immediate are clear. */
  function Slli(rs1: int, imm: int): (r: Result<int>)
  {
    if ShiftFunct7Bits(imm) != 0 then Err(InvalidFunct7) else Ok(Shl(rs1, ShiftAmount(imm)))
  }

  /** ArithImm.sri: bits 11..5 clear select the logical shift, 0b0100000 the arithmetic one. */
  function Sri(rs1: int, imm: int): (r: Result<int>)
  {
    var shamt := ShiftAmount(imm);
    if ShiftFunct7Bits(imm) == 0 then Ok(Shr(Mask32(rs1), shamt))
    else if ShiftFunct7Bits(imm) != 0x400 then Err(InvalidFunct7)
    else Ok(Shr(rs1, shamt))
  }

  /** `ArithImm.arithfuncts[funct3](rs1, imm)`, on the signed operand and sign-extended immediate. */
  function ArithImmValue(funct3: Funct3, rs1: int, imm: int): (r: Result<int>)
    ensures r.Err? ==> (funct3 == SLL || funct3 == SR) && r.fault == InvalidFunct7
  {
    if funct3 == ADD then Ok(rs1 + imm)
    else if funct3 == SLT then Ok(if rs1 < imm then 1 else 0)
    else if funct3 == SLTU then Ok(if Mask32(rs1) < Mask32(imm) then 1 else 0)
    else if funct3 == XOR then Ok(BitXor(rs1, imm))
    else if funct3 == OR then Ok(BitOr(rs1, imm))
    else if funct3 == AND then Ok(BitAnd(rs1, imm))
    else if funct3 == SLL then Slli(rs1, imm)
    else Sri(rs1, imm)
  }

  /** The shifts by immediate as arithmetic: which immediates fail, and the product or quotient otherwise. */
  lemma ImmediateShifts(rs1: int, imm: int)
    ensures var hi, shamt := (imm / 32) % 128, imm % 32;
      && Slli(rs1, imm) == (if hi == 0 then Ok(rs1 * Pow2(shamt)) else Err(InvalidFunct7))
      && Sri(rs1, imm) == (if hi == 0 then Ok((rs1 % TwoTo32) / Pow2(shamt))
                           else if hi == ALT_FUNCT7 then Ok(rs1 / Pow2(shamt))
                           else Err(InvalidFunct7))
  {
    ShiftFunct7BitsValue(imm);
    ShlMul(rs1, imm % 32);
    ShrDiv(Mask32(rs1), imm % 32);
    ShrDiv(rs1, imm % 32);
  }

  /** Of a 12-bit I immediate, the sign-extended value keeps bits 11..5 and the shift amount. */
  lemma ShiftImmediateFields(raw: int)
    requires 0 <= raw < 0x1000
    ensures (SextI(raw) / 32) % 128 == raw / 32 && SextI(raw) % 32 == raw % 32
  {
    var x := SextI(raw);
    DivModMul(x, 32, 128);
    DivModUnique(raw, 32, (x / 32) % 128, x % 32);
  }

  /** The value of a 12-bit two's-complement immediate. */
  function ImmediateValue(raw: int): int
  {
    if raw < 0x800 then raw else raw - 0x1000
  }

  /** The textbook rule for an I-type ALU instruction, on the unsigned contents of rs1 and the 12-bit immediate. */
  function ArithImmReference(funct3: Funct3, u: int, raw: int): Option<int>
    requires 0 <= raw < 0x1000
  {
    var imm := ImmediateValue(raw);
    var shamt := raw % 32;
    if funct3 == ADD then Some((u + imm) % TwoTo32)
    else if funct3 == SLT then Some(if ToSigned32(u) < imm then 1 else 0)
    else if funct3 == SLTU then Some(if u < imm % TwoTo32 then 1 else 0)
    else if funct3 == XOR then Some(BitXor(u, imm % TwoTo32))
    else if funct3 == OR then Some(BitOr(u, imm % TwoTo32))
    else if funct3 == AND then Some(BitAnd(u, imm % TwoTo32))
    else if funct3 == SLL then (if raw / 32 == 0 then Some((u * Pow2(shamt)) % TwoTo32) else None)
    else if raw / 32 == 0 then Some(u / Pow2(shamt))
    else if raw / 32 == ALT_FUNCT7 then Some((ToSigned32(u) / Pow2(shamt)) % TwoTo32)
    else None
  }

  /**
   * ArithImm.execute agrees with the textbook rule: on rs1 read with get_signed
   * and the sign-extended immediate, arithfuncts fails exactly where the rule
   * has no result, and otherwise its value masked by RegisterFile.set is the
   * rule's value.
   */
  lemma ArithImmMatchesReference(funct3: Funct3, u: int, raw: int)
    requires 0 <= u < TwoTo32 && 0 <= raw < 0x1000
    ensures var r := ArithImmValue(funct3, SignExtend(u, 31), SextI(raw));
      && (r.Err? <==> ArithImmReference(funct3, u, raw).None?)
      && (r.Ok? ==> r.value % TwoTo32 == ArithImmReference(funct3, u, raw).value)
  {
    SignedOperand(u);
    ShiftImmediateFields(raw);
    SextIValue(raw);
    ArithImmOnOperands(funct3, u, raw, SignExtend(u, 31), SextI(raw));
  }

  /** What get_signed returns, as facts about a plain value s. */
  lemma SignedOperand(u: int)
    requires 0 <= u < TwoTo32
    ensures SignExtend(u, 31) == ToSigned32(u) && SignExtend(u, 31) % TwoTo32 == u
    ensures SignExtend(u, 31) % 32 == u % 32
  {
    SignExtend31(u);
    SignedMasksBack(u);
    if u >= 0x8000_0000 {
      DivModUnique(u - TwoTo32, 32, u / 32 - 0x800_0000, u % 32);
    }
  }

  /** The operands ArithImm.execute works on: rs1 read signed, and the sign-extended immediate with its bit fields. */
  predicate ImmOperands(u: int, raw: int, s: int, imm: int)
  {
    && 0 <= u < TwoTo32 && 0 <= raw < 0x1000
    && s == ToSigned32(u) && s % TwoTo32 == u
    && imm == ImmediateValue(raw) && (imm / 32) % 128 == raw / 32 && imm % 32 == raw % 32
  }

  /** arithfuncts on those operands fails where the rule has no result and agrees with it mod 2^32 elsewhere. */
  predicate ImmAgrees(funct3: Funct3, u: int, raw: int, s: int, imm: int)
    requires 0 <= raw < 0x1000
  {
    var r := ArithImmValue(funct3, s, imm);
    && (r.Err? <==> ArithImmReference(funct3, u, raw).None?)
    && (r.Ok? ==> r.value % TwoTo32 == ArithImmReference(funct3, u, raw).value)
  }

  lemma ArithImmOnOperands(funct3: Funct3, u: int, raw: int, s: int, imm: int)
    requires ImmOperands(u, raw, s, imm)
    ensures ImmAgrees(funct3, u, raw, s, imm)
  {
    if funct3 == ADD {
      ModPlus(s, u, imm);
    } else if funct3 == XOR {
      XorMasked(s, imm);
    } else if funct3 == OR {
      OrMasked(s, imm);
    } else if funct3 == AND {
      AndMasked(s, imm);
    } else if funct3 == SLL {
      SlliOnOperands(u, raw, s, imm);
    } else if funct3 == SR {
      SriOnOperands(u, raw, s, imm);
    }
  }

  lemma SlliOnOperands(u: int, raw: int, s: int, imm: int)
    requires ImmOperands(u, raw, s, imm)
    ensures ImmAgrees(SLL, u, raw, s, imm)
  {
    ImmediateShifts(s, imm);
    ModTimes(s, u, Pow2(raw % 32));
  }

  lemma SriOnOperands(u: int, raw: int, s: int, imm: int)
    requires ImmOperands(u, raw, s, imm)
    ensures ImmAgrees(SR, u, raw, s, imm)
  {
    ImmediateShifts(s, imm);
    ShiftRightSmall(u, raw % 32);
  }

  /** Congruent summands give congruent sums. */
  lemma ModPlus(s: int, u: int, t: int)
    requires s % TwoTo32 == u % TwoTo32
    ensures (s + t) % TwoTo32 == (u + t) % TwoTo32
  {
    DivModUnique(s + t, TwoTo32, s / TwoTo32 + (u + t) / TwoTo32 - u / TwoTo32, (u + t) % TwoTo32);
  }

  /** Congruent factors give congruent products. */
  lemma ModTimes(s: int, u: int, m: int)
    requires s % TwoTo32 == u % TwoTo32
    ensures (s * m) % TwoTo32 == (u * m) % TwoTo32
  {
    var k := s / TwoTo32 - u / TwoTo32;
    assert s == u + k * TwoTo32;
    assert s * m == u * m + (k * m) * TwoTo32 by {
      MulDistributes(u, k * TwoTo32, m);
      MulAssociates(k, TwoTo32, m);
      MulAssociates(k, m, TwoTo32);
    }
    DivModUnique(s * m, TwoTo32, (u * m) / TwoTo32 + k * m, (u * m) % TwoTo32);
  }

  /** Masking the result of a bitwise operator is the operator on the masked operands. */
  lemma XorMasked(a: int, b: int)
    ensures BitXor(a, b) % TwoTo32 == BitXor(a % TwoTo32, b % TwoTo32)
  {
    Pow2Values();
    XorLowBits(a, b, 32);
  }

  lemma OrMasked(a: int, b: int)
    ensures BitOr(a, b) % TwoTo32 == BitOr(a % TwoTo32, b % TwoTo32)
  {
    Pow2Values();
    OrLowBits(a, b, 32);
  }

  lemma AndMasked(a: int, b: int)
    ensures BitAnd(a, b) % TwoTo32 == BitAnd(a % TwoTo32, b % TwoTo32)
  {
    Pow2Values();
    AndLowBits(a, b, 32);
  }

  /** A quotient of a natural number by a positive divisor is no larger than it. */
  lemma DivSmaller(u: int, d: int)
    requires u >= 0 && d >= 1
    ensures 0 <= u / d <= u
  {
    var q := u / d;
    if q >= 1 {
      MulAtLeast(d, q);
    }
  }

  /** A logical shift of a 32-bit pattern stays below 2^32, so masking it again changes nothing. */
  lemma ShiftRightSmall(u: int, shamt: nat)
    requires 0 <= u < TwoTo32
    ensures (u / Pow2(shamt)) % TwoTo32 == u / Pow2(shamt)
  {
    DivSmaller(u, Pow2(shamt));
    DivModUnique(u / Pow2(shamt), TwoTo32, 0, u / Pow2(shamt));
  }

  // ---------------------------------------------------------------------------
  // ArithReg
  // ---------------------------------------------------------------------------

  /** ArithReg.addsub: funct7 0b0100000 subtracts, every other funct7 adds. */
  function AddSub(rs1: int, rs2: int, funct7: int): int
  {
    if funct7 == ALT_FUNCT7 then rs1 - rs2 else rs1 + rs2
  }

  /** ArithReg.sr: funct7 0 is the logical shift, 0b0100000 the arithmetic one, anything else fails. */
  function Sr(rs1: int, rs2: int, funct7: int): (r: Result<int>)
  {
    var shamt := ShiftAmount(rs2);
    if funct7 == 0 then Ok(Shr(Mask32(rs1), shamt))
    else if funct7 != ALT_FUNCT7 then Err(InvalidFunct7)
    else Ok(Shr(rs1, shamt))
  }

  /** `ArithReg.arithfuncts[funct3](rs1, rs2, funct7)`, on the signed operands. */
  function ArithRegValue(funct3: Funct3, rs1: int, rs2: int, funct7: int): (r: Result<int>)
    ensures r.Err? <==> funct3 == SR && funct7 != 0 && funct7 != ALT_FUNCT7
    ensures r.Err? ==> r.fault == InvalidFunct7
  {
    if funct3 == ADD then Ok(AddSub(rs1, rs2, funct7))
    else if funct3 == SLL then Ok(Shl(rs1, ShiftAmount(rs2)))
    else if funct3 == SLT then Ok(if rs1 < rs2 then 1 else 0)
    else if funct3 == SLTU then Ok(if Mask32(rs1) < Mask32(rs2) then 1 else 0)
    else if funct3 == XOR then Ok(BitXor(rs1, rs2))
    else if funct3 == SR then Sr(rs1, rs2, funct7)
    else if funct3 == OR then Ok(BitOr(rs1, rs2))
    else Ok(BitAnd(rs1, rs2))
  }

  /** The textbook rule for an R-type ALU instruction on the unsigned register contents. */
  function ArithRegReference(funct3: Funct3, u1: int, u2: int, funct7: int): Option<int>
  {
    var shamt := u2 % 32;
    if funct3 == ADD then Some(if funct7 == ALT_FUNCT7 then (u1 - u2) % TwoTo32 else (u1 + u2) % TwoTo32)
    else if funct3 == SLL then Some((u1 * Pow2(shamt)) % TwoTo32)
    else if funct3 == SLT then Some(if ToSigned32(u1) < ToSigned32(u2) then 1 else 0)
    else if funct3 == SLTU then Some(if u1 < u2 then 1 else 0)
    else if funct3 == XOR then Some(BitXor(u1, u2))
    else if funct3 == SR then
      (if funct7 == 0 then Some(u1 / Pow2(shamt))
       else if funct7 == ALT_FUNCT7 then Some((ToSigned32(u1) / Pow2(shamt)) % TwoTo32)
       else None)
    else if funct3 == OR then Some(BitOr(u1, u2))
    else Some(BitAnd(u1, u2))
  }

  /**
   * ArithReg.execute agrees with the textbook rule: on operands read with
   * get_signed, arithfuncts fails exactly where the rule has no result, and
   * otherwise its value masked by RegisterFile.set is the rule's value.
   */
  lemma ArithRegMatchesReference(funct3: Funct3, u1: int, u2: int, funct7: int)
    requires 0 <= u1 < TwoTo32 && 0 <= u2 < TwoTo32
    ensures var r := ArithRegValue(funct3, SignExtend(u1, 31), SignExtend(u2, 31), funct7);
      && (r.Err? <==> ArithRegReference(funct3, u1, u2, funct7).None?)
      && (r.Ok? ==> r.value % TwoTo32 == ArithRegReference(funct3, u1, u2, funct7).value)
  {
    SignedOperand(u1);
    SignedOperand(u2);
    ArithRegOnOperands(funct3, u1, u2, funct7, SignExtend(u1, 31), SignExtend(u2, 31));
  }

  /** The agreement ArithRegMatchesReference states, on operands read both ways. */
  predicate AgreesOnOperands(funct3: Funct3, u1: int, u2: int, funct7: int, s1: int, s2: int)
  {
    var r := ArithRegValue(funct3, s1, s2, funct7);
    && (r.Err? <==> ArithRegReference(funct3, u1, u2, funct7).None?)
    && (r.Ok? ==> r.value % TwoTo32 == ArithRegReference(funct3, u1, u2, funct7).value)
  }

  /** The facts about the two readings of a register that the agreement rests on. */
  predicate Operands(u1: int, u2: int, s1: int, s2: int)
  {
    && 0 <= u1 < TwoTo32 && 0 <= u2 < TwoTo32
    && s1 == ToSigned32(u1) && s1 % TwoTo32 == u1
    && s2 == ToSigned32(u2) && s2 % TwoTo32 == u2 && s2 % 32 == u2 % 32
  }

  lemma ArithRegOnOperands(funct3: Funct3, u1: int, u2: int, funct7: int, s1: int, s2: int)
    requires Operands(u1, u2, s1, s2)
    ensures AgreesOnOperands(funct3, u1, u2, funct7, s1, s2)
  {
    if funct3 == ADD {
      AddOnOperands(u1, u2, funct7, s1, s2);
    } else if funct3 == SLL {
      SllOnOperands(u1, u2, funct7, s1, s2);
    } else if funct3 == SR {
      SrOnOperands(u1, u2, funct7, s1, s2);
    } else {
      LogicOnOperands(funct3, u1, u2, funct7, s1, s2);
    }
  }

  lemma AddOnOperands(u1: int, u2: int, funct7: int, s1: int, s2: int)
    requires Operands(u1, u2, s1, s2)
    ensures AgreesOnOperands(ADD, u1, u2, funct7, s1, s2)
  {
    ModPlus(s1, u1, s2);
    ModPlus(s2, u2, u1);
    ModPlus(s1, u1, -s2);
    ModPlus(-s2, -u2, u1);
  }

  lemma SllOnOperands(u1: int, u2: int, funct7: int, s1: int, s2: int)
    requires Operands(u1, u2, s1, s2)
    ensures AgreesOnOperands(SLL, u1, u2, funct7, s1, s2)
  {
    ShlMul(s1, u2 % 32);
    ModTimes(s1, u1, Pow2(u2 % 32));
  }

  lemma SrOnOperands(u1: int, u2: int, funct7: int, s1: int, s2: int)
    requires Operands(u1, u2, s1, s2)
    ensures AgreesOnOperands(SR, u1, u2, funct7, s1, s2)
  {
    ShrDiv(u1, u2 % 32);
    ShrDiv(s1, u2 % 32);
    ShiftRightSmall(u1, u2 % 32);
  }

  lemma LogicOnOperands(funct3: Funct3, u1: int, u2: int, funct7: int, s1: int, s2: int)
    requires funct3 != ADD && funct3 != SLL && funct3 != SR
    requires Operands(u1, u2, s1, s2)
    ensures AgreesOnOperands(funct3, u1, u2, funct7, s1, s2)
  {
    if funct3 == XOR {
      XorMasked(s1, s2);
    } else if funct3 == OR {
      OrMasked(s1, s2);
    } else if funct3 == AND {
      AndMasked(s1, s2);
    }
  }

  // ---------------------------------------------------------------------------
  // Examples
  // ---------------------------------------------------------------------------

  /** 5 == 5 takes BEQ and not BNE; 0xFFFFFFFF read signed is -1, below 1 for BLT but not for BLTU. */
  lemma BranchExamples()
    ensures BranchTaken(BEQ, SignExtend(5, 31), SignExtend(5, 31)) == Ok(true)
    ensures BranchTaken(BNE, SignExtend(5, 31), SignExtend(5, 31)) == Ok(false)
    ensures BranchTaken(BLT, SignExtend(0xFFFF_FFFF, 31), SignExtend(1, 31)) == Ok(true)
    ensures BranchTaken(BLTU, SignExtend(0xFFFF_FFFF, 31), SignExtend(1, 31)) == Ok(false)
    ensures BranchTaken(2, 0, 0) == Err(InvalidFunct3) && BranchTaken(3, 0, 0) == Err(InvalidFunct3)
  {
    BranchMatchesReference(BEQ, 5, 5);
    BranchMatchesReference(BNE, 5, 5);
    BranchMatchesReference(BLT, 0xFFFF_FFFF, 1);
    BranchMatchesReference(BLTU, 0xFFFF_FFFF, 1);
  }

  /** IType.sign_extend on a 12-bit immediate, by its top bit. */
  lemma SextIValue(raw: int)
    requires 0 <= raw < 0x1000
    ensures SextI(raw) == ImmediateValue(raw)
  {
    var r := SextI(raw);
    var q := r / 0x1000;
    assert r == 0x1000 * q + raw;
    if raw < 0x800 {
      assert q == 0;
    } else {
      assert q == -1;
    }
  }

  /**
   * The reference's values for ADDI x1, x0, -1 (immediate 0xFFF), for
   * 0x80000000 shifted right by one logically (SRLI, immediate 1) and
   * arithmetically (SRAI, immediate 0x401), and for SLLI with bits 11..5 set.
   * Ops.AddiMinusOne and Ops.ShiftImmExamples carry them over to the handler.
   */
  lemma ArithImmExamples()
    ensures ArithImmReference(ADD, 0, 0xFFF) == Some(0xFFFF_FFFF)
    ensures ArithImmReference(SR, 0x8000_0000, 1) == Some(0x4000_0000)
    ensures ArithImmReference(SR, 0x8000_0000, 0x401) == Some(0xC000_0000)
    ensures ArithImmReference(SLL, 1, 0x401) == None
    ensures ArithImmReference(SLL, 0x8000_0000, 0x401) == None
  {
    Pow2Values();
  }
}
