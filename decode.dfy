/**
 * The six instruction formats of ops.py (RType ... JType): each decoder reads
 * its fields out of a 32-bit word with extract_bitfield and assembles the
 * immediate, unsigned, from its scattered pieces by shifting and or-ing.
 * Sign extension is left to the handlers (the per-format sign_extend helpers).
 *
 * The encoders are not part of the emulator: they are the reference that each
 * decoder is checked against (decoding undoes encoding, and back again).
 */
module Decode {
  import opened Bits

  type Opcode = x: int | 0 <= x < 128
  type RegIndex = x: int | 0 <= x < 32
  type Funct3 = x: int | 0 <= x < 8
  type Funct7 = x: int | 0 <= x < 128

  datatype RFields = RFields(op: Opcode, rd: RegIndex, funct3: Funct3, rs1: RegIndex, rs2: RegIndex, funct7: Funct7)
  datatype IFields = IFields(op: Opcode, rd: RegIndex, funct3: Funct3, rs1: RegIndex, imm: nat)
  datatype SFields = SFields(op: Opcode, funct3: Funct3, rs1: RegIndex, rs2: RegIndex, imm: nat)
  datatype BFields = BFields(op: Opcode, funct3: Funct3, rs1: RegIndex, rs2: RegIndex, imm: nat)
  datatype UFields = UFields(op: Opcode, rd: RegIndex, imm: nat)
  datatype JFields = JFields(op: Opcode, rd: RegIndex, imm: nat)

  /** Or-ing c shifted up by k bits (p = 2^k) with a value below p places the two side by side. */
  lemma OrPlaced(c: nat, lo: nat, p: int, k: nat)
    requires p == Pow2(k) && lo < p
    ensures BitOr(c * p, lo) == c * p + lo
  {
    MulDivCancel(c, p);
    OrDisjoint(c * p, lo, k, p);
  }

  /** The shifts the decoders use, as multiplications by literals. */
  lemma ShlValues(x: int)
    ensures Shl(x, 1) == x * 2 && Shl(x, 5) == x * 32 && Shl(x, 11) == x * 0x800
    ensures Shl(x, 12) == x * 0x1000 && Shl(x, 20) == x * 0x10_0000
  {
    Pow2Values();
    ShlMul(x, 1);
    ShlMul(x, 5);
    ShlMul(x, 11);
    ShlMul(x, 12);
    ShlMul(x, 20);
  }

  /** Every field the decoders extract is a number of its width. */
  lemma FieldBound(v: int, msb: nat, lsb: nat)
    requires lsb <= msb
    ensures 0 <= ExtractBitfield(v, msb, lsb) < Pow2(msb - lsb + 1)
  {
    ExtractBitfieldValue(v, msb, lsb);
  }

  /** The opcode field is the instruction's low seven bits. */
  lemma OpcodeField(instr: int)
    ensures ExtractBitfield(instr, 6, 0) == instr % 128
  {
    Pow2Values();
    ExtractBitfieldValue(instr, 6, 0);
  }

  /** The bounds of the fields every format reads. */
  lemma CommonBounds(instr: int)
    ensures 0 <= ExtractBitfield(instr, 11, 7) < 32 && 0 <= ExtractBitfield(instr, 14, 12) < 8
    ensures 0 <= ExtractBitfield(instr, 19, 15) < 32 && 0 <= ExtractBitfield(instr, 24, 20) < 32
    ensures 0 <= ExtractBitfield(instr, 31, 25) < 128 && 0 <= ExtractBitfield(instr, 31, 20) < 0x1000
  {
    Pow2Values();
    FieldBound(instr, 11, 7);
    FieldBound(instr, 14, 12);
    FieldBound(instr, 19, 15);
    FieldBound(instr, 24, 20);
    FieldBound(instr, 31, 25);
    FieldBound(instr, 31, 20);
  }

  /** RType.decode. */
  function DecodeR(instr: int): (f: RFields)
    ensures f.op == instr % 128
  {
    OpcodeField(instr);
    CommonBounds(instr);
    RFields(ExtractBitfield(instr, 6, 0), ExtractBitfield(instr, 11, 7), ExtractBitfield(instr, 14, 12),
            ExtractBitfield(instr, 19, 15), ExtractBitfield(instr, 24, 20), ExtractBitfield(instr, 31, 25))
  }

  /** IType.decode. */
  function DecodeI(instr: int): (f: IFields)
    ensures f.op == instr % 128 && f.imm < 0x1000
  {
    OpcodeField(instr);
    CommonBounds(instr);
    IFields(ExtractBitfield(instr, 6, 0), ExtractBitfield(instr, 11, 7), ExtractBitfield(instr, 14, 12),
            ExtractBitfield(instr, 19, 15), ExtractBitfield(instr, 31, 20))
  }

  /** `imm_11_5 | imm_4_0` of SType.decode, on the two extracted pieces. */
  function AssembleS(b11_5: nat, b4_0: nat): (imm: nat)
    requires b11_5 < 128 && b4_0 < 32
    ensures imm == b11_5 * 32 + b4_0
  {
    Pow2Values();
    ShlMul(b11_5, 5);
    OrPlaced(b11_5, b4_0, 32, 5);
    BitOr(Shl(b11_5, 5), Shl(b4_0, 0))
  }

  /** SType.decode. */
  function DecodeS(instr: int): (f: SFields)
    ensures f.op == instr % 128 && f.imm < 0x1000
  {
    OpcodeField(instr);
    CommonBounds(instr);
    SFields(ExtractBitfield(instr, 6, 0), ExtractBitfield(instr, 14, 12), ExtractBitfield(instr, 19, 15),
            ExtractBitfield(instr, 24, 20), AssembleS(ExtractBitfield(instr, 31, 25), ExtractBitfield(instr, 11, 7)))
  }

  /** `imm_12 | imm_11 | imm_10_5 | imm_4_1` of BType.decode, on the four extracted pieces. */
  function AssembleB(b12: nat, b11: nat, b10_5: nat, b4_1: nat): (imm: nat)
    requires b12 < 2 && b11 < 2 && b10_5 < 64 && b4_1 < 16
    ensures imm == b12 * 0x1000 + b11 * 0x800 + b10_5 * 32 + b4_1 * 2
    ensures imm % 2 == 0 && imm < 0x2000
  {
    BImmediateShl(b12, b11, b10_5, b4_1);
    BImmediateRange(b12, b11, b10_5, b4_1);
    BitOr(BitOr(BitOr(Shl(b12, 12), Shl(b11, 11)), Shl(b10_5, 5)), Shl(b4_1, 1))
  }

  /** OrPlaced, for a high part hi already known to be c shifted up by k bits. */
  lemma OrPlacedAt(hi: int, c: nat, lo: nat, p: int, k: nat)
    requires p == Pow2(k) && lo < p && hi == c * p
    ensures BitOr(hi, lo) == hi + lo
  {
    OrPlaced(c, lo, p, k);
  }

  lemma BImmediateOr(b12: nat, b11: nat, b10_5: nat, b4_1: nat)
    requires b12 < 2 && b11 < 2 && b10_5 < 64 && b4_1 < 16
    ensures BitOr(BitOr(BitOr(b12 * 0x1000, b11 * 0x800), b10_5 * 32), b4_1 * 2)
            == b12 * 0x1000 + b11 * 0x800 + b10_5 * 32 + b4_1 * 2
  {
    Pow2Values();
    var c1 := 2 * b12 + b11;
    var c2 := 64 * c1 + b10_5;
    OrPlaced(b12, b11 * 0x800, 0x1000, 12);
    var t1 := BitOr(b12 * 0x1000, b11 * 0x800);
    OrPlacedAt(t1, c1, b10_5 * 32, 0x800, 11);
    OrPlacedAt(BitOr(t1, b10_5 * 32), c2, b4_1 * 2, 32, 5);
  }

  lemma BImmediateShl(b12: nat, b11: nat, b10_5: nat, b4_1: nat)
    requires b12 < 2 && b11 < 2 && b10_5 < 64 && b4_1 < 16
    ensures BitOr(BitOr(BitOr(Shl(b12, 12), Shl(b11, 11)), Shl(b10_5, 5)), Shl(b4_1, 1))
            == b12 * 0x1000 + b11 * 0x800 + b10_5 * 32 + b4_1 * 2
  {
    ShlValues(b12); ShlValues(b11); ShlValues(b10_5); ShlValues(b4_1);
    BImmediateOr(b12, b11, b10_5, b4_1);
  }

  /** The bounds of the B and J immediate pieces. */
  lemma ImmediateBounds(instr: int)
    ensures 0 <= ExtractBitfield(instr, 31, 31) < 2 && 0 <= ExtractBitfield(instr, 7, 7) < 2
    ensures 0 <= ExtractBitfield(instr, 30, 25) < 64 && 0 <= ExtractBitfield(instr, 11, 8) < 16
    ensures 0 <= ExtractBitfield(instr, 19, 12) < 256 && 0 <= ExtractBitfield(instr, 20, 20) < 2
    ensures 0 <= ExtractBitfield(instr, 30, 21) < 1024 && 0 <= ExtractBitfield(instr, 31, 12) < 0x10_0000
  {
    Pow2Values();
    FieldBound(instr, 31, 31);
    FieldBound(instr, 7, 7);
    FieldBound(instr, 30, 25);
    FieldBound(instr, 11, 8);
    FieldBound(instr, 19, 12);
    FieldBound(instr, 20, 20);
    FieldBound(instr, 30, 21);
    FieldBound(instr, 31, 12);
  }

  /** The assembled B immediate is even and below 2^13. */
  lemma BImmediateRange(b12: nat, b11: nat, b10_5: nat, b4_1: nat)
    requires b12 < 2 && b11 < 2 && b10_5 < 64 && b4_1 < 16
    ensures var imm := b12 * 0x1000 + b11 * 0x800 + b10_5 * 32 + b4_1 * 2;
      imm % 2 == 0 && imm < 0x2000
  {
    DivModUnique(b12 * 0x1000 + b11 * 0x800 + b10_5 * 32 + b4_1 * 2, 2, b12 * 0x800 + b11 * 0x400 + b10_5 * 16 + b4_1, 0);
  }

  /** The assembled J immediate is even and below 2^21. */
  lemma JImmediateRange(b20: nat, b19_12: nat, b11: nat, b10_1: nat)
    requires b20 < 2 && b19_12 < 256 && b11 < 2 && b10_1 < 1024
    ensures var imm := b20 * 0x10_0000 + b19_12 * 0x1000 + b11 * 0x800 + b10_1 * 2;
      imm % 2 == 0 && imm < 0x20_0000
  {
    DivModUnique(b20 * 0x10_0000 + b19_12 * 0x1000 + b11 * 0x800 + b10_1 * 2, 2, b20 * 0x8_0000 + b19_12 * 0x800 + b11 * 0x400 + b10_1, 0);
  }

  /** BType.decode: the immediate is even and below 2^13. */
  function DecodeB(instr: int): (f: BFields)
    ensures f.op == instr % 128 && f.imm % 2 == 0 && f.imm < 0x2000
  {
    OpcodeField(instr);
    CommonBounds(instr);
    ImmediateBounds(instr);
    BFields(ExtractBitfield(instr, 6, 0), ExtractBitfield(instr, 14, 12), ExtractBitfield(instr, 19, 15),
            ExtractBitfield(instr, 24, 20),
            AssembleB(ExtractBitfield(instr, 31, 31), ExtractBitfield(instr, 7, 7),
                      ExtractBitfield(instr, 30, 25), ExtractBitfield(instr, 11, 8)))
  }

  /** UType.decode: the immediate keeps bits 31..12 in place and has its low 12 bits clear. */
  function DecodeU(instr: int): (f: UFields)
    ensures f.op == instr % 128 && f.imm % 0x1000 == 0 && f.imm < TwoTo32
  {
    OpcodeField(instr);
    CommonBounds(instr);
    ImmediateBounds(instr);
    ShlValues(ExtractBitfield(instr, 31, 12));
    MulDivCancel(ExtractBitfield(instr, 31, 12), 0x1000);
    UFields(ExtractBitfield(instr, 6, 0), ExtractBitfield(instr, 11, 7), Shl(ExtractBitfield(instr, 31, 12), 12))
  }

  /** `imm_20 | imm_19_12 | imm_11 | imm_10_1` of JType.decode, on the four extracted pieces. */
  function AssembleJ(b20: nat, b19_12: nat, b11: nat, b10_1: nat): (imm: nat)
    requires b20 < 2 && b19_12 < 256 && b11 < 2 && b10_1 < 1024
    ensures imm == b20 * 0x10_0000 + b19_12 * 0x1000 + b11 * 0x800 + b10_1 * 2
    ensures imm % 2 == 0 && imm < 0x20_0000
  {
    JImmediateShl(b20, b19_12, b11, b10_1);
    JImmediateRange(b20, b19_12, b11, b10_1);
    BitOr(BitOr(BitOr(Shl(b20, 20), Shl(b19_12, 12)), Shl(b11, 11)), Shl(b10_1, 1))
  }

  lemma JImmediateOr(b20: nat, b19_12: nat, b11: nat, b10_1: nat)
    requires b20 < 2 && b19_12 < 256 && b11 < 2 && b10_1 < 1024
    ensures BitOr(BitOr(BitOr(b20 * 0x10_0000, b19_12 * 0x1000), b11 * 0x800), b10_1 * 2)
            == b20 * 0x10_0000 + b19_12 * 0x1000 + b11 * 0x800 + b10_1 * 2
  {
    Pow2Values();
    var c1 := 256 * b20 + b19_12;
    var c2 := 2 * c1 + b11;
    OrPlaced(b20, b19_12 * 0x1000, 0x10_0000, 20);
    var t1 := BitOr(b20 * 0x10_0000, b19_12 * 0x1000);
    OrPlacedAt(t1, c1, b11 * 0x800, 0x1000, 12);
    OrPlacedAt(BitOr(t1, b11 * 0x800), c2, b10_1 * 2, 0x800, 11);
  }

  lemma JImmediateShl(b20: nat, b19_12: nat, b11: nat, b10_1: nat)
    requires b20 < 2 && b19_12 < 256 && b11 < 2 && b10_1 < 1024
    ensures BitOr(BitOr(BitOr(Shl(b20, 20), Shl(b19_12, 12)), Shl(b11, 11)), Shl(b10_1, 1))
            == b20 * 0x10_0000 + b19_12 * 0x1000 + b11 * 0x800 + b10_1 * 2
  {
    ShlValues(b20); ShlValues(b19_12); ShlValues(b11); ShlValues(b10_1);
    JImmediateOr(b20, b19_12, b11, b10_1);
  }

  /** JType.decode: the immediate is even and below 2^21. */
  function DecodeJ(instr: int): (f: JFields)
    ensures f.op == instr % 128 && f.imm % 2 == 0 && f.imm < 0x20_0000
  {
    OpcodeField(instr);
    CommonBounds(instr);
    ImmediateBounds(instr);
    JFields(ExtractBitfield(instr, 6, 0), ExtractBitfield(instr, 11, 7),
            AssembleJ(ExtractBitfield(instr, 31, 31), ExtractBitfield(instr, 19, 12),
                      ExtractBitfield(instr, 20, 20), ExtractBitfield(instr, 30, 21)))
  }

  // ---------------------------------------------------------------------------
  // Where each field sits in the word
  // ---------------------------------------------------------------------------

  /** The fields every format reads, as quotients and remainders by literal powers of two. */
  lemma FieldValues(instr: int)
    ensures ExtractBitfield(instr, 11, 7) == (instr / 0x80) % 32
    ensures ExtractBitfield(instr, 14, 12) == (instr / 0x1000) % 8
    ensures ExtractBitfield(instr, 19, 15) == (instr / 0x8000) % 32
    ensures ExtractBitfield(instr, 24, 20) == (instr / 0x10_0000) % 32
    ensures ExtractBitfield(instr, 31, 25) == (instr / 0x200_0000) % 128
  {
    Pow2Values();
    ExtractBitfieldValue(instr, 11, 7);
    ExtractBitfieldValue(instr, 14, 12);
    ExtractBitfieldValue(instr, 19, 15);
    ExtractBitfieldValue(instr, 24, 20);
    ExtractBitfieldValue(instr, 31, 25);
  }

  /** The pieces of the I, U, B and J immediates. */
  lemma ImmediateValues(instr: int)
    ensures ExtractBitfield(instr, 31, 20) == (instr / 0x10_0000) % 4096
    ensures ExtractBitfield(instr, 31, 12) == (instr / 0x1000) % 0x10_0000
    ensures ExtractBitfield(instr, 31, 31) == (instr / 0x8000_0000) % 2
    ensures ExtractBitfield(instr, 7, 7) == (instr / 0x80) % 2
    ensures ExtractBitfield(instr, 30, 25) == (instr / 0x200_0000) % 64
    ensures ExtractBitfield(instr, 11, 8) == (instr / 0x100) % 16
    ensures ExtractBitfield(instr, 19, 12) == (instr / 0x1000) % 256
    ensures ExtractBitfield(instr, 20, 20) == (instr / 0x10_0000) % 2
    ensures ExtractBitfield(instr, 30, 21) == (instr / 0x20_0000) % 1024
  {
    Pow2Values();
    ExtractBitfieldValue(instr, 31, 20);
    ExtractBitfieldValue(instr, 31, 12);
    ExtractBitfieldValue(instr, 31, 31);
    ExtractBitfieldValue(instr, 7, 7);
    ExtractBitfieldValue(instr, 30, 25);
    ExtractBitfieldValue(instr, 11, 8);
    ExtractBitfieldValue(instr, 19, 12);
    ExtractBitfieldValue(instr, 20, 20);
    ExtractBitfieldValue(instr, 30, 21);
  }

  /** Where RType.decode reads each field: the word's bits as quotients and remainders. */
  function RLayout(instr: int): RFields
  {
    RFields(instr % 128, (instr / 0x80) % 32, (instr / 0x1000) % 8, (instr / 0x8000) % 32,
            (instr / 0x10_0000) % 32, (instr / 0x200_0000) % 128)
  }

  function ILayout(instr: int): IFields
  {
    IFields(instr % 128, (instr / 0x80) % 32, (instr / 0x1000) % 8, (instr / 0x8000) % 32, (instr / 0x10_0000) % 4096)
  }

  function SLayout(instr: int): SFields
  {
    SFields(instr % 128, (instr / 0x1000) % 8, (instr / 0x8000) % 32, (instr / 0x10_0000) % 32,
            ((instr / 0x200_0000) % 128) * 32 + (instr / 0x80) % 32)
  }

  function BLayout(instr: int): (f: BFields)
    ensures f.imm % 2 == 0 && f.imm < 0x2000
  {
    BImmediateRange((instr / 0x8000_0000) % 2, (instr / 0x80) % 2, (instr / 0x200_0000) % 64, (instr / 0x100) % 16);
    BFields(instr % 128, (instr / 0x1000) % 8, (instr / 0x8000) % 32, (instr / 0x10_0000) % 32,
            ((instr / 0x8000_0000) % 2) * 0x1000 + ((instr / 0x80) % 2) * 0x800
            + ((instr / 0x200_0000) % 64) * 32 + ((instr / 0x100) % 16) * 2)
  }

  function ULayout(instr: int): UFields
  {
    UFields(instr % 128, (instr / 0x80) % 32, ((instr / 0x1000) % 0x10_0000) * 0x1000)
  }

  function JLayout(instr: int): (f: JFields)
    ensures f.imm % 2 == 0 && f.imm < 0x20_0000
  {
    JImmediateRange((instr / 0x8000_0000) % 2, (instr / 0x1000) % 256, (instr / 0x10_0000) % 2, (instr / 0x20_0000) % 1024);
    JFields(instr % 128, (instr / 0x80) % 32,
            ((instr / 0x8000_0000) % 2) * 0x10_0000 + ((instr / 0x1000) % 256) * 0x1000
            + ((instr / 0x10_0000) % 2) * 0x800 + ((instr / 0x20_0000) % 1024) * 2)
  }

  lemma DecodeRValue(instr: int)
    ensures DecodeR(instr) == RLayout(instr)
  {
    FieldValues(instr);
  }

  lemma DecodeIValue(instr: int)
    ensures DecodeI(instr) == ILayout(instr)
  {
    FieldValues(instr);
    ImmediateValues(instr);
  }

  lemma DecodeSValue(instr: int)
    ensures DecodeS(instr) == SLayout(instr)
  {
    FieldValues(instr);
  }

  lemma DecodeBValue(instr: int)
    ensures DecodeB(instr) == BLayout(instr)
  {
    FieldValues(instr);
    ImmediateValues(instr);
  }

  lemma DecodeUValue(instr: int)
    ensures DecodeU(instr) == ULayout(instr)
  {
    FieldValues(instr);
    ImmediateValues(instr);
    ShlValues(ExtractBitfield(instr, 31, 12));
  }

  lemma DecodeJValue(instr: int)
    ensures DecodeJ(instr) == JLayout(instr)
  {
    FieldValues(instr);
    ImmediateValues(instr);
  }

  /** On a 32-bit word the U immediate is the word with its low 12 bits cleared. */
  lemma DecodeUUpper(instr: int)
    requires 0 <= instr < TwoTo32
    ensures DecodeU(instr).imm == instr - instr % 0x1000
  {
    DecodeUValue(instr);
    DivModUnique(instr / 0x1000, 0x10_0000, 0, instr / 0x1000);
  }

  // ---------------------------------------------------------------------------
  // The per-format sign_extend helpers
  // ---------------------------------------------------------------------------

  /** IType.sign_extend (also what Load, Store and JALR use): sign bit 11. */
  function SextI(imm: int): (r: int)
    ensures 0 <= imm < 0x1000 ==> -0x800 <= r < 0x800 && r % 0x1000 == imm
  {
    Pow2Values();
    SignExtendRange(imm, 11);
    SignExtend(imm, 11)
  }

  /** SType.sign_extend: sign bit 11, the same rule as SextI. */
  function SextS(imm: int): (r: int)
    ensures r == SextI(imm)
  {
    SignExtend(imm, 11)
  }

  /** BType.sign_extend: sign bit 12. */
  function SextB(imm: int): (r: int)
    ensures 0 <= imm < 0x2000 ==> -0x1000 <= r < 0x1000 && r % 0x2000 == imm
  {
    Pow2Values();
    SignExtendRange(imm, 12);
    SignExtend(imm, 12)
  }

  /** UType.sign_extend: sign bit 31 (no handler calls it). */
  function SextU(imm: int): (r: int)
    ensures 0 <= imm < TwoTo32 ==> -0x8000_0000 <= r < 0x8000_0000 && r % TwoTo32 == imm
  {
    Pow2Values();
    SignExtendRange(imm, 31);
    SignExtend(imm, 31)
  }

  /** JType.sign_extend: sign bit 20. */
  function SextJ(imm: int): (r: int)
    ensures 0 <= imm < 0x20_0000 ==> -0x10_0000 <= r < 0x10_0000 && r % 0x20_0000 == imm
  {
    Pow2Values();
    SignExtendRange(imm, 20);
    SignExtend(imm, 20)
  }

  // ---------------------------------------------------------------------------
  // Reference encoders and the round trips
  // ---------------------------------------------------------------------------

  function EncodeR(f: RFields): int
  {
    f.op + f.rd * 0x80 + f.funct3 * 0x1000 + f.rs1 * 0x8000 + f.rs2 * 0x10_0000 + f.funct7 * 0x200_0000
  }

  function EncodeI(f: IFields): int
    requires f.imm < 0x1000
  {
    f.op + f.rd * 0x80 + f.funct3 * 0x1000 + f.rs1 * 0x8000 + f.imm * 0x10_0000
  }

  function EncodeS(f: SFields): int
    requires f.imm < 0x1000
  {
    f.op + (f.imm % 32) * 0x80 + f.funct3 * 0x1000 + f.rs1 * 0x8000 + f.rs2 * 0x10_0000
    + (f.imm / 32) * 0x200_0000
  }

  function EncodeB(f: BFields): int
    requires f.imm < 0x2000 && f.imm % 2 == 0
  {
    f.op + ((f.imm / 0x800) % 2) * 0x80 + ((f.imm / 2) % 16) * 0x100 + f.funct3 * 0x1000
    + f.rs1 * 0x8000 + f.rs2 * 0x10_0000 + ((f.imm / 32) % 64) * 0x200_0000 + (f.imm / 0x1000) * 0x8000_0000
  }

  function EncodeU(f: UFields): int
    requires f.imm < TwoTo32 && f.imm % 0x1000 == 0
  {
    f.op + f.rd * 0x80 + f.imm
  }

  function EncodeJ(f: JFields): int
    requires f.imm < 0x20_0000 && f.imm % 2 == 0
  {
    f.op + f.rd * 0x80 + ((f.imm / 0x1000) % 256) * 0x1000 + ((f.imm / 0x800) % 2) * 0x10_0000
    + ((f.imm / 2) % 1024) * 0x20_0000 + (f.imm / 0x10_0000) * 0x8000_0000
  }

  /** A middle field of a value laid out as lo + p * mid + p * q * hi is read back by (x / p) % q. */
  lemma Field(x: int, p: int, q: int, lo: int, mid: int, hi: int)
    requires p > 0 && q > 0 && 0 <= lo < p && 0 <= mid < q && x == lo + p * mid + p * q * hi
    ensures (x / p) % q == mid && x % p == lo
  {
    MulDistributes(mid, q * hi, p);
    MulAssociates(q, hi, p);
    MulAssociates(p, q, hi);
    DivModUnique(x, p, mid + q * hi, lo);
    DivModUnique(mid + q * hi, q, hi, mid);
  }

  /** Splitting the low bits of x at p: x mod (p * q) is x mod p plus the next field, in place. */
  lemma Split(x: int, p: int, q: int)
    requires p > 0 && q > 0
    ensures x % (p * q) == x % p + p * ((x / p) % q)
  {
    DivModMul(x, p, q);
  }

  lemma LayoutEncodeR(f: RFields)
    ensures 0 <= EncodeR(f) < TwoTo32 && RLayout(EncodeR(f)) == f
  {
    var x := EncodeR(f);
    Field(x, 0x80, 32, f.op, f.rd, f.funct3 + 8 * f.rs1 + 256 * f.rs2 + 8192 * f.funct7);
    Field(x, 0x1000, 8, f.op + 0x80 * f.rd, f.funct3, f.rs1 + 32 * f.rs2 + 1024 * f.funct7);
    Field(x, 0x8000, 32, f.op + 0x80 * f.rd + 0x1000 * f.funct3, f.rs1, f.rs2 + 32 * f.funct7);
    Field(x, 0x10_0000, 32, f.op + 0x80 * f.rd + 0x1000 * f.funct3 + 0x8000 * f.rs1, f.rs2, f.funct7);
    Field(x, 0x200_0000, 128, x % 0x200_0000, f.funct7, 0);
  }

  lemma LayoutEncodeI(f: IFields)
    requires f.imm < 0x1000
    ensures 0 <= EncodeI(f) < TwoTo32 && ILayout(EncodeI(f)) == f
  {
    var x := EncodeI(f);
    Field(x, 0x80, 32, f.op, f.rd, f.funct3 + 8 * f.rs1 + 256 * f.imm);
    Field(x, 0x1000, 8, f.op + 0x80 * f.rd, f.funct3, f.rs1 + 32 * f.imm);
    Field(x, 0x8000, 32, f.op + 0x80 * f.rd + 0x1000 * f.funct3, f.rs1, f.imm);
    Field(x, 0x10_0000, 0x1000, x % 0x10_0000, f.imm, 0);
  }

  lemma LayoutEncodeS(f: SFields)
    requires f.imm < 0x1000
    ensures 0 <= EncodeS(f) < TwoTo32 && SLayout(EncodeS(f)) == f
  {
    var x := EncodeS(f);
    var lo, hi := f.imm % 32, f.imm / 32;
    Field(x, 0x80, 32, f.op, lo, f.funct3 + 8 * f.rs1 + 256 * f.rs2 + 8192 * hi);
    Field(x, 0x1000, 8, f.op + 0x80 * lo, f.funct3, f.rs1 + 32 * f.rs2 + 1024 * hi);
    Field(x, 0x8000, 32, f.op + 0x80 * lo + 0x1000 * f.funct3, f.rs1, f.rs2 + 32 * hi);
    Field(x, 0x10_0000, 32, f.op + 0x80 * lo + 0x1000 * f.funct3 + 0x8000 * f.rs1, f.rs2, hi);
    Field(x, 0x200_0000, 128, x % 0x200_0000, hi, 0);
  }

  lemma LayoutEncodeB(f: BFields)
    requires f.imm < 0x2000 && f.imm % 2 == 0
    ensures 0 <= EncodeB(f) < TwoTo32 && BLayout(EncodeB(f)) == f
  {
    var x := EncodeB(f);
    var b11, b4_1, b10_5, b12 := (f.imm / 0x800) % 2, (f.imm / 2) % 16, (f.imm / 32) % 64, f.imm / 0x1000;
    Field(x, 0x80, 2, f.op, b11, b4_1 + 16 * f.funct3 + 128 * f.rs1 + 4096 * f.rs2 + 0x2_0000 * b10_5 + 0x80_0000 * b12);
    Field(x, 0x100, 16, f.op + 0x80 * b11, b4_1, f.funct3 + 8 * f.rs1 + 256 * f.rs2 + 8192 * b10_5 + 0x8_0000 * b12);
    Field(x, 0x1000, 8, f.op + 0x80 * b11 + 0x100 * b4_1, f.funct3, f.rs1 + 32 * f.rs2 + 1024 * b10_5 + 0x1_0000 * b12);
    Field(x, 0x8000, 32, x % 0x1000 + 0x1000 * f.funct3, f.rs1, f.rs2 + 32 * b10_5 + 2048 * b12);
    Field(x, 0x10_0000, 32, x % 0x8000 + 0x8000 * f.rs1, f.rs2, b10_5 + 64 * b12);
    Field(x, 0x200_0000, 64, x % 0x10_0000 + 0x10_0000 * f.rs2, b10_5, b12);
    Field(x, 0x8000_0000, 2, x % 0x200_0000 + 0x200_0000 * b10_5, b12, 0);
    // the immediate itself is b12 b11 b10_5 b4_1 0
    Split(f.imm, 2, 16);
    Split(f.imm, 32, 64);
    Split(f.imm, 0x800, 2);
    DivModUnique(f.imm, 0x1000, b12, f.imm % 0x1000);
    DivModUnique(f.imm, 0x2000, 0, f.imm);
  }

  lemma LayoutEncodeU(f: UFields)
    requires f.imm < TwoTo32 && f.imm % 0x1000 == 0
    ensures 0 <= EncodeU(f) < TwoTo32 && ULayout(EncodeU(f)) == f
  {
    var x := EncodeU(f);
    var hi := f.imm / 0x1000;
    Field(x, 0x80, 32, f.op, f.rd, hi);
    Field(x, 0x1000, 0x10_0000, x % 0x1000, hi, 0);
  }

  /** An even J immediate below 2^21 is the sum of its four pieces in place. */
  lemma JImmediatePieces(imm: int)
    requires 0 <= imm < 0x20_0000 && imm % 2 == 0
    ensures imm == (imm / 0x10_0000) * 0x10_0000 + ((imm / 0x1000) % 256) * 0x1000
                   + ((imm / 0x800) % 2) * 0x800 + ((imm / 2) % 1024) * 2
    ensures imm / 0x10_0000 < 2
  {
    Split(imm, 2, 1024);
    Split(imm, 0x800, 2);
    Split(imm, 0x1000, 256);
    DivModUnique(imm, 0x10_0000, imm / 0x10_0000, imm % 0x10_0000);
    DivModUnique(imm, 0x20_0000, 0, imm);
  }

  /** The four J pieces are read back from their sum. */
  lemma JPiecesBack(b20: int, b19_12: int, b11: int, b10_1: int)
    requires 0 <= b20 < 2 && 0 <= b19_12 < 256 && 0 <= b11 < 2 && 0 <= b10_1 < 1024
    ensures var imm := b20 * 0x10_0000 + b19_12 * 0x1000 + b11 * 0x800 + b10_1 * 2;
      (imm / 2) % 1024 == b10_1 && (imm / 0x800) % 2 == b11 && (imm / 0x1000) % 256 == b19_12
      && imm / 0x10_0000 == b20 && imm < 0x20_0000 && imm % 2 == 0
  {
    var imm := b20 * 0x10_0000 + b19_12 * 0x1000 + b11 * 0x800 + b10_1 * 2;
    Field(imm, 2, 1024, 0, b10_1, b11 + 2 * b19_12 + 512 * b20);
    Field(imm, 0x800, 2, b10_1 * 2, b11, b19_12 + 256 * b20);
    Field(imm, 0x1000, 256, b11 * 0x800 + b10_1 * 2, b19_12, b20);
    DivModUnique(imm, 0x10_0000, b20, b19_12 * 0x1000 + b11 * 0x800 + b10_1 * 2);
  }

  lemma LayoutEncodeJ(f: JFields)
    requires f.imm < 0x20_0000 && f.imm % 2 == 0
    ensures 0 <= EncodeJ(f) < TwoTo32 && JLayout(EncodeJ(f)) == f
  {
    JImmediatePieces(f.imm);
    var x := EncodeJ(f);
    var b19_12, b11, b10_1, b20 := (f.imm / 0x1000) % 256, (f.imm / 0x800) % 2, (f.imm / 2) % 1024, f.imm / 0x10_0000;
    Field(x, 0x80, 32, f.op, f.rd, b19_12 + 256 * b11 + 512 * b10_1 + 0x8_0000 * b20);
    var lo := f.op + 0x80 * f.rd;
    Field(x, 0x1000, 256, lo, b19_12, b11 + 2 * b10_1 + 2048 * b20);
    Field(x, 0x10_0000, 2, lo + 0x1000 * b19_12, b11, b10_1 + 1024 * b20);
    Field(x, 0x20_0000, 1024, lo + 0x1000 * b19_12 + 0x10_0000 * b11, b10_1, b20);
    Field(x, 0x8000_0000, 2, lo + 0x1000 * b19_12 + 0x10_0000 * b11 + 0x20_0000 * b10_1, b20, 0);
  }

  lemma Whole(x: int)
    requires 0 <= x < TwoTo32
    ensures x % TwoTo32 == x
  {
    DivModUnique(x, TwoTo32, 0, x);
  }

  lemma EncodeLayoutR(instr: int)
    requires 0 <= instr < TwoTo32
    ensures EncodeR(RLayout(instr)) == instr
  {
    Whole(instr);
    Split(instr, 0x200_0000, 128);
    Split(instr, 0x10_0000, 32);
    Split(instr, 0x8000, 32);
    Split(instr, 0x1000, 8);
    Split(instr, 0x80, 32);
  }

  lemma EncodeLayoutI(instr: int)
    requires 0 <= instr < TwoTo32
    ensures EncodeI(ILayout(instr)) == instr
  {
    Whole(instr);
    Split(instr, 0x10_0000, 0x1000);
    Split(instr, 0x8000, 32);
    Split(instr, 0x1000, 8);
    Split(instr, 0x80, 32);
  }

  lemma EncodeLayoutS(instr: int)
    requires 0 <= instr < TwoTo32
    ensures EncodeS(SLayout(instr)) == instr
  {
    var f := SLayout(instr);
    Field(f.imm, 32, 128, (instr / 0x80) % 32, (instr / 0x200_0000) % 128, 0);
    Whole(instr);
    Split(instr, 0x200_0000, 128);
    Split(instr, 0x10_0000, 32);
    Split(instr, 0x8000, 32);
    Split(instr, 0x1000, 8);
    Split(instr, 0x80, 32);
  }

  /** The four B pieces are read back from their sum. */
  lemma BPiecesBack(b12: int, b11: int, b10_5: int, b4_1: int)
    requires 0 <= b12 < 2 && 0 <= b11 < 2 && 0 <= b10_5 < 64 && 0 <= b4_1 < 16
    ensures var imm := b12 * 0x1000 + b11 * 0x800 + b10_5 * 32 + b4_1 * 2;
      (imm / 2) % 16 == b4_1 && (imm / 32) % 64 == b10_5 && (imm / 0x800) % 2 == b11
      && imm / 0x1000 == b12 && imm < 0x2000 && imm % 2 == 0
  {
    var imm := b12 * 0x1000 + b11 * 0x800 + b10_5 * 32 + b4_1 * 2;
    Field(imm, 2, 16, 0, b4_1, b10_5 + 64 * b11 + 128 * b12);
    Field(imm, 32, 64, 2 * b4_1, b10_5, b11 + 2 * b12);
    Field(imm, 0x800, 2, imm % 0x800, b11, b12);
    Field(imm, 0x1000, 2, imm % 0x1000, b12, 0);
  }

  lemma EncodeLayoutB(instr: int)
    requires 0 <= instr < TwoTo32
    ensures EncodeB(BLayout(instr)) == instr
  {
    BPiecesBack((instr / 0x8000_0000) % 2, (instr / 0x80) % 2, (instr / 0x200_0000) % 64, (instr / 0x100) % 16);
    assert EncodeB(BLayout(instr))
      == instr % 128 + ((instr / 0x80) % 2) * 0x80 + ((instr / 0x100) % 16) * 0x100 + ((instr / 0x1000) % 8) * 0x1000
         + ((instr / 0x8000) % 32) * 0x8000 + ((instr / 0x10_0000) % 32) * 0x10_0000
         + ((instr / 0x200_0000) % 64) * 0x200_0000 + ((instr / 0x8000_0000) % 2) * 0x8000_0000;
    Whole(instr);
    Split(instr, 0x8000_0000, 2);
    Split(instr, 0x200_0000, 64);
    Split(instr, 0x10_0000, 32);
    Split(instr, 0x8000, 32);
    Split(instr, 0x1000, 8);
    Split(instr, 0x100, 16);
    Split(instr, 0x80, 2);
  }

  lemma EncodeLayoutU(instr: int)
    requires 0 <= instr < TwoTo32
    ensures EncodeU(ULayout(instr)) == instr
  {
    DivModUnique(instr / 0x1000, 0x10_0000, 0, instr / 0x1000);
    Split(instr, 0x80, 32);
  }

  lemma EncodeLayoutJ(instr: int)
    requires 0 <= instr < TwoTo32
    ensures EncodeJ(JLayout(instr)) == instr
  {
    JPiecesBack((instr / 0x8000_0000) % 2, (instr / 0x1000) % 256, (instr / 0x10_0000) % 2, (instr / 0x20_0000) % 1024);
    assert EncodeJ(JLayout(instr))
      == instr % 128 + ((instr / 0x80) % 32) * 0x80 + ((instr / 0x1000) % 256) * 0x1000
         + ((instr / 0x10_0000) % 2) * 0x10_0000 + ((instr / 0x20_0000) % 1024) * 0x20_0000
         + ((instr / 0x8000_0000) % 2) * 0x8000_0000;
    Whole(instr);
    Split(instr, 0x8000_0000, 2);
    Split(instr, 0x20_0000, 1024);
    Split(instr, 0x10_0000, 2);
    Split(instr, 0x1000, 256);
    Split(instr, 0x80, 32);
  }

  /** Decoding undoes encoding: every field comes back. */
  lemma DecodeEncodeR(f: RFields)
    ensures 0 <= EncodeR(f) < TwoTo32 && DecodeR(EncodeR(f)) == f
  {
    LayoutEncodeR(f);
    DecodeRValue(EncodeR(f));
  }

  /** Encoding undoes decoding on 32-bit words: the word comes back. */
  lemma EncodeDecodeR(instr: int)
    requires 0 <= instr < TwoTo32
    ensures EncodeR(DecodeR(instr)) == instr
  {
    EncodeLayoutR(instr);
    DecodeRValue(instr);
  }

  /** Decoding undoes encoding: every field comes back. */
  lemma DecodeEncodeI(f: IFields)
    requires f.imm < 0x1000
    ensures 0 <= EncodeI(f) < TwoTo32 && DecodeI(EncodeI(f)) == f
  {
    LayoutEncodeI(f);
    DecodeIValue(EncodeI(f));
  }

  /** Encoding undoes decoding on 32-bit words: the word comes back. */
  lemma EncodeDecodeI(instr: int)
    requires 0 <= instr < TwoTo32
    ensures EncodeI(DecodeI(instr)) == instr
  {
    EncodeLayoutI(instr);
    DecodeIValue(instr);
  }

  /** Decoding undoes encoding: every field comes back. */
  lemma DecodeEncodeS(f: SFields)
    requires f.imm < 0x1000
    ensures 0 <= EncodeS(f) < TwoTo32 && DecodeS(EncodeS(f)) == f
  {
    LayoutEncodeS(f);
    DecodeSValue(EncodeS(f));
  }

  /** Encoding undoes decoding on 32-bit words: the word comes back. */
  lemma EncodeDecodeS(instr: int)
    requires 0 <= instr < TwoTo32
    ensures EncodeS(DecodeS(instr)) == instr
  {
    EncodeLayoutS(instr);
    DecodeSValue(instr);
  }

  /** Decoding undoes encoding: every field comes back. */
  lemma DecodeEncodeB(f: BFields)
    requires f.imm < 0x2000 && f.imm % 2 == 0
    ensures 0 <= EncodeB(f) < TwoTo32 && DecodeB(EncodeB(f)) == f
  {
    LayoutEncodeB(f);
    DecodeBValue(EncodeB(f));
  }

  /** Encoding undoes decoding on 32-bit words: the word comes back. */
  lemma EncodeDecodeB(instr: int)
    requires 0 <= instr < TwoTo32
    ensures EncodeB(DecodeB(instr)) == instr
  {
    EncodeLayoutB(instr);
    DecodeBValue(instr);
  }

  /** Decoding undoes encoding: every field comes back. */
  lemma DecodeEncodeU(f: UFields)
    requires f.imm < TwoTo32 && f.imm % 0x1000 == 0
    ensures 0 <= EncodeU(f) < TwoTo32 && DecodeU(EncodeU(f)) == f
  {
    LayoutEncodeU(f);
    DecodeUValue(EncodeU(f));
  }

  /** Encoding undoes decoding on 32-bit words: the word comes back. */
  lemma EncodeDecodeU(instr: int)
    requires 0 <= instr < TwoTo32
    ensures EncodeU(DecodeU(instr)) == instr
  {
    EncodeLayoutU(instr);
    DecodeUValue(instr);
  }

  /** Decoding undoes encoding: every field comes back. */
  lemma DecodeEncodeJ(f: JFields)
    requires f.imm < 0x20_0000 && f.imm % 2 == 0
    ensures 0 <= EncodeJ(f) < TwoTo32 && DecodeJ(EncodeJ(f)) == f
  {
    LayoutEncodeJ(f);
    DecodeJValue(EncodeJ(f));
  }

  /** Encoding undoes decoding on 32-bit words: the word comes back. */
  lemma EncodeDecodeJ(instr: int)
    requires 0 <= instr < TwoTo32
    ensures EncodeJ(DecodeJ(instr)) == instr
  {
    EncodeLayoutJ(instr);
    DecodeJValue(instr);
  }
}
