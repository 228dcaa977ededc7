/**
 * ops.py: the execute handlers of the eleven RV32I opcodes, the op_lookup
 * table, and OpCode.call, which fetches the word at pc, decodes it in the
 * handler's format and executes it.
 *
 * A handler changes the registers and the memory and returns what the run
 * loop should do with pc: fall through (Python's None), jump to a target (an
 * int) or stop (the string "exit").  An `assert`, a `raise` or a missing
 * dictionary key becomes an Err carrying the Fault; the state an Effect
 * records is the one the machine is in when the handler returns or raises.
 *
 * The first half states every handler as a function on the MachineState
 * value and proves what each one does; the second half has the handler
 * methods, which act on the RegisterFile and Memory objects and are proved
 * to do what the functions say.
 */
module Ops {
  import opened Bits
  import opened Results
  import opened Decode
  import opened Alu
  import opened RegFile
  import opened Mem

  /** state.py's MachineState: a register file and a memory. */
  datatype MachineState = MachineState(regs: RegState, mem: MemState)

  /** What the two objects keep true: well-formed registers, and a byte in every stored cell. */
  predicate Valid(s: MachineState)
  {
    WellFormed(s.regs) && BytesOnly(s.mem.cells)
  }

  /** A handler's return value: None, a jump target, or "exit". */
  datatype Outcome = FallThrough | Jump(target: int) | Exit

  /** The state after a handler, with what it returned or the fault it raised. */
  datatype Effect = Effect(state: MachineState, result: Result<Outcome>)

  /** The handler classes op_lookup maps opcodes to. */
  datatype Handler = LUI | AUIPC | JAL | JALR | Branch | Load | Store | ArithImm | ArithReg | Fence | ECall

  const OP_LUI := 0x37
  const OP_AUIPC := 0x17
  const OP_JAL := 0x6F
  const OP_JALR := 0x67
  const OP_BRANCH := 0x63
  const OP_LOAD := 0x03
  const OP_STORE := 0x23
  const OP_IMM := 0x13
  const OP_REG := 0x33
  const OP_FENCE := 0x0F
  const OP_SYSTEM := 0x73

  /** The keys of op_lookup. */
  const OPCODES: set<int> := {OP_LUI, OP_AUIPC, OP_JAL, OP_JALR, OP_BRANCH, OP_LOAD, OP_STORE, OP_IMM, OP_REG, OP_FENCE, OP_SYSTEM}

  /** The opcode each handler is filed under. */
  function OpcodeOf(h: Handler): Opcode
  {
    match h
    case LUI => OP_LUI
    case AUIPC => OP_AUIPC
    case JAL => OP_JAL
    case JALR => OP_JALR
    case Branch => OP_BRANCH
    case Load => OP_LOAD
    case Store => OP_STORE
    case ArithImm => OP_IMM
    case ArithReg => OP_REG
    case Fence => OP_FENCE
    case ECall => OP_SYSTEM
  }

  /** `op_lookup[opcode]`, None where the dictionary has no such key. */
  function OpLookup(opcode: int): (r: Option<Handler>)
    ensures r.Some? <==> opcode in OPCODES
    ensures r.Some? ==> OpcodeOf(r.value) == opcode
  {
    if opcode == OP_LUI then Some(LUI)
    else if opcode == OP_AUIPC then Some(AUIPC)
    else if opcode == OP_JAL then Some(JAL)
    else if opcode == OP_JALR then Some(JALR)
    else if opcode == OP_BRANCH then Some(Branch)
    else if opcode == OP_LOAD then Some(Load)
    else if opcode == OP_STORE then Some(Store)
    else if opcode == OP_IMM then Some(ArithImm)
    else if opcode == OP_REG then Some(ArithReg)
    else if opcode == OP_FENCE then Some(Fence)
    else if opcode == OP_SYSTEM then Some(ECall)
    else None
  }

  /** Every handler is reached through its own opcode: op_lookup is one-to-one. */
  lemma LookupInverse(h: Handler)
    ensures OpLookup(OpcodeOf(h)) == Some(h)
  {
  }

  // ---------------------------------------------------------------------------
  // Load and store widths
  // ---------------------------------------------------------------------------

  /** Load.valid_ops, which Store checks as well. */
  const LOAD_OPS: set<int> := {0, 1, 2, 4, 5}

  /** `1 << (funct3 & 0b11)`, the access width in bytes. */
  function AccessWidth(funct3: Funct3): (w: nat)
    ensures w == if funct3 % 4 == 0 then 1 else if funct3 % 4 == 1 then 2 else if funct3 % 4 == 2 then 4 else 8
  {
    Pow2Values();
    AndLowMask(funct3, 2);
    ShlMul(1, funct3 % 4);
    Shl(1, BitAnd(funct3, 3))
  }

  /** `funct3 & 0b100`: the bit that makes LBU and LHU zero-extend. */
  function UnsignedLoad(funct3: Funct3): (u: bool)
    ensures u <==> funct3 >= 4
  {
    Pow2Values();
    AndShiftedMask(funct3, 1, 2);
    BitAnd(funct3, 4) != 0
  }

  // ---------------------------------------------------------------------------
  // The handlers, on the state value
  // ---------------------------------------------------------------------------

  /** LUI.execute. */
  function LuiEffect(f: UFields, s: MachineState): Effect
  {
    Effect(s.(regs := SetReg(s.regs, f.rd, f.imm)), Ok(FallThrough))
  }

  /** AUIPC.execute. */
  function AuipcEffect(f: UFields, s: MachineState): Effect
  {
    Effect(s.(regs := SetReg(s.regs, f.rd, f.imm + s.regs.pc)), Ok(FallThrough))
  }

  /** JAL.execute: the link is written first; the target uses the pc read before. */
  function JalEffect(f: JFields, s: MachineState): Effect
  {
    var pc := s.regs.pc;
    Effect(s.(regs := SetReg(s.regs, f.rd, pc + 4)), Ok(Jump(pc + SextJ(f.imm))))
  }

  /** JALR.execute: rs1 is read after rd was written, and bit 0 of the target is kept. */
  function JalrEffect(f: IFields, s: MachineState): Effect
  {
    var regs := SetReg(s.regs, f.rd, s.regs.pc + 4);
    Effect(s.(regs := regs), Ok(Jump(SextI(f.imm) + GetReg(regs, f.rs1))))
  }

  /** Branch.execute. */
  function BranchEffect(f: BFields, s: MachineState): Effect
  {
    var taken := BranchTaken(f.funct3, GetSigned(s.regs, f.rs1), GetSigned(s.regs, f.rs2));
    if taken.Err? then Effect(s, Err(taken.fault))
    else Effect(s, Ok(if taken.value then Jump(s.regs.pc + SextB(f.imm)) else FallThrough))
  }

  /** Load.execute. */
  function LoadEffect(f: IFields, s: MachineState): Effect
  {
    if f.funct3 !in LOAD_OPS then Effect(s, Err(InvalidFunct3))
    else
      var w := AccessWidth(f.funct3);
      var p := Read(s.mem, GetReg(s.regs, f.rs1) + SextI(f.imm), w);
      if p.Err? then Effect(s, Err(p.fault))
      else
        Effect(MachineState(SetReg(s.regs, f.rd, Loaded(f.funct3, p.value.value)), p.value.mem), Ok(FallThrough))
  }

  /** The value Load.execute writes to rd: the bytes read, sign-extended from their top bit unless funct3 & 0b100. */
  function Loaded(funct3: Funct3, raw: int): int
  {
    if UnsignedLoad(funct3) then raw else SignExtend(raw, AccessWidth(funct3) * 8 - 1)
  }

  /** Store.execute: funct3 is checked against Load.valid_ops, and the offset sign-extended as an I immediate. */
  function StoreEffect(f: SFields, s: MachineState): Effect
  {
    if f.funct3 !in LOAD_OPS then Effect(s, Err(InvalidFunct3))
    else
      var m := Write(s.mem, GetReg(s.regs, f.rs1) + SextI(f.imm), GetReg(s.regs, f.rs2), AccessWidth(f.funct3));
      if m.Err? then Effect(s, Err(m.fault)) else Effect(s.(mem := m.value), Ok(FallThrough))
  }

  /** ArithImm.execute. */
  function ArithImmEffect(f: IFields, s: MachineState): Effect
  {
    var v := ArithImmValue(f.funct3, GetSigned(s.regs, f.rs1), SextI(f.imm));
    if v.Err? then Effect(s, Err(v.fault)) else Effect(s.(regs := SetReg(s.regs, f.rd, v.value)), Ok(FallThrough))
  }

  /** ArithReg.execute. */
  function ArithRegEffect(f: RFields, s: MachineState): Effect
  {
    var v := ArithRegValue(f.funct3, GetSigned(s.regs, f.rs1), GetSigned(s.regs, f.rs2), f.funct7);
    if v.Err? then Effect(s, Err(v.fault)) else Effect(s.(regs := SetReg(s.regs, f.rd, v.value)), Ok(FallThrough))
  }

  /**
   * `cls.execute(cls.decode(instr), state)` for each handler class, with the
   * fields read through the layouts: ExecuteDecodes shows this agrees with
   * ExecuteDecoded, which calls each class's own decode.
   */
  function Execute(h: Handler, instr: int, s: MachineState): Effect
  {
    match h
    case LUI => LuiEffect(ULayout(instr), s)
    case AUIPC => AuipcEffect(ULayout(instr), s)
    case JAL => JalEffect(JLayout(instr), s)
    case JALR => JalrEffect(ILayout(instr), s)
    case Branch => BranchEffect(BLayout(instr), s)
    case Load => LoadEffect(ILayout(instr), s)
    case Store => StoreEffect(SLayout(instr), s)
    case ArithImm => ArithImmEffect(ILayout(instr), s)
    case ArithReg => ArithRegEffect(RLayout(instr), s)
    case Fence => Effect(s, Ok(FallThrough))
    case ECall => Effect(s, Ok(Exit))
  }

  /** Each handler class's `execute(decode(instr), state)`, with the fields its own decoder returns. */
  function ExecuteDecoded(h: Handler, instr: int, s: MachineState): Effect
  {
    match h
    case LUI => LuiEffect(DecodeU(instr), s)
    case AUIPC => AuipcEffect(DecodeU(instr), s)
    case JAL => JalEffect(DecodeJ(instr), s)
    case JALR => JalrEffect(DecodeI(instr), s)
    case Branch => BranchEffect(DecodeB(instr), s)
    case Load => LoadEffect(DecodeI(instr), s)
    case Store => StoreEffect(DecodeS(instr), s)
    case ArithImm => ArithImmEffect(DecodeI(instr), s)
    case ArithReg => ArithRegEffect(DecodeR(instr), s)
    case Fence => Effect(s, Ok(FallThrough))
    case ECall => Effect(s, Ok(Exit))
  }

  /** Execute runs each handler on the fields its own decoder extracts. */
  lemma ExecuteDecodes(h: Handler, instr: int, s: MachineState)
    ensures Execute(h, instr, s) == ExecuteDecoded(h, instr, s)
  {
    match h
    case LUI => DecodeUValue(instr);
    case AUIPC => DecodeUValue(instr);
    case JAL => DecodeJValue(instr);
    case JALR => DecodeIValue(instr);
    case Branch => DecodeBValue(instr);
    case Load => DecodeIValue(instr);
    case Store => DecodeSValue(instr);
    case ArithImm => DecodeIValue(instr);
    case ArithReg => DecodeRValue(instr);
    case Fence =>
    case ECall =>
  }

  /** OpCode.call: fetch the word at pc again, then decode and execute it. */
  function Call(h: Handler, s: MachineState): Effect
  {
    var fetch := Read(s.mem, s.regs.pc, 4);
    if fetch.Err? then Effect(s, Err(fetch.fault))
    else Execute(h, fetch.value.value, s.(mem := fetch.value.mem))
  }

  // ---------------------------------------------------------------------------
  // What each handler does
  // ---------------------------------------------------------------------------

  /**
   * t is s with register rd set to v mod 2^32 (nothing, when rd is x0) and pc
   * as it was; a write to any register but sp leaves the watermarks alone.
   */
  predicate WritesReg(s: RegState, t: RegState, rd: RegIndex, v: int)
  {
    && t.pc == s.pc
    && (rd != SP ==> t.maxSp == s.maxSp && t.minSp == s.minSp)
    && forall m: RegIndex :: GetReg(t, m) == if m == rd && rd != 0 then v % TwoTo32 else GetReg(s, m)
  }

  lemma SetWrites(s: RegState, n: RegIndex, v: int)
    requires WellFormed(s)
    ensures WritesReg(s, SetReg(s, n, v), n, v) && WellFormed(SetReg(s, n, v))
  {
    SetWellFormed(s, n, v);
    Watermarks(s, n, v);
    forall m: RegIndex
      ensures GetReg(SetReg(s, n, v), m) == if m == n && n != 0 then v % TwoTo32 else GetReg(s, m)
    {
      SetThenGet(s, n, v, m);
    }
  }

  /** LUI sets rd to the U immediate (mod 2^32), falls through and leaves memory alone. */
  lemma LuiWrites(f: UFields, s: MachineState)
    requires Valid(s)
    ensures var e := LuiEffect(f, s);
      e.result == Ok(FallThrough) && e.state.mem == s.mem && WritesReg(s.regs, e.state.regs, f.rd, f.imm)
  {
    SetWrites(s.regs, f.rd, f.imm);
  }

  /** AUIPC sets rd to imm + pc mod 2^32, falls through and leaves memory alone. */
  lemma AuipcWrites(f: UFields, s: MachineState)
    requires Valid(s)
    ensures var e := AuipcEffect(f, s);
      e.result == Ok(FallThrough) && e.state.mem == s.mem && WritesReg(s.regs, e.state.regs, f.rd, f.imm + s.regs.pc)
  {
    SetWrites(s.regs, f.rd, f.imm + s.regs.pc);
  }

  /** JAL links rd to pc + 4 and jumps to pc plus the even, sign-extended 21-bit offset. */
  lemma JalJumps(f: JFields, s: MachineState)
    requires Valid(s) && f.imm < 0x20_0000 && f.imm % 2 == 0
    ensures var e := JalEffect(f, s);
      && e.result == Ok(Jump(s.regs.pc + SextJ(f.imm)))
      && e.state.mem == s.mem && WritesReg(s.regs, e.state.regs, f.rd, s.regs.pc + 4)
      && -0x10_0000 <= SextJ(f.imm) < 0x10_0000 && SextJ(f.imm) % 2 == 0
  {
    SetWrites(s.regs, f.rd, s.regs.pc + 4);
    SextJEven(f.imm);
  }

  /** An even 21-bit J immediate sign-extends to an even offset within ±1 MiB. */
  lemma SextJEven(imm: int)
    requires 0 <= imm < 0x20_0000 && imm % 2 == 0
    ensures -0x10_0000 <= SextJ(imm) < 0x10_0000 && SextJ(imm) % 2 == 0
  {
    EvenResidue(SextJ(imm), imm);
  }

  /** A number whose residue modulo 2^21 is even is itself even. */
  lemma EvenResidue(r: int, imm: int)
    requires r % 0x20_0000 == imm && imm % 2 == 0
    ensures r % 2 == 0
  {
    var q, k := r / 0x20_0000, imm / 2;
    assert imm == 2 * k;
    DivModUnique(r, 2, k + q * 0x10_0000, 0);
  }

  /**
   * JALR links rd to pc + 4 before it reads rs1, so with rd = rs1 (not x0)
   * the target is built from the link; bit 0 of the sum is kept.
   */
  lemma JalrJumps(f: IFields, s: MachineState)
    requires Valid(s)
    ensures var e := JalrEffect(f, s);
      && e.state.mem == s.mem && WritesReg(s.regs, e.state.regs, f.rd, s.regs.pc + 4)
      && e.result == Ok(Jump(SextI(f.imm) + if f.rs1 == f.rd && f.rd != 0 then (s.regs.pc + 4) % TwoTo32 else GetReg(s.regs, f.rs1)))
  {
    SetWrites(s.regs, f.rd, s.regs.pc + 4);
  }

  /**
   * A branch fails for funct3 2 and 3; otherwise it changes nothing and jumps
   * to pc plus the sign-extended 13-bit offset exactly when the condition of
   * section 2.5 of the RISC-V Unprivileged ISA holds for the two registers.
   */
  lemma BranchDecides(f: BFields, s: MachineState)
    requires Valid(s)
    ensures var e := BranchEffect(f, s);
      && e.state == s
      && (e.result.Err? <==> f.funct3 in {2, 3})
      && (e.result.Err? ==> e.result.fault == InvalidFunct3)
      && (e.result.Ok? ==>
            e.result.value == if BranchReference(f.funct3, GetReg(s.regs, f.rs1), GetReg(s.regs, f.rs2))
                              then Jump(s.regs.pc + SextB(f.imm)) else FallThrough)
  {
    if f.funct3 !in {2, 3} {
      BranchMatchesReference(f.funct3, GetReg(s.regs, f.rs1), GetReg(s.regs, f.rs2));
    }
  }

  /** BEQ and BNE on 5 and 5; BLT and BLTU on 0xFFFFFFFF and 1, which is -1 < 1 signed but not unsigned. */
  lemma BranchOutcomes(f: BFields, s: MachineState)
    requires Valid(s)
    ensures var taken, r := Jump(s.regs.pc + SextB(f.imm)), BranchEffect(f, s).result;
      && (GetReg(s.regs, f.rs1) == 5 && GetReg(s.regs, f.rs2) == 5 ==>
            (f.funct3 == BEQ ==> r == Ok(taken)) && (f.funct3 == BNE ==> r == Ok(FallThrough)))
      && (GetReg(s.regs, f.rs1) == 0xFFFF_FFFF && GetReg(s.regs, f.rs2) == 1 ==>
            (f.funct3 == BLT ==> r == Ok(taken)) && (f.funct3 == BLTU ==> r == Ok(FallThrough)))
  {
    BranchDecides(f, s);
  }

  /** The two's-complement reading of a pattern of `bits` bits. */
  function TwosComplement(v: int, bits: nat): int
    requires bits >= 1
  {
    if v < Pow2(bits - 1) then v else v - Pow2(bits)
  }

  /**
   * A load fails for funct3 3, 6 and 7, and with peek's fault when peek
   * fails; otherwise rd receives the value peek read (sign-extended from bit
   * 8w - 1 unless funct3 has bit 2 set) and the memory is what peek left.
   */
  lemma LoadReads(f: IFields, s: MachineState)
    requires Valid(s)
    ensures var e, w := LoadEffect(f, s), AccessWidth(f.funct3);
      var p := Read(s.mem, GetReg(s.regs, f.rs1) + SextI(f.imm), w);
      && (f.funct3 !in LOAD_OPS ==> e == Effect(s, Err(InvalidFunct3)))
      && (f.funct3 in LOAD_OPS && p.Err? ==> e == Effect(s, Err(p.fault)))
      && (f.funct3 in LOAD_OPS && p.Ok? ==>
            && e.result == Ok(FallThrough) && e.state.mem == p.value.mem
            && WritesReg(s.regs, e.state.regs, f.rd, if f.funct3 >= 4 then p.value.value else SignExtend(p.value.value, w * 8 - 1)))
  {
    if f.funct3 in LOAD_OPS {
      var addr, w := GetReg(s.regs, f.rs1) + SextI(f.imm), AccessWidth(f.funct3);
      var p := Read(s.mem, addr, w);
      if p.Ok? {
        LoadPerformed(f, s.regs, s.mem, addr, w, Ok(p.value.value), p.value.mem);
        SetWrites(s.regs, f.rd, Loaded(f.funct3, p.value.value));
      } else {
        LoadPerformed(f, s.regs, s.mem, addr, w, Err(p.fault), s.mem);
      }
    }
  }

  /** Sign extension from the top bit of a byte-aligned little-endian value is its two's-complement reading. */
  lemma SignExtendBytes(v: int, w: nat)
    requires w in {1, 2, 4} && 0 <= v < Pow2(8 * w)
    ensures SignExtend(v, 8 * w - 1) == TwosComplement(v, 8 * w)
  {
    var b := 8 * w - 1;
    var p := Pow2(b);
    Pow2Add(b, 1);
    assert Pow2(8 * w) == 2 * p;
    SignExtendValue(v, b);
    if v < p {
      DivModUnique(v, p, 0, v);
    } else {
      DivModUnique(v, p, 1, v - p);
    }
  }

  /**
   * What a load from ordinary memory puts in rd: the little-endian value of
   * the w bytes at the masked address, zero-extended for LBU and LHU and read
   * as a w-byte two's-complement number otherwise, then masked to 32 bits.
   */
  lemma LoadValue(f: IFields, s: MachineState)
    requires Valid(s)
    requires s.mem.allowUnaligned && f.funct3 in LOAD_OPS && (GetReg(s.regs, f.rs1) + SextI(f.imm)) % TwoTo32 != PORT
    ensures var e, w := LoadEffect(f, s), AccessWidth(f.funct3);
      var v := LEValue(s.mem.cells, (GetReg(s.regs, f.rs1) + SextI(f.imm)) % TwoTo32, w);
      && e.result == Ok(FallThrough)
      && WritesReg(s.regs, e.state.regs, f.rd, if f.funct3 >= 4 then v else TwosComplement(v, 8 * w))
  {
    var w := AccessWidth(f.funct3);
    var addr := GetReg(s.regs, f.rs1) + SextI(f.imm);
    var a := addr % TwoTo32;
    ReadLEValue(s.mem.cells, a, w);
    OrdinaryAccess(s.mem, addr, 0, w);
    LoadedValue(f.funct3, LEValue(s.mem.cells, a, w));
    LoadReads(f, s);
  }

  /** On a w-byte value, Loaded is the value itself for LBU and LHU and its w-byte two's-complement reading otherwise. */
  lemma LoadedValue(funct3: Funct3, raw: int)
    requires funct3 in LOAD_OPS && 0 <= raw < Pow2(8 * AccessWidth(funct3))
    ensures Loaded(funct3, raw) == if funct3 >= 4 then raw else TwosComplement(raw, 8 * AccessWidth(funct3))
  {
    LoadWidth(funct3);
    if funct3 < 4 {
      SignExtendBytes(raw, AccessWidth(funct3));
    }
  }

  /** The widths of the five loads: 1, 2 and 4 bytes. */
  lemma LoadWidth(funct3: Funct3)
    requires funct3 in LOAD_OPS
    ensures AccessWidth(funct3) in {1, 2, 4}
  {
  }

  /**
   * A store fails for funct3 3, 6 and 7, and 4 and 5 store 1 and 2 bytes.
   * Otherwise it leaves the registers alone and pokes the value of rs2 at
   * get(rs1) + sext(imm); with unaligned access allowed it never fails.
   */
  lemma StoreWrites(f: SFields, s: MachineState)
    requires Valid(s)
    ensures var e, w := StoreEffect(f, s), AccessWidth(f.funct3);
      var addr := GetReg(s.regs, f.rs1) + SextI(f.imm);
      && (f.funct3 !in LOAD_OPS ==> e == Effect(s, Err(InvalidFunct3)))
      && (f.funct3 in LOAD_OPS ==> w == if f.funct3 == 2 then 4 else if f.funct3 % 4 == 1 then 2 else 1)
      && (f.funct3 in LOAD_OPS && s.mem.allowUnaligned ==> e.result == Ok(FallThrough))
      && (e.result.Ok? ==> e.result == Ok(FallThrough) && e.state == s.(mem := Write(s.mem, addr, GetReg(s.regs, f.rs2), w).value))
      && (e.result.Err? ==> e.state == s)
  {
    if f.funct3 in LOAD_OPS {
      Alignment(s.mem, GetReg(s.regs, f.rs1) + SextI(f.imm), GetReg(s.regs, f.rs2), AccessWidth(f.funct3));
    }
  }

  /** An SW followed by an LW from the same base register and offset, off the port, gives back rs2's value. */
  lemma StoreThenLoadWord(fs: SFields, fl: IFields, s: MachineState)
    requires Valid(s)
    requires fs.funct3 == 2 && fl.funct3 == 2 && fs.rs1 == fl.rs1 && fs.imm == fl.imm
    requires (GetReg(s.regs, fs.rs1) + SextI(fs.imm)) % TwoTo32 != PORT
    requires StoreEffect(fs, s).result.Ok?
    ensures var e := LoadEffect(fl, StoreEffect(fs, s).state);
      e.result == Ok(FallThrough) && GetReg(e.state.regs, fl.rd) == if fl.rd == 0 then 0 else GetReg(s.regs, fs.rs2)
  {
    var addr := GetReg(s.regs, fs.rs1) + SextI(fs.imm);
    var v := GetReg(s.regs, fs.rs2);
    StoreWrites(fs, s);
    var t := StoreEffect(fs, s).state;
    assert t == s.(mem := Write(s.mem, addr, v, 4).value);
    PeekAfterPoke(s.mem, addr, v, 4);
    WordFits(v);
    StoreKeepsValid(fs, s);
    StoredWordReadsBack(fl, t, addr, v);
  }

  lemma WordFits(v: int)
    requires 0 <= v < TwoTo32
    ensures v % Pow2(8 * 4) == v
  {
    Pow2Values();
    DivModUnique(v, TwoTo32, 0, v);
  }

  lemma StoredWordReadsBack(fl: IFields, t: MachineState, addr: int, v: int)
    requires Valid(t) && fl.funct3 == 2 && addr == GetReg(t.regs, fl.rs1) + SextI(fl.imm) && 0 <= v < TwoTo32
    requires Read(t.mem, addr, 4).Ok? && Read(t.mem, addr, 4).value.value == v
    ensures var e := LoadEffect(fl, t);
      e.result == Ok(FallThrough) && GetReg(e.state.regs, fl.rd) == if fl.rd == 0 then 0 else v
  {
    var after := Read(t.mem, addr, 4).value.mem;
    LoadPerformed(fl, t.regs, t.mem, addr, 4, Ok(v), after);
    SetThenGet(t.regs, fl.rd, Loaded(2, v), fl.rd);
    WordLoaded(v);
  }

  /** An LW of a 32-bit value writes that value back: sign extension from bit 31 is undone by the mask. */
  lemma WordLoaded(v: int)
    requires 0 <= v < TwoTo32
    ensures Loaded(2, v) % TwoTo32 == v
  {
    SignedMasksBack(v);
  }

  lemma StoreKeepsValid(f: SFields, s: MachineState)
    requires Valid(s)
    ensures Valid(StoreEffect(f, s).state)
  {
    if f.funct3 in LOAD_OPS {
      var addr, v, w := GetReg(s.regs, f.rs1) + SextI(f.imm), GetReg(s.regs, f.rs2), AccessWidth(f.funct3);
      if Write(s.mem, addr, v, w).Ok? {
        PokeKeepsBytes(s.mem, addr, v, w);
      }
    }
  }

  /**
   * ArithImm agrees with the rule of section 2.4 of the RISC-V Unprivileged
   * ISA on the unsigned contents of rs1: it fails (bad shift funct7 bits)
   * exactly where the rule has no result, and otherwise writes the rule's value.
   */
  lemma ArithImmComputes(f: IFields, s: MachineState)
    requires Valid(s) && f.imm < 0x1000
    ensures var e, expected := ArithImmEffect(f, s), ArithImmReference(f.funct3, GetReg(s.regs, f.rs1), f.imm);
      && (e.result.Err? <==> expected.None?)
      && (e.result.Err? ==> e.result.fault == InvalidFunct7 && e.state == s)
      && (e.result.Ok? ==> e.result.value == FallThrough && e.state.mem == s.mem && WritesReg(s.regs, e.state.regs, f.rd, expected.value))
  {
    var u := GetReg(s.regs, f.rs1);
    ArithImmMatchesReference(f.funct3, u, f.imm);
    var r := ArithImmValue(f.funct3, SignExtend(u, 31), SextI(f.imm));
    if r.Ok? {
      SetWrites(s.regs, f.rd, r.value);
      SameModulo(r.value, ArithImmReference(f.funct3, u, f.imm).value);
    }
  }

  /** Reducing both sides modulo 2^32, kept apart so the handler proofs need no modular reasoning of their own. */
  lemma SameModulo(x: int, y: int)
    requires x % TwoTo32 == y
    ensures y % TwoTo32 == x % TwoTo32
  {
  }

  /** ADDI rd, x0, -1 (immediate 0xFFF) sets rd to 0xFFFFFFFF. */
  lemma AddiMinusOne(f: IFields, s: MachineState)
    requires Valid(s) && f.funct3 == ADD && f.rs1 == 0 && f.imm == 0xFFF && f.rd != 0
    ensures var e := ArithImmEffect(f, s);
      e.result == Ok(FallThrough) && GetReg(e.state.regs, f.rd) == 0xFFFF_FFFF
  {
    ArithImmComputes(f, s);
    ArithImmExamples();
  }

  /**
   * With 0x80000000 in rs1: SRLI by 1 (immediate 1) writes 0x40000000, SRAI by 1
   * (immediate 0x401) writes 0xC0000000, and SLLI with the same immediate fails
   * on its funct7 bits, changing nothing.
   */
  lemma ShiftImmExamples(f: IFields, s: MachineState)
    requires Valid(s) && GetReg(s.regs, f.rs1) == 0x8000_0000 && f.rd != 0
    ensures var e := ArithImmEffect(f, s);
      && (f.funct3 == SR && f.imm == 1 ==> e.result == Ok(FallThrough) && GetReg(e.state.regs, f.rd) == 0x4000_0000)
      && (f.funct3 == SR && f.imm == 0x401 ==> e.result == Ok(FallThrough) && GetReg(e.state.regs, f.rd) == 0xC000_0000)
      && (f.funct3 == SLL && f.imm == 0x401 ==> e == Effect(s, Err(InvalidFunct7)))
  {
    if f.imm < 0x1000 {
      ArithImmComputes(f, s);
      ArithImmExamples();
    }
  }

  /**
   * ArithReg agrees with the rule of section 2.4 of the RISC-V Unprivileged
   * ISA on the unsigned register contents: it fails exactly for a shift right
   * whose funct7 is neither 0 nor 0b0100000, and otherwise writes the rule's value.
   */
  lemma ArithRegComputes(f: RFields, s: MachineState)
    requires Valid(s)
    ensures var e, expected := ArithRegEffect(f, s), ArithRegReference(f.funct3, GetReg(s.regs, f.rs1), GetReg(s.regs, f.rs2), f.funct7);
      && (e.result.Err? <==> expected.None?)
      && (e.result.Err? ==> e.result.fault == InvalidFunct7 && e.state == s)
      && (e.result.Ok? ==> e.result.value == FallThrough && e.state.mem == s.mem && WritesReg(s.regs, e.state.regs, f.rd, expected.value))
  {
    var u1, u2 := GetReg(s.regs, f.rs1), GetReg(s.regs, f.rs2);
    ArithRegMatchesReference(f.funct3, u1, u2, f.funct7);
    var r := ArithRegValue(f.funct3, SignExtend(u1, 31), SignExtend(u2, 31), f.funct7);
    if r.Ok? {
      SetWrites(s.regs, f.rd, r.value);
      SameModulo(r.value, ArithRegReference(f.funct3, u1, u2, f.funct7).value);
    }
  }

  lemma LoadKeepsValid(f: IFields, s: MachineState)
    requires Valid(s)
    ensures Valid(LoadEffect(f, s).state)
  {
    if f.funct3 in LOAD_OPS {
      var addr := GetReg(s.regs, f.rs1) + SextI(f.imm);
      var p := Read(s.mem, addr, AccessWidth(f.funct3));
      if p.Ok? {
        LoadPerformed(f, s.regs, s.mem, addr, AccessWidth(f.funct3), Ok(p.value.value), p.value.mem);
        PeekKeepsValues(s.mem, addr, AccessWidth(f.funct3));
        SetWellFormed(s.regs, f.rd, Loaded(f.funct3, p.value.value));
      }
    }
  }

  /**
   * Every handler keeps the state valid and leaves pc alone (the run loop
   * moves it); a handler that fails has changed nothing; FENCE changes
   * nothing and falls through; only ECALL exits.
   */
  predicate Contained(s: MachineState, h: Handler, e: Effect)
  {
    && Valid(e.state) && e.state.regs.pc == s.regs.pc
    && (e.result.Err? ==> e.state == s)
    && (h in {Fence, ECall} ==> e.state == s)
    && (h == Fence ==> e.result == Ok(FallThrough))
    && (e.result == Ok(Exit) <==> h == ECall)
  }

  lemma ExecuteFramed(h: Handler, instr: int, s: MachineState)
    requires Valid(s)
    ensures Contained(s, h, Execute(h, instr, s))
  {
    match h
    case LUI => LuiContained(ULayout(instr), s);
    case AUIPC => AuipcContained(ULayout(instr), s);
    case JAL => JalContained(JLayout(instr), s);
    case JALR => JalrContained(ILayout(instr), s);
    case Branch => BranchContained(BLayout(instr), s);
    case Load => LoadContained(ILayout(instr), s);
    case Store => StoreContained(SLayout(instr), s);
    case ArithImm => ArithImmContained(ILayout(instr), s);
    case ArithReg => ArithRegContained(RLayout(instr), s);
    case Fence =>
    case ECall =>
  }

  lemma LuiContained(f: UFields, s: MachineState)
    requires Valid(s)
    ensures Contained(s, LUI, LuiEffect(f, s))
  {
    SetWellFormed(s.regs, f.rd, f.imm);
  }

  lemma AuipcContained(f: UFields, s: MachineState)
    requires Valid(s)
    ensures Contained(s, AUIPC, AuipcEffect(f, s))
  {
    SetWellFormed(s.regs, f.rd, f.imm + s.regs.pc);
  }

  lemma JalContained(f: JFields, s: MachineState)
    requires Valid(s)
    ensures Contained(s, JAL, JalEffect(f, s))
  {
    SetWellFormed(s.regs, f.rd, s.regs.pc + 4);
  }

  lemma JalrContained(f: IFields, s: MachineState)
    requires Valid(s)
    ensures Contained(s, JALR, JalrEffect(f, s))
  {
    SetWellFormed(s.regs, f.rd, s.regs.pc + 4);
  }

  lemma BranchContained(f: BFields, s: MachineState)
    requires Valid(s)
    ensures Contained(s, Branch, BranchEffect(f, s))
  {
  }

  lemma LoadContained(f: IFields, s: MachineState)
    requires Valid(s)
    ensures Contained(s, Load, LoadEffect(f, s))
  {
    LoadKeepsValid(f, s);
  }

  lemma StoreContained(f: SFields, s: MachineState)
    requires Valid(s)
    ensures Contained(s, Store, StoreEffect(f, s))
  {
    StoreKeepsValid(f, s);
  }

  lemma ArithImmContained(f: IFields, s: MachineState)
    requires Valid(s)
    ensures Contained(s, ArithImm, ArithImmEffect(f, s))
  {
    var v := ArithImmValue(f.funct3, GetSigned(s.regs, f.rs1), SextI(f.imm));
    if v.Ok? {
      SetWellFormed(s.regs, f.rd, v.value);
    }
  }

  lemma ArithRegContained(f: RFields, s: MachineState)
    requires Valid(s)
    ensures Contained(s, ArithReg, ArithRegEffect(f, s))
  {
    var v := ArithRegValue(f.funct3, GetSigned(s.regs, f.rs1), GetSigned(s.regs, f.rs2), f.funct7);
    if v.Ok? {
      SetWellFormed(s.regs, f.rd, v.value);
    }
  }

  /** OpCode.call fails with peek's fault when the fetch fails, and otherwise keeps pc and validity as the handler does. */
  lemma CallKeepsValid(h: Handler, s: MachineState)
    requires Valid(s)
    ensures var e := Call(h, s);
      && Valid(e.state) && e.state.regs.pc == s.regs.pc
      && (e.result == Ok(Exit) <==> h == ECall && Read(s.mem, s.regs.pc, 4).Ok?)
      && (Read(s.mem, s.regs.pc, 4).Err? ==> e == Effect(s, Err(Read(s.mem, s.regs.pc, 4).fault)))
  {
    var fetch := Read(s.mem, s.regs.pc, 4);
    if fetch.Ok? {
      PeekKeepsValues(s.mem, s.regs.pc, 4);
      ExecuteFramed(h, fetch.value.value, s.(mem := fetch.value.mem));
    }
  }

  // ---------------------------------------------------------------------------
  // The handler methods, on the RegisterFile and Memory objects
  // ---------------------------------------------------------------------------

  /** The value the two objects of a MachineState hold. */
  function Snapshot(regs: RegisterFile, mem: Memory): MachineState
    reads regs, mem
  {
    MachineState(regs.State(), mem.State())
  }

  /** A handler method did what its function says: the same return value or fault, and the same new state. */
  predicate Performed(r: Result<Outcome>, e: Effect, after: MachineState)
  {
    r == e.result && after == e.state
  }

  method ExecuteLui(op: UFields, regs: RegisterFile, mem: Memory) returns (r: Result<Outcome>)
    requires regs.Valid()
    modifies regs, mem
    ensures regs.Valid()
    ensures Performed(r, LuiEffect(op, old(Snapshot(regs, mem))), Snapshot(regs, mem))
  {
    regs.Set(op.rd, op.imm);
    r := Ok(FallThrough);
  }

  method ExecuteAuipc(op: UFields, regs: RegisterFile, mem: Memory) returns (r: Result<Outcome>)
    requires regs.Valid()
    modifies regs, mem
    ensures regs.Valid()
    ensures Performed(r, AuipcEffect(op, old(Snapshot(regs, mem))), Snapshot(regs, mem))
  {
    regs.Set(op.rd, op.imm + regs.pc);
    r := Ok(FallThrough);
  }

  method ExecuteJal(op: JFields, regs: RegisterFile, mem: Memory) returns (r: Result<Outcome>)
    requires regs.Valid()
    modifies regs, mem
    ensures regs.Valid()
    ensures Performed(r, JalEffect(op, old(Snapshot(regs, mem))), Snapshot(regs, mem))
  {
    var pc := regs.pc;
    regs.Set(op.rd, pc + 4);
    r := Ok(Jump(pc + SextJ(op.imm)));
  }

  method ExecuteJalr(op: IFields, regs: RegisterFile, mem: Memory) returns (r: Result<Outcome>)
    requires regs.Valid()
    modifies regs, mem
    ensures regs.Valid()
    ensures Performed(r, JalrEffect(op, old(Snapshot(regs, mem))), Snapshot(regs, mem))
  {
    ghost var rs, m := regs.State(), mem.State();
    var pc := regs.pc;
    regs.Set(op.rd, pc + 4);
    ghost var written := SetReg(rs, op.rd, rs.pc + 4);
    assert Snapshot(regs, mem) == MachineState(written, m);
    var base := regs.Get(op.rs1);
    assert base == GetReg(written, op.rs1);
    r := Ok(Jump(SextI(op.imm) + base));
  }

  method ExecuteBranch(op: BFields, regs: RegisterFile, mem: Memory) returns (r: Result<Outcome>)
    requires regs.Valid()
    modifies regs, mem
    ensures regs.Valid()
    ensures Performed(r, BranchEffect(op, old(Snapshot(regs, mem))), Snapshot(regs, mem))
  {
    var sImm := SextB(op.imm);
    var rs1 := regs.GetSignedValue(op.rs1);
    var rs2 := regs.GetSignedValue(op.rs2);
    var taken := BranchTaken(op.funct3, rs1, rs2);
    if taken.Err? {
      return Err(taken.fault);
    }
    if taken.value {
      r := Ok(Jump(regs.pc + sImm));
    } else {
      r := Ok(FallThrough);
    }
  }

  /** Load.execute once funct3 is accepted: the peek's outcome decides the handler's outcome. */
  lemma LoadPerformed(f: IFields, rs: RegState, m: MemState, addr: int, w: nat, r: Result<int>, after: MemState)
    requires f.funct3 in LOAD_OPS && addr == GetReg(rs, f.rs1) + SextI(f.imm) && w == AccessWidth(f.funct3)
    requires PeekReturned(r, after, Read(m, addr, w), m)
    ensures r.Err? ==> LoadEffect(f, MachineState(rs, m)) == Effect(MachineState(rs, after), Err(r.fault))
    ensures r.Ok? ==> LoadEffect(f, MachineState(rs, m)) == Effect(MachineState(SetReg(rs, f.rd, Loaded(f.funct3, r.value)), after), Ok(FallThrough))
  {
  }

  method ExecuteLoad(op: IFields, regs: RegisterFile, mem: Memory) returns (r: Result<Outcome>)
    requires regs.Valid()
    modifies regs, mem
    ensures regs.Valid()
    ensures Performed(r, LoadEffect(op, old(Snapshot(regs, mem))), Snapshot(regs, mem))
  {
    if op.funct3 !in LOAD_OPS {
      return Err(InvalidFunct3);
    }
    var sImm := SextI(op.imm);
    var base := regs.Get(op.rs1);
    var addr := base + sImm;
    var w := AccessWidth(op.funct3);
    ghost var rs, m := regs.State(), mem.State();
    var rval := mem.Peek(addr, w);
    LoadPerformed(op, rs, m, addr, w, rval, mem.State());
    if rval.Err? {
      assert Snapshot(regs, mem) == MachineState(rs, mem.State());
      return Err(rval.fault);
    }
    var v := rval.value;
    if !UnsignedLoad(op.funct3) {
      v := SignExtend(v, w * 8 - 1);
    }
    assert v == Loaded(op.funct3, rval.value);
    ghost var after := mem.State();
    regs.Set(op.rd, v);
    assert Snapshot(regs, mem) == MachineState(SetReg(rs, op.rd, v), after);
    r := Ok(FallThrough);
  }

  /** Store.execute once funct3 is accepted: the poke's outcome is the handler's outcome. */
  lemma StorePerformed(f: SFields, rs: RegState, m: MemState, addr: int, v: int, w: nat, done: Result<()>, after: MemState)
    requires f.funct3 in LOAD_OPS && addr == GetReg(rs, f.rs1) + SextI(f.imm) && v == GetReg(rs, f.rs2) && w == AccessWidth(f.funct3)
    requires Poked(done, after, Write(m, addr, v, w), m)
    ensures Performed(if done.Err? then Err(done.fault) else Ok(FallThrough), StoreEffect(f, MachineState(rs, m)), MachineState(rs, after))
  {
  }

  method ExecuteStore(op: SFields, regs: RegisterFile, mem: Memory) returns (r: Result<Outcome>)
    requires regs.Valid()
    modifies regs, mem
    ensures regs.Valid()
    ensures Performed(r, StoreEffect(op, old(Snapshot(regs, mem))), Snapshot(regs, mem))
  {
    if op.funct3 !in LOAD_OPS {
      return Err(InvalidFunct3);
    }
    var sImm := SextI(op.imm);
    var base := regs.Get(op.rs1);
    var w := AccessWidth(op.funct3);
    var v := regs.Get(op.rs2);
    ghost var rs, m := regs.State(), mem.State();
    var addr := base + sImm;
    var done := mem.Poke(addr, v, w);
    StorePerformed(op, rs, m, addr, v, w, done, mem.State());
    r := if done.Err? then Err(done.fault) else Ok(FallThrough);
    assert Snapshot(regs, mem) == MachineState(rs, mem.State());
  }

  method ExecuteArithImm(op: IFields, regs: RegisterFile, mem: Memory) returns (r: Result<Outcome>)
    requires regs.Valid()
    modifies regs, mem
    ensures regs.Valid()
    ensures Performed(r, ArithImmEffect(op, old(Snapshot(regs, mem))), Snapshot(regs, mem))
  {
    var sImm := SextI(op.imm);
    var rs1 := regs.GetSignedValue(op.rs1);
    var v := ArithImmValue(op.funct3, rs1, sImm);
    if v.Err? {
      return Err(v.fault);
    }
    regs.Set(op.rd, v.value);
    r := Ok(FallThrough);
  }

  method ExecuteArithReg(op: RFields, regs: RegisterFile, mem: Memory) returns (r: Result<Outcome>)
    requires regs.Valid()
    modifies regs, mem
    ensures regs.Valid()
    ensures Performed(r, ArithRegEffect(op, old(Snapshot(regs, mem))), Snapshot(regs, mem))
  {
    var rs1 := regs.GetSignedValue(op.rs1);
    var rs2 := regs.GetSignedValue(op.rs2);
    var v := ArithRegValue(op.funct3, rs1, rs2, op.funct7);
    if v.Err? {
      return Err(v.fault);
    }
    regs.Set(op.rd, v.value);
    r := Ok(FallThrough);
  }

  /** `cls.execute(cls.decode(instr), state)`: decode in the handler's format, then run its execute. */
  method Dispatch(h: Handler, instr: int, regs: RegisterFile, mem: Memory) returns (r: Result<Outcome>)
    requires regs.Valid()
    modifies regs, mem
    ensures regs.Valid()
    ensures Performed(r, ExecuteDecoded(h, instr, old(Snapshot(regs, mem))), Snapshot(regs, mem))
  {
    if h.LUI? || h.AUIPC? || h.JAL? || h.JALR? || h.Branch? {
      r := DispatchControl(h, instr, regs, mem);
    } else {
      r := DispatchData(h, instr, regs, mem);
    }
  }

  /** Dispatch for the handlers that set pc or write an upper immediate. */
  method DispatchControl(h: Handler, instr: int, regs: RegisterFile, mem: Memory) returns (r: Result<Outcome>)
    requires regs.Valid() && (h.LUI? || h.AUIPC? || h.JAL? || h.JALR? || h.Branch?)
    modifies regs, mem
    ensures regs.Valid()
    ensures Performed(r, ExecuteDecoded(h, instr, old(Snapshot(regs, mem))), Snapshot(regs, mem))
  {
    match h
    case LUI => r := ExecuteLui(DecodeU(instr), regs, mem);
    case AUIPC => r := ExecuteAuipc(DecodeU(instr), regs, mem);
    case JAL => r := ExecuteJal(DecodeJ(instr), regs, mem);
    case JALR => r := ExecuteJalr(DecodeI(instr), regs, mem);
    case Branch => r := ExecuteBranch(DecodeB(instr), regs, mem);
  }

  /** Dispatch for the loads, stores, arithmetic, FENCE and ECALL. */
  method DispatchData(h: Handler, instr: int, regs: RegisterFile, mem: Memory) returns (r: Result<Outcome>)
    requires regs.Valid() && !(h.LUI? || h.AUIPC? || h.JAL? || h.JALR? || h.Branch?)
    modifies regs, mem
    ensures regs.Valid()
    ensures Performed(r, ExecuteDecoded(h, instr, old(Snapshot(regs, mem))), Snapshot(regs, mem))
  {
    match h
    case Load => r := ExecuteLoad(DecodeI(instr), regs, mem);
    case Store => r := ExecuteStore(DecodeS(instr), regs, mem);
    case ArithImm => r := ExecuteArithImm(DecodeI(instr), regs, mem);
    case ArithReg => r := ExecuteArithReg(DecodeR(instr), regs, mem);
    case Fence => r := Ok(FallThrough);
    case ECall => r := Ok(Exit);
  }

  /** OpCode.call. */
  method CallHandler(h: Handler, regs: RegisterFile, mem: Memory) returns (r: Result<Outcome>)
    requires regs.Valid()
    modifies regs, mem
    ensures regs.Valid()
    ensures Performed(r, Call(h, old(Snapshot(regs, mem))), Snapshot(regs, mem))
  {
    var instr := mem.Peek(regs.pc, 4);
    if instr.Err? {
      return Err(instr.fault);
    }
    ExecuteDecodes(h, instr.value, Snapshot(regs, mem));
    r := Dispatch(h, instr.value, regs, mem);
  }
}
