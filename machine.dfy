/**
 * machine.py: the Machine object.  Its constructor pokes the program image
 * into memory one byte at a time (byte i at address i) and takes pc from the
 * little-endian word at address 4 and the stack pointer from the word at
 * address 0; `run` then fetches the word at pc, looks its low 7 bits up in
 * op_lookup, calls the handler and moves pc, counting one cycle per
 * instruction that did not stop the machine.
 *
 * The program file is given as a sequence of bytes, and the run loop takes a
 * fuel bound (the number of round trips it may make) in place of `while True`.
 */
module Emu {
  import opened Bits
  import opened Results
  import opened Decode
  import opened Alu
  import opened RegFile
  import opened Mem
  import opened Ops

  type Byte = x: int | 0 <= x < 256

  /** The low seven bits of the fetched word, `instr &= 0b1111111`. */
  function OpcodeBits(instr: int): (op: nat)
    ensures op == instr % 128
  {
    AndLowMask(instr, 7);
    Pow2Values();
    BitAnd(instr, 0x7F)
  }

  /** Whether the loop goes on, returned, or raised. */
  datatype Status = Running | Exited | Faulted(fault: Fault)

  datatype Stepped = Stepped(state: MachineState, status: Status)

  /**
   * What the loop does with a handler's return value: "exit" moves pc on by 4
   * and leaves the loop; a jump target sets pc, even a target of 0; no target
   * moves pc on by 4; a fault leaves the loop with the state as it stood.
   */
  function Advance(e: Effect): Stepped
  {
    var u := e.state;
    match e.result
    case Err(f) => Stepped(u, Faulted(f))
    case Ok(Exit) => Stepped(u.(regs := WithPc(u.regs, u.regs.pc + 4)), Exited)
    case Ok(Jump(target)) => Stepped(u.(regs := WithPc(u.regs, target)), Running)
    case Ok(FallThrough) => Stepped(u.(regs := WithPc(u.regs, u.regs.pc + 4)), Running)
  }

  /** One round trip of Machine.run's loop: fetch, look up the opcode, call the handler, move pc. */
  function Step(s: MachineState): Stepped
  {
    var fetch := Read(s.mem, s.regs.pc, 4);
    if fetch.Err? then Stepped(s, Faulted(fetch.fault))
    else
      var t := s.(mem := fetch.value.mem);
      var opcode := OpcodeBits(fetch.value.value);
      var h := OpLookup(opcode);
      if h.None? then Stepped(t, Faulted(UnimplementedOpcode(opcode)))
      else Advance(Call(h.value, t))
  }

  /** A step keeps the state valid. */
  lemma StepKeepsValid(s: MachineState)
    requires Valid(s)
    ensures Valid(Step(s).state)
  {
    var fetch := Read(s.mem, s.regs.pc, 4);
    if fetch.Ok? {
      PeekKeepsValues(s.mem, s.regs.pc, 4);
      var t := s.(mem := fetch.value.mem);
      var h := OpLookup(OpcodeBits(fetch.value.value));
      if h.Some? {
        CallKeepsValid(h.value, t);
        AdvanceKeepsValid(Call(h.value, t));
      }
    }
  }

  lemma AdvanceKeepsValid(e: Effect)
    requires Valid(e.state)
    ensures Valid(Advance(e).state)
  {
    WithPcWellFormed(e.state.regs, e.state.regs.pc + 4);
    if e.result.Ok? && e.result.value.Jump? {
      WithPcWellFormed(e.state.regs, e.result.value.target);
    }
  }

  /** What `run` ends with: the state, the cycle count, and how the loop ended (Running: out of fuel). */
  datatype Finished = Finished(state: MachineState, cycles: nat, status: Status)

  /**
   * Machine.run's loop repeating `next` from state s, with `cycles` already
   * counted, for at most `fuel` round trips: a round trip that goes on counts
   * one cycle, one that stops the loop counts none.
   */
  function Loop(next: MachineState -> Stepped, fuel: nat, s: MachineState, cycles: nat): Finished
    decreases fuel
  {
    if fuel == 0 then Finished(s, cycles, Running)
    else
      var st := next(s);
      if st.status == Running then Loop(next, fuel - 1, st.state, cycles + 1)
      else Finished(st.state, cycles, st.status)
  }

  /** Machine.run: the loop over Step. */
  function RunFor(fuel: nat, s: MachineState, cycles: nat): Finished
  {
    Loop(Step, fuel, s, cycles)
  }

  /** A run keeps the state valid. */
  lemma {:induction false} RunKeepsValid(fuel: nat, s: MachineState, c: nat)
    requires Valid(s)
    ensures Valid(RunFor(fuel, s, c).state)
  {
    if fuel > 0 {
      StepKeepsValid(s);
      var st := Step(s);
      if st.status == Running {
        RunKeepsValid(fuel - 1, st.state, c + 1);
      }
    }
  }

  // ---------------------------------------------------------------------------
  // The loader and the reset vector
  // ---------------------------------------------------------------------------

  /** Machine.__init__'s `while b` loop after n bytes: `mem.poke(addr, b, 1)` for addr = 0 .. n-1. */
  function LoadImage(m: MemState, image: seq<Byte>, n: nat): (r: MemState)
    requires n <= |image| && m.allowUnaligned
    ensures r.allowUnaligned && r.input == m.input
  {
    if n == 0 then m
    else
      var prev := LoadImage(m, image, n - 1);
      Alignment(prev, n - 1, image[n - 1], 1);
      Write(prev, n - 1, image[n - 1], 1).value
  }

  /** Byte i of the image, and 0 past its end (the defaultdict's default). */
  function ImageByte(image: seq<Byte>, i: nat): Byte
  {
    if i < |image| then image[i] else 0
  }

  /** The little-endian word the image holds at address a. */
  function ImageWord(image: seq<Byte>, a: nat): int
  {
    ImageByte(image, a) + 0x100 * ImageByte(image, a + 1) + 0x1_0000 * ImageByte(image, a + 2) + 0x100_0000 * ImageByte(image, a + 3)
  }

  /** Machine.__init__: load the image, then read the reset vector. */
  function Boot(image: seq<Byte>, input: seq<nat>): MachineState
  {
    Reset(LoadImage(InitMem(input), image, |image|))
  }

  /** The end of Machine.__init__ on the loaded memory m: pc := peek(4, 4) and set(2, peek(0, 4)). */
  function Reset(m: MemState): MachineState
    requires m.allowUnaligned
  {
    Alignment(m, 4, 0, 4);
    var pc := Read(m, 4, 4).value;
    Alignment(pc.mem, 0, 0, 4);
    var sp := Read(pc.mem, 0, 4).value;
    MachineState(SetReg(WithPc(Init(), pc.value), SP, sp.value), sp.mem)
  }

  /** The loader puts byte i of the image at address i and touches no other address. */
  lemma {:induction false} LoadImageCells(m: MemState, image: seq<Byte>, n: nat, x: int)
    requires n <= |image| && |image| <= TwoTo32 && m.allowUnaligned
    ensures Cell(LoadImage(m, image, n).cells, x) == if 0 <= x < n then image[x] else Cell(m.cells, x)
    ensures x in LoadImage(m, image, n).cells <==> (0 <= x < n || x in m.cells)
  {
    if n > 0 {
      LoadImageCells(m, image, n - 1, x);
      var prev := LoadImage(m, image, n - 1);
      PokeByte(prev, n - 1, image[n - 1]);
    }
  }

  /** A one-byte poke below 2^32 stores the byte at that very address. */
  lemma PokeByte(m: MemState, a: nat, b: Byte)
    requires a < TwoTo32 && m.allowUnaligned
    ensures Write(m, a, b, 1).Ok? && Write(m, a, b, 1).value.cells == m.cells[a := b]
  {
    DivModUnique(a, TwoTo32, 0, a);
    assert Mask32(a) == a;
    Pow2Values();
    assert Shr(b, 0) == b by {
      ShrDiv(b, 0);
      assert Pow2(0) == 1;
    }
    assert LowByte(b) == b;
    assert WriteLE(m.cells, a, b, 1) == WriteLE(m.cells, a, b, 0)[a := LowByte(Shr(b, 0))];
  }

  /** Every stored cell after loading holds a byte. */
  lemma {:induction false} LoadImageBytes(m: MemState, image: seq<Byte>, n: nat)
    requires n <= |image| && m.allowUnaligned && BytesOnly(m.cells)
    ensures BytesOnly(LoadImage(m, image, n).cells)
  {
    if n > 0 {
      LoadImageBytes(m, image, n - 1);
      PokeKeepsBytes(LoadImage(m, image, n - 1), n - 1, image[n - 1], 1);
    }
  }

  /** After loading, address x reads as byte x of the image, or 0 past its end. */
  lemma LoadedByte(image: seq<Byte>, input: seq<nat>, x: nat)
    requires |image| <= TwoTo32
    ensures Cell(LoadImage(InitMem(input), image, |image|).cells, x) == ImageByte(image, x)
  {
    LoadImageCells(InitMem(input), image, |image|, x);
  }

  /** A 4-byte little-endian number, digit by digit. */
  lemma LEWord(cells: map<int, int>, a: int)
    ensures LEValue(cells, a, 4)
      == Cell(cells, a) + 0x100 * Cell(cells, a + 1) + 0x1_0000 * Cell(cells, a + 2) + 0x100_0000 * Cell(cells, a + 3)
  {
    Pow2Values();
    assert Pow2(0) == 1;
    assert LEValue(cells, a, 1) == Cell(cells, a);
    assert LEValue(cells, a, 2) == LEValue(cells, a, 1) + Cell(cells, a + 1) * 0x100;
    assert LEValue(cells, a, 3) == LEValue(cells, a, 2) + Cell(cells, a + 2) * 0x1_0000;
    assert LEValue(cells, a, 4) == LEValue(cells, a, 3) + Cell(cells, a + 3) * 0x100_0000;
  }

  /** After loading, the little-endian word at address a is the image's own word there. */
  lemma LoadedWord(image: seq<Byte>, input: seq<nat>, a: nat)
    requires |image| <= TwoTo32
    ensures LEValue(LoadImage(InitMem(input), image, |image|).cells, a, 4) == ImageWord(image, a)
  {
    LEWord(LoadImage(InitMem(input), image, |image|).cells, a);
    LoadedByte(image, input, a);
    LoadedByte(image, input, a + 1);
    LoadedByte(image, input, a + 2);
    LoadedByte(image, input, a + 3);
  }

  /** The register file after `regs.pc = pc` and `regs.set(2, sp)` on a fresh one. */
  lemma ResetRegisters(pc: int, sp: int)
    requires 0 <= pc < TwoTo32 && 0 <= sp < TwoTo32
    ensures var r := SetReg(WithPc(Init(), pc), SP, sp);
      && WellFormed(r) && r.pc == pc
      && GetReg(r, SP) == sp && r.maxSp == sp && r.minSp == Finite(sp)
      && (forall n: RegIndex :: n != SP ==> GetReg(r, n) == 0)
  {
    var r0 := WithPc(Init(), pc);
    DivModUnique(pc, TwoTo32, 0, pc);
    assert r0 == RegState(seq(32, _ => 0), pc, 0, Infinity);
    SetWellFormed(r0, SP, sp);
    forall n: RegIndex | n != SP
      ensures GetReg(SetReg(r0, SP, sp), n) == 0
    {
      SetThenGet(r0, SP, sp, n);
    }
    SetThenGet(r0, SP, sp, SP);
    DivModUnique(sp, TwoTo32, 0, sp);
  }

  /** The two reset-vector peeks: the word at 4, then the word at 0, neither changing a stored value. */
  lemma ResetPeeks(image: seq<Byte>, input: seq<nat>)
    requires |image| <= TwoTo32
    ensures var m := LoadImage(InitMem(input), image, |image|);
      && Read(m, 4, 4).Ok? && Read(m, 4, 4).value.value == ImageWord(image, 4)
      && var m' := Read(m, 4, 4).value.mem;
      && Read(m', 0, 4).Ok? && Read(m', 0, 4).value.value == ImageWord(image, 0)
      && var m'' := Read(m', 0, 4).value.mem;
      && BytesOnly(m''.cells) && m''.input == input && m''.output == m.output
  {
    var m := LoadImage(InitMem(input), image, |image|);
    LoadImageBytes(InitMem(input), image, |image|);
    LoadedWord(image, input, 4);
    LoadedWord(image, input, 0);
    DivModUnique(4, TwoTo32, 0, 4);
    DivModUnique(0, TwoTo32, 0, 0);
    ReadLEValue(m.cells, 4, 4);
    OrdinaryAccess(m, 4, 0, 4);
    var m' := Read(m, 4, 4).value.mem;
    PeekKeepsValues(m, 4, 4);
    LEValueCells(m.cells, m'.cells, 0, 4);
    ReadLEValue(m'.cells, 0, 4);
    OrdinaryAccess(m', 0, 0, 4);
    PeekKeepsValues(m', 0, 4);
  }

  /**
   * The reset vector: pc is the word at address 4 and x2 the word at address 0
   * (bytes past the image's end read as 0); that first write of x2 sets both
   * stack watermarks to it, and every other register is 0.
   */
  lemma ResetVector(image: seq<Byte>, input: seq<nat>)
    requires |image| <= PORT
    ensures var s, sp := Boot(image, input), ImageWord(image, 0);
      && Valid(s)
      && s.regs.pc == ImageWord(image, 4)
      && GetReg(s.regs, SP) == sp && s.regs.maxSp == sp && s.regs.minSp == Finite(sp)
      && (forall n: RegIndex :: n != SP ==> GetReg(s.regs, n) == 0)
      && s.mem.input == input && s.mem.output == []
  {
    ResetPeeks(image, input);
    ResetRegisters(ImageWord(image, 4), ImageWord(image, 0));
    LoaderOutput(image, input, |image|);
  }

  /** LEValue depends only on what the cells read as. */
  lemma {:induction false} LEValueCells(c: map<int, int>, d: map<int, int>, a: int, n: nat)
    requires forall x :: Cell(d, x) == Cell(c, x)
    ensures LEValue(d, a, n) == LEValue(c, a, n)
  {
    if n > 0 {
      LEValueCells(c, d, a, n - 1);
    }
  }

  /** The loader prints nothing unless the image reaches the port address. */
  lemma {:induction false} LoaderOutput(image: seq<Byte>, input: seq<nat>, n: nat)
    requires n <= |image| && n <= PORT
    ensures LoadImage(InitMem(input), image, n).output == []
  {
    if n > 0 {
      LoaderOutput(image, input, n - 1);
      DivModUnique(n - 1, TwoTo32, 0, n - 1);
    }
  }

  // ---------------------------------------------------------------------------
  // The run loop
  // ---------------------------------------------------------------------------

  /** A step whose fetch fails stops the loop with that fault and changes nothing. */
  lemma StepFetchFails(s: MachineState)
    requires Read(s.mem, s.regs.pc, 4).Err?
    ensures Step(s) == Stepped(s, Faulted(Read(s.mem, s.regs.pc, 4).fault))
  {
  }

  /**
   * A run whose first fetch fails ends at once with that fault: the state and
   * the cycle count are those it started with.
   */
  lemma RunFetchFails(fuel: nat, s: MachineState, c: nat)
    requires fuel > 0 && Read(s.mem, s.regs.pc, 4).Err?
    ensures RunFor(fuel, s, c) == Finished(s, c, Faulted(Read(s.mem, s.regs.pc, 4).fault))
  {
    StepFetchFails(s);
  }

  /**
   * A step after a successful fetch dispatches on the word's low 7 bits: an
   * opcode op_lookup does not hold stops the loop with that fault; any other
   * calls the handler filed under it and hands its return value to Advance.
   */
  lemma StepDispatch(s: MachineState)
    requires Read(s.mem, s.regs.pc, 4).Ok?
    ensures var fetch := Read(s.mem, s.regs.pc, 4).value;
      var opcode, t := fetch.value % 128, s.(mem := fetch.mem);
      && (opcode !in OPCODES ==> Step(s) == Stepped(t, Faulted(UnimplementedOpcode(opcode))))
      && (opcode in OPCODES ==> OpcodeOf(OpLookup(opcode).value) == opcode && Step(s) == Advance(Call(OpLookup(opcode).value, t)))
  {
  }

  /**
   * The pc update after a handler returns: "exit" and no target move pc on by
   * 4 (mod 2^32), a target t sets it to t mod 2^32 (so a target of 0 is a jump
   * to 0, not a fall-through); only "exit" and a fault stop the loop, and
   * nothing but pc changes.
   */
  lemma AdvanceMovesPc(e: Effect)
    ensures var st, u, next := Advance(e), e.state, (e.state.regs.pc + 4) % TwoTo32;
      && (e.result.Err? ==> st == Stepped(u, Faulted(e.result.fault)))
      && (e.result == Ok(Exit) ==> st == Stepped(u.(regs := u.regs.(pc := next)), Exited))
      && (e.result == Ok(FallThrough) ==> st == Stepped(u.(regs := u.regs.(pc := next)), Running))
      && (e.result.Ok? && e.result.value.Jump? ==>
           st == Stepped(u.(regs := u.regs.(pc := e.result.value.target % TwoTo32)), Running))
  {
  }

  /** Only ECALL stops the loop without a fault; every handler keeps pc, so the loop alone moves it. */
  lemma CallStops(h: Handler, t: MachineState)
    requires Valid(t)
    ensures var e := Call(h, t);
      && e.state.regs.pc == t.regs.pc
      && (Advance(e).status == Exited <==> h == ECall && Read(t.mem, t.regs.pc, 4).Ok?)
  {
    CallKeepsValid(h, t);
  }

  /**
   * `cycles` counts exactly the round trips that did not stop the loop: the
   * count is added to the one already there.
   */
  lemma {:induction false} RunShift(next: MachineState -> Stepped, fuel: nat, s: MachineState, c: nat)
    ensures Loop(next, fuel, s, c) == Loop(next, fuel, s, 0).(cycles := c + Loop(next, fuel, s, 0).cycles)
  {
    if fuel > 0 {
      var st := next(s);
      if st.status == Running {
        RunShift(next, fuel - 1, st.state, c + 1);
        RunShift(next, fuel - 1, st.state, 1);
      }
    }
  }

  /**
   * The count never exceeds the fuel, and falls short of it exactly when the
   * loop stopped: the stopping instruction is not counted.
   */
  lemma {:induction false} RunCycles(next: MachineState -> Stepped, fuel: nat, s: MachineState, c: nat)
    ensures c <= Loop(next, fuel, s, c).cycles <= c + fuel
    ensures Loop(next, fuel, s, c).status == Running <==> Loop(next, fuel, s, c).cycles == c + fuel
  {
    if fuel > 0 {
      var st := next(s);
      if st.status == Running {
        RunCycles(next, fuel - 1, st.state, c + 1);
      }
    }
  }

  /** A word fetched below the port from cells that are all present comes back as their little-endian value, and the fetch changes nothing. */
  lemma FetchStored(s: MachineState, a: nat)
    requires Valid(s) && s.mem.allowUnaligned && a + 4 <= PORT
    requires forall x :: a <= x < a + 4 ==> x in s.mem.cells
    ensures Read(s.mem, a, 4) == Ok(Peeked(LEValue(s.mem.cells, a, 4), s.mem))
  {
    DivModUnique(a, TwoTo32, 0, a);
    OrdinaryAccess(s.mem, a, 0, 4);
    TouchPresent(s.mem.cells, a, 4);
    ReadLEValue(s.mem.cells, a, 4);
  }

  /** A step whose fetch at pc gives `word` and changes nothing, and whose opcode is h's: h runs on `word`. */
  lemma StepRuns(s: MachineState, word: int, h: Handler)
    requires Read(s.mem, s.regs.pc, 4) == Ok(Peeked(word, s.mem)) && word % 128 == OpcodeOf(h)
    ensures Step(s) == Advance(Execute(h, word, s))
  {
    LookupInverse(h);
    StepDispatch(s);
  }

  /** An ArithImm operation whose value is v writes v to rd and falls through. */
  lemma ArithImmWrites(f: IFields, s: MachineState, v: int)
    requires ArithImmValue(f.funct3, GetSigned(s.regs, f.rs1), SextI(f.imm)) == Ok(v)
    ensures ArithImmEffect(f, s) == Effect(s.(regs := SetReg(s.regs, f.rd, v)), Ok(FallThrough))
  {
  }

  /** ADDI from x0 computes the immediate itself. */
  lemma AddiFromZero(funct3: Funct3, rs1: int, imm: int)
    requires funct3 == ADD && rs1 == 0
    ensures ArithImmValue(funct3, rs1, imm) == Ok(imm)
  {
  }

  /** x0 read as a signed number is 0. */
  lemma ZeroSigned(r: RegState, n: RegIndex)
    requires WellFormed(r) && GetReg(r, n) == 0
    ensures GetSigned(r, n) == 0
  {
    GetSignedRange(r, n);
    SignedZero(GetSigned(r, n));
  }

  lemma SignedZero(x: int)
    requires -0x8000_0000 <= x < 0x8000_0000 && x % TwoTo32 == 0
    ensures x == 0
  {
  }

  /** A loop whose first round trip goes on and whose second stops has counted one cycle. */
  lemma LoopTwice(next: MachineState -> Stepped, fuel: nat, s: MachineState)
    requires fuel >= 2 && next(s).status == Running && next(next(s).state).status == Exited
    ensures Loop(next, fuel, s, 0) == Finished(next(next(s).state).state, 1, Exited)
  {
  }

  /**
   * `ADDI rd, x0, imm` followed by `ECALL`: the run stops after two round
   * trips with rd holding the sign-extended immediate mod 2^32, every other
   * register and the memory as they were, pc past the ECALL, and one cycle
   * counted (the ECALL is not).
   */
  lemma AddiThenEcall(s: MachineState, addi: int, ecall: int, fuel: nat)
    requires Valid(s) && s.mem.allowUnaligned && fuel >= 2 && s.regs.pc + 8 <= PORT
    requires forall x :: s.regs.pc <= x < s.regs.pc + 8 ==> x in s.mem.cells
    requires LEValue(s.mem.cells, s.regs.pc, 4) == addi && LEValue(s.mem.cells, s.regs.pc + 4, 4) == ecall
    requires var f := ILayout(addi); f.op == OP_IMM && f.funct3 == ADD && f.rs1 == 0
    requires ecall % 128 == OP_SYSTEM
    ensures var r, f := RunFor(fuel, s, 0), ILayout(addi);
      && r.status == Exited && r.cycles == 1
      && r.state.mem == s.mem && r.state.regs.pc == s.regs.pc + 8
      && (f.rd != 0 ==> GetReg(r.state.regs, f.rd) == ImmediateValue(f.imm) % TwoTo32)
      && (forall n: RegIndex :: n != f.rd ==> GetReg(r.state.regs, n) == GetReg(s.regs, n))
  {
    var f := ILayout(addi);
    var regs1 := SetReg(s.regs, f.rd, SextI(f.imm));
    var s1 := MachineState(regs1.(pc := s.regs.pc + 4), s.mem);
    var s2 := MachineState(regs1.(pc := s.regs.pc + 8), s.mem);
    AddiState(s, f);
    AddiRound(s, addi);
    EcallRound(s1, ecall);
    LoopTwice(Step, fuel, s);
  }

  /** The first round trip over a stored `ADDI rd, x0, imm`. */
  lemma AddiRound(s: MachineState, addi: int)
    requires Valid(s) && s.mem.allowUnaligned && s.regs.pc + 8 <= PORT
    requires forall x :: s.regs.pc <= x < s.regs.pc + 4 ==> x in s.mem.cells
    requires LEValue(s.mem.cells, s.regs.pc, 4) == addi
    requires var f := ILayout(addi); f.op == OP_IMM && f.funct3 == ADD && f.rs1 == 0
    ensures var f := ILayout(addi);
      Step(s) == Stepped(MachineState(SetReg(s.regs, f.rd, SextI(f.imm)).(pc := s.regs.pc + 4), s.mem), Running)
  {
    var f := ILayout(addi);
    FetchStored(s, s.regs.pc);
    StepRuns(s, addi, ArithImm);
    AddiEffect(s, f);
    FallThroughAdvances(s.(regs := SetReg(s.regs, f.rd, SextI(f.imm))));
  }

  /** A round trip over a stored ECALL. */
  lemma EcallRound(s: MachineState, ecall: int)
    requires Valid(s) && s.mem.allowUnaligned && s.regs.pc + 4 <= PORT
    requires forall x :: s.regs.pc <= x < s.regs.pc + 4 ==> x in s.mem.cells
    requires LEValue(s.mem.cells, s.regs.pc, 4) == ecall && ecall % 128 == OP_SYSTEM
    ensures Step(s) == Stepped(s.(regs := s.regs.(pc := s.regs.pc + 4)), Exited)
  {
    FetchStored(s, s.regs.pc);
    StepRuns(s, ecall, ECall);
    ExitAdvances(s);
  }

  /** The state ADDI rd, x0, imm leaves, and the one after the ECALL that follows it. */
  lemma AddiState(s: MachineState, f: IFields)
    requires Valid(s) && s.regs.pc + 8 <= PORT && f.imm < 0x1000
    ensures var regs1 := SetReg(s.regs, f.rd, SextI(f.imm));
      && Valid(MachineState(regs1.(pc := s.regs.pc + 4), s.mem))
      && regs1.pc == s.regs.pc
      && (f.rd != 0 ==> GetReg(regs1, f.rd) == ImmediateValue(f.imm) % TwoTo32)
      && (forall n: RegIndex :: n != f.rd ==> GetReg(regs1, n) == GetReg(s.regs, n))
  {
    var regs1 := SetReg(s.regs, f.rd, SextI(f.imm));
    SetWellFormed(s.regs, f.rd, SextI(f.imm));
    forall n: RegIndex
      ensures GetReg(regs1, n) == if n == f.rd && f.rd != 0 then SextI(f.imm) % TwoTo32 else GetReg(s.regs, n)
    {
      SetThenGet(s.regs, f.rd, SextI(f.imm), n);
    }
    SextIValue(f.imm);
  }

  /** ADDI rd, x0, imm writes the sign-extended immediate to rd and falls through. */
  lemma AddiEffect(s: MachineState, f: IFields)
    requires Valid(s) && f.funct3 == ADD && f.rs1 == 0
    ensures ArithImmEffect(f, s) == Effect(s.(regs := SetReg(s.regs, f.rd, SextI(f.imm))), Ok(FallThrough))
  {
    ZeroSigned(s.regs, 0);
    AddiFromZero(f.funct3, GetSigned(s.regs, f.rs1), SextI(f.imm));
    ArithImmWrites(f, s, SextI(f.imm));
  }

  /** Falling through moves pc on by 4 and keeps the machine running. */
  lemma FallThroughAdvances(u: MachineState)
    requires 0 <= u.regs.pc && u.regs.pc + 4 < TwoTo32
    ensures Advance(Effect(u, Ok(FallThrough))) == Stepped(u.(regs := u.regs.(pc := u.regs.pc + 4)), Running)
  {
    DivModUnique(u.regs.pc + 4, TwoTo32, 0, u.regs.pc + 4);
  }

  /** The exit moves pc on by 4 and stops the machine. */
  lemma ExitAdvances(u: MachineState)
    requires 0 <= u.regs.pc && u.regs.pc + 4 < TwoTo32
    ensures Advance(Effect(u, Ok(Exit))) == Stepped(u.(regs := u.regs.(pc := u.regs.pc + 4)), Exited)
  {
    DivModUnique(u.regs.pc + 4, TwoTo32, 0, u.regs.pc + 4);
  }

  /**
   * `ADDI x1, x0, 5; ECALL` at address 8 of an image whose reset vector points
   * at it: booting and running stops with x1 = 5 and one cycle counted,
   * whatever the initial stack pointer and whatever follows the program.
   */
  lemma AddiFiveThenEcall(image: seq<Byte>, input: seq<nat>)
    requires 16 <= |image| <= PORT
    requires image[4..16] == [8, 0, 0, 0, 0x93, 0, 0x50, 0, 0x73, 0, 0, 0]
    ensures var r := RunFor(2, Boot(image, input), 0);
      r.status == Exited && r.cycles == 1 && GetReg(r.state.regs, 1) == 5
  {
    var s := Boot(image, input);
    BootProgram(image, input);
    AddiFiveFields();
    AddiThenEcall(s, 0x50_0093, 0x73, 2);
  }

  /** 0x00500093 is `ADDI x1, x0, 5`. */
  lemma AddiFiveFields()
    ensures ILayout(0x50_0093) == IFields(OP_IMM, 1, ADD, 0, 5) && ImmediateValue(5) == 5
  {
    var f := IFields(OP_IMM, 1, ADD, 0, 5);
    LayoutEncodeI(f);
    assert EncodeI(f) == 0x50_0093;
  }

  /** After booting the scenario image, pc is 8 and the two instruction words are stored at 8 and 12. */
  lemma BootProgram(image: seq<Byte>, input: seq<nat>)
    requires 16 <= |image| <= PORT
    requires image[4..16] == [8, 0, 0, 0, 0x93, 0, 0x50, 0, 0x73, 0, 0, 0]
    ensures var s := Boot(image, input);
      && Valid(s) && s.mem.allowUnaligned && s.regs.pc == 8
      && (forall x :: 8 <= x < 16 ==> x in s.mem.cells)
      && LEValue(s.mem.cells, 8, 4) == 0x50_0093 && LEValue(s.mem.cells, 12, 4) == 0x73
  {
    var s := Boot(image, input);
    ResetVector(image, input);
    ProgramWords(image);
    forall x | 8 <= x < 16
      ensures x in s.mem.cells
    {
      BootKeys(image, input, x);
    }
    BootCells(image, input);
  }

  /** The reset vector and the two instruction words of the scenario image. */
  lemma ProgramWords(image: seq<Byte>)
    requires 16 <= |image|
    requires image[4..16] == [8, 0, 0, 0, 0x93, 0, 0x50, 0, 0x73, 0, 0, 0]
    ensures ImageWord(image, 4) == 8 && ImageWord(image, 8) == 0x50_0093 && ImageWord(image, 12) == 0x73
  {
    assert image[4] == 8 && image[5] == 0 && image[6] == 0 && image[7] == 0;
    assert image[8] == 0x93 && image[9] == 0 && image[10] == 0x50 && image[11] == 0;
    assert image[12] == 0x73 && image[13] == 0 && image[14] == 0 && image[15] == 0;
  }

  /** Every address the loader wrote is still present after the reset-vector peeks. */
  lemma BootKeys(image: seq<Byte>, input: seq<nat>, x: int)
    requires |image| <= PORT && 0 <= x < |image|
    ensures x in Boot(image, input).mem.cells
  {
    LoadImageCells(InitMem(input), image, |image|, x);
    ResetPeeks(image, input);
    BootTouches(image, input);
  }

  /** The reset-vector peeks only add keys and keep what every cell reads as. */
  lemma BootTouches(image: seq<Byte>, input: seq<nat>)
    requires |image| <= PORT
    ensures var m := LoadImage(InitMem(input), image, |image|);
      && m.cells.Keys <= Boot(image, input).mem.cells.Keys
      && (forall x :: Cell(Boot(image, input).mem.cells, x) == Cell(m.cells, x))
  {
    var m := LoadImage(InitMem(input), image, |image|);
    ResetPeeks(image, input);
    DivModUnique(4, TwoTo32, 0, 4);
    DivModUnique(0, TwoTo32, 0, 0);
    OrdinaryAccess(m, 4, 0, 4);
    var m' := Read(m, 4, 4).value.mem;
    TouchCell(m.cells, 4, 4);
    TouchKeys(m.cells, 4, 4);
    OrdinaryAccess(m', 0, 0, 4);
    TouchCell(m'.cells, 0, 4);
    TouchKeys(m'.cells, 0, 4);
  }

  /** Reading never removes a key. */
  lemma {:induction false} TouchKeys(cells: map<int, int>, a: int, n: nat)
    ensures cells.Keys <= Touch(cells, a, n).Keys
  {
    if n > 0 {
      TouchKeys(cells, a, n - 1);
    }
  }

  /** After booting, the words of the image read back from the cells. */
  lemma BootCells(image: seq<Byte>, input: seq<nat>)
    requires |image| <= PORT
    ensures forall a: nat :: LEValue(Boot(image, input).mem.cells, a, 4) == ImageWord(image, a)
  {
    var m := LoadImage(InitMem(input), image, |image|);
    BootTouches(image, input);
    forall a: nat
      ensures LEValue(Boot(image, input).mem.cells, a, 4) == ImageWord(image, a)
    {
      LoadedWord(image, input, a);
      LEValueCells(m.cells, Boot(image, input).mem.cells, a, 4);
    }
  }

  // ---------------------------------------------------------------------------
  // The object
  // ---------------------------------------------------------------------------

  /** The Machine object: a cycle counter and the state's register file and memory. */
  class Machine {
    var cycles: nat
    const regs: RegisterFile
    const mem: Memory

    function State(): MachineState
      reads regs, mem
    {
      Snapshot(regs, mem)
    }

    ghost predicate Valid()
      reads regs, mem
    {
      Ops.Valid(State())
    }

    /** Machine(image): load the image byte by byte, then the reset vector. */
    constructor (image: seq<Byte>, input: seq<nat>)
      ensures State() == Boot(image, input) && cycles == 0 && Valid()
      ensures fresh(regs) && fresh(mem)
    {
      var m := new Memory(input);
      Load(m, image);
      var r := new RegisterFile();
      ReadResetVector(r, m);
      cycles := 0;
      regs := r;
      mem := m;
      BootValid(image, input);
    }

    /** The last two lines of Machine.__init__: pc from address 4, sp from address 0. */
    static method ReadResetVector(r: RegisterFile, m: Memory)
      requires r.State() == Init() && m.State().allowUnaligned
      modifies r, m
      ensures MachineState(r.State(), m.State()) == Reset(old(m.State()))
    {
      Alignment(m.State(), 4, 0, 4);
      var pc := m.Peek(4, 4);
      r.SetPc(pc.value);
      Alignment(m.State(), 0, 0, 4);
      var sp := m.Peek(0, 4);
      r.Set(SP, sp.value);
    }

    /** The `while b` loop of Machine.__init__: poke each byte of the image at its offset. */
    static method Load(m: Memory, image: seq<Byte>)
      requires m.State().allowUnaligned
      modifies m
      ensures m.State() == LoadImage(old(m.State()), image, |image|)
    {
      ghost var m0 := m.State();
      var addr := 0;
      while addr < |image|
        invariant 0 <= addr <= |image|
        invariant m.State() == LoadImage(m0, image, addr)
      {
        Alignment(m.State(), addr, image[addr], 1);
        var _ := m.Poke(addr, image[addr], 1);
        addr := addr + 1;
      }
    }

    /** Machine.run for at most `fuel` round trips: the state, the count and the way out are RunFor's. */
    method Run(fuel: nat) returns (status: Status)
      requires Valid()
      modifies this, regs, mem
      ensures Finished(State(), cycles, status) == RunFor(fuel, old(State()), old(cycles)) && Valid()
    {
      var k := fuel;
      ghost var goal := RunFor(fuel, State(), cycles);
      while k > 0
        invariant Valid()
        invariant goal == RunFor(k, State(), cycles)
        decreases k
      {
        k := k - 1;
        status := Iterate(goal, k);
        if status != Running {
          return;
        }
      }
      return Running;
    }

    /** One round trip of Machine.run's loop, with k more round trips after it in the run that ends in goal. */
    method Iterate(ghost goal: Finished, k: nat) returns (status: Status)
      requires Valid() && goal == RunFor(k + 1, State(), cycles)
      modifies this, regs, mem
      ensures Valid()
      ensures status == Running ==> goal == RunFor(k, State(), cycles)
      ensures status != Running ==> goal == Finished(State(), cycles, status)
    {
      ghost var s, c := State(), cycles;
      status := Round();
      RunRound(goal, k + 1, s, c, State(), status);
    }

    /** One pass of the body of Machine.run's loop: fetch, dispatch, call, move pc and count the cycle. */
    method Round() returns (status: Status)
      requires Valid()
      modifies this, regs, mem
      ensures Stepped(State(), status) == Step(old(State())) && Valid()
      ensures status == Running ==> cycles == old(cycles) + 1
      ensures status != Running ==> cycles == old(cycles)
    {
      ghost var s := State();
      StepKeepsValid(s);
      var instr := mem.Peek(regs.pc, 4);
      if instr.Err? {
        StepFetchFails(s);
        return Faulted(instr.fault);
      }
      StepDispatch(s);
      var opcode := OpcodeBits(instr.value);
      var h := OpLookup(opcode);
      if h.None? {
        return Faulted(UnimplementedOpcode(opcode));
      }
      ghost var e := Call(h.value, State());
      assert Step(s) == Advance(e);
      var r := CallHandler(h.value, regs, mem);
      status := Complete(e, r);
    }

    /** The end of a round: move pc as the handler's return value says and count the cycle unless the loop stops. */
    method Complete(ghost e: Effect, r: Result<Outcome>) returns (status: Status)
      requires Performed(r, e, State()) && Valid()
      modifies this, regs
      ensures Stepped(State(), status) == Advance(e) && Valid()
      ensures status == Running ==> cycles == old(cycles) + 1
      ensures status != Running ==> cycles == old(cycles)
    {
      AdvanceMovesPc(e);
      match r
      case Err(f) =>
        return Faulted(f);
      case Ok(Exit) =>
        regs.SetPc(regs.pc + 4);
        return Exited;
      case Ok(Jump(target)) =>
        regs.SetPc(target);
        cycles := cycles + 1;
        return Running;
      case Ok(FallThrough) =>
        regs.SetPc(regs.pc + 4);
        cycles := cycles + 1;
        return Running;
    }
  }

  /** One round of the loop: a run that has reached s with k rounds left goes on from s's step. */
  lemma RunRound(goal: Finished, k: nat, s: MachineState, c: nat, s': MachineState, status: Status)
    requires k > 0 && goal == RunFor(k, s, c) && Step(s) == Stepped(s', status)
    ensures status == Running ==> goal == RunFor(k - 1, s', c + 1)
    ensures status != Running ==> goal == Finished(s', c, status)
  {
    LoopUnfolds(Step, k, s, c, Stepped(s', status));
  }

  /** One round of the loop, unfolded, for a step whose outcome is st. */
  lemma LoopUnfolds(next: MachineState -> Stepped, fuel: nat, s: MachineState, cycles: nat, st: Stepped)
    requires fuel > 0 && next(s) == st
    ensures st.status == Running ==> Loop(next, fuel, s, cycles) == Loop(next, fuel - 1, st.state, cycles + 1)
    ensures st.status != Running ==> Loop(next, fuel, s, cycles) == Finished(st.state, cycles, st.status)
  {
  }

  /** The booted state is valid. */
  lemma BootValid(image: seq<Byte>, input: seq<nat>)
    ensures Ops.Valid(Boot(image, input))
  {
    var m := LoadImage(InitMem(input), image, |image|);
    LoadImageBytes(InitMem(input), image, |image|);
    Alignment(m, 4, 0, 4);
    PeekKeepsValues(m, 4, 4);
    var m' := Read(m, 4, 4).value.mem;
    Alignment(m', 0, 0, 4);
    PeekKeepsValues(m', 0, 4);
    assert WellFormed(WithPc(Init(), Read(m, 4, 4).value.value));
    SetWellFormed(WithPc(Init(), Read(m, 4, 4).value.value), SP, Read(m', 0, 4).value.value);
  }
}
