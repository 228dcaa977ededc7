# riscv-vm in Dafny

This project models an RV32I emulator written in Python: its bit-field helpers, the
six instruction formats, the eleven opcode handlers and the opcode table, the register
file, the sparse little-endian memory with its one console port, and the machine that
loads an image, takes pc and sp from the reset vector and runs the fetch, dispatch and
pc-update loop. RV32I itself is defined in chapter 2 of the RISC-V Unprivileged ISA
Specification (version 20191213).

The model has two layers.

- A value layer of datatypes and functions:
  - `RegState` is the 32 registers, pc and the two stack-pointer watermarks.
  - `MemState` is the sparse byte map, the `allow_unaligned` flag, the console input
    still to be read and the console output so far.
  - `MachineState` pairs the two.
  - Each handler is an `Effect` function, giving the new state and a `Result<Outcome>`.
    An `Outcome` is a fall-through (`None`), a jump target or a halt (`"exit"`).
    Every Python `assert`, `raise` and missing dictionary key becomes an `Err` with a `Fault`.
  - `Step` is one round trip of the run loop, `RunFor` is the loop with a fuel bound
    and `Boot` is the loader followed by the reset vector.
- An object layer of classes whose methods change state in place:
  - `RegFile.RegisterFile` and `Mem.Memory`, with `Peek` and `Poke` written as the
    byte loops of the source;
  - the handler methods of module `Ops`, which call `Set`, `Get`, `Peek` and `Poke`
    on those objects in the order the source does;
  - `Emu.Machine`, whose constructor runs the loader loop and whose `Run` keeps
    `cycles`.

  Each method's postcondition ties its return value and the new object state to the
  value layer. The properties are proved as lemmas about the value layer.

Modules:

- `Bits` (util.py)
  - Python's `&`, `|`, `^`, `<<` and `>>` on unbounded two's-complement integers.
  - `generate_mask` as the closed form 2^(msb+1) − 2^lsb, proved equal to the digit
    string `"1"*bitlen + "0"*lsb` read in base 2.
  - `extract_bitfield` and `sign_extend`.
- `Decode` (the format classes of ops.py): the six decoders, their `sign_extend`
  helpers, and reference encoders that prove each decoder is a bijection on 32-bit words.
- `Alu` (ops.py): the `branchfuncs` and `arithfuncts` tables, each with a reference
  definition on unsigned words.
- `RegFile` (regfile.py), `Mem` (memory.py), `Ops` (the handlers, `OpCode.call` and
  `op_lookup`) and `Emu` (machine.py).
- `Results`: `Result`, `Option` and the `Fault` values.

Where the behaviour differs from the RV32I rule, the model follows the code.

- Store checks funct3 against Load's valid set. So funct3 4 and 5 store one and two
  bytes, where RV32I has only 0, 1 and 2.
- JALR writes rd before it reads rs1, and it does not clear bit 0 of the target.
- An ArithReg ADD with any funct7 other than 0b0100000 adds.
- The stack-pointer watermarks record the value before masking.
- A multi-byte access touches `addr+i` without wrapping.
- A store to the port address also writes the storage cells.
- The halting ECALL is not counted in `cycles`. Booting the program `ADDI x1, x0, 5;
  ECALL` therefore ends with one cycle counted, not the two that a count of every
  executed instruction would give.
- `OpCode.call` fetches the instruction word a second time.
  - Both fetches are modelled.
  - At the port address each fetch consumes a console character.

## Model

| member | source | states |
|---|---|---|
| Bits.GenerateMask | util.py:3-7 | `generate_mask`; no contract of its own: GenerateMaskDigits, GenerateMaskValue and GenerateMaskBits state its value, its bits and its agreement with the digit string |
| Bits.GenerateMaskDigits | util.py:3-7 | the number the mask's digit string denotes ("1"·(msb−lsb+1) then "0"·lsb, read in base 2) is the mask |
| Bits.GenerateMaskValue | util.py:4-7 | the mask equals (2^(msb−lsb+1) − 1)·2^lsb |
| Bits.GenerateMaskBits | util.py:4-7 | bit i of the mask is 1 exactly when lsb ≤ i ≤ msb |
| Bits.ParseOnes | util.py:6-7 | a string of n ones reads as 2^n − 1 in base 2 |
| Bits.ParseTrailingZeros | util.py:6-7 | appending k zeros to a binary string multiplies its value by 2^k |
| Bits.ExtractBitfield | util.py:9-12 | `extract_bitfield`; no contract of its own: ExtractBitfieldValue gives its value and range, ExtractConcat joins two adjacent fields |
| Bits.ExtractBitfieldValue | util.py:9-12 | the field equals (v / 2^lsb) mod 2^(msb−lsb+1), so it lies in [0, 2^(msb−lsb+1)) |
| Bits.ExtractConcat | util.py:9-12 | two adjacent fields, the upper shifted over the lower and or-ed with it, give the field of the combined range |
| Bits.SignExtend | util.py:15-20 | `sign_extend`; no contract of its own: SignExtendValue, SignExtendRange, SignExtendPattern, SignExtendInverse and SignExtend31 state its value, its range and that it inverts the two's-complement pattern |
| Bits.SignExtendValue | util.py:15-20 | with bit b of v clear the value is returned unchanged; with it set the result is (v mod 2^b) − 2^b |
| Bits.SignExtendRange | util.py:15-20 | for 0 ≤ v < 2^(b+1) the result lies in [−2^b, 2^b) and is congruent to v modulo 2^(b+1) |
| Bits.SignExtendPattern | util.py:15-20 | the two's-complement round trip for a (b+1)-bit pattern: range [−2^b, 2^b) and congruence to v modulo 2^(b+1) |
| Bits.SignExtendInverse | util.py:15-20 | sign-extending the (b+1)-bit pattern of any x in [−2^b, 2^b) gives x back |
| Bits.SignExtend31 | util.py:15-20 | sign extension from bit 31 of a 32-bit word is the usual to-signed conversion |
| Bits.SignedMasksBack | util.py:15-20 | sign extension from bit 31 of a 32-bit word lies in the signed range and masks back to the word |
| Bits.Shl | util.py:16 | Python's `<<`; no contract of its own: ShlMul states its value |
| Bits.Shr | util.py:11 | Python's `>>`; no contract of its own: ShrDiv states its value |
| Bits.BitAnd | util.py:10 | Python's `&` on unbounded two's-complement integers; no contract of its own: AndLowMask, AndShiftedMask and AndLowBits state what it keeps |
| Bits.BitOr | ops.py:315 | Python's `\|`; no contract of its own: OrLowBits states that its low bits depend only on the operands' low bits |
| Bits.BitXor | ops.py:302 | Python's `^`; no contract of its own: XorLowBits states that its low bits depend only on the operands' low bits |
| Bits.ShlMul | util.py:16 | `x << k` equals x·2^k |
| Bits.ShrDiv | util.py:11 | `x >> k` equals x / 2^k, rounding toward minus infinity |
| Bits.AndLowMask | util.py:10 | and-ing with 2^w − 1 keeps v mod 2^w |
| Bits.AndShiftedMask | util.py:10 | and-ing with a run of w ones starting at bit k keeps bits k..k+w−1 in place |
| Bits.Mask32 | regfile.py:14 | `v & 0xFFFFFFFF` is v mod 2^32 |
| Bits.LowByte | memory.py:68 | `v & 0xFF` is v mod 256 |
| Bits.ShiftAmount | ops.py:252 | `v & 0b11111` is v mod 32 |
| Bits.AndLowBits | ops.py:316 | the low k bits of `a & b` depend only on the low k bits of a and b |
| Bits.OrLowBits | ops.py:315 | the low k bits of `a \| b` depend only on the low k bits of a and b |
| Bits.XorLowBits | ops.py:302 | the low k bits of `a ^ b` depend only on the low k bits of a and b |
| Decode.DecodeR | ops.py:31-39 | op is instr mod 128; the register fields are below 32 and funct3 and funct7 are in range by their types |
| Decode.DecodeI | ops.py:45-52 | op is instr mod 128 and the immediate is below 2^12 |
| Decode.DecodeS | ops.py:62-72 | op is instr mod 128 and the assembled immediate is below 2^12 |
| Decode.DecodeB | ops.py:82-94 | op is instr mod 128 and the assembled immediate is even and below 2^13 |
| Decode.DecodeU | ops.py:104-109 | op is instr mod 128; the immediate has its low 12 bits clear and is below 2^32 |
| Decode.DecodeJ | ops.py:120-131 | op is instr mod 128 and the assembled immediate is even and below 2^21 |
| Decode.AssembleS | ops.py:67-70 | or-ing imm[11:5] shifted by 5 with imm[4:0] gives their sum |
| Decode.AssembleB | ops.py:87-92 | the four or-ed B pieces give their sum, an even number below 2^13 |
| Decode.AssembleJ | ops.py:125-129 | the four or-ed J pieces give their sum, an even number below 2^21 |
| Decode.DecodeRValue | ops.py:31-39 | each R field is the arithmetic slice of the word at its bit position |
| Decode.DecodeIValue | ops.py:45-52 | each I field is the arithmetic slice of the word at its bit position |
| Decode.DecodeSValue | ops.py:62-72 | each S field, the split immediate included, is the arithmetic slice of the word |
| Decode.DecodeBValue | ops.py:82-94 | each B field, the scattered immediate included, is the arithmetic slice of the word |
| Decode.DecodeUValue | ops.py:104-109 | each U field is the arithmetic slice of the word |
| Decode.DecodeJValue | ops.py:120-131 | each J field, the scattered immediate included, is the arithmetic slice of the word |
| Decode.DecodeUUpper | ops.py:104-109 | for a 32-bit word the U immediate is instr − (instr mod 4096) |
| Decode.SextI | ops.py:55-56 | a 12-bit immediate becomes a value in [−2^11, 2^11) congruent to it modulo 2^12 |
| Decode.SextS | ops.py:75-76 | the S immediate is sign-extended as the I immediate is |
| Decode.SextB | ops.py:97-98 | a 13-bit immediate becomes a value in [−2^12, 2^12) congruent to it modulo 2^13 |
| Decode.SextU | ops.py:112-113 | a 32-bit immediate becomes a value in [−2^31, 2^31) congruent to it modulo 2^32 |
| Decode.SextJ | ops.py:134-135 | a 21-bit immediate becomes a value in [−2^20, 2^20) congruent to it modulo 2^21 |
| Decode.LayoutEncodeR | ops.py:31-39 | the R field layout reads back every field of an encoded word |
| Decode.LayoutEncodeI | ops.py:45-52 | the I field layout reads back every field of an encoded word |
| Decode.LayoutEncodeS | ops.py:62-72 | the S field layout reads back every field of an encoded word |
| Decode.LayoutEncodeB | ops.py:82-94 | the B field layout reads back every field, the even 13-bit immediate included |
| Decode.LayoutEncodeU | ops.py:104-109 | the U field layout reads back every field of an encoded word |
| Decode.LayoutEncodeJ | ops.py:120-131 | the J field layout reads back every field, the even 21-bit immediate included |
| Decode.EncodeLayoutR | ops.py:31-39 | a 32-bit word is rebuilt from its R fields |
| Decode.EncodeLayoutI | ops.py:45-52 | a 32-bit word is rebuilt from its I fields |
| Decode.EncodeLayoutS | ops.py:62-72 | a 32-bit word is rebuilt from its S fields |
| Decode.EncodeLayoutB | ops.py:82-94 | a 32-bit word is rebuilt from its B fields |
| Decode.EncodeLayoutU | ops.py:104-109 | a 32-bit word is rebuilt from its U fields |
| Decode.EncodeLayoutJ | ops.py:120-131 | a 32-bit word is rebuilt from its J fields |
| Decode.DecodeEncodeR | ops.py:31-39 | decoding an encoded R instruction gives back its fields |
| Decode.EncodeDecodeR | ops.py:31-39 | encoding the R decode of a 32-bit word gives back the word |
| Decode.DecodeEncodeI | ops.py:45-52 | decoding an encoded I instruction gives back its fields |
| Decode.EncodeDecodeI | ops.py:45-52 | encoding the I decode of a 32-bit word gives back the word |
| Decode.DecodeEncodeS | ops.py:62-72 | decoding an encoded S instruction gives back its fields |
| Decode.EncodeDecodeS | ops.py:62-72 | encoding the S decode of a 32-bit word gives back the word |
| Decode.DecodeEncodeB | ops.py:82-94 | decoding an encoded B instruction gives back its fields |
| Decode.EncodeDecodeB | ops.py:82-94 | encoding the B decode of a 32-bit word gives back the word |
| Decode.DecodeEncodeU | ops.py:104-109 | decoding an encoded U instruction gives back its fields |
| Decode.EncodeDecodeU | ops.py:104-109 | encoding the U decode of a 32-bit word gives back the word |
| Decode.DecodeEncodeJ | ops.py:120-131 | decoding an encoded J instruction gives back its fields |
| Decode.EncodeDecodeJ | ops.py:120-131 | encoding the J decode of a 32-bit word gives back the word |
| Alu.BranchTaken | ops.py:174-180 | funct3 2, 3 or anything outside the table is an InvalidFunct3 fault, and the six table entries are not |
| Alu.BranchMatchesReference | ops.py:174-191 | on the signed register values each comparison agrees with the RV32I rule on the unsigned words: equal, not equal, signed less, signed not less, unsigned less, unsigned not less |
| Alu.BranchExamples | ops.py:174-180 | with 5 and 5 BEQ is taken and BNE is not; with 0xFFFFFFFF and 1 BLT is taken and BLTU is not; funct3 2 and 3 fail |
| Alu.ArithImmValue | ops.py:242-268 | only SLLI and SRLI/SRAI can fail, and their failure is InvalidFunct7 |
| Alu.ArithImmMatchesReference | ops.py:242-278 | on 32-bit words the immediate operations fail exactly as the reference does and otherwise agree with it modulo 2^32: add, the signed and unsigned set-less-than, xor, or, and, the left shift and both right shifts |
| Alu.ImmediateShifts | ops.py:250-268 | SLLI shifts left when imm bits 11..5 are 0 and fails otherwise; SRI shifts logically for 0, arithmetically for 0b0100000 and fails otherwise |
| Alu.ShiftImmediateFields | ops.py:250-268 | the sign-extended immediate still carries imm bits 11..5 and the shift amount of the raw immediate |
| Alu.ArithImmExamples | ops.py:243-268 | the reference rule gives 0xFFFFFFFF for ADDI with −1 on 0, 0x40000000 for SRLI by 1 of 0x80000000, 0xC0000000 for SRAI by 1 (immediate 0x401), and no result for SLLI with immediate 0x401; Ops.AddiMinusOne and Ops.ShiftImmExamples carry these to the handler |
| Alu.ArithRegValue | ops.py:293-311 | the only failure is SR with funct7 neither 0 nor 0b0100000, an InvalidFunct7 fault; ADD/SUB never fails |
| Alu.ArithRegMatchesReference | ops.py:293-325 | on 32-bit words the register operations fail exactly as the reference does and otherwise agree with it modulo 2^32: SUB for 0b0100000 and ADD for any other funct7, the signed SLT and unsigned SLTU, and the shifts by the low 5 bits of rs2 |
| RegFile.Init | regfile.py:6-10 | the new register file is well formed: 32 zero registers, pc 0, max_sp 0, min_sp infinite |
| RegFile.SetReg | regfile.py:12-18 | `set`; no contract of its own: SetWellFormed, SetThenGet and Watermarks state what it writes, what it keeps and how it moves the watermarks |
| RegFile.GetReg | regfile.py:22-25 | `get`; no contract of its own: SetThenGet states what it reads after a write |
| RegFile.GetSigned | regfile.py:27-30 | `get_signed`; no contract of its own: GetSignedRange states its range and its congruence to the unsigned read |
| RegFile.WithPc | regfile.py:36-38 | the pc setter; no contract of its own: PcMasked and WithPcWellFormed state what it stores and that it keeps the file well formed |
| RegFile.SetWellFormed | regfile.py:12-18 | a write keeps every register in [0, 2^32), x0 at 0 and pc in range |
| RegFile.SetThenGet | regfile.py:12-25 | after `set(n, v)` register n reads v mod 2^32 when n ≠ 0, every other register is unchanged, x0 still reads 0 and pc is kept |
| RegFile.GetSignedRange | regfile.py:27-30 | the signed read lies in [−2^31, 2^31) and is congruent to the unsigned read modulo 2^32 |
| RegFile.Watermarks | regfile.py:15-18 | a write of v to x2 makes max_sp the larger of its old value and the unmasked v and min_sp the smaller (the first such write sets min_sp to v); max_sp never falls, min_sp never rises, and a write to any other register leaves both unchanged |
| RegFile.PcMasked | regfile.py:36-38 | the pc setter stores the value mod 2^32 and leaves the registers alone |
| RegFile.WithPcWellFormed | regfile.py:36-38 | setting pc keeps the register file well formed |
| RegFile.RegisterFile.constructor | regfile.py:6-10 | the new object holds the initial register file |
| RegFile.RegisterFile.Set | regfile.py:12-18 | the object's new state is the value-level write, and stays well formed |
| RegFile.RegisterFile.Get | regfile.py:22-25 | returns the stored register, a value in [0, 2^32) that is 0 for x0 |
| RegFile.RegisterFile.GetSignedValue | regfile.py:27-30 | returns the register sign-extended from bit 31, in the signed range and congruent to the stored value |
| RegFile.RegisterFile.SetPc | regfile.py:36-38 | the object's pc becomes the value mod 2^32 and nothing else changes |
| Mem.ReadLEValue | memory.py:46-48 | the or-shift loop over n bytes computes the little-endian sum of the cells, a value below 2^(8n) |
| Mem.WriteLECell | memory.py:66-68 | the write loop puts byte i of v in cell a+i and leaves every other cell alone |
| Mem.WriteLEBytes | memory.py:66-68 | the write loop keeps every stored cell a byte |
| Mem.TouchCell | memory.py:46-48 | reading through the default dictionary inserts zero cells but changes no cell's value |
| Mem.TouchPresent | memory.py:46-48 | reading cells that are all present leaves the dictionary as it was |
| Mem.LEDigits | memory.py:46-48 | cells holding the little-endian bytes of v read back as v mod 2^(8n) |
| Mem.Read | memory.py:31-53 | `peek`; no contract of its own: PeekAfterPoke, PeekKeepsValues, UnwrittenReadsZero, AddressMasking, OrdinaryAccess, Alignment and Port state what it returns and what it keeps |
| Mem.Write | memory.py:56-73 | `poke`; no contract of its own: PeekAfterPoke, PokeFraming, PokeKeepsBytes, AddressMasking, OrdinaryAccess, Alignment and Port state what it writes and what it leaves alone |
| Mem.PeekAfterPoke | memory.py:31-73 | away from the port, a poke of v with width w followed by a peek of w bytes at the same address gives v mod 2^(8w) |
| Mem.PokeFraming | memory.py:56-68 | a poke puts byte i of v in cell (addr mod 2^32)+i, without wrapping, and leaves every cell outside that range unchanged |
| Mem.PokeKeepsBytes | memory.py:56-68 | a poke keeps every stored cell a byte |
| Mem.PeekKeepsValues | memory.py:31-53 | a peek changes no stored value, no output and not the alignment flag |
| Mem.UnwrittenReadsZero | memory.py:22-48 | away from the port, bytes never written read as 0 |
| Mem.AddressMasking | memory.py:31-57 | peek and poke at addr behave as at addr mod 2^32 |
| Mem.OrdinaryAccess | memory.py:31-73 | with unaligned access allowed and away from the port, peek is the little-endian read and poke the little-endian write |
| Mem.Alignment | memory.py:23-29 | with unaligned access forbidden, a misaligned peek or poke fails; with the default flag no access fails on alignment |
| Mem.Port | memory.py:36-68 | at the port, peek ignores storage and width and returns the next input character or fails when there is none; poke appends `val & 0xFF` to the output and also writes the storage cells |
| Mem.Memory.constructor | memory.py:21-24 | the new memory is empty, allows unaligned access and holds the given console input |
| Mem.Memory.CheckAlignment | memory.py:26-29 | fails exactly when unaligned access is forbidden and addr is not a multiple of the width |
| Mem.Memory.Peek | memory.py:31-53 | the returned value or fault and the new memory are those of the value-level read |
| Mem.Memory.Poke | memory.py:56-73 | the fault, if any, and the new memory are those of the value-level write |
| Ops.OpLookup | ops.py:339-350 | a handler is found exactly for the eleven opcodes of the table, and its opcode is the one looked up |
| Ops.LookupInverse | ops.py:339-350 | every handler is found at its own opcode |
| Ops.AccessWidth | ops.py:210 | the access width is 2^(funct3 mod 4) bytes |
| Ops.UnsignedLoad | ops.py:211-216 | a load is unsigned exactly when bit 2 of funct3 is set |
| Ops.ExecuteDecodes | ops.py:21-25 | running a handler on its fields read through the layouts is the same as running it on its class's decode |
| Ops.LuiEffect | ops.py:139-142 | LUI's `execute`; no contract of its own: LuiWrites and ExecuteFramed state its effect |
| Ops.AuipcEffect | ops.py:145-148 | AUIPC's `execute`; no contract of its own: AuipcWrites and ExecuteFramed state its effect |
| Ops.JalEffect | ops.py:150-156 | JAL's `execute`; no contract of its own: JalJumps and ExecuteFramed state its effect |
| Ops.JalrEffect | ops.py:158-164 | JALR's `execute`; no contract of its own: JalrJumps and ExecuteFramed state its effect |
| Ops.BranchEffect | ops.py:166-191 | Branch's `execute`; no contract of its own: BranchDecides, BranchOutcomes and ExecuteFramed state its effect |
| Ops.LoadEffect | ops.py:194-219 | Load's `execute`; no contract of its own: LoadReads, LoadValue, LoadWidth, LoadKeepsValid and StoreThenLoadWord state its effect |
| Ops.StoreEffect | ops.py:221-230 | Store's `execute`; no contract of its own: StoreWrites, StoreKeepsValid and StoreThenLoadWord state its effect |
| Ops.ArithImmEffect | ops.py:232-278 | ArithImm's `execute`; no contract of its own: ArithImmComputes, AddiMinusOne, ShiftImmExamples and ExecuteFramed state its effect |
| Ops.ArithRegEffect | ops.py:281-325 | ArithReg's `execute`; no contract of its own: ArithRegComputes and ExecuteFramed state its effect |
| Ops.Execute | ops.py:139-337 | every handler's `execute` on fields read through the layouts; no contract of its own: ExecuteDecodes ties it to ExecuteDecoded and ExecuteFramed states what every handler keeps |
| Ops.ExecuteDecoded | ops.py:21-25 | `execute(decode(instr))` with each class's own decoder; no contract of its own: ExecuteDecodes ties it to Execute |
| Ops.Call | ops.py:21-25 | `OpCode.call`; no contract of its own: CallKeepsValid and Emu.CallStops state its fault, its frame and when it exits, CallHandler ties the handler methods to it |
| Ops.LuiWrites | ops.py:139-142 | LUI writes imm to rd, keeps memory and the watermarks unless rd is x2, and falls through |
| Ops.AuipcWrites | ops.py:145-148 | AUIPC writes imm + pc to rd, modulo 2^32, keeps memory and the watermarks unless rd is x2, and falls through |
| Ops.JalJumps | ops.py:150-156 | JAL writes pc+4 to rd, keeping the watermarks unless rd is x2, and jumps to pc plus the sign-extended even offset in [−2^20, 2^20) |
| Ops.SextJEven | ops.py:134-135 | the sign-extended J offset is even and in [−2^20, 2^20) |
| Ops.JalrJumps | ops.py:158-164 | JALR writes pc+4 to rd first, keeping the watermarks unless rd is x2, so when rd = rs1 ≠ 0 the target is sext(imm) + (pc+4) mod 2^32; otherwise sext(imm) + rs1; bit 0 is kept |
| Ops.BranchDecides | ops.py:166-191 | a branch changes no state; funct3 2 or 3 fails; otherwise it jumps to pc + sext(imm) exactly when the reference comparison holds and falls through when it does not |
| Ops.BranchOutcomes | ops.py:174-191 | with 5 and 5 BEQ jumps and BNE falls through; with 0xFFFFFFFF and 1 BLT jumps and BLTU falls through |
| Ops.LoadReads | ops.py:194-219 | funct3 outside {0,1,2,4,5} fails with nothing changed; a failing peek fails the load; otherwise rd gets the peeked value, sign-extended from bit 8·width−1 when funct3 bit 2 is clear, and the watermarks are kept unless rd is x2 |
| Ops.LoadValue | ops.py:194-219 | away from the port, rd gets the little-endian value at rs1 + sext(imm), zero-extended or two's-complement by funct3 |
| Ops.LoadedValue | ops.py:211-216 | the loaded value is the raw bytes for LBU/LHU and their two's-complement reading otherwise |
| Ops.SignExtendBytes | ops.py:215-216 | sign extension from bit 8w−1 of a w-byte value is its two's-complement reading |
| Ops.LoadWidth | ops.py:202-210 | every valid load is 1, 2 or 4 bytes wide |
| Ops.LoadKeepsValid | ops.py:194-219 | a load keeps the machine state valid |
| Ops.StoreWrites | ops.py:221-230 | funct3 outside {0,1,2,4,5} fails with nothing changed; 4 and 5 store 1 and 2 bytes; a successful store pokes rs2 at rs1 + sext(imm) with that width and falls through |
| Ops.StoreThenLoadWord | ops.py:194-230 | away from the port, SW followed by LW at the same base and offset reads back the stored register into rd, 0 for x0 |
| Ops.StoredWordReadsBack | ops.py:194-219 | LW of an address whose peek gives a 32-bit word writes that word to rd |
| Ops.StoreKeepsValid | ops.py:221-230 | a store keeps the machine state valid |
| Ops.ArithImmComputes | ops.py:232-278 | the immediate instruction fails exactly as the reference does, with nothing changed, and otherwise writes the reference result to rd, keeps memory and the watermarks unless rd is x2, and falls through |
| Ops.AddiMinusOne | ops.py:243-278 | ADDI x1, x0, −1 sets x1 to 0xFFFFFFFF |
| Ops.ShiftImmExamples | ops.py:250-278 | with 0x80000000 in rs1, SRLI by 1 writes 0x40000000 to rd, SRAI by 1 (immediate 0x401) writes 0xC0000000, and SLLI with immediate 0x401 fails with InvalidFunct7 and changes nothing |
| Ops.ArithRegComputes | ops.py:281-325 | the register instruction fails exactly as the reference does, with nothing changed, and otherwise writes the reference result to rd, keeps memory and the watermarks unless rd is x2, and falls through |
| Ops.ExecuteFramed | ops.py:139-337 | every handler keeps the state valid and pc alone; a failing handler changes nothing; FENCE changes nothing and falls through; only ECALL exits |
| Ops.CallKeepsValid | ops.py:21-25 | `call` fails with peek's fault when the fetch fails, keeps the state valid and pc alone, and exits exactly for ECALL |
| Ops.ExecuteLui | ops.py:139-142 | the LUI method's register write and return value are those of its effect function |
| Ops.ExecuteAuipc | ops.py:145-148 | the AUIPC method's register write and return value are those of its effect function |
| Ops.ExecuteJal | ops.py:150-156 | the JAL method's register write and jump target are those of its effect function |
| Ops.ExecuteJalr | ops.py:158-164 | the JALR method writes rd and then reads rs1, and ends as its effect function says |
| Ops.ExecuteBranch | ops.py:183-191 | the branch method's outcome or fault is that of its effect function, with no state changed |
| Ops.ExecuteLoad | ops.py:194-219 | the load method's peek, register write and result are those of its effect function |
| Ops.LoadPerformed | ops.py:208-219 | a peek that returned r leads to the load effect function's result, register write and memory |
| Ops.ExecuteStore | ops.py:221-230 | the store method's poke and result are those of its effect function |
| Ops.StorePerformed | ops.py:221-230 | a poke that returned leads to the store effect function's result and memory |
| Ops.ExecuteArithImm | ops.py:274-278 | the immediate method's register write and result are those of its effect function |
| Ops.ExecuteArithReg | ops.py:321-325 | the register method's register write and result are those of its effect function |
| Ops.Dispatch | ops.py:21-25 | running the handler class on a word decodes it with the class's decoder and ends as the handler's effect function says |
| Ops.DispatchControl | ops.py:139-191 | the same, for LUI, AUIPC, JAL, JALR and the branches |
| Ops.DispatchData | ops.py:194-337 | the same, for loads, stores, the arithmetic handlers, FENCE and ECALL |
| Ops.CallHandler | ops.py:21-25 | `call` fetches the word at pc and runs the handler on it, ending as the value-level `Call` says |
| Emu.OpcodeBits | machine.py:40 | `instr & 0b1111111` is instr mod 128 |
| Emu.Advance | machine.py:42-48 | the pc update after a handler; no contract of its own: AdvanceMovesPc and AdvanceKeepsValid state its outcome |
| Emu.Step | machine.py:37-48 | one round trip of the run loop; no contract of its own: StepDispatch, StepRuns and StepKeepsValid state its outcome |
| Emu.Loop | machine.py:29-55 | the run loop over a round-trip function; no contract of its own: RunCycles and RunShift state how it counts cycles |
| Emu.RunFor | machine.py:29-55 | `run`; no contract of its own: RunFetchFails, RunKeepsValid and AddiFiveThenEcall state how it ends and what it keeps |
| Emu.Boot | machine.py:10-27 | the constructor; no contract of its own: ResetVector, BootValid, BootCells and BootProgram state the booted state |
| Emu.Reset | machine.py:23-24 | the last two statements of `Machine.__init__` (machine.py has no function of that name); no contract of its own: ResetRegisters and ResetPeeks state its registers and its peeks |
| Emu.StepKeepsValid | machine.py:37-48 | one round trip of the loop keeps the machine state valid |
| Emu.AdvanceKeepsValid | machine.py:42-48 | moving pc after a handler keeps the state valid |
| Emu.RunKeepsValid | machine.py:29-55 | any number of round trips keeps the machine state valid |
| Emu.LoadImage | machine.py:14-21 | poking the image keeps the alignment flag and the console input |
| Emu.LoadImageCells | machine.py:14-21 | after loading n bytes, cell x holds image byte x for x < n and is otherwise as before |
| Emu.PokeByte | machine.py:19 | poking one byte sets exactly that cell |
| Emu.LoadImageBytes | machine.py:14-21 | loading keeps every stored cell a byte |
| Emu.LoadedByte | machine.py:14-21 | after loading, address x holds byte x of the image, 0 past its end |
| Emu.LoadedWord | machine.py:14-24 | after loading, the little-endian word at a is made of image bytes a..a+3 |
| Emu.LoaderOutput | machine.py:14-21 | loading an image that does not reach the port prints nothing |
| Emu.ResetRegisters | machine.py:23-24 | setting pc and then x2 leaves pc, x2 = sp, both watermarks at sp, all other registers 0 |
| Emu.ResetPeeks | machine.py:23-24 | the two reset peeks return the image words at 4 and 0 and keep the same cell values |
| Emu.ResetVector | machine.py:10-27 | for an image that stops below the port, after booting pc is the image word at 4, x2 and both watermarks are the word at 0, every other register is 0 and nothing was printed |
| Emu.BootValid | machine.py:10-27 | the booted state is valid |
| Emu.BootCells | machine.py:10-27 | after booting, every little-endian word in memory is the image's word at that address |
| Emu.RunFetchFails | machine.py:29-55 | a run whose first fetch fails ends at once with that fault, the state and the cycle count as they were |
| Emu.StepDispatch | machine.py:37-48 | the fetched word's low 7 bits select the handler, an opcode missing from the table fails, and otherwise the handler's effect is applied |
| Emu.AdvanceMovesPc | machine.py:42-48 | a halt sets pc to (pc+4) mod 2^32 and stops; a jump to t sets pc to t mod 2^32, t = 0 included; a fall-through sets pc to (pc+4) mod 2^32; a fault stops with the state as it was |
| Emu.CallStops | machine.py:41-44 | the loop stops with a halt exactly when the handler is ECALL and its fetch succeeds |
| Emu.RunCycles | machine.py:29-55 | the loop adds at most one cycle per round trip, and it is still running exactly when every round trip was counted |
| Emu.RunShift | machine.py:29-55 | starting the count at c adds c to the count a run from 0 would end with |
| Emu.FetchStored | machine.py:37 | fetching at pc reads the stored little-endian word there |
| Emu.StepRuns | machine.py:37-48 | a fetched word whose opcode is the handler's runs that handler on the word |
| Emu.AddiRound | machine.py:37-48 | an ADDI rd, x0, imm at pc writes sext(imm) to rd and moves pc to pc+4 |
| Emu.EcallRound | machine.py:37-44 | an ECALL at pc moves pc to pc+4 and halts |
| Emu.AddiThenEcall | machine.py:29-55 | ADDI rd, x0, imm followed by ECALL halts after one counted cycle with rd = imm mod 2^32, pc+8, memory untouched and the other registers unchanged |
| Emu.AddiFiveThenEcall | machine.py:10-55 | booting `ADDI x1, x0, 5; ECALL` at address 8 halts with x1 = 5 and cycles = 1 |
| Emu.BootProgram | machine.py:10-27 | booting that image gives pc 8 and the two instruction words at 8 and 12 |
| Emu.Machine.constructor | machine.py:10-27 | the new machine holds the booted state and zero cycles |
| Emu.Machine.Load | machine.py:14-21 | the loader loop leaves memory as the value-level image load does |
| Emu.Machine.ReadResetVector | machine.py:23-24 | pc and x2 are set from the peeked words as the value-level reset says |
| Emu.Machine.Run | machine.py:29-55 | the final state, cycle count and stop reason are those of the value-level loop with the same fuel |
| Emu.Machine.Iterate | machine.py:31-55 | each round trip either stops at the value-level result or leaves one round trip less of it to run |
| Emu.Machine.Round | machine.py:37-55 | one round trip ends in the value-level step's state and status and counts one cycle exactly when it keeps running |
| Emu.Machine.Complete | machine.py:42-55 | moving pc after the handler ends as the value-level step says and counts one cycle exactly when it keeps running |

## Left out

- Console I/O. `util.getch` and `print(chr(...))` form the port's interface, and they
  become the `input` sequence in `MemState` and the `output` sequence appended to.
  A port read with no input left is a `NoInput` fault. `getch` is not defined in util.py
  (lines 1-20); it comes from outside the modelled files, and the model abstracts it as
  the `input` sequence.
- Timing statistics. `_time_spent_waiting`, `datetime` and the frequency report are
  wall-clock time and float division.
- Reading the program file. The image is a sequence of bytes given to the constructor.
- The `KeyboardInterrupt` handler and the statistics printout after the run.
- Debug output and checks. These cover `conf.DEBUG` tracing, `hit_main` and its
  0x250 check, and the old and new sp print; none of them changes the machine state.
- The `functools.lru_cache` memoisation: it is a cache and does not change results.
- The big-endian branches of peek and poke: `ENDIAN` is fixed to little-endian.
- The abstract `OpCode.decode` and `OpCode.execute`: they are never called.
- state.py: it only pairs a `RegisterFile` with a `Memory`, which is `MachineState`
  and the two fields of `Emu.Machine`.
- Nothing in the core sets `allow_unaligned` to false. The flag is kept and its fault
  is modelled, but only lemmas over arbitrary states exercise it.
- The state after a fault. In the source a fault is a Python exception that ends the
  program. The model returns the fault together with the state as it stood.
- Emu.Machine.Run: it is bounded by a fuel argument in place of `while True`. It
  does not model a run that never halts, beyond the given number of round trips.
- Mem.Memory.Peek: it requires a width of at least 1, and so does Poke. Every caller
  in the core passes 1, 2 or 4.
- Ops.ExecuteFramed: it is stated for the field layouts, and Ops.ExecuteDecodes
  carries it over to the decoders.
