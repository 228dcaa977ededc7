/** Failure-carrying values shared by every part of the emulator model. */
module Results {

  datatype Option<+T> = None | Some(value: T)

  /** The ways the emulator can stop abnormally. Each one is process-fatal in the source. */
  datatype Fault =
    | UnalignedAccess              // Memory.check_alignment raising UnalignedException
    | InvalidFunct3                // a funct3 the handler has no entry for (failed assert or missing key)
    | InvalidFunct7                // a shift whose funct7 bits are neither pattern it accepts
    | UnimplementedOpcode(opcode: nat)  // the low seven bits have no entry in op_lookup
    | NoInput                      // a read of the console port when no character is supplied

  datatype Result<+T> = Ok(value: T) | Err(fault: Fault)
}
