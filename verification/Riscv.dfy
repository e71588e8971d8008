/** Codes and types shared by the emulator's CPU modules (emulator/include/cpu/riscv.h). */
module Riscv {

  /** Register values are natural numbers below this. */
  const MODULUS: nat := 0x1_0000_0000_0000_0000

  type Byte = b: nat | b < 256

  datatype Option<+T> = None | Some(value: T)

  // Privilege encodings. 2 names no mode, though the two-bit MPP field can hold it.
  const PRIV_U: nat := 0
  const PRIV_S: nat := 1
  const PRIV_M: nat := 3

  // Exception causes.
  const INST_ADDR_MISALIGNED: nat := 0
  const INST_ACCESS_FAULT: nat := 1
  const ILLEGAL_INSTRUCTION: nat := 2
  const BREAKPOINT: nat := 3
  const LOAD_ADDR_MISALIGNED: nat := 4
  const LOAD_ACCESS_FAULT: nat := 5
  const STORE_AMO_ADDR_MISALIGNED: nat := 6
  const STORE_AMO_ACCESS_FAULT: nat := 7
  const ECALL_FROM_U_MODE: nat := 8
  const ECALL_FROM_S_MODE: nat := 9
  const ECALL_FROM_M_MODE: nat := 11
  const INST_PAGE_FAULT: nat := 12
  const LOAD_PAGE_FAULT: nat := 13
  const STORE_AMO_PAGE_FAULT: nat := 15

  // Interrupt numbers.
  const INT_SSIP: nat := 1
  const INT_MSIP: nat := 3
  const INT_STIP: nat := 5
  const INT_MTIP: nat := 7
  const INT_SEIP: nat := 9
  const INT_MEIP: nat := 11

  /** The 8-byte bus reads of one moment: for each physical address the little-endian word,
      or None where the bus rejects the read. */
  type PhysMem = nat -> Option<nat>
}
