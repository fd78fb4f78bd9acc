/** Build-time definitions of the simulator (include/RVdefs.h), for a build
    with RV_XLEN_32 defined: a register is 32 bits wide. */
module RVDefs {

  /** Register width in bits. */
  const XLEN: nat := 32

  /** uint8_t: one memory byte. */
  type Byte = x: int | 0 <= x < 0x100

  /** uint64_t: memory addresses and sizes. */
  type uint64 = x: int | 0 <= x < 0x1_0000_0000_0000_0000

  /** uint32_t / unsigned int. */
  type uint32 = x: int | 0 <= x < 0x1_0000_0000

  /** int: a C int of 32 bits. */
  type int32 = x: int | -0x8000_0000 <= x < 0x8000_0000

  /** REG: an unsigned register-width integer. Arithmetic on it wraps
      modulo 2^32, which the model writes out where the source relies on it. */
  type Reg = uint32

  /** ISAdef: the capability flags fixed when a core is constructed. */
  datatype ISAdef = ISAdef(
    ISA_EMBEDDED: bool,  // uses half the registers
    ISA_M: bool,         // multiply
    ISA_A: bool,         // atomic
    ISA_F: bool,         // single precision floating point
    ISA_D: bool,         // double precision floating point
    ISA_C: bool          // compressed
  )
}
