/** The unsigned integers of the program. */
module MachineIntegers {
  type uint16 = x: int | 0 <= x < 0x1_0000
  type uint32 = x: int | 0 <= x < 0x1_0000_0000

  /** The C type `unsigned long long`. */
  const MODULUS: nat := 0x1_0000_0000_0000_0000
  type uint64 = x: int | 0 <= x < MODULUS
}
