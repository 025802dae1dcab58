/** Where create_process puts a program, and the context it starts in. */
module Layout {
  import S = Scheduling

  const TEXT_ADDR: nat := 0x40000
  const TEXT_SIZE: nat := 0x8000
  const STACK_ADDR: nat := 0x3e000
  const STACK_SIZE: nat := 0x2000

  const ZERO_REGISTERS := S.Registers(0, 0, 0, 0, 0, 0, 0, 0, 0, 0, 0, 0, 0, 0, 0)

  /** Ring-3 selectors, interrupts enabled. */
  const FIRST_CONTEXT := S.Context(ZERO_REGISTERS, 0x41000, 0x23, 0x202, 0x40000, 0x1b)
}
