/** Sizes that the memory code shares (kernel/core/vm/vm_asm.h:5-12, kernel/lib/ctype.h:4). */
module Pages {
  const PAGE_SIZE: nat := 4096
  const TWO_TO_32: nat := 0x1_0000_0000
  const TWO_TO_64: nat := 0x1_0000_0000_0000_0000

  function RoundUp(n: nat, step: nat): (r: nat)
    requires step > 0
  {
    (n + step - 1) / step * step
  }
}
