/** The i386 memory layout and the word helpers shared by the memory modules. */
module Layout {
  const PAGE_SIZE := 4096
  const KERNEL_VMA := 0xC000_0000
  const USER_STACK_TOP := 0xC000_0000
  const USER_STACK_SIZE := 0x0010_0000
  const USER_TEXT_START := 0x0800_0000
  const USER_HEAP_START := 0x0810_0000
  const WORD := 0x1_0000_0000

  /** An address or a size: one 32-bit machine word. */
  type Word = w: nat | w < WORD

  function AlignDown(a: nat): nat { a - a % PAGE_SIZE }

  /** Rounding up before any 32-bit wrap; callers reduce it modulo WORD where the code can wrap. */
  function AlignUp(a: nat): nat { AlignDown(a + PAGE_SIZE - 1) }
}
