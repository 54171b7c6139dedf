/** The kernel's view of memory. */
module Layout {
  const PAGE_SIZE: nat := 0x1000
  /** Where physical memory is mapped for the kernel. */
  const VA_OFFSET: nat := 0x8000_0000_0000
  const RAM_BYTES: nat := 0x4000_0000
  const MEMORY_END: nat := VA_OFFSET + RAM_BYTES
}
