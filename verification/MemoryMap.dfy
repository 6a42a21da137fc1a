/** Where the second boot stage leaves the memory map (Stage2A.asm) and what it is made of
    (Kernel/Memory.h): a count word, and behind it entries of six words each. */
module MemoryMap {
  const COUNT_AT := 0x8000
  const TABLE := 0x8004
  const ENTRY := 24
}
