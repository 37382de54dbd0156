// Ranges of physical memory, as the boot loader reports them.
module MemoryMap {
  import opened Words

  /** [base, base + length); both are 64-bit numbers, their sum may not be. */
  datatype Range = Range(base: nat, length: nat)

  predicate IsRange(r: Range) { r.base < WORD_LIMIT && r.length < WORD_LIMIT }
}
