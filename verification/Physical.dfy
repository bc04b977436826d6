/** Units of physical memory that several components share. */
module Physical {
  import opened Arithmetic

  const PAGE_SIZE := 4096

  /** A power-of-two block of memory. */
  datatype Block = Block(paddr: nat, bits: nat) {
    function Size(): nat { Pow2(bits) }
  }
}
