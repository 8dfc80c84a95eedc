/** The register windows the program maps: each a 4 KiB block of 32-bit words. */
module Registers {

  /** `BLOCK_SIZE` bytes, 4 KiB, seen as 32-bit words. */
  const WINDOW: int := 1024
}
