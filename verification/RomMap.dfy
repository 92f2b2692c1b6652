/** Where the boot ROM has things in memory. */
module RomMap {
  const RAM_BASE: int := 0x8000_0000
  const PAYLOAD_BASE: int := 0x8000_4000
  const DTB_AREA: int := 0x2000
}
