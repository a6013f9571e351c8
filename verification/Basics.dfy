/** Constants and small types shared by every component (src/include/globals.h). */
module Basics {

  /** Page ids are 32-bit unsigned in the source; the largest value means "no page". */
  type PageID = int

  const INVALID_PAGE_ID: PageID := 0xFFFF_FFFF

  const PAGE_SIZE: nat := 4096

  const RECORD_KEY_SIZE: nat := 24

  /** One more than the largest code of a 24-byte key: 256 to the power 24. */
  const KEY_SPACE: int := 0x1_000000_000000_000000_000000_000000_000000_000000_000000

  /** The code of the key made of 24 zero bytes, which is what unused key memory holds. */
  const ZERO_KEY: int := 0x808080_808080_808080_808080_808080_808080_808080_808080

  /** Where a record lives: its data page and its position in that page's slot array. */
  datatype RecordID = RecordID(pageID: PageID, slot: int)

  datatype Option<+T> = None | Some(value: T)
}
