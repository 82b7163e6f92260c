/** kernel/memory/vmm.hpp: decoded page-table entries. */
module PagingTypes {

  /** Decoded attribute bits (bits 0 to 8 and bit 63). */
  datatype Flags = Flags(present: bool, writable: bool, user: bool, writeThrough: bool, cacheDisable: bool,
                         accessed: bool, dirty: bool, huge: bool, global: bool, noExecute: bool)

  /** Decoded entry: attribute bits and the 40-bit frame number. */
  datatype Pte = Pte(flags: Flags, frame: nat) {
    predicate Present() { flags.present }
    predicate User() { flags.user }
    predicate Writable() { flags.writable }
    predicate Huge() { flags.huge }
    predicate NoExecute() { flags.noExecute }
  }

  const NO_FLAGS: Flags := Flags(false, false, false, false, false, false, false, false, false, false)
  const EMPTY: Pte := Pte(NO_FLAGS, 0)
}
