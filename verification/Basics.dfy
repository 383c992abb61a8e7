/** What several modules share. */
module Basics {

  datatype Option<T> = None | Some(value: T)

  const TWO_TO_THE_63: nat := 0x8000_0000_0000_0000
  const TWO_TO_THE_64: nat := 0x1_0000_0000_0000_0000

  const PAGE_SIZE: nat := 4096

  /** What a NUL-terminated string can hold. */
  predicate NoNul(s: string) {
    '\0' !in s
  }
}
