/** What several components share: optional values and the sizes of machine words. */
module Basics {

  datatype Option<+T> = None | Some(value: T)

  const TWO_16: nat := 0x1_0000
  const TWO_32: nat := 0x1_0000_0000
  const TWO_64: nat := 0x1_0000_0000_0000_0000
}
