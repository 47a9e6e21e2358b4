/** What several of the models share: an optional result, bytes, and the sizes of machine words. */
module Common {
  datatype Option<+X> = None | Some(value: X)

  type byte = bv8

  const TWO_TO_THE_31 := 0x8000_0000
  const TWO_TO_THE_32 := 0x1_0000_0000
  const TWO_TO_THE_64 := 0x1_0000_0000_0000_0000
}
