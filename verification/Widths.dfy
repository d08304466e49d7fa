/** How many values a machine word has. */
module Widths {
  const B63: int := 0x8000_0000_0000_0000
  const B64: int := 0x1_0000_0000_0000_0000
}
