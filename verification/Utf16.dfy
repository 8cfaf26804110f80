/** Strings as JavaScript and .NET have them. */
module Utf16 {
  newtype CodeUnit = x: int | 0 <= x < 0x1_0000

  type Text = seq<CodeUnit>

  const SPACE: CodeUnit := 0x20
}
