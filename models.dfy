/** The value types the storage layer works with. */
module Models {
  /** A byte of a file or of an embedded resource. */
  newtype byte = b: int | 0 <= b < 0x100

  /** The range of a C# `int`. */
  type Int32 = x: int | -0x8000_0000 <= x < 0x8000_0000

  /** `int.MaxValue`. */
  const IntMaxValue: Int32 := 0x7FFF_FFFF

  /** A row of the seeded `Poetry` table. Only `id` and `name` are used by the storage code. */
  datatype Poetry = Poetry(id: Int32, name: string, author: string, content: string)
}
