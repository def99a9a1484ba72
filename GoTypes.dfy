/** Go's value types that the cookie codec and the error handler work on. */
module GoTypes {

  /** A Go `byte`. Go strings and `[]byte` are both sequences of these. */
  newtype byte = x: int | 0 <= x < 0x100

  /** A Go `int64`. */
  newtype int64 = x: int | -0x8000_0000_0000_0000 <= x < 0x8000_0000_0000_0000

  const MinInt64: int := -0x8000_0000_0000_0000
  const MaxInt64: int := 0x7fff_ffff_ffff_ffff

  datatype Option<+T> = None | Some(value: T)

  /** How a Go call ends: it returns a value normally, or it panics. */
  datatype Completion<+T> = Normal(value: T) | Panic
}
