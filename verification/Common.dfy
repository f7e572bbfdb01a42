/** Types and constants that several modules share. */
module Common {

  datatype Option<+T> = None | Some(value: T)

  const PAGE := 4096

  type Byte = b: int | 0 <= b < 256
}
