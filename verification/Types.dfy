/** Plain types that several modules share. */
module Types {
  type Path = string

  type byte = b: int | 0 <= b < 256

  type Bytes = seq<byte>
}
