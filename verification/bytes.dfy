/** Byte strings, and the option type used throughout. */
module Bytes {
  /**
   * An unsigned char, written as the character it stands for. Nothing in the JSON modules depends on
   * characters beyond 255 being excluded, so they are not.
   */
  type Byte = char

  datatype Option<+T> = None | Some(value: T)

  /** What `*p` reads at the start of a C string: its first byte, or the terminating zero. */
  function Cur(s: seq<Byte>): (c: Byte)
    ensures c != '\0' ==> s != [] && s[0] == c
  {
    if s == [] then '\0' else s[0]
  }
}
