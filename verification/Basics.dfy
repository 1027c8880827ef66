/** Machine integers and the sequence functions that everything else uses. */
module Basics {

  const WORD := 65536

  type byte = x: int | 0 <= x < 256
  type word = x: int | 0 <= x < WORD
  type uint32 = x: int | 0 <= x < 0x1_0000_0000

  datatype Option<+T> = None | Some(value: T)

  function Init<T>(s: seq<T>): seq<T> {
    if s == [] then [] else s[..|s| - 1]
  }

  function Flatten<T>(chunks: seq<seq<T>>): seq<T> {
    if chunks == [] then [] else chunks[0] + Flatten(chunks[1..])
  }
}
