/** Vocabulary shared by every module: options, results and byte strings. */
module Basics {

  datatype Option<+T> = None | Some(value: T)

  /** What a Go function that returns an `error` gives back. */
  datatype Result<+T> = Ok(value: T) | Err(error: string)

  /** One byte, written as the character with its code so that byte strings can be literals.
      Nothing below needs codes to stay under 256, so every result holds for all bytes. */
  type byte = char

  /** A Go string or the contents of a `[]byte`. */
  type Bytes = seq<byte>

  /** Times are in nanoseconds. */
  const MILLISECOND: int := 1_000_000
  const SECOND: int := 1000 * MILLISECOND

  /** How many values a 64-bit integer has. */
  const WORD: int := 0x1_0000_0000_0000_0000

  /** The pieces put together. */
  function Joined<T>(pieces: seq<seq<T>>): seq<T> {
    if pieces == [] then [] else Joined(pieces[..|pieces| - 1]) + pieces[|pieces| - 1]
  }

  lemma Reassociate<T>(a: seq<T>, b: seq<T>, c: seq<T>)
    ensures a + b + c == a + (b + c)
  {
  }
}
