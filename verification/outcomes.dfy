/** The three ways the program fails, and the result type that carries them. */
module Outcomes {

  datatype Error =
      /** The tree builder was given no symbols: its final `heappop` finds an empty heap. */
    | EmptyInput
      /** The encoder met a letter that has no codeword (a `KeyError` in Python). */
    | MissingCode(symbol: char)
      /** The decoder ran out of input before any prefix was a codeword; `head` is what it accumulated. */
    | UnresolvableHead(head: string)

  datatype Result<T> = Success(value: T) | Failure(error: Error)

  /** Concatenates two partial strings; the first failure wins, as with an exception. */
  function Concat(x: Result<string>, y: Result<string>): Result<string> {
    if x.Failure? then x
    else if y.Failure? then y
    else Success(x.value + y.value)
  }

  lemma ConcatAssociative(x: Result<string>, y: Result<string>, z: Result<string>)
    ensures Concat(x, Concat(y, z)) == Concat(Concat(x, y), z)
  {
    if x.Success? && y.Success? && z.Success? {
      assert x.value + (y.value + z.value) == (x.value + y.value) + z.value;
    }
  }
}
