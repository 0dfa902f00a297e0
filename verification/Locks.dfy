/** A way to keep a definition out of a proof that only passes it along.
  *
  * A predicate of the form `forall k {:trigger Key(k)} :: Key(k) && k == ID ==> P` is equivalent to `P`, but the solver
  * sees `P` only in a proof that mentions `Key(ID)`.
  */
module Locks {
  const HUFFMAN_CODE := 1
  const HUFFMAN_ENCODE := 5
  const HUFFMAN_DECODE := 2
  const REPRESENTATION := 3
  const DECODING_LOOP := 4
  const CAPTURED := 6
  const AGREEMENT := 7
  const TILING := 8
  const EXTENSIONS := 9
  const EXTENSIONS_LOOP := 10
  const FEED_LOOP := 11
  const PARSING_LOOP := 12
  const LAYOUT := 13
  const PARTS := 14
  const MESSAGE := 15
  const PLACED := 16

  predicate Key(k: int) { true }
}
