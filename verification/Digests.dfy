/** Bytes, the digest algorithm and the streaming hasher object.

    The algorithm itself is a parameter: every statement of the project holds for every total
    function from byte strings to 32 bytes.  Such a function cannot be injective, so no statement
    assumes that it is; `CollisionFree` speaks of a finite set of inputs only.
 */
module Digests {
  newtype Byte = x: int | 0 <= x < 0x100

  type Bytes = seq<Byte>

  const OUT_SIZE: nat := 32

  // The runtime's TreeHashOut, `[u8; 32]`.
  type Out = b: Bytes | |b| == OUT_SIZE witness seq(OUT_SIZE, _ => 0)

  type HashFn = Bytes -> Out

  // Among the inputs in `s`, equal digests mean equal inputs.
  ghost predicate CollisionFree(h: HashFn, s: set<Bytes>) {
    forall x, y | x in s && y in s && h(x) == h(y) :: x == y
  }

  // A set is collision-free exactly when it holds no two different inputs with one digest.
  lemma NoCollidingPair(h: HashFn, s: set<Bytes>)
    ensures CollisionFree(h, s) <==> !exists x, y :: x in s && y in s && x != y && h(x) == h(y)
  {}

  // A `Digest`: a growing input and an algorithm to run on it.
  class Digest {
    const algorithm: HashFn
    var buffer: Bytes

    constructor (h: HashFn)
      ensures algorithm == h && buffer == []
    {
      algorithm := h;
      buffer := [];
    }

    method Input(bytes: Bytes)
      modifies this`buffer
      ensures buffer == old(buffer) + bytes
    {
      buffer := buffer + bytes;
    }

    method Result() returns (r: Out)
      ensures r == algorithm(buffer)
    {
      r := algorithm(buffer);
    }
  }
}
