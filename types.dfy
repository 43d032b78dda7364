// Value types shared by every part of the model.
module Types {

  /** An unsigned 8-bit value, as stored in the backing file. */
  newtype byte = x: int | 0 <= x < 256

  /** The enumerated identifier of a cipher, stored as one byte in each nugget's metadata. */
  newtype CipherId = x: int | 0 <= x < 256

  datatype Option<T> = None | Some(value: T)

  datatype Result<T, E> = Success(value: T) | Failure(error: E)

  /** A journal bitmask is pristine when none of its flakes has been written
      under the nugget's current cipher and keycount. */
  predicate Pristine(bits: seq<bool>)
  {
    forall f :: 0 <= f < |bits| ==> !bits[f]
  }

  function Min(a: nat, b: nat): nat
  {
    if a <= b then a else b
  }

  function Max(a: nat, b: nat): nat
  {
    if a <= b then b else a
  }
}
