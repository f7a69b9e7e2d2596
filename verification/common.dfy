/** Types shared by every part of the model: bytes, the failure-carrying
    wrappers, the ways the modelled C# code can fail, decoded images, and
    one arithmetic fact two modules share. */
module Common {

  /** An unsigned 8-bit value, as C#'s `byte`. */
  type byte = x: int | 0 <= x < 256

  datatype Option<+T> = None | Some(value: T)

  /** Why a modelled operation stopped without a value.
      - IndexOutOfRange: an array or list was indexed at `index`, outside its
        bounds (C#'s IndexOutOfRangeException / ArgumentOutOfRangeException);
      - DuplicateKey: `ToDictionary` met `key` a second time (ArgumentException);
      - ProcessExit: the program called `Environment.Exit(code)`;
      - InvalidImage: the image library could not decode the bytes it was
        handed (`Image.Load` throws);
      - NullReference: a member was accessed through a null reference
        (NullReferenceException). */
  datatype Fault =
    | IndexOutOfRange(index: int)
    | DuplicateKey(key: string)
    | ProcessExit(code: int)
    | InvalidImage
    | NullReference

  datatype Result<+T> = Success(value: T) | Failure(error: Fault)

  /** A decoded raster. Only its size matters to the model; the pixels are
      whatever the image library produced. */
  datatype Image = Image(width: nat, height: nat, pixels: seq<byte>)

  /** Multiplying by the same factor keeps the order. */
  lemma MulMono(x: nat, y: nat, z: nat)
    requires x <= y
    ensures x * z <= y * z
  {
  }

}
