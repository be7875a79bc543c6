/** Values shared by every part of the DCL decoder: bytes, the ways a decode
    call can fail, and the result type that carries either outcome. */
module DclTypes {

  /** An unsigned 8-bit value: an element of the C# `byte[]` buffers. */
  type Byte = x: int | 0 <= x < 256

  /** Why decoding one file fails.
      - UnsupportedFormat: the tag byte is neither 'L' nor 'P' (the C# code
        throws InvalidDataException).
      - StreamOverrun: the bit cursor would read past the end of the input
        buffer (the C# code indexes out of range there).
      - DecodeOverflow: the 'L' decoder would write past the end of the
        output buffer (again an out-of-range index in the C# code). */
  datatype Error = UnsupportedFormat | StreamOverrun | DecodeOverflow

  datatype Result<T> = Ok(value: T) | Err(error: Error)

  /** A pixel colour as the 'P' decoder keeps it (`lastR`, `lastG`, `lastB`). */
  datatype Rgb = Rgb(r: Byte, g: Byte, b: Byte)

  /** Byte `i` (0, 1 or 2) of a colour as it is stored: red, green, blue. */
  function Component(c: Rgb, i: nat): Byte
    requires i < 3
  {
    if i == 0 then c.r else if i == 1 then c.g else c.b
  }

  /** The colour (0,0,0), which the gap-fill pass treats as "no pixel". */
  const Black := Rgb(0, 0, 0)

  /** A buffer of `n` zero bytes, as `new byte[n]` and `Array.Clear` leave it. */
  function Zeros(n: nat): (s: seq<Byte>)
    ensures |s| == n && forall i :: 0 <= i < n ==> s[i] == 0
  {
    seq(n, _ => 0)
  }
}
