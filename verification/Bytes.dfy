/** Bytes, the constants of intro/unp.h that the echo programs share, and the Option type. */
module Bytes {

  type Byte = b: int | 0 <= b < 0x100

  /** Line and buffer size of every stream program (intro/unp.h). */
  const MAXLINE: nat := 4096

  const NEWLINE: Byte := 10
  const NUL: Byte := 0

  datatype Option<+T> = None | Some(value: T)

  function Min(a: int, b: int): int {
    if a <= b then a else b
  }

  /** A field store: bytes laid over the buffer at an offset. */
  method Put(buf: array<Byte>, at: nat, field: seq<Byte>)
    requires at + |field| <= buf.Length
    modifies buf
    ensures forall i :: 0 <= i < buf.Length ==>
              buf[i] == if at <= i < at + |field| then field[i - at] else old(buf[i])
  {
    forall i | 0 <= i < |field| {
      buf[at + i] := field[i];
    }
  }
}
