/** Values shared by every module of the model: bytes and an optional value. */
module Common {

  /** One octet, as Python `bytes` holds them. */
  newtype byte = x: int | 0 <= x < 256

  type Bytes = seq<byte>

  /** Python's `None` or a value. */
  datatype Option<T> = None | Some(value: T)

  function Min(a: int, b: int): int
  {
    if a <= b then a else b
  }

  /** ASCII text as the bytes of a Python `b'...'` literal. */
  function Ascii(s: string): (r: Bytes)
    requires forall i :: 0 <= i < |s| ==> s[i] as int < 256
    ensures |r| == |s|
    ensures forall i :: 0 <= i < |s| ==> r[i] as int == s[i] as int
  {
    seq(|s|, i requires 0 <= i < |s| => s[i] as int as byte)
  }
}
