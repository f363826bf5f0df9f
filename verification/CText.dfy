/** Bytes, runs of zeros, and C strings without their terminating zero. */
module CText {
  type Byte = b: nat | b < 256

  type CString = seq<Byte>

  const SLASH: Byte := 47
  const AT: Byte := 64

  datatype Option<T> = None | Some(value: T)

  function Zeros(n: nat): (z: seq<Byte>)
    ensures |z| == n
    ensures forall i :: 0 <= i < n ==> z[i] == 0
  {
    seq(n, _ => 0)
  }
}
