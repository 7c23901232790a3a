/** Byte buffers as they appear in the C code: fixed-size, zero-initialised arrays
    that `memcpy` overwrites in place, and C's narrowing of a count to `uint8_t`. */
module Bytes {

  type byte = bv8

  /** A value that may be absent: the model of a pointer argument that may be NULL. */
  datatype Option<+T> = None | Some(value: T)

  /** A buffer of `n` zero bytes, as produced by `= {0}` or `memset(.., 0, n)`. */
  function Zeros(n: nat): (r: seq<byte>)
    ensures |r| == n
    ensures forall i :: 0 <= i < n ==> r[i] == 0
  {
    seq(n, _ => 0 as byte)
  }

  /** `memcpy(&buf[off], src, |src|)`: the bytes of `src` replace `buf[off..off+|src|]`
      and nothing else in `buf` changes. */
  function Write(buf: seq<byte>, off: nat, src: seq<byte>): (r: seq<byte>)
    requires off + |src| <= |buf|
    ensures |r| == |buf|
    ensures r[off..off + |src|] == src
    ensures forall i :: 0 <= i < |src| ==> r[off + i] == src[i]
    ensures forall i :: 0 <= i < off ==> r[i] == buf[i]
    ensures forall i :: off + |src| <= i < |buf| ==> r[i] == buf[i]
  {
    buf[..off] + src + buf[off + |src|..]
  }

  /** C's implicit conversion of a count to `uint8_t`: reduction modulo 256. */
  function ToU8(n: nat): (b: byte)
    ensures n < 256 ==> b as int == n
  {
    (n % 256) as byte
  }
}
