/** Bytes, and writes of bytes to memory. */
module ByteData {
  type Byte = b: nat | b < 256

  /** One byte written to an address. */
  datatype Write = Write(addr: nat, value: Byte)

  function Zeros(n: nat): (z: seq<Byte>)
    ensures |z| == n && forall i :: 0 <= i < n ==> z[i] == 0
  {
    seq(n, _ => 0)
  }

  /** Most significant byte first. */
  function BigEndian(s: seq<Byte>): nat {
    if s == [] then 0 else 256 * BigEndian(s[..|s| - 1]) + s[|s| - 1]
  }
}
