/** What all parts share: return codes, bytes, the smaller and the larger of two numbers. */
module Common {

  /** The return codes of the modelled functions; Ok is 0. */
  datatype Status = Ok | EINVAL | EOVERFLOW | ENOBUFS | ERANGE | EAGAIN | EBADMSG | EEXIST

  type Byte = b: nat | b < 256 witness 0

  function Min(a: nat, b: nat): nat { if a <= b then a else b }

  function Max(a: nat, b: nat): nat { if a >= b then a else b }

  function Zeros(n: nat): (s: seq<Byte>)
    ensures |s| == n && forall i :: 0 <= i < n ==> s[i] == 0
  {
    seq(n, _ => 0)
  }
}
