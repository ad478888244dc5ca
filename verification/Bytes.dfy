/** Bytes, shared by the models that copy, combine or read them as numbers. */
module Bytes {
  type Byte = bv8

  function Zeros(n: nat): (z: seq<Byte>)
    ensures |z| == n && forall i :: 0 <= i < n ==> z[i] == 0
  {
    seq(n, _ => 0)
  }

  lemma SameByte(a: Byte, b: Byte)
    requires a as nat == b as nat
    ensures a == b
  {
    assert (a as nat) as Byte == a && (b as nat) as Byte == b;
  }

  lemma ByteOfNat(x: nat)
    requires x < 256
    ensures (x as Byte) as nat == x
  {
    assert x % 256 == x;
  }
}
