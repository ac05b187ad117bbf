/** Bytes, and their values as numbers. */
module Bytes {

  type Byte = bv8

  const NUL: Byte := 0

  const TWO_64: nat := 0x1_0000_0000_0000_0000

  function ByteOf(n: nat): Byte
    requires n < 256
  {
    n as bv8
  }

  function ValueOf(b: Byte): (n: nat)
    ensures n < 256
  {
    b as nat
  }

  function Zeros(n: nat): seq<Byte> {
    seq(n, _ => 0)
  }

  lemma ValueRoundTrip(b: Byte)
    ensures ByteOf(ValueOf(b)) == b
  {
  }

  lemma ByteRoundTrip(n: nat)
    requires n < 256
    ensures ValueOf(ByteOf(n)) == n
  {
    assert n < 32 ==> (n as bv8) as nat == n;
    assert 32 <= n < 64 ==> (n as bv8) as nat == n;
    assert 64 <= n < 96 ==> (n as bv8) as nat == n;
    assert 96 <= n < 128 ==> (n as bv8) as nat == n;
    assert 128 <= n < 160 ==> (n as bv8) as nat == n;
    assert 160 <= n < 192 ==> (n as bv8) as nat == n;
    assert 192 <= n < 224 ==> (n as bv8) as nat == n;
  }

  function Power256(n: nat): (p: nat)
    ensures p > 0
  {
    if n == 0 then 1 else 256 * Power256(n - 1)
  }
}
