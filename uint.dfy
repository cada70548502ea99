/** Fixed-width unsigned integers of the Ethereum ABI, as bounded naturals. */
module Uint {

  /** 2^8, 2^24, 2^160 and 2^256. */
  const TWO_8: nat := 0x100
  const TWO_24: nat := 0x100_0000
  const TWO_160: nat := 0x1_0000_0000_0000_0000_0000_0000_0000_0000_0000_0000
  const TWO_256: nat := 0x1_0000_0000_0000_0000_0000_0000_0000_0000_0000_0000_0000_0000_0000_0000_0000_0000

  type Byte = n: nat | n < 0x100
  type Uint8 = n: nat | n < 0x100
  type Uint24 = n: nat | n < 0x100_0000
  type Uint160 = n: nat | n < 0x1_0000_0000_0000_0000_0000_0000_0000_0000_0000_0000
  type Uint256 = n: nat | n < 0x1_0000_0000_0000_0000_0000_0000_0000_0000_0000_0000_0000_0000_0000_0000_0000_0000

  /** A 20-byte account or contract address, as the number it encodes. */
  type Address = Uint160

  /** 256^k: one more than the largest number k bytes can hold. */
  function Pow256(k: nat): (r: nat)
    ensures r >= 1
  {
    if k == 0 then 1 else 256 * Pow256(k - 1)
  }

  lemma Pow256Add(a: nat, b: nat)
    ensures Pow256(a + b) == Pow256(a) * Pow256(b)
  {
    if a > 0 {
      Pow256Add(a - 1, b);
    }
  }

  /** A 32-byte word holds exactly the uint256 values. */
  lemma Pow256Word()
    ensures Pow256(32) == TWO_256
  {
    assert Pow256(4) == 0x1_0000_0000;
    Pow256Add(4, 4);
    Pow256Add(8, 8);
    Pow256Add(16, 16);
  }
}
