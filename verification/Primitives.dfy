/** Integer widths, addresses and byte strings shared by every component. */
module Primitives {

  datatype Option<+T> = None | Some(value: T)

  type Byte = b: nat | b < 256
  type Bytes = seq<Byte>

  /** A 32-byte address read as a big-endian number, so that the node's
      byte-wise comparison of addresses is numeric order. */
  type Address = nat

  const U32_MAX: nat := 0xffff_ffff
  const U64_MOD: nat := 0x1_0000_0000_0000_0000
  const U128_MOD: nat := 0x1_0000_0000_0000_0000_0000_0000_0000_0000
  const U256_MOD: nat := 0x1_0000_0000_0000_0000_0000_0000_0000_0000_0000_0000_0000_0000_0000_0000_0000_0000

  /** Saturating addition of 256-bit amounts. */
  function SatAdd(a: nat, b: nat): nat {
    if a + b < U256_MOD then a + b else U256_MOD - 1
  }

  /** Addition on `u64` as the release build performs it. */
  function Add64(a: nat, b: nat): nat {
    (a + b) % U64_MOD
  }

  function Min(a: nat, b: nat): nat {
    if a <= b then a else b
  }

  lemma Distribute(c: int, x: int, y: int)
    ensures c * (x + y) == c * x + c * y
  {
  }

  lemma MulMonotone(c: nat, x: nat, y: nat)
    requires x <= y
    ensures c * x <= c * y
  {
    Distribute(c, x, y - x);
  }
}
