/** The fixed-width machine words the C++ code computes with, and the
    truncations its arithmetic performs. */
module Words {
  type byte = x: int | 0 <= x < 256
  type u32 = x: int | 0 <= x < 0x1_0000_0000
  type u64 = x: int | 0 <= x < 0x1_0000_0000_0000_0000
  type u128 = x: int | 0 <= x < 0x1_0000_0000_0000_0000_0000_0000_0000_0000

  function Wrap8(x: int): byte {
    x % 256
  }

  function Wrap32(x: int): u32 {
    x % 0x1_0000_0000
  }

  function Wrap64(x: int): u64 {
    x % 0x1_0000_0000_0000_0000
  }

  function Wrap128(x: int): u128 {
    x % 0x1_0000_0000_0000_0000_0000_0000_0000_0000
  }

  /** Zero bytes, which are zero digits in any base as well. */
  function Zeros(n: nat): (b: seq<byte>)
    ensures |b| == n && forall i :: 0 <= i < n ==> b[i] == 0
  {
    seq(n, _ => 0)
  }
}
