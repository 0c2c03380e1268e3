/** Types shared by the models of both runtime templates. */
module Common {

  datatype Option<+T> = None | Some(value: T)

  newtype byte = x: int | 0 <= x < 256

  type Account = nat

  /** A 160-bit address, most significant byte first. */
  type H160 = s: seq<byte> | |s| == 20 witness seq(20, i => 0)

  function Last<T>(s: seq<T>): T
    requires s != []
  {
    s[|s| - 1]
  }

  const U32_LIMIT: nat := 0x1_0000_0000
  const U64_LIMIT: nat := 0x1_0000_0000_0000_0000
  const U128_LIMIT: nat := 0x1_0000_0000_0000_0000_0000_0000_0000_0000

  type u8 = x: nat | x < 256
  type u32 = x: nat | x < U32_LIMIT
  type u64 = x: nat | x < U64_LIMIT
  type u128 = x: nat | x < U128_LIMIT

  function Wrap32(n: nat): u32 { n % 0x1_0000_0000 }

  /** Wrapping addition. */
  function WrappingAdd(a: u32, b: u32): u32 { if a + b < U32_LIMIT then a + b else a + b - U32_LIMIT }

  function Wrap128(n: nat): u128 { n % 0x1_0000_0000_0000_0000_0000_0000_0000_0000 }

  /** What an integer overflow does: a build with overflow checks panics, one without wraps. */
  datatype Overflow = Checked | Wrapping
}
