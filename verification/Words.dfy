/** Fixed-width unsigned arithmetic, written out over unbounded integers.

The source mixes four kinds of `u64` addition and subtraction: `checked_add`,
`saturating_add`/`saturating_sub`, and plain `+`/`-`, which wrap in a release build.
*/
module Words {
  const U64_MOD: nat := 0x1_0000_0000_0000_0000
  const U64_MAX: nat := 0xFFFF_FFFF_FFFF_FFFF
  const U32_MOD: nat := 0x1_0000_0000

  type u64 = x: int | 0 <= x < 0x1_0000_0000_0000_0000
  type u32 = x: int | 0 <= x < 0x1_0000_0000
  type u8 = x: int | 0 <= x < 256

  function Min(a: int, b: int): int {
    if a <= b then a else b
  }

  function Max(a: int, b: int): int {
    if a >= b then a else b
  }

  function Power(b: nat, n: nat): (r: nat)
    ensures b >= 1 ==> r >= 1
  {
    if n == 0 then 1 else b * Power(b, n - 1)
  }

  /** `a.saturating_add(b)` */
  function SatAdd(a: u64, b: u64): u64 {
    if a + b > U64_MAX then U64_MAX else a + b
  }

  /** `a.saturating_sub(b)` */
  function SatSub(a: u64, b: u64): u64 {
    if a < b then 0 else a - b
  }

  /** `a + b` on `u64` in a release build. */
  function WrapAdd(a: u64, b: u64): u64 {
    if a + b > U64_MAX then a + b - U64_MOD else a + b
  }

  /** `a - b` on `u64` in a release build. */
  function WrapSub(a: u64, b: u64): u64 {
    if a < b then a - b + U64_MOD else a - b
  }

  /** The elements of a sequence. */
  function Elements<T(==)>(s: seq<T>): set<T> {
    set x | x in s
  }

  datatype Option<+T> = None | Some(value: T)
}
