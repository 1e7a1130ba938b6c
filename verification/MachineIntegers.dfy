/** The fixed-width integers of the tests, the unchecked casts between the two 32-bit
    types, and the unchecked increment.
 */
module MachineIntegers {

  type SByte = x: int | -0x80 <= x < 0x80
  type Int16 = x: int | -0x8000 <= x < 0x8000
  type Char16 = x: int | 0 <= x < 0x1_0000
  type Int32 = x: int | -0x8000_0000 <= x < 0x8000_0000
  type UInt32 = x: int | 0 <= x < 0x1_0000_0000
  type Int64 = x: int | -0x8000_0000_0000_0000 <= x < 0x8000_0000_0000_0000

  /** A cast to a signed type with `m` values keeps the low bits. */
  function Wrap(n: int, m: int): int
    requires m > 0
  {
    (n + m / 2) % m - m / 2
  }

  function ToInt32(n: int): Int32 {
    Wrap(n, 0x1_0000_0000)
  }

  function ToUInt32(i: Int32): UInt32 {
    if i >= 0 then i else i + 0x1_0000_0000
  }

  function Increment(x: Int32): Int32 {
    if x == 0x7fff_ffff then -0x8000_0000 else x + 1
  }

  /** A count as a 32-bit counter shows it. */
  function Wrapped(n: nat): Int32 {
    ToInt32(n)
  }

  lemma CastRoundTrip(u: UInt32)
    ensures ToUInt32(ToInt32(u)) == u
  {
  }

  lemma WrappedSteps(n: nat)
    ensures Wrapped(n + 1) == Increment(Wrapped(n))
  {
    var q, r := (n + 0x8000_0000) / 0x1_0000_0000, (n + 0x8000_0000) % 0x1_0000_0000;
    if r == 0xffff_ffff {
      assert n + 1 + 0x8000_0000 == (q + 1) * 0x1_0000_0000;
    } else {
      assert n + 1 + 0x8000_0000 == q * 0x1_0000_0000 + (r + 1);
    }
  }

  lemma WrappedSmall(n: nat)
    requires n < 0x8000_0000
    ensures Wrapped(n) == n
  {
  }
}
