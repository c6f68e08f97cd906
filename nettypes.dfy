/** The C# value types the core uses, with their ranges made explicit. */
module NetTypes {
  const INT_MIN: int := -0x8000_0000
  const INT_MAX: int := 0x7fff_ffff

  /** C# `int`. */
  type Int32 = x: int | INT_MIN <= x <= INT_MAX
  /** C# `ushort`. */
  type UShort = x: int | 0 <= x < 0x1_0000
  /** C# `byte`. */
  type Byte = x: int | 0 <= x < 0x100

  /** `x++` on a C# `int` (unchecked arithmetic): wraps from `int.MaxValue` to `int.MinValue`. */
  function Inc32(x: Int32): Int32
  {
    if x == INT_MAX then INT_MIN else x + 1
  }

  /** `n` successive `x++`. */
  function IncN(x: Int32, n: nat): Int32
  {
    if n == 0 then x else Inc32(IncN(x, n - 1))
  }

  /** Below `int.MaxValue` the increments are plain additions: `n` increments from `x` give `x + n`. */
  lemma {:induction false} IncNNoWrap(x: Int32, n: nat)
    requires x + n <= INT_MAX
    ensures IncN(x, n) == x + n
  {
    if n > 0 {
      IncNNoWrap(x, n - 1);
    }
  }
}
