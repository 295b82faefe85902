/** Go's int64. */
module Int64 {
  const MIN_INT64 := -0x8000_0000_0000_0000
  const MAX_INT64 := 0x7fff_ffff_ffff_ffff

  predicate InRange(n: int) { MIN_INT64 <= n <= MAX_INT64 }

  /** The low 64 bits of n, read as two's complement. */
  function Wrap(n: int): int {
    var low := n % 0x1_0000_0000_0000_0000;
    if low > MAX_INT64 then low - 0x1_0000_0000_0000_0000 else low
  }

  /** Wrapping changes a number by a multiple of 2^64, into the range of int64, and leaves that range alone. */
  lemma WrapIs(n: int)
    ensures -9223372036854775808 <= Wrap(n) <= 9223372036854775807
    ensures (n - Wrap(n)) % 18446744073709551616 == 0
    ensures InRange(n) <==> -9223372036854775808 <= n <= 9223372036854775807
    ensures InRange(n) ==> Wrap(n) == n
  {
  }
}
