/** What several components share: 32-bit words, optional values, facts of division. */
module Words {

  const U32: nat := 0x1_0000_0000

  type Word = w: nat | w < U32

  datatype Option<+T> = None | Some(value: T)

  /** Conversion of an integer to a signed 32-bit value. */
  function Signed(x: int): (r: int)
    ensures -0x8000_0000 <= r < 0x8000_0000
  {
    (x + 0x8000_0000) % U32 - 0x8000_0000
  }

  /** Wrapping early or late makes no difference. */
  lemma Rewrap(x: int, y: int)
    ensures Signed(Signed(x) + y) == Signed(x + y)
    ensures -0x8000_0000 <= x < 0x8000_0000 ==> Signed(x) == x
  {
  }

  lemma DivMod(m: nat, n: nat)
    requires n > 0
    ensures (m / n) * n + m % n == m && 0 <= m % n < n
  {
  }

  lemma MulAtMost(a: nat, b: nat, p: nat)
    requires a <= b
    ensures a * p <= b * p
  {
  }
}
