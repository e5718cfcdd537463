/** The machine that the kernel runs on, and what is common to the models of its parts. */
module Machine {

  type byte = x: int | 0 <= x < 256

  /** One more than the largest 32-bit number. */
  const WORD: nat := 0x1_0000_0000

  const PAGE: nat := 0x1000

  /** Arithmetic on 32-bit numbers wraps around. */
  function Wrap(n: int): (r: nat)
    ensures r < WORD
    ensures 0 <= n < WORD ==> r == n
  {
    n % WORD
  }

  function Max(a: int, b: int): int {
    if a < b then b else a
  }

  function Pow2(n: nat): (p: nat)
    ensures p > 0
  {
    if n == 0 then 1 else 2 * Pow2(n - 1)
  }

  lemma WordSize()
    ensures Pow2(32) == WORD
  {
    assert Pow2(8) == 0x100;
    assert Pow2(16) == 0x1_0000;
    assert Pow2(24) == 0x100_0000;
  }

  /** Where the source says one thing and does another, both are modelled: the code as it is written, and what
      its comments and callers mean it to do. */
  datatype Variant = AsWritten | Intended
}
