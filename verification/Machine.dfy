/** The integers of the language: signed, 64 bits, wrapping. */
module Machine {
  const MAX := 0x7FFF_FFFF_FFFF_FFFF
  const MIN := -0x8000_0000_0000_0000

  type Int64 = x: int | MIN <= x <= MAX

  /** What is left of a number in 64 bits. */
  function Wrap(x: int): int { (x + MAX + 1) % 0x1_0000_0000_0000_0000 - MAX - 1 }

  /** Exactly the numbers of 64 bits are left alone. */
  lemma WrapKeeps(x: int)
    ensures MIN <= Wrap(x) <= MAX
    ensures Wrap(x) == x <==> MIN <= x <= MAX
  {}

  lemma WrapNothing(x: int)
    requires 0 <= x <= MAX
    ensures Wrap(x) == x
  {}

  /** Wrapping early changes nothing of what is left in the end. */
  lemma WrapEarly(x: int, k: int, d: int)
    ensures Wrap(Wrap(x) * k + d) == Wrap(x * k + d)
  {
    var rounds := (x + MAX + 1) / 0x1_0000_0000_0000_0000;
    assert x == Wrap(x) + rounds * 0x1_0000_0000_0000_0000;
    assert x * k + d == Wrap(x) * k + d + rounds * k * 0x1_0000_0000_0000_0000;
    WrapRounds(Wrap(x) * k + d, rounds * k);
  }

  lemma WrapRounds(y: int, rounds: int)
    ensures Wrap(y + rounds * 0x1_0000_0000_0000_0000) == Wrap(y)
  {}
}
