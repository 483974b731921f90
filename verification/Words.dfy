/** Arithmetic on 32-bit unsigned words, written out as residues of unbounded integers. */
module Words {

  const WORD := 0x1_0000_0000
  const HALF := 0x8000_0000

  type Word = x: int | 0 <= x < WORD

  /** The word a 32-bit register holds when the true value is x. */
  function Wrap(x: int): Word {
    x % WORD
  }

  lemma WrapSmall(x: Word)
    ensures Wrap(x) == x
  {
  }

  /** Two values less than 2^32 apart with the same word are the same value. */
  lemma WrapInjective(x: int, y: int)
    requires Wrap(x) == Wrap(y)
    requires -WORD < x - y < WORD
    ensures x == y
  {
    assert x == WORD * (x / WORD) + x % WORD;
    assert y == WORD * (y / WORD) + y % WORD;
  }

  /** The difference of two words is the word of the difference. */
  lemma WrapDifference(x: int, y: int)
    ensures Wrap(Wrap(x) - Wrap(y)) == Wrap(x - y)
  {
    var k := x / WORD - y / WORD;
    assert Wrap(x) - Wrap(y) + WORD * k == x - y;
    WrapShift(Wrap(x) - Wrap(y), k);
  }

  lemma WrapSum(x: int, y: int)
    ensures Wrap(Wrap(x) + y) == Wrap(x + y)
  {
    assert Wrap(x) + y + WORD * (x / WORD) == x + y;
    WrapShift(Wrap(x) + y, x / WORD);
  }

  lemma WrapShift(x: int, k: int)
    ensures Wrap(x + WORD * k) == Wrap(x)
  {
    var q, r := x / WORD, x % WORD;
    assert x + WORD * k == WORD * (q + k) + r;
  }
}
