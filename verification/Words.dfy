/**
 32-bit unsigned words and powers of two.
 */
module Words {

  const WORD := 0x1_0000_0000

  predicate IsWord(x: int) {
    0 <= x < WORD
  }

  // The value an operation leaves in a word.
  function Wrap(x: int): (r: int)
    ensures IsWord(r)
    ensures IsWord(x) ==> r == x
  {
    x % WORD
  }

  function Pow2(n: nat): (r: nat)
    ensures r > 0
  {
    if n == 0 then 1 else 2 * Pow2(n - 1)
  }

  // The quotient and the remainder are determined by what they satisfy.
  lemma Quotient(x: int, a: int, q: int, r: int)
    requires 0 <= r < a && x == q * a + r
    ensures x / a == q && x % a == r
  {
    var d := x / a - q;
    assert d * a == r - x % a;
    assert d >= 1 ==> d * a >= a;
    assert d <= -1 ==> d * a <= -a;
  }
}
