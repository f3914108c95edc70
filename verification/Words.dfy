/** Unsigned 64-bit words with wrap-around, as Go's uint64 behaves. */
module Words {
  const TWO_TO_64: int := 0x1_0000_0000_0000_0000

  type U64 = x: int | 0 <= x < TWO_TO_64

  /** Wrapping addition, written with one conditional so that the solver stays linear. */
  function Plus(x: U64, y: U64): U64 {
    if x + y < TWO_TO_64 then x + y else x + y - TWO_TO_64
  }

  /** Wrapping subtraction. */
  function Minus(x: U64, y: U64): U64 {
    if y <= x then x - y else x - y + TWO_TO_64
  }

  /** The residue modulo 2^64. */
  function Mod64(n: int): U64 {
    n % 0x1_0000_0000_0000_0000
  }

  // Plus and Minus are the arithmetic of integers modulo 2^64.
  lemma WrapIsModular(x: U64, y: U64)
    ensures Plus(x, y) == Mod64(x + y)
    ensures Minus(x, y) == Mod64(x - y)
    ensures Plus(Minus(x, y), y) == x
  {
  }

  // Residues are unique.
  lemma ModUnique(a: int, q: int, r: int)
    requires a == q * 0x1_0000_0000_0000_0000 + r && 0 <= r < TWO_TO_64
    ensures Mod64(a) == r
  {
  }

  // Numbers below 2^64 are their own residues, and no others.
  lemma ModIsSame(n: nat)
    ensures Mod64(n) == n <==> n < TWO_TO_64
  {
  }

  // Replacing a term by its residue does not change the residue of a sum.
  lemma ModOfSum(x: U64, n: nat)
    ensures Plus(x, Mod64(n)) == Mod64(x + n)
  {
  }
}
