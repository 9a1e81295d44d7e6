/** Integers as the compiled program stores them. */
module Integers {

  function Min(a: int, b: int): int
  {
    if a <= b then a else b
  }

  function Max(a: int, b: int): int
  {
    if a >= b then a else b
  }

  lemma MinMax(a: int, b: int)
    ensures Min(a, b) <= a && Min(a, b) <= b && Min(a, b) in {a, b}
    ensures Max(a, b) >= a && Max(a, b) >= b && Max(a, b) in {a, b}
  {
  }

  /** What an `int` becomes when it is stored in a `char` (eight bits, signed). */
  function Char8(v: int): (c: int)
    ensures -128 <= c < 128 && (c == 0 <==> v % 256 == 0) && (-128 <= v < 128 ==> c == v)
  {
    (v + 128) % 256 - 128
  }

  /** What an `int` becomes when it is stored in a `short` (sixteen bits, signed). */
  function Short16(v: int): (s: int)
    ensures -32768 <= s < 32768 && (-32768 <= v < 32768 ==> s == v)
  {
    (v + 32768) % 65536 - 32768
  }

  /** The value and what is stored differ by a multiple of 256, which with the range says which it is. */
  lemma Char8Wraps(v: int)
    ensures (v - Char8(v)) % 256 == 0
  {
  }

  lemma Short16Wraps(v: int)
    ensures (v - Short16(v)) % 65536 == 0
  {
  }
}
