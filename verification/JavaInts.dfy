/** The integer widths of the Java and C sources, written out on mathematical integers. */
module JavaInts {

  const TWO_31: int := 0x8000_0000
  const TWO_32: int := 0x1_0000_0000
  const TWO_63: int := 0x8000_0000_0000_0000
  const TWO_64: int := 0x1_0000_0000_0000_0000

  predicate IsInt(x: int) {
    -TWO_31 <= x < TWO_31
  }

  predicate IsLong(x: int) {
    -TWO_63 <= x < TWO_63
  }

  function Min(a: int, b: int): int {
    if a <= b then a else b
  }

  function Max(a: int, b: int): int {
    if a >= b then a else b
  }

  /** The low 32 bits of `x`, read as a two's-complement int. */
  function Wrap32(x: int): (r: int)
    ensures IsInt(r) && (r - x) % TWO_32 == 0
  {
    (x + TWO_31) % TWO_32 - TWO_31
  }

  /** The low 64 bits of `x`, read as a two's-complement long. */
  function Wrap64(x: int): (r: int)
    ensures IsLong(r) && (r - x) % TWO_64 == 0
  {
    (x + TWO_63) % TWO_64 - TWO_63
  }

  lemma WrapsKeep(x: int)
    ensures IsInt(x) ==> Wrap32(x) == x
    ensures IsLong(x) ==> Wrap64(x) == x
  {
  }

  lemma Wrap32Idempotent(x: int, y: int)
    ensures Wrap32(Wrap32(x) + y) == Wrap32(x + y)
  {
  }

  lemma Wrap64Idempotent(x: int, y: int)
    ensures Wrap64(Wrap64(x) + y) == Wrap64(x + y)
  {
  }
}
