/** The widths and limits of the machine and of the memory manager that decide outcomes here. */
module Machine {
  const INT_MAX := 0x7fff_ffff
  const INT_MIN := -0x8000_0000

  /** MaxAllocSize: palloc refuses to give more bytes. */
  const MAX_ALLOC_SIZE := 0x3fff_ffff

  predicate IsInt32(x: int) { INT_MIN <= x <= INT_MAX }

  /** A result stored in 32 bits. */
  function Wrap32(x: int): int { (x + 0x8000_0000) % 0x1_0000_0000 - 0x8000_0000 }

  lemma WrapSmall(x: int)
    requires IsInt32(x)
    ensures Wrap32(x) == x
  {
  }

  lemma WrapRange(x: int)
    ensures IsInt32(Wrap32(x))
  {
  }

  /** Adding up in 32 bits is adding up and cutting to 32 bits at the end. */
  lemma WrapAdd(x: int, y: int)
    ensures Wrap32(Wrap32(x) + y) == Wrap32(x + y)
  {
  }

  /** What is cut off is a multiple of two to the 32nd. */
  lemma WrapCutsMultiple(x: int)
    ensures exists n :: x == Wrap32(x) + n * 0x1_0000_0000
  {
    assert x == Wrap32(x) + (x + 0x8000_0000) / 0x1_0000_0000 * 0x1_0000_0000;
  }
}
