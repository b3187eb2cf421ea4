/** Sizes, alignment and the header/payload address arithmetic of the allocator. */
module Layout {

  /** 2^64: size_t arithmetic wraps modulo this. */
  const WORD: int := 0x1_0000_0000_0000_0000

  /** Values of type size_t. */
  type SizeT = x: int | 0 <= x < WORD

  /** sizeof(struct _block) on an LP64 target: size (8) + prev (8) + next (8) + free (1)
      + padding (3) = 28 bytes, rounded up to the 8-byte alignment of its pointers. */
  const H: nat := 32

  /** The null pointer. */
  const NULL: int := 0

  /** The size_t subtraction s - 1, which wraps to 2^64 - 1 when s is 0. */
  function Pred(s: SizeT): (r: SizeT)
  {
    (s - 1) % WORD
  }

  /** ALIGN4: clear the two low bits of s - 1 and add 4, all in size_t arithmetic.
      A request of 0, or one within 3 bytes of 2^64, wraps around to 0. */
  function Align4(s: SizeT): (r: SizeT)
    ensures r % 4 == 0
    ensures r == 0 <==> s == 0 || s > WORD - 4
    ensures 0 < s <= WORD - 4 ==> s <= r < s + 4
  {
    (Pred(s) / 4 * 4 + 4) % WORD
  }

  /** ALIGN4 gives the least multiple of 4 that is at least s, whenever it does not wrap. */
  lemma Align4IsLeast(s: SizeT, m: int)
    requires 0 < s <= WORD - 4
    requires m % 4 == 0 && s <= m
    ensures Align4(s) <= m
  {
  }

  /** BLOCK_DATA: the payload starts right after the header. */
  function BlockData(a: int): (p: int)
    ensures BlockHeader(p) == a
  {
    a + H
  }

  /** BLOCK_HEADER: the header sits right before the payload. */
  function BlockHeader(p: int): (a: int)
  {
    p - H
  }

  /** Recovering the header of a payload pointer and taking its payload again gives the pointer back. */
  lemma HeaderThenData(p: int)
    ensures BlockData(BlockHeader(p)) == p
  {
  }
}
