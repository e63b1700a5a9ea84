/**
 * The mask computer of the reject path: Go's uint32 arithmetic is modelled
 * with bv32, whose wrap-around and shift-by-32 behaviour match Go's.
 */
module Mask {
  import opened Wrappers

  /** Bit `i` (0 is the least significant) of `x` is set. */
  predicate Bit(x: bv32, i: bv32)
    requires i < 32
  {
    (x >> i) & 1 == 1
  }

  /**
   * generateBitSequence(n): a 32-bit word whose leftmost `n` bits are set and
   * whose other bits are clear. None stands for the panic on an `n` outside
   * [0, 32]. For n = 32, `1 << 32` is 0 in uint32 and 0 - 1 wraps to
   * 0xFFFFFFFF, so the full mask still comes out.
   */
  function GenerateBitSequence(n: int): (r: Option<bv32>)
    ensures r.None? <==> n < 0 || n > 32
    ensures r.Some? ==> forall i: bv32 :: i < 32 ==> (Bit(r.value, i) <==> i >= 32 - n as bv32)
    ensures n == 32 ==> r == Some(0xFFFF_FFFF)
    ensures n == 0 ==> r == Some(0)
  {
    if n < 0 || n > 32 then None
    else
      var k := n as bv32;
      var mask: bv32 := (1 << k) - 1;
      Some(mask << (32 - k))
  }

  /**
   * `num & generateBitSequence(n)`: the address with its low 32 - n host bits
   * cleared and its top n network bits kept; the identity for n = 32 and
   * 0.0.0.0 for n = 0.
   */
  function MaskAddress(num: bv32, n: int): (r: Option<bv32>)
    ensures r.None? <==> n < 0 || n > 32
    ensures r.Some? ==> forall i: bv32 :: i < 32 ==> (Bit(r.value, i) <==> i >= 32 - n as bv32 && Bit(num, i))
    ensures n == 32 ==> r == Some(num)
    ensures n == 0 ==> r == Some(0)
  {
    match GenerateBitSequence(n)
    case None => None
    case Some(mask) => Some(num & mask)
  }
}
