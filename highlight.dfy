/**
 * Shading of the lowest-ranked rows of the recommendations table: with
 * `min = min(3, size)`, a row of rank `rno` is shaded when `size - rno < min`.
 */
module Highlight {

  /** How many rows are shaded: three, or all of them when there are fewer. */
  function MinHighlighted(size: int): (m: int)
    ensures m <= 3 && m <= size
    ensures m == 3 || m == size
  {
    if 3 > size then size else 3
  }

  predicate IsLowerOrderRow(size: int, rno: int) {
    size - rno < MinHighlighted(size)
  }

  /** Number of shaded ranks among 1..k. */
  function HighlightedUpTo(size: int, k: nat): nat {
    if k == 0 then 0
    else HighlightedUpTo(size, k - 1) + (if IsLowerOrderRow(size, k) then 1 else 0)
  }

  /** For ranks 1..size, a row is shaded exactly when its rank is among the last min(3, size). */
  lemma LowerOrderRowsAreLast(size: nat, rno: int)
    requires 1 <= rno <= size
    ensures IsLowerOrderRow(size, rno) <==> rno > size - MinHighlighted(size)
  {
  }

  /** Among the ranks 1..k, the shaded ones are those above size - min(3, size). */
  lemma {:induction false} HighlightedCount(size: nat, k: nat)
    requires k <= size
    ensures HighlightedUpTo(size, k) ==
      if k <= size - MinHighlighted(size) then 0 else k - (size - MinHighlighted(size))
  {
    if k > 0 {
      HighlightedCount(size, k - 1);
    }
  }

  /** Exactly min(3, size) of the ranks 1..size are shaded. */
  lemma HighlightedTotal(size: nat)
    ensures HighlightedUpTo(size, size) == MinHighlighted(size)
    ensures 0 <= MinHighlighted(size) <= 3
  {
    HighlightedCount(size, size);
  }
}
