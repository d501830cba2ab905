/** Machine words of 32 bits as numbers, and optional values. */
module BaseTypes {
  type Word = w: int | 0 <= w < 0x1_0000_0000

  datatype Option<T> = None | Some(value: T)

  /** A field with values below twice the limit, read as a signed number. */
  function Signed(x: nat, limit: nat): int {
    if x < limit then x else x - 2 * limit
  }

  lemma SignedRange(x: nat, limit: nat)
    requires x < 2 * limit
    ensures -(limit as int) <= Signed(x, limit) < limit
  {
  }
}
