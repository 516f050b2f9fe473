/** Sizes and row positions that several components share. */
module Sizes {

  /** One more than the largest `uint32_t`. */
  const UINT32: nat := 0x1_0000_0000

  /** `DEFAULT_VECTOR_CAPACITY`. */
  const CAPACITY: nat := 2048

  ghost predicate Distinct(rows: seq<nat>) {
    forall i, j :: 0 <= i < j < |rows| ==> rows[i] != rows[j]
  }

  /** Consecutive rows. */
  function Upto(from: nat, n: nat): (r: seq<nat>)
    ensures |r| == n && forall i :: 0 <= i < n ==> r[i] == from + i
  {
    seq(n, i requires 0 <= i => from + i)
  }
}
