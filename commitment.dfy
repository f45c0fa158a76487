/** src/commitment.rs: the evaluation point of data chunk i is a root of unity
    taken at a fixed stride through the FFT settings' roots. */
module Commitment {
  import opened Arith

  /** `(roots.len() - 1) / data_len`: the largest stride s with
      s·data_len <= roots.len() - 1. */
  function Stride(rootsLen: nat, dataLen: nat): (s: nat)
    requires rootsLen > 0 && dataLen > 0
    ensures s * dataLen <= rootsLen - 1 < (s + 1) * dataLen
  {
    (rootsLen - 1) / dataLen
  }

  /** For every chunk index below `data_len`, i·stride stays within the roots. */
  lemma StrideInBounds(rootsLen: nat, dataLen: nat, i: nat)
    requires rootsLen > 0 && dataLen > 0 && i < dataLen
    ensures i * Stride(rootsLen, dataLen) <= rootsLen - 1
  {
    var s := Stride(rootsLen, dataLen);
    MulMonotone(i, dataLen, s);
    assert i * s <= dataLen * s;
  }

  /** `get_point(settings, data_len, i)`: `roots[i * stride]`. The division
      panics for `data_len == 0` and the subtraction for an empty root list;
      every caller passes a chunk index below `data_len`, so the indexing
      stays in bounds. */
  function GetPoint(roots: seq<int>, dataLen: nat, i: nat): (x: int)
    requires |roots| > 0 && dataLen > 0 && i < dataLen
    ensures i * Stride(|roots|, dataLen) < |roots| && x == roots[i * Stride(|roots|, dataLen)]
    ensures x in roots
    ensures i == 0 ==> x == roots[0]
  {
    StrideInBounds(|roots|, dataLen, i);
    roots[i * Stride(|roots|, dataLen)]
  }

  /** With a stride of at least one, distinct chunks get distinct roots positions. */
  lemma DistinctChunksDistinctPositions(rootsLen: nat, dataLen: nat, i: nat, j: nat)
    requires rootsLen > dataLen > 0 && i != j
    ensures i * Stride(rootsLen, dataLen) != j * Stride(rootsLen, dataLen)
  {
    var s := Stride(rootsLen, dataLen);
    assert s >= 1;
    if i < j {
      MulMonotone(i + 1, j, s);
    } else {
      MulMonotone(j + 1, i, s);
    }
  }

  /** With more roots than chunks and pairwise distinct roots, distinct chunks
      are evaluated at distinct points. */
  lemma DistinctChunksDistinctPoints(roots: seq<int>, dataLen: nat, i: nat, j: nat)
    requires |roots| > dataLen > 0 && i < dataLen && j < dataLen && i != j
    requires forall p, q :: 0 <= p < q < |roots| ==> roots[p] != roots[q]
    ensures GetPoint(roots, dataLen, i) != GetPoint(roots, dataLen, j)
  {
    var s := Stride(|roots|, dataLen);
    DistinctChunksDistinctPositions(|roots|, dataLen, i, j);
    StrideInBounds(|roots|, dataLen, i);
    StrideInBounds(|roots|, dataLen, j);
    if i * s < j * s {
      assert roots[i * s] != roots[j * s];
    } else {
      assert roots[j * s] != roots[i * s];
    }
  }
}
