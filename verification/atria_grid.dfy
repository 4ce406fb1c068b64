/**
 * Shared vocabulary of src/lib.rs: the row-major flattening of an n x n
 * matrix into one vector, the blocks of `PARTITION_SIZE` = 25 indices the round loop works on,
 * the shifting `Vec::insert`, `fabsf` and the `f32::MAX` sentinel.
 * Weights are real numbers; rounding is not modelled.
 */
module AtriaGrid {

  /** The exact value of `f32::MAX`, the sentinel triad removal writes. */
  const F32_MAX: real := 340282346638528859811704183484516925440.0

  /** `fabsf`. */
  function Abs(x: real): real
  {
    if x < 0.0 then -x else x
  }

  /** `vec_offset(i, j, sz)`: where cell (i, j) of a matrix with rows of length sz lives. */
  function VecOffset(i: nat, j: nat, sz: nat): (r: nat)
    ensures i * sz <= r && (j < sz ==> r - i * sz < sz)
  {
    i * sz + j
  }

  lemma MulLe(a: nat, b: nat, c: nat)
    requires a <= b
    ensures a * c <= b * c
  {
  }

  lemma MulLt(a: nat, b: nat, c: nat)
    requires a < b && 0 < c
    ensures a * c < b * c
  {
  }

  /**
   * For i < n and j < sz the offset is below n * sz, and dividing it by sz
   * gives back i with remainder j.
   */
  lemma VecOffsetInverse(i: nat, j: nat, sz: nat, n: nat)
    requires i < n && j < sz
    ensures VecOffset(i, j, sz) < n * sz
    ensures VecOffset(i, j, sz) / sz == i && VecOffset(i, j, sz) % sz == j
  {
    MulLe(i + 1, n, sz);
    var r := VecOffset(i, j, sz);
    var q, m := r / sz, r % sz;
    assert r == q * sz + m;
    if q < i {
      MulLe(q + 1, i, sz);
      assert false;
    } else if q > i {
      MulLe(i + 1, q, sz);
      assert false;
    }
  }

  /** Two in-range cells never share an offset. */
  lemma VecOffsetInjective(i1: nat, j1: nat, i2: nat, j2: nat, sz: nat, n: nat)
    requires i1 < n && j1 < sz && i2 < n && j2 < sz
    requires VecOffset(i1, j1, sz) == VecOffset(i2, j2, sz)
    ensures i1 == i2 && j1 == j2
  {
    VecOffsetInverse(i1, j1, sz, n);
    VecOffsetInverse(i2, j2, sz, n);
  }

  /** The diagonal cells (x, x) of an n x n matrix lie at strictly increasing offsets. */
  lemma DiagonalIncreasing(x1: nat, x2: nat, n: nat)
    requires x1 < x2
    ensures VecOffset(x1, x1, n) < VecOffset(x2, x2, n)
  {
    MulLe(x1, x2, n);
  }

  /** `size / PARTITION_SIZE + 1`: the number of blocks (`PARTITION_SIZE` is 25). */
  function PartitionCount(n: nat): nat
  {
    n / 25 + 1
  }

  /** `partition * PARTITION_SIZE`. */
  function BlockStart(p: nat): nat
  {
    p * 25
  }

  /**
   * The end of block p within n indices. The relaxation writes it as
   * `if min + 25 < size { min + 25 } else { size }` and the removal as
   * `if min + 25 > size { size } else { min + 25 }`; both are min(min + 25, size).
   */
  function BlockEnd(p: nat, n: nat): nat
  {
    if BlockStart(p) + 25 < n then BlockStart(p) + 25 else n
  }

  /** x is one of the indices `min..max` of block p. */
  predicate InBlock(p: nat, n: nat, x: nat)
  {
    BlockStart(p) <= x < BlockEnd(p, n)
  }

  /** Every block is a range inside 0..n of width at most 25. */
  lemma BlockShape(p: nat, n: nat)
    requires p < PartitionCount(n)
    ensures BlockStart(p) <= BlockEnd(p, n) <= n
    ensures BlockEnd(p, n) - BlockStart(p) <= 25
  {
  }

  /** An index below n lies in block p exactly when p is its quotient by 25: the blocks are disjoint. */
  lemma InBlockIff(p: nat, n: nat, x: nat)
    requires x < n
    ensures InBlock(p, n, x) <==> p == x / 25
  {
  }

  /** The blocks cover 0..n: every index lies in one of the PartitionCount(n) blocks. */
  lemma BlocksCover(n: nat, x: nat)
    requires x < n
    ensures x / 25 < PartitionCount(n) && InBlock(x / 25, n, x)
  {
    InBlockIff(x / 25, n, x);
  }

  /** When 25 divides n the last block is empty. */
  lemma LastBlockEmpty(n: nat)
    requires n % 25 == 0
    ensures BlockStart(PartitionCount(n) - 1) == BlockEnd(PartitionCount(n) - 1, n) == n
  {
  }

  /** `Vec::insert(pos, v)`: shifts the elements from pos on one place up. */
  function Insert(s: seq<real>, pos: nat, v: real): (r: seq<real>)
    requires pos <= |s|
    ensures |r| == |s| + 1
  {
    s[..pos] + [v] + s[pos..]
  }

  /** The inserted value sits at pos, the prefix stays and the rest moves one place up. */
  lemma InsertShifts(s: seq<real>, pos: nat, v: real)
    requires pos <= |s|
    ensures var r := Insert(s, pos, v);
      && r[pos] == v
      && (forall x :: 0 <= x < pos ==> r[x] == s[x])
      && (forall x :: pos <= x < |s| ==> r[x + 1] == s[x])
  {
  }
}
