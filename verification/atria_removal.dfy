/**
 * Triad removal and the diagonal sweep of `run` (src/lib.rs:256-308), as the
 * code has them: inside block p offsets use row stride p, the block end is
 * taken against the length of `orig_graph` (which shadows `size`), the
 * selected node is compared with `i / 2` and `j / 2`, the j loop stays
 * inside the block, and every write stores `f32::MAX`. Blocks run one after
 * the other in ascending order.
 */
module AtriaRemoval {
  import opened AtriaGrid

  /**
   * What every removal step relies on: the vector covers the n x n matrix,
   * the selected node is a node, and p is one of the `size / 25 + 1` blocks.
   */
  predicate Frame(o: seq<real>, n: nat, maxNode: nat, p: nat)
  {
    1 <= n && |o| >= n * n && maxNode < n && p < PartitionCount(n)
  }

  /**
   * Offsets x * p + y taken inside a block stay in range: for p >= 1 the
   * block lies below n + 25 and n >= 25, so x * p + y < n * n; for p == 0
   * the offset is y itself.
   */
  lemma RemovalOffsetBelow(o: seq<real>, n: nat, maxNode: nat, p: nat, x: nat, y: nat)
    requires Frame(o, n, maxNode, p)
    requires x <= n + 24 && y <= n + 24 && y < |o|
    ensures VecOffset(x, y, p) < |o|
  {
    if p >= 1 {
      assert 25 * p <= n;
      MulLe(x, 2 * n, p);
      assert x * p + y <= n * (2 * p + 2);
      MulLt(2 * p + 2, n, n);
    }
  }

  /** Inside block p every index is at most n + 24 and below |o|. */
  lemma BlockIndexBelow(o: seq<real>, n: nat, maxNode: nat, p: nat, x: nat)
    requires Frame(o, n, maxNode, p) && InBlock(p, |o|, x)
    ensures x <= n + 24 && x < |o|
  {
  }

  /**
   * The second row of the selected node, maxNode + 1, is only addressed
   * after `i / 2 != max_node`; then it is a valid index (for n == 1 the test
   * forces i >= 2).
   */
  lemma NextRowBelow(o: seq<real>, n: nat, maxNode: nat, i: nat)
    requires 1 <= n && |o| >= n * n && maxNode < n && i < |o| && i / 2 != maxNode
    ensures maxNode + 1 < |o|
  {
    if n >= 2 {
      MulLe(2, n, n);
    }
  }

  /** The four offsets the j loop body reads or writes are inside the vector. */
  lemma CellOffsetsBelow(o: seq<real>, n: nat, maxNode: nat, p: nat, i: nat, j: nat)
    requires Frame(o, n, maxNode, p) && InBlock(p, |o|, i) && InBlock(p, |o|, j)
    ensures VecOffset(maxNode, j, p) < |o| && VecOffset(maxNode + 1, j, p) < |o|
    ensures VecOffset(i, j, p) < |o| && VecOffset(j, i, p) < |o|
  {
    BlockIndexBelow(o, n, maxNode, p, i);
    BlockIndexBelow(o, n, maxNode, p, j);
    RemovalOffsetBelow(o, n, maxNode, p, maxNode, j);
    RemovalOffsetBelow(o, n, maxNode, p, maxNode + 1, j);
    RemovalOffsetBelow(o, n, maxNode, p, i, j);
    RemovalOffsetBelow(o, n, maxNode, p, j, i);
  }

  /** The two cells the i loop body tests before its j loop are inside the vector. */
  lemma RowOffsetsBelow(o: seq<real>, n: nat, maxNode: nat, p: nat, i: nat)
    requires Frame(o, n, maxNode, p) && InBlock(p, |o|, i)
    ensures VecOffset(maxNode, i, p) < |o| && VecOffset(maxNode + 1, i, p) < |o|
  {
    BlockIndexBelow(o, n, maxNode, p, i);
    RemovalOffsetBelow(o, n, maxNode, p, maxNode, i);
    RemovalOffsetBelow(o, n, maxNode, p, maxNode + 1, i);
  }

  /** Once `i / 2 != max_node`, the mirrored cells (i, max_node) and (i, max_node + 1) are inside too. */
  lemma MirrorOffsetsBelow(o: seq<real>, n: nat, maxNode: nat, p: nat, i: nat)
    requires Frame(o, n, maxNode, p) && InBlock(p, |o|, i) && i / 2 != maxNode
    ensures VecOffset(i, maxNode, p) < |o| && VecOffset(i, maxNode + 1, p) < |o|
  {
    BlockIndexBelow(o, n, maxNode, p, i);
    NextRowBelow(o, n, maxNode, i);
    RemovalOffsetBelow(o, n, maxNode, p, i, maxNode);
    RemovalOffsetBelow(o, n, maxNode, p, i, maxNode + 1);
  }

  /** Store `f32::MAX` at offsets a and b, in that order. */
  function Mark(o: seq<real>, a: nat, b: nat): (r: seq<real>)
    requires a < |o| && b < |o|
    ensures |r| == |o|
  {
    o[a := F32_MAX][b := F32_MAX]
  }

  /** The body of the j loop: mark the pair (i, j) and (j, i) when j is a neighbour of the selected node. */
  function RemoveCell(o: seq<real>, n: nat, maxNode: nat, p: nat, i: nat, j: nat): (r: seq<real>)
    requires Frame(o, n, maxNode, p) && InBlock(p, |o|, i) && InBlock(p, |o|, j)
    ensures |r| == |o|
  {
    CellOffsetsBelow(o, n, maxNode, p, i, j);
    if j / 2 != maxNode
      && ((o[VecOffset(maxNode, j, p)] != 0.0 || o[VecOffset(maxNode + 1, j, p)] != 0.0)
        && o[VecOffset(i, j, p)] != 0.0)
    then Mark(o, VecOffset(i, j, p), VecOffset(j, i, p))
    else o
  }

  /** The j loop after the iterations below j. */
  function RemoveRow(o: seq<real>, n: nat, maxNode: nat, p: nat, i: nat, j: nat): (r: seq<real>)
    requires Frame(o, n, maxNode, p) && InBlock(p, |o|, i)
    requires BlockStart(p) <= j <= BlockEnd(p, |o|)
    ensures |r| == |o|
    decreases j
  {
    if j == BlockStart(p) then o
    else RemoveCell(RemoveRow(o, n, maxNode, p, i, j - 1), n, maxNode, p, i, j - 1)
  }

  /**
   * The body of the i loop: when i is a neighbour of the selected node
   * (through either of its two rows), run the j loop, then mark the edges
   * between i and both rows of the selected node that are nonzero.
   */
  function RemoveAt(o: seq<real>, n: nat, maxNode: nat, p: nat, i: nat): (r: seq<real>)
    requires Frame(o, n, maxNode, p) && InBlock(p, |o|, i)
    ensures |r| == |o|
  {
    RowOffsetsBelow(o, n, maxNode, p, i);
    if i / 2 != maxNode && (o[VecOffset(maxNode, i, p)] != 0.0 || o[VecOffset(maxNode + 1, i, p)] != 0.0) then
      MirrorOffsetsBelow(o, n, maxNode, p, i);
      var o1 := RemoveRow(o, n, maxNode, p, i, BlockEnd(p, |o|));
      var o2 := if o1[VecOffset(maxNode, i, p)] != 0.0 then Mark(o1, VecOffset(maxNode, i, p), VecOffset(i, maxNode, p)) else o1;
      if o2[VecOffset(maxNode + 1, i, p)] != 0.0 then Mark(o2, VecOffset(maxNode + 1, i, p), VecOffset(i, maxNode + 1, p)) else o2
    else
      o
  }

  /** The i loop of block p after the iterations below i. */
  function RemoveBlock(o: seq<real>, n: nat, maxNode: nat, p: nat, i: nat): (r: seq<real>)
    requires Frame(o, n, maxNode, p) && BlockStart(p) <= i <= BlockEnd(p, |o|)
    ensures |r| == |o|
    decreases i
  {
    if i == BlockStart(p) then o
    else RemoveAt(RemoveBlock(o, n, maxNode, p, i - 1), n, maxNode, p, i - 1)
  }

  /** Every block of the removal starts inside the vector. */
  lemma PartFrame(o: seq<real>, n: nat, maxNode: nat, p: nat)
    requires 1 <= n && |o| >= n * n && maxNode < n && p < PartitionCount(n)
    ensures Frame(o, n, maxNode, p) && BlockStart(p) <= BlockEnd(p, |o|)
  {
    MulLe(1, n, n);
  }

  /** The blocks 0..q, in ascending order. */
  function RemoveParts(o: seq<real>, n: nat, maxNode: nat, q: nat): (r: seq<real>)
    requires 1 <= n && |o| >= n * n && maxNode < n && q <= PartitionCount(n)
    ensures |r| == |o|
  {
    if q == 0 then o
    else
      var r := RemoveParts(o, n, maxNode, q - 1);
      PartFrame(r, n, maxNode, q - 1);
      RemoveBlock(r, n, maxNode, q - 1, BlockEnd(q - 1, |r|))
  }

  /** Triad removal around the selected node over all blocks. */
  function RemoveTriads(o: seq<real>, n: nat, maxNode: nat): (r: seq<real>)
    requires 1 <= n && |o| >= n * n && maxNode < n
    ensures |r| == |o|
  {
    RemoveParts(o, n, maxNode, PartitionCount(n))
  }

  /** r differs from o only in cells that now hold `f32::MAX`. */
  predicate MarksOnly(o: seq<real>, r: seq<real>)
  {
    |r| == |o| && forall x :: 0 <= x < |o| ==> r[x] == o[x] || r[x] == F32_MAX
  }

  lemma MarksOnlyTrans(a: seq<real>, b: seq<real>, c: seq<real>)
    requires MarksOnly(a, b) && MarksOnly(b, c)
    ensures MarksOnly(a, c)
  {
  }

  lemma MarkMarks(o: seq<real>, a: nat, b: nat)
    requires a < |o| && b < |o|
    ensures MarksOnly(o, Mark(o, a, b))
  {
  }

  lemma RemoveCellMarks(o: seq<real>, n: nat, maxNode: nat, p: nat, i: nat, j: nat)
    requires Frame(o, n, maxNode, p) && InBlock(p, |o|, i) && InBlock(p, |o|, j)
    ensures MarksOnly(o, RemoveCell(o, n, maxNode, p, i, j))
  {
    CellOffsetsBelow(o, n, maxNode, p, i, j);
    MarkMarks(o, VecOffset(i, j, p), VecOffset(j, i, p));
  }

  lemma {:induction false} RemoveRowMarks(o: seq<real>, n: nat, maxNode: nat, p: nat, i: nat, j: nat)
    requires Frame(o, n, maxNode, p) && InBlock(p, |o|, i)
    requires BlockStart(p) <= j <= BlockEnd(p, |o|)
    ensures MarksOnly(o, RemoveRow(o, n, maxNode, p, i, j))
  {
    if j > BlockStart(p) {
      RemoveRowMarks(o, n, maxNode, p, i, j - 1);
      var r := RemoveRow(o, n, maxNode, p, i, j - 1);
      RemoveCellMarks(r, n, maxNode, p, i, j - 1);
      MarksOnlyTrans(o, r, RemoveCell(r, n, maxNode, p, i, j - 1));
    }
  }

  lemma RemoveAtMarks(o: seq<real>, n: nat, maxNode: nat, p: nat, i: nat)
    requires Frame(o, n, maxNode, p) && InBlock(p, |o|, i)
    ensures MarksOnly(o, RemoveAt(o, n, maxNode, p, i))
  {
    RowOffsetsBelow(o, n, maxNode, p, i);
    if i / 2 != maxNode && (o[VecOffset(maxNode, i, p)] != 0.0 || o[VecOffset(maxNode + 1, i, p)] != 0.0) {
      MirrorOffsetsBelow(o, n, maxNode, p, i);
      var o1 := RemoveRow(o, n, maxNode, p, i, BlockEnd(p, |o|));
      RemoveRowMarks(o, n, maxNode, p, i, BlockEnd(p, |o|));
      var a, b := VecOffset(maxNode, i, p), VecOffset(i, maxNode, p);
      var c, d := VecOffset(maxNode + 1, i, p), VecOffset(i, maxNode + 1, p);
      var o2 := if o1[a] != 0.0 then Mark(o1, a, b) else o1;
      MarkMarks(o1, a, b);
      MarksOnlyTrans(o, o1, o2);
      MarkMarks(o2, c, d);
      var o3 := if o2[c] != 0.0 then Mark(o2, c, d) else o2;
      MarksOnlyTrans(o, o2, o3);
      assert RemoveAt(o, n, maxNode, p, i) == o3;
    }
  }

  lemma {:induction false} RemoveBlockMarks(o: seq<real>, n: nat, maxNode: nat, p: nat, i: nat)
    requires Frame(o, n, maxNode, p) && BlockStart(p) <= i <= BlockEnd(p, |o|)
    ensures MarksOnly(o, RemoveBlock(o, n, maxNode, p, i))
  {
    if i > BlockStart(p) {
      RemoveBlockMarks(o, n, maxNode, p, i - 1);
      var r := RemoveBlock(o, n, maxNode, p, i - 1);
      RemoveAtMarks(r, n, maxNode, p, i - 1);
      MarksOnlyTrans(o, r, RemoveAt(r, n, maxNode, p, i - 1));
    }
  }

  lemma {:induction false} RemovePartsMarks(o: seq<real>, n: nat, maxNode: nat, q: nat)
    requires 1 <= n && |o| >= n * n && maxNode < n && q <= PartitionCount(n)
    ensures MarksOnly(o, RemoveParts(o, n, maxNode, q))
  {
    if q > 0 {
      RemovePartsMarks(o, n, maxNode, q - 1);
      var r := RemoveParts(o, n, maxNode, q - 1);
      PartFrame(r, n, maxNode, q - 1);
      RemoveBlockMarks(r, n, maxNode, q - 1, BlockEnd(q - 1, |r|));
      MarksOnlyTrans(o, r, RemoveBlock(r, n, maxNode, q - 1, BlockEnd(q - 1, |r|)));
    }
  }

  /**
   * Triad removal only assigns: the length of `orig_graph` is unchanged and
   * every cell it changes now holds `f32::MAX`.
   */
  lemma RemoveTriadsMarks(o: seq<real>, n: nat, maxNode: nat)
    requires 1 <= n && |o| >= n * n && maxNode < n
    ensures var r := RemoveTriads(o, n, maxNode);
      |r| == |o| && forall x :: 0 <= x < |o| ==> r[x] == o[x] || r[x] == F32_MAX
  {
    RemovePartsMarks(o, n, maxNode, PartitionCount(n));
  }

  /** The sweep `for i in 0..size` after the iterations below i: a diagonal `f32::MAX` becomes 0. */
  function SweepAfter(o: seq<real>, n: nat, i: nat): (r: seq<real>)
    requires |o| >= n * n && i <= n
    ensures |r| == |o|
  {
    if i == 0 then o
    else
      var r := SweepAfter(o, n, i - 1);
      VecOffsetInverse(i - 1, i - 1, n, n);
      var d := VecOffset(i - 1, i - 1, n);
      if r[d] == F32_MAX then r[d := 0.0] else r
  }

  lemma {:induction false} SweepAfterEffect(o: seq<real>, n: nat, i: nat)
    requires |o| >= n * n && i <= n
    ensures forall x :: 0 <= x < n ==> VecOffset(x, x, n) < |o|
    ensures var r := SweepAfter(o, n, i);
      && (forall x :: 0 <= x < i ==>
        r[VecOffset(x, x, n)] == if o[VecOffset(x, x, n)] == F32_MAX then 0.0 else o[VecOffset(x, x, n)])
      && (forall y :: 0 <= y < |o| && (forall x :: 0 <= x < i ==> y != VecOffset(x, x, n)) ==> r[y] == o[y])
  {
    forall x | 0 <= x < n
      ensures VecOffset(x, x, n) < |o|
    {
      VecOffsetInverse(x, x, n, n);
    }
    if i > 0 {
      SweepAfterEffect(o, n, i - 1);
      forall x | 0 <= x < i - 1
        ensures VecOffset(x, x, n) < VecOffset(i - 1, i - 1, n)
      {
        DiagonalIncreasing(x, i - 1, n);
      }
    }
  }

  /**
   * After the sweep no diagonal cell holds `f32::MAX`: those that held it
   * hold 0, the others keep their value, and every other cell is untouched.
   */
  lemma SweepClearsDiagonal(o: seq<real>, n: nat)
    requires |o| >= n * n
    ensures forall x :: 0 <= x < n ==> VecOffset(x, x, n) < |o|
    ensures var r := SweepAfter(o, n, n);
      && (forall x :: 0 <= x < n ==> r[VecOffset(x, x, n)] != F32_MAX)
      && (forall x :: 0 <= x < n ==>
        r[VecOffset(x, x, n)] == if o[VecOffset(x, x, n)] == F32_MAX then 0.0 else o[VecOffset(x, x, n)])
      && (forall y :: 0 <= y < |o| && (forall x :: 0 <= x < n ==> y != VecOffset(x, x, n)) ==> r[y] == o[y])
  {
    SweepAfterEffect(o, n, n);
  }

  /** The j loop of the removal for one i, on a vector value. */
  method RemoveRowLoop(o0: seq<real>, n: nat, maxNode: nat, p: nat, i: nat) returns (o: seq<real>)
    requires Frame(o0, n, maxNode, p) && InBlock(p, |o0|, i)
    ensures o == RemoveRow(o0, n, maxNode, p, i, BlockEnd(p, |o0|))
  {
    o := o0;
    var size := |o|;
    var lo := p * 25;  // partition * PARTITION_SIZE
    var hi := if lo + 25 > size then size else lo + 25;
    for j := lo to hi
      invariant o == RemoveRow(o0, n, maxNode, p, i, j)
    {
      CellOffsetsBelow(o, n, maxNode, p, i, j);
      if j / 2 != maxNode
        && ((o[VecOffset(maxNode, j, p)] != 0.0 || o[VecOffset(maxNode + 1, j, p)] != 0.0)
          && o[VecOffset(i, j, p)] != 0.0)
      {
        o := o[VecOffset(i, j, p) := F32_MAX];
        o := o[VecOffset(j, i, p) := F32_MAX];
      }
    }
  }

  /** The body of the removal's i loop, on a vector value. */
  method RemoveAtStep(o0: seq<real>, n: nat, maxNode: nat, p: nat, i: nat) returns (o: seq<real>)
    requires Frame(o0, n, maxNode, p) && InBlock(p, |o0|, i)
    ensures o == RemoveAt(o0, n, maxNode, p, i)
  {
    o := o0;
    RowOffsetsBelow(o, n, maxNode, p, i);
    if i / 2 != maxNode && (o[VecOffset(maxNode, i, p)] != 0.0 || o[VecOffset(maxNode + 1, i, p)] != 0.0) {
      MirrorOffsetsBelow(o, n, maxNode, p, i);
      o := RemoveRowLoop(o, n, maxNode, p, i);
      if o[VecOffset(maxNode, i, p)] != 0.0 {
        o := o[VecOffset(maxNode, i, p) := F32_MAX];
        o := o[VecOffset(i, maxNode, p) := F32_MAX];
      }
      if o[VecOffset(maxNode + 1, i, p)] != 0.0 {
        o := o[VecOffset(maxNode + 1, i, p) := F32_MAX];
        o := o[VecOffset(i, maxNode + 1, p) := F32_MAX];
      }
    }
  }
}
