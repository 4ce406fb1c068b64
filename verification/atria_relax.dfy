/**
 * The modified Floyd-Warshall pass of `run` (src/lib.rs:197-229), written as
 * the code has it: inside block p every offset is taken with row stride p,
 * and an improvement is written with `Vec::insert`, which lengthens the
 * vector instead of overwriting the cell. Blocks run one after the other in
 * ascending order.
 */
module AtriaRelax {
  import opened AtriaGrid

  /**
   * The parity rule: on an even i + j the product replaces the cell when it
   * is larger, on an odd i + j when it is smaller.
   */
  predicate ParityImproves(evenOdd: nat, current: real, candidate: real)
  {
    (evenOdd % 2 == 0 && current < candidate) || (evenOdd % 2 == 1 && current > candidate)
  }

  /** Offsets x * stride + y stay below n * n while x, y and the stride are below n. */
  lemma StridedOffsetBelow(x: nat, y: nat, stride: nat, n: nat)
    requires x < n && y < n && stride < n
    ensures VecOffset(x, y, stride) < n * n
  {
    MulLe(x, n - 1, stride);
    MulLe(stride, n - 1, n - 1);
    assert (n - 1) * (n - 1) + (n - 1) == (n - 1) * n;
    MulLt(n - 1, n, n);
  }

  /** The body of the innermost loop, for the triple (k, i, j) in block p (the stride). */
  function RelaxCell(adj: seq<real>, n: nat, p: nat, k: nat, i: nat, j: nat): (r: seq<real>)
    requires |adj| >= n * n && i < n && j < n && k < n && p < n
    ensures |r| == |adj| || |r| == |adj| + 1
  {
    if i != j && j != k then
      StridedOffsetBelow(i, j, p, n);
      StridedOffsetBelow(i, k, p, n);
      StridedOffsetBelow(k, j, p, n);
      var current := VecOffset(i, j, p);
      var comperitor := adj[VecOffset(i, k, p)] * adj[VecOffset(k, j, p)];
      if ParityImproves(i + j, adj[current], comperitor) then Insert(adj, current, comperitor) else adj
    else
      adj
  }

  /**
   * A step changes nothing when i == j or j == k. Otherwise, when it fires,
   * the vector grows by exactly one, the product sits at offset i * p + j
   * (the old cell and everything after it move up one place), and the
   * product is strictly above the old cell on an even i + j and strictly
   * below it on an odd i + j.
   */
  lemma RelaxCellChanges(adj: seq<real>, n: nat, p: nat, k: nat, i: nat, j: nat)
    requires |adj| >= n * n && i < n && j < n && k < n && p < n
    ensures VecOffset(i, j, p) < |adj| && VecOffset(i, k, p) < |adj| && VecOffset(k, j, p) < |adj|
    ensures var r := RelaxCell(adj, n, p, k, i, j);
      var current := VecOffset(i, j, p);
      var product := adj[VecOffset(i, k, p)] * adj[VecOffset(k, j, p)];
      && ((i == j || j == k) ==> r == adj)
      && (r != adj ==>
        && |r| == |adj| + 1
        && r[current] == product
        && (forall x :: 0 <= x < current ==> r[x] == adj[x])
        && (forall x :: current <= x < |adj| ==> r[x + 1] == adj[x])
        && ((i + j) % 2 == 0 ==> product > adj[current])
        && ((i + j) % 2 == 1 ==> product < adj[current]))
  {
    StridedOffsetBelow(i, j, p, n);
    StridedOffsetBelow(i, k, p, n);
    StridedOffsetBelow(k, j, p, n);
    if i != j && j != k {
      InsertShifts(adj, VecOffset(i, j, p), adj[VecOffset(i, k, p)] * adj[VecOffset(k, j, p)]);
    }
  }

  lemma RelaxCellFires(adj: seq<real>, n: nat, p: nat, k: nat, i: nat, j: nat)
    requires |adj| >= n * n && i < n && j < n && k < n && p < n && i != j && j != k
    ensures VecOffset(i, j, p) < |adj| && VecOffset(i, k, p) < |adj| && VecOffset(k, j, p) < |adj|
    ensures var current := VecOffset(i, j, p);
      var comperitor := adj[VecOffset(i, k, p)] * adj[VecOffset(k, j, p)];
      RelaxCell(adj, n, p, k, i, j) == if ParityImproves(i + j, adj[current], comperitor) then Insert(adj, current, comperitor) else adj
  {
    StridedOffsetBelow(i, j, p, n);
    StridedOffsetBelow(i, k, p, n);
    StridedOffsetBelow(k, j, p, n);
  }

  /** The j loop `for j in min..max` after the iterations below j. */
  function RelaxJ(adj: seq<real>, n: nat, p: nat, k: nat, i: nat, j: nat): (r: seq<real>)
    requires |adj| >= n * n && InBlock(p, n, k) && InBlock(p, n, i)
    requires BlockStart(p) <= j <= BlockEnd(p, n)
    ensures |adj| <= |r|
    decreases j
  {
    if j == BlockStart(p) then adj
    else
      var r := RelaxJ(adj, n, p, k, i, j - 1);
      RelaxCell(r, n, p, k, i, j - 1)
  }

  /** The i loop after the iterations below i, each running the whole j loop. */
  function RelaxI(adj: seq<real>, n: nat, p: nat, k: nat, i: nat): (r: seq<real>)
    requires |adj| >= n * n && InBlock(p, n, k)
    requires BlockStart(p) <= i <= BlockEnd(p, n)
    ensures |adj| <= |r|
    decreases i
  {
    if i == BlockStart(p) then adj
    else RelaxJ(RelaxI(adj, n, p, k, i - 1), n, p, k, i - 1, BlockEnd(p, n))
  }

  /** The k loop of block p after the iterations below k. */
  function RelaxK(adj: seq<real>, n: nat, p: nat, k: nat): (r: seq<real>)
    requires |adj| >= n * n && BlockStart(p) <= k <= BlockEnd(p, n)
    ensures |adj| <= |r|
    decreases k
  {
    if k == BlockStart(p) then adj
    else RelaxI(RelaxK(adj, n, p, k - 1), n, p, k - 1, BlockEnd(p, n))
  }

  /** The blocks 0..q, in ascending order, each running its whole k loop. */
  function RelaxParts(adj: seq<real>, n: nat, q: nat): (r: seq<real>)
    requires |adj| >= n * n && q <= PartitionCount(n)
    ensures |adj| <= |r|
  {
    if q == 0 then adj
    else
      var r := RelaxParts(adj, n, q - 1);
      BlockShape(q - 1, n);
      RelaxK(r, n, q - 1, BlockEnd(q - 1, n))
  }

  /** The pass over all blocks, applied to the clone of the graph. */
  function Relaxed(graph: seq<real>, n: nat): (adj: seq<real>)
    requires |graph| >= n * n
    ensures |adj| >= |graph|
  {
    RelaxParts(graph, n, PartitionCount(n))
  }

  /**
   * The relaxation as nested loops on a local copy: blocks in ascending
   * order, then k, i, j, each `insert` lengthening the copy.
   */
  method Relax(graph: seq<real>, n: nat) returns (adj: seq<real>)
    requires |graph| >= n * n
    ensures adj == Relaxed(graph, n)
  {
    adj := graph;
    for p := 0 to PartitionCount(n)
      invariant adj == RelaxParts(graph, n, p)
    {
      BlockShape(p, n);
      adj := RelaxBlock(adj, n, p);
    }
  }

  /** The loops `for k in min..max { for i in min..max { ... } }` of block p. */
  method RelaxBlock(adj0: seq<real>, n: nat, p: nat) returns (adj: seq<real>)
    requires |adj0| >= n * n && BlockStart(p) <= BlockEnd(p, n)
    ensures adj == RelaxK(adj0, n, p, BlockEnd(p, n))
  {
    adj := adj0;
    var lo := p * 25;  // partition * PARTITION_SIZE
    var hi := if lo + 25 < n then lo + 25 else n;
    assert lo == BlockStart(p) && hi == BlockEnd(p, n);
    for k := lo to hi
      invariant adj == RelaxK(adj0, n, p, k)
    {
      ghost var beforeI := adj;
      for i := lo to hi
        invariant adj == RelaxI(beforeI, n, p, k, i)
      {
        adj := RelaxRow(adj, n, p, k, i);
      }
    }
  }

  /** The innermost loop `for j in min..max` of block p for fixed k and i. */
  method RelaxRow(adj0: seq<real>, n: nat, p: nat, k: nat, i: nat) returns (adj: seq<real>)
    requires |adj0| >= n * n && InBlock(p, n, k) && InBlock(p, n, i)
    ensures adj == RelaxJ(adj0, n, p, k, i, BlockEnd(p, n))
  {
    adj := adj0;
    var lo := p * 25;  // partition * PARTITION_SIZE
    var hi := if lo + 25 < n then lo + 25 else n;
    assert lo == BlockStart(p) && hi == BlockEnd(p, n);
    for j := lo to hi
      invariant adj == RelaxJ(adj0, n, p, k, i, j)
    {
      assert InBlock(p, n, j);
      adj := RelaxStep(adj, n, p, k, i, j);
    }
  }

  /** One pass of the innermost loop body: test the triple and insert the product when the parity rule says so. */
  method RelaxStep(adj0: seq<real>, n: nat, p: nat, k: nat, i: nat, j: nat) returns (adj: seq<real>)
    requires |adj0| >= n * n && i < n && j < n && k < n && p < n
    ensures adj == RelaxCell(adj0, n, p, k, i, j)
  {
    adj := adj0;
    if i != j && j != k {
      RelaxCellFires(adj, n, p, k, i, j);
      var evenOdd := i + j;
      var current := VecOffset(i, j, p);
      var currentNode := adj[current];
      var comperitor := adj[VecOffset(i, k, p)] * adj[VecOffset(k, j, p)];
      if ParityImproves(evenOdd, currentNode, comperitor) {
        adj := Insert(adj, current, comperitor);
      }
    }
  }
}
