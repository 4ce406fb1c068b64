/**
 * `ATriaPlugin` (src/lib.rs:73-99) and the two operations of it that the
 * model covers: `run` (src/lib.rs:178-312), the ATria round loop, and the
 * sorting and ranking part of `output` (src/lib.rs:314-352). The object keeps
 * the names of the nodes, the flattened weight matrix `orig_graph` and the
 * vector of recorded scores, and both operations update them in place.
 *
 * A round relaxes a copy of the graph (module AtriaRelax), computes one
 * payoff per node (AtriaPayoff), records the payoff of largest magnitude at
 * the index of its node, stops when that magnitude is 0, and otherwise
 * removes the triads around the node and sweeps the diagonal (AtriaRemoval).
 */
module AtriaPlugin {
  import opened AtriaGrid
  import opened AtriaRelax
  import opened AtriaPayoff
  import opened AtriaRemoval
  import opened AtriaReport

  /** The fields `run` changes, and whether its loop has stopped early. */
  datatype RunState = RunState(graph: seq<real>, output: seq<real>, stopped: bool)

  /** The node a round selects: the lowest index of largest payoff magnitude. */
  function Chosen(graph: seq<real>, n: nat): (m: nat)
    requires 1 <= n && |graph| >= n * n
    ensures m < n
  {
    var adj := Relaxed(graph, n);
    SelectionIsMax(PayoffsAfter(adj, n, n), n);
    Selection(PayoffsAfter(adj, n, n), n).0
  }

  /**
   * One pass of the round loop: the score of the selected node is inserted
   * at its index; a zero magnitude stops the loop, otherwise the triads
   * around the node are removed and the diagonal swept.
   */
  function Round(graph: seq<real>, output: seq<real>, n: nat): (r: RunState)
    requires 1 <= n && |graph| >= n * n && n <= |output| + 1
    ensures |r.graph| == |graph| && |r.output| == |output| + 1
  {
    var adj := Relaxed(graph, n);
    var pay := PayoffsAfter(adj, n, n);
    SelectionIsMax(pay, n);
    var (maxNode, maxPay) := Selection(pay, n);
    var recorded := Insert(output, maxNode, pay[maxNode]);
    if maxPay == 0.0 then RunState(graph, recorded, true)
    else RunState(SweepAfter(RemoveTriads(graph, n, maxNode), n, n), recorded, false)
  }

  /**
   * The state the loop `for _ in 0..size` reaches from (graph, output) with
   * `remaining` passes left: a pass that stops ends it.
   */
  function RunFrom(graph: seq<real>, output: seq<real>, n: nat, remaining: nat): (r: RunState)
    requires 1 <= n && |graph| >= n * n && n <= |output| + 1
    ensures |r.graph| == |graph| && |output| <= |r.output|
    decreases remaining
  {
    if remaining == 0 then RunState(graph, output, false)
    else
      var r := Round(graph, output, n);
      if r.stopped then r else RunFrom(r.graph, r.output, n, remaining - 1)
  }

  /** The whole of `run`: at most n passes (none for an empty graph). */
  function RunResult(graph: seq<real>, output: seq<real>, n: nat): RunState
    requires |graph| >= n * n && n <= |output| + 1
  {
    if n == 0 then RunState(graph, output, false) else RunFrom(graph, output, n, n)
  }

  /**
   * A round records the payoff of the chosen node at the chosen index. That
   * payoff has the largest magnitude of all n payoffs, every node before
   * the chosen one has a strictly smaller magnitude, and the round stops
   * exactly when all payoffs are zero, leaving the graph as it was.
   */
  lemma RoundRecords(graph: seq<real>, output: seq<real>, n: nat)
    requires 1 <= n && |graph| >= n * n && n <= |output| + 1
    ensures var adj, m := Relaxed(graph, n), Chosen(graph, n);
      && Round(graph, output, n).output == Insert(output, m, Payoff(adj, n, m))
      && (forall x :: 0 <= x < n ==> Abs(Payoff(adj, n, x)) <= Abs(Payoff(adj, n, m)))
      && (forall x :: 0 <= x < m ==> Abs(Payoff(adj, n, x)) < Abs(Payoff(adj, n, m)))
      && (Round(graph, output, n).stopped <==> forall x :: 0 <= x < n ==> Payoff(adj, n, x) == 0.0)
      && (Round(graph, output, n).stopped ==> Round(graph, output, n).graph == graph)
  {
    var adj := Relaxed(graph, n);
    var pay := PayoffsAfter(adj, n, n);
    PayoffsLayout(adj, n, n);
    SelectionIsMax(pay, n);
    SelectionZeroIff(pay, n);
    assert forall x :: 0 <= x < n ==> pay[x] == Payoff(adj, n, x);
  }

  /**
   * A round that goes on leaves `orig_graph` as long as before, with no
   * `f32::MAX` on the diagonal; each diagonal cell holds its old value or 0,
   * and each other cell its old value or `f32::MAX`.
   */
  lemma RoundRemoves(graph: seq<real>, output: seq<real>, n: nat)
    requires 1 <= n && |graph| >= n * n && n <= |output| + 1
    requires !Round(graph, output, n).stopped
    ensures forall x :: 0 <= x < n ==> VecOffset(x, x, n) < |graph|
    ensures var g := Round(graph, output, n).graph;
      && |g| == |graph|
      && (forall x :: 0 <= x < n ==> g[VecOffset(x, x, n)] != F32_MAX)
      && (forall x :: 0 <= x < n ==> g[VecOffset(x, x, n)] == graph[VecOffset(x, x, n)] || g[VecOffset(x, x, n)] == 0.0)
      && (forall y :: 0 <= y < |graph| && (forall x :: 0 <= x < n ==> y != VecOffset(x, x, n)) ==>
            g[y] == graph[y] || g[y] == F32_MAX)
  {
    var m := Chosen(graph, n);
    var removed := RemoveTriads(graph, n, m);
    RemoveTriadsMarks(graph, n, m);
    SweepClearsDiagonal(removed, n);
  }

  /**
   * Every executed pass records exactly one score: when all the remaining
   * passes run, `output` grows by their number; a loop that stopped did so
   * in one of them, having recorded between 1 and that many scores. The
   * graph keeps its length.
   */
  lemma {:induction false} RunFromRecordsOnce(graph: seq<real>, output: seq<real>, n: nat, remaining: nat)
    requires 1 <= n && |graph| >= n * n && n <= |output| + 1
    ensures var r := RunFrom(graph, output, n, remaining);
      && |r.graph| == |graph|
      && (!r.stopped ==> |r.output| == |output| + remaining)
      && (r.stopped ==> 1 <= |r.output| - |output| <= remaining)
    decreases remaining
  {
    if remaining > 0 {
      var r := Round(graph, output, n);
      assert |r.graph| == |graph| && |r.output| == |output| + 1;
      if r.stopped {
        assert RunFrom(graph, output, n, remaining) == r;
      } else {
        RunFromRecordsOnce(r.graph, r.output, n, remaining - 1);
        assert RunFrom(graph, output, n, remaining) == RunFrom(r.graph, r.output, n, remaining - 1);
      }
    }
  }

  /**
   * `run` ends either after n passes or early, in which case it recorded
   * between 1 and n scores; the graph keeps its length throughout.
   */
  lemma RunEnds(graph: seq<real>, output: seq<real>, n: nat)
    requires |graph| >= n * n && n <= |output| + 1
    ensures var r := RunResult(graph, output, n);
      && |r.graph| == |graph|
      && (!r.stopped ==> |r.output| == |output| + n)
      && (r.stopped ==> 1 <= |r.output| - |output| <= n)
  {
    if n > 0 {
      RunFromRecordsOnce(graph, output, n, n);
    }
  }

  /** The rows written after sorting: ordered by magnitude and rank, each the name and magnitude of one original entry. */
  lemma ReportOfSort(names: seq<string>, scores: seq<real>, n: nat)
    requires 1 <= n <= |names| && n <= |scores|
    ensures var s, perm := Sort(scores, names, n), Perm(scores, n);
      var rows := ReportRows(s.1, s.0, n);
      && (forall a, b :: 0 <= a < b < n - 1 ==> rows[a].1 >= rows[b].1 && rows[a].2 > rows[b].2)
      && (forall a :: 0 <= a < n - 1 ==> perm[a] < n && rows[a] == (names[perm[a]], Abs(scores[perm[a]]), n - a))
  {
    SortPermutes(scores, names, n);
    SortOrders(scores, names, n);
    var s := Sort(scores, names, n);
    ReportRanked(s.1, s.0, n);
  }

  /** The magnitudes `output` writes back into its first k entries. */
  function MagnitudesBelow(s: seq<real>, k: nat): (r: seq<real>)
    requires k <= |s|
    ensures |r| == |s|
  {
    seq(|s|, x requires 0 <= x < |s| => if x < k then Abs(s[x]) else s[x])
  }

  class ATriaPlugin {
    /** The node names, one per row of the matrix. */
    var bacteria: seq<string>
    /** The weight matrix, flattened row by row. */
    var origGraph: seq<real>
    /** The recorded centrality scores. */
    var output: seq<real>

    /** `Default::default`: everything empty. */
    constructor ()
      ensures bacteria == [] && origGraph == [] && output == []
    {
      bacteria := [];
      origGraph := [];
      output := [];
    }

    /** `size()`: the number of nodes. */
    function Size(): nat
      reads this
    {
      |bacteria|
    }

    /**
     * `run`: up to size passes of the round loop over `orig_graph`,
     * recording one score per pass and stopping after the pass whose best
     * magnitude is 0. The node names are not changed.
     */
    method Run()
      modifies this
      requires |origGraph| >= Size() * Size() && Size() <= |output| + 1
      ensures bacteria == old(bacteria)
      ensures origGraph == RunResult(old(origGraph), old(output), old(Size())).graph
      ensures output == RunResult(old(origGraph), old(output), old(Size())).output
    {
      var size := Size();
      ghost var graph0, output0 := origGraph, output;
      if size == 0 {
        return;
      }
      for round := 0 to size
        invariant bacteria == old(bacteria) && |origGraph| == |graph0| && |output0| <= |output|
        invariant RunFrom(origGraph, output, size, size - round) == RunResult(graph0, output0, size)
      {
        ghost var graph1, output1 := origGraph, output;
        var stop := RunRound();
        if stop {
          assert RunFrom(graph1, output1, size, size - round) == RunState(origGraph, output, true);
          break;
        }
      }
    }

    /**
     * One pass of the round loop: relax a copy, compute the payoffs, select
     * and record the best node, then stop or remove its triads and sweep.
     */
    method RunRound() returns (stop: bool)
      modifies this
      requires 1 <= Size() && |origGraph| >= Size() * Size() && Size() <= |output| + 1
      ensures bacteria == old(bacteria)
      ensures RunState(origGraph, output, stop) == Round(old(origGraph), old(output), old(Size()))
    {
      var size := Size();
      var adjGraph := Relax(origGraph, size);
      var outputPay := ComputePayoffs(adjGraph, size);
      var maxNode, maxPay := SelectMax(outputPay, size);
      output := Insert(output, maxNode, outputPay[maxNode]);
      if maxPay == 0.0 {
        return true;
      }
      TriadRemoval(maxNode);
      SweepDiagonal();
      return false;
    }

    /** Triad removal around maxNode, block by block in ascending order. */
    method TriadRemoval(maxNode: nat)
      modifies this
      requires 1 <= Size() && |origGraph| >= Size() * Size() && maxNode < Size()
      ensures bacteria == old(bacteria) && output == old(output)
      ensures origGraph == RemoveTriads(old(origGraph), old(Size()), maxNode)
    {
      var n := Size();
      ghost var graph0 := origGraph;
      var partitions := n / 25 + 1;  // size / PARTITION_SIZE + 1
      for partition := 0 to partitions
        invariant bacteria == old(bacteria) && output == old(output)
        invariant origGraph == RemoveParts(graph0, n, maxNode, partition)
      {
        PartFrame(origGraph, n, maxNode, partition);
        RemovePartition(n, maxNode, partition);
      }
    }

    /** The body run for one partition: its i loop, on the whole of `orig_graph`. */
    method RemovePartition(n: nat, maxNode: nat, partition: nat)
      modifies this
      requires Frame(origGraph, n, maxNode, partition)
      requires BlockStart(partition) <= BlockEnd(partition, |origGraph|)
      ensures bacteria == old(bacteria) && output == old(output)
      ensures origGraph == RemoveBlock(old(origGraph), n, maxNode, partition, BlockEnd(partition, |old(origGraph)|))
    {
      ghost var before := origGraph;
      var size := |origGraph|;  // `size` shadowed by `o_g.len()`
      var lo := partition * 25;  // partition * PARTITION_SIZE
      var hi := if lo + 25 > size then size else lo + 25;
      for i := lo to hi
        invariant bacteria == old(bacteria) && output == old(output)
        invariant origGraph == RemoveBlock(before, n, maxNode, partition, i)
      {
        origGraph := RemoveAtStep(origGraph, n, maxNode, partition, i);
      }
    }

    /** The sweep: every diagonal `f32::MAX` becomes 0. */
    method SweepDiagonal()
      modifies this
      requires |origGraph| >= Size() * Size()
      ensures bacteria == old(bacteria) && output == old(output)
      ensures origGraph == SweepAfter(old(origGraph), old(Size()), old(Size()))
    {
      var size := Size();
      ghost var graph0 := origGraph;
      for i := 0 to size
        invariant bacteria == old(bacteria) && output == old(output)
        invariant origGraph == SweepAfter(graph0, size, i)
      {
        VecOffsetInverse(i, i, size, size);
        if origGraph[VecOffset(i, i, size)] == F32_MAX {
          origGraph := origGraph[VecOffset(i, i, size) := 0.0];
        }
      }
    }

    /**
     * The part of `output` the model keeps: the paired bubble sort of the
     * scores and names, then the first size - 1 rows with the magnitude of
     * each score and its rank size - i; the magnitudes are also written back.
     */
    method Output() returns (rows: seq<(string, real, nat)>)
      modifies this
      requires 1 <= Size() <= |output|
      ensures origGraph == old(origGraph)
      ensures var sorted := Sort(old(output), old(bacteria), old(Size()));
        && bacteria == sorted.1
        && output == MagnitudesBelow(sorted.0, old(Size()) - 1)
        && rows == ReportRows(sorted.1, sorted.0, old(Size()))
    {
      var size := Size();
      ghost var output0, bacteria0 := output, bacteria;
      for i := size downto 0
        invariant origGraph == old(origGraph)
        invariant (output, bacteria) == SortFrom(output0, bacteria0, size, i)
      {
        ghost var before := (output, bacteria);
        for j := 0 to i
          invariant origGraph == old(origGraph)
          invariant (output, bacteria) == Pass(before.0, before.1, j)
        {
          if Abs(output[j]) < Abs(output[j + 1]) {
            output := Swap(output, j, j + 1);
            bacteria := Swap(bacteria, j, j + 1);
          }
        }
      }
      ghost var sorted := (output, bacteria);
      rows := [];
      for i := 0 to size - 1
        invariant origGraph == old(origGraph) && bacteria == sorted.1
        invariant output == MagnitudesBelow(sorted.0, i)
        invariant rows == ReportRows(sorted.1, sorted.0, size)[..i]
      {
        output := output[i := Abs(output[i])];
        rows := rows + [(bacteria[i], output[i], size - i)];
      }
    }
  }
}
