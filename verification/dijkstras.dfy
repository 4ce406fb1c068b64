/**
 * src/dijkstras.rs: single-source shortest paths over a dense matrix in which
 * an infinite weight means "no edge". Both routines are proved to compute the
 * functions of module ShortestPaths, whose properties are proved there.
 */
module Dijkstras {
  import opened Distances
  import opened ShortestPaths

  /**
   * `min_distance`: the last unprocessed vertex among those of least distance,
   * or 0 when every vertex is processed.
   */
  method MinDistance(distance: seq<Dist>, processed: seq<bool>) returns (index: nat)
    requires |distance| <= |processed|
    ensures index == MinIndex(distance, processed)
    ensures (forall v :: 0 <= v < |distance| ==> processed[v]) ==> index == 0
    ensures (exists v :: 0 <= v < |distance| && !processed[v]) ==>
      && index < |distance| && !processed[index]
      && (forall v :: 0 <= v < |distance| && !processed[v] ==> LessEq(distance[index], distance[v]))
      && (forall v :: index < v < |distance| && !processed[v] ==> Less(distance[index], distance[v]))
  {
    var min := Inf;
    index := 0;
    for i := 0 to |distance|
      invariant (min, index) == MinScan(distance, processed, i)
    {
      if !processed[i] && LessEq(distance[i], min) {
        min := distance[i];
        index := i;
      }
    }
    MinIndexSelects(distance, processed);
  }

  /**
   * `dijkstras`: |graph| - 1 rounds, each selecting a vertex, marking it
   * processed and relaxing every edge out of it whose weight is not infinite.
   * The source must be a vertex (which also rules out the empty graph, where
   * `size - 1` underflows).
   */
  method Dijkstras(graph: Matrix, source: nat) returns (distances: seq<Dist>)
    requires IsGraph(graph) && source < |graph|
    ensures distances == ShortestDistances(graph, NotInfinite, source)
    ensures |distances| == |graph| && distances[source] == Fin(0.0)
  {
    var size := |graph|;
    distances := seq(size, _ => Inf);
    var isProcessed := seq(size, _ => false);
    distances := distances[source := Fin(0.0)];
    for count := 0 to size - 1
      invariant Search(distances, isProcessed) == Rounds(graph, NotInfinite, source, count)
    {
      distances, isProcessed := ProcessNext(graph, distances, isProcessed);
    }
  }

  /**
   * One iteration of the counting loop: select u, mark it processed, then
   * the loop `for v in 0..size` relaxes every edge out of u whose weight is not infinite.
   */
  method ProcessNext(graph: Matrix, distances0: seq<Dist>, isProcessed0: seq<bool>)
    returns (distances: seq<Dist>, isProcessed: seq<bool>)
    requires IsGraph(graph) && 1 <= |graph| && |distances0| == |graph| && |isProcessed0| == |graph|
    ensures Search(distances, isProcessed) == Round(graph, NotInfinite, Search(distances0, isProcessed0))
  {
    var u := MinDistance(distances0, isProcessed0);
    isProcessed := isProcessed0[u := true];
    distances := distances0;
    for v := 0 to |graph|
      invariant distances == RelaxBelow(graph, NotInfinite, u, distances0, isProcessed, v)
    {
      if !isProcessed[v] && graph[u][v] != Inf && Less(Add(distances[u], graph[u][v]), distances[v]) {
        distances := distances[v := Add(distances[u], graph[u][v])];
      }
    }
  }

  /** The test `it_werks`: one call per source on the 4-vertex fixture yields the expected matrix. */
  method FixtureRows() returns (calculated: seq<seq<Dist>>)
    ensures calculated == Expected()
  {
    var graph := Fixture();
    calculated := [];
    for i := 0 to |graph|
      invariant calculated == Expected()[..i]
    {
      var row := Dijkstras(graph, i);
      FixtureFromSource(graph, i);
      calculated := calculated + [row];
    }
  }
}
