/**
 * src/dijkstra.cxx: the class template `Dijkstra<T>` at T = float. It differs
 * from src/dijkstras.rs in its edge test (nonzero weight, finite distance of
 * the vertex just processed) and in leaving the selected index undefined when
 * no vertex is left to select.
 */
module DijkstraCxx {
  import opened Distances
  import opened ShortestPaths

  class Dijkstra {
    const size: int
    const graph: Matrix

    /** The object holds a copy of the matrix and its number of rows. */
    constructor (g: Matrix)
      ensures graph == g && size == |g|
      ensures IsGraph(g) ==> Valid()
    {
      graph := g;
      size := |g|;
    }

    /** What the constructor establishes and every member relies on. */
    predicate Valid()
    {
      size == |graph| && IsGraph(graph)
    }

    /**
     * `min_distance`: `min_index` is only assigned when an unprocessed vertex
     * is met, so callers must guarantee one exists among the first `size`.
     */
    method MinDistance(dist: seq<Dist>, isProcessed: seq<bool>) returns (minIndex: int)
      requires 0 <= size <= |dist| && size <= |isProcessed|
      requires exists v :: 0 <= v < size && !isProcessed[v]
      ensures 0 <= minIndex < size && !isProcessed[minIndex]
      ensures minIndex == MinIndex(dist[..size], isProcessed[..size])
    {
      ghost var d, p := dist[..size], isProcessed[..size];
      var min := Inf;
      minIndex := *;
      for v := 0 to size
        invariant min == MinScan(d, p, v).0
        invariant (exists w :: 0 <= w < v && !p[w]) ==> minIndex == MinScan(d, p, v).1
      {
        MinScanSelects(d, p, v);
        if !isProcessed[v] && LessEq(dist[v], min) {
          min := dist[v];
          minIndex := v;
        }
      }
      MinIndexSelects(d, p);
    }

    /**
     * `from_vertex`: the vectors are filled by `push_back`, then size - 1
     * rounds run as in the Rust version, with the C++ edge test.
     */
    method FromVertex(source: int) returns (dist: seq<Dist>)
      requires Valid() && 0 <= source < size
      ensures dist == ShortestDistances(graph, NonzeroFromFinite, source)
      ensures |dist| == size && dist[source] == Fin(0.0)
    {
      dist := [];
      var isProcessed := [];
      for i := 0 to size
        invariant dist == seq(i, _ => Inf) && isProcessed == seq(i, _ => false)
      {
        dist := dist + [Inf];
        isProcessed := isProcessed + [false];
      }
      dist := dist[source := Fin(0.0)];
      for count := 0 to size - 1
        invariant Search(dist, isProcessed) == Rounds(graph, NonzeroFromFinite, source, count)
      {
        RoundPicksUnprocessed(graph, NonzeroFromFinite, source, count);
        dist, isProcessed := ProcessNext(dist, isProcessed);
      }
    }

    /**
     * One iteration of the counting loop: select u, mark it processed, then
     * the loop `for v < size` relaxes every edge out of u that passes the C++ test.
     */
    method ProcessNext(dist0: seq<Dist>, isProcessed0: seq<bool>) returns (dist: seq<Dist>, isProcessed: seq<bool>)
      requires Valid() && 1 <= size && |dist0| == size && |isProcessed0| == size
      requires !isProcessed0[MinIndex(dist0, isProcessed0)]
      ensures Search(dist, isProcessed) == Round(graph, NonzeroFromFinite, Search(dist0, isProcessed0))
    {
      assert dist0[..size] == dist0 && isProcessed0[..size] == isProcessed0;
      var u := MinDistance(dist0, isProcessed0);
      isProcessed := isProcessed0[u := true];
      dist := dist0;
      for v := 0 to size
        invariant dist == RelaxBelow(graph, NonzeroFromFinite, u, dist0, isProcessed, v)
      {
        if !isProcessed[v] && graph[u][v] != Fin(0.0) && dist[u] != Inf
          && Less(Add(dist[u], graph[u][v]), dist[v]) {
          dist := dist[v := Add(dist[u], graph[u][v])];
        }
      }
    }
  }

  /** `main` without its printing: one row per source of the fixture, each equal to the expected row. */
  method FixtureOutput() returns (output: seq<seq<Dist>>)
    ensures output == Expected()
  {
    var graph := Fixture();
    var dijkstra := new Dijkstra(graph);
    output := [];
    for i := 0 to |graph|
      invariant output == Expected()[..i]
    {
      var result := dijkstra.FromVertex(i);
      FixtureFromSourceNonzeroGuard(graph, i);
      output := output + [result];
    }
  }
}
