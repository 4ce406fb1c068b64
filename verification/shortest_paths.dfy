/**
 * The single-source shortest-path loop shared by src/dijkstras.rs and
 * src/dijkstra.cxx, as functions that follow the loops step by step. The two
 * sources differ only in the test an edge must pass before the
 * strict-improvement test, so the specification takes that test as a
 * parameter and the lemmas below say when the two choices agree.
 */
module ShortestPaths {
  import opened Distances

  /** A dense weight matrix; `Inf` stands for f32::INFINITY ("no edge" in the Rust version). */
  type Matrix = seq<seq<Dist>>

  /** Every row is at least as long as the matrix has rows, so `graph[u][v]` is defined for all vertices. */
  predicate IsGraph(g: Matrix)
  {
    forall u :: 0 <= u < |g| ==> |g[u]| >= |g|
  }

  /** The edge test each source applies before comparing distances. */
  datatype Guard =
    | NotInfinite        // Rust: graph[u][v] != INFINITY
    | NonzeroFromFinite  // C++: graph[u][v] nonzero and dist[u] != INFINITY

  predicate EdgeUsable(guard: Guard, w: Dist, du: Dist)
  {
    match guard
    case NotInfinite => w != Inf
    case NonzeroFromFinite => w != Fin(0.0) && du != Inf
  }

  /** How many vertices are marked processed. */
  function CountTrue(p: seq<bool>): (c: nat)
    ensures c <= |p|
  {
    if p == [] then 0 else (if p[0] then 1 else 0) + CountTrue(p[1..])
  }

  lemma {:induction false} CountTrueBelowLength(p: seq<bool>)
    requires CountTrue(p) < |p|
    ensures exists v :: 0 <= v < |p| && !p[v]
  {
    if p[0] {
      CountTrueBelowLength(p[1..]);
      var v :| 0 <= v < |p[1..]| && !p[1..][v];
      assert !p[v + 1];
    }
  }

  lemma {:induction false} CountTrueMark(p: seq<bool>, u: nat)
    requires u < |p| && !p[u]
    ensures CountTrue(p[u := true]) == CountTrue(p) + 1
  {
    if u > 0 {
      assert p[u := true][1..] == p[1..][u - 1 := true];
      CountTrueMark(p[1..], u - 1);
    } else {
      assert p[u := true][1..] == p[1..];
    }
  }

  /**
   * The pair (min, index) the selection loop holds once it has looked at the
   * indices below i: an unprocessed index takes over whenever its distance is
   * `<=` the running minimum, which starts at infinity, and the index starts at 0.
   */
  function MinScan(d: seq<Dist>, p: seq<bool>, i: nat): (r: (Dist, nat))
    requires i <= |d| <= |p|
    ensures r.1 == 0 || r.1 < i
  {
    if i == 0 then (Inf, 0)
    else
      var r' := MinScan(d, p, i - 1);
      if !p[i - 1] && LessEq(d[i - 1], r'.0) then (d[i - 1], i - 1) else r'
  }

  lemma {:induction false} MinScanSelects(d: seq<Dist>, p: seq<bool>, i: nat)
    requires i <= |d| <= |p|
    ensures var r := MinScan(d, p, i);
      && ((forall v :: 0 <= v < i ==> p[v]) ==> r == (Inf, 0))
      && ((exists v :: 0 <= v < i && !p[v]) ==>
        && r.1 < i && !p[r.1] && r.0 == d[r.1]
        && (forall v :: 0 <= v < i && !p[v] ==> LessEq(d[r.1], d[v]))
        && (forall v :: r.1 < v < i && !p[v] ==> Less(d[r.1], d[v])))
  {
    if i > 0 {
      MinScanSelects(d, p, i - 1);
    }
  }

  /** The vertex the selection loop returns. */
  function MinIndex(d: seq<Dist>, p: seq<bool>): (u: nat)
    requires |d| <= |p|
    ensures u == 0 || u < |d|
  {
    MinScan(d, p, |d|).1
  }

  /**
   * The selection loop returns the unprocessed vertex of least distance, the
   * LAST one when several tie (the comparison is `<=`), and 0 when every
   * vertex is processed.
   */
  lemma MinIndexSelects(d: seq<Dist>, p: seq<bool>)
    requires |d| <= |p|
    ensures var u := MinIndex(d, p);
      && ((forall v :: 0 <= v < |d| ==> p[v]) ==> u == 0)
      && ((exists v :: 0 <= v < |d| && !p[v]) ==>
        && u < |d| && !p[u]
        && (forall v :: 0 <= v < |d| && !p[v] ==> LessEq(d[u], d[v]))
        && (forall v :: u < v < |d| && !p[v] ==> Less(d[u], d[v])))
  {
    MinScanSelects(d, p, |d|);
  }

  /** One iteration of the inner loop: relax u -> v if v is unprocessed, the guard allows it and it strictly improves d[v]. */
  function RelaxEdge(g: Matrix, guard: Guard, u: nat, d: seq<Dist>, p: seq<bool>, v: nat): seq<Dist>
    requires IsGraph(g) && u < |g| && v < |d| == |g| && |p| == |g|
  {
    var cand := Add(d[u], g[u][v]);
    if !p[v] && EdgeUsable(guard, g[u][v], d[u]) && Less(cand, d[v]) then d[v := cand] else d
  }

  /** The inner loop over the targets below v. */
  function RelaxBelow(g: Matrix, guard: Guard, u: nat, d: seq<Dist>, p: seq<bool>, v: nat): (r: seq<Dist>)
    requires IsGraph(g) && u < |g| && v <= |d| == |g| && |p| == |g|
    ensures |r| == |d|
  {
    if v == 0 then d else RelaxEdge(g, guard, u, RelaxBelow(g, guard, u, d, p, v - 1), p, v - 1)
  }

  /**
   * Once u is processed, the inner loop changes a distance only by a strict
   * decrease, to d[u] plus the weight of an edge the guard accepts, and only
   * at a vertex not yet processed; targets at or above v are untouched.
   */
  lemma {:induction false} RelaxBelowChanges(g: Matrix, guard: Guard, u: nat, d: seq<Dist>, p: seq<bool>, v: nat)
    requires IsGraph(g) && u < |g| && v <= |d| == |g| && |p| == |g| && p[u]
    ensures var r := RelaxBelow(g, guard, u, d, p, v);
      && (forall x :: v <= x < |d| ==> r[x] == d[x])
      && (forall x :: 0 <= x < |d| ==>
        r[x] == d[x] || (!p[x] && EdgeUsable(guard, g[u][x], d[u]) && r[x] == Add(d[u], g[u][x]) && Less(r[x], d[x])))
  {
    if v > 0 {
      RelaxBelowChanges(g, guard, u, d, p, v - 1);
    }
  }

  /**
   * Because u is processed, d[u] is read unchanged by every iteration, so the
   * inner loop relaxes each target independently of the others.
   */
  lemma {:induction false} RelaxBelowPointwise(g: Matrix, guard: Guard, u: nat, d: seq<Dist>, p: seq<bool>, v: nat)
    requires IsGraph(g) && u < |g| && v <= |d| == |g| && |p| == |g| && p[u]
    ensures RelaxBelow(g, guard, u, d, p, v) ==
      seq(|d|, x requires 0 <= x < |d| =>
        if x < v && !p[x] && EdgeUsable(guard, g[u][x], d[u]) && Less(Add(d[u], g[u][x]), d[x])
        then Add(d[u], g[u][x]) else d[x])
  {
    if v > 0 {
      RelaxBelowPointwise(g, guard, u, d, p, v - 1);
    }
  }

  /** The selection's answer is the unique vertex with its two defining properties. */
  lemma MinIndexIs(d: seq<Dist>, p: seq<bool>, u: nat)
    requires |d| <= |p| && u < |d| && !p[u]
    requires forall v :: 0 <= v < |d| && !p[v] ==> LessEq(d[u], d[v])
    requires forall v :: u < v < |d| && !p[v] ==> Less(d[u], d[v])
    ensures MinIndex(d, p) == u
  {
    MinIndexSelects(d, p);
  }

  /** The two vectors the algorithm updates: distances and processed flags. */
  datatype Search = Search(dist: seq<Dist>, processed: seq<bool>)

  /** Every distance infinite except the source's, which is 0; nothing processed. */
  function Start(n: nat, source: nat): Search
    requires source < n
  {
    Search(seq(n, _ => Inf)[source := Fin(0.0)], seq(n, _ => false))
  }

  /** One round of the outer loop: select u, mark it processed, relax every edge out of u. */
  function Round(g: Matrix, guard: Guard, s: Search): (s': Search)
    requires IsGraph(g) && 1 <= |g| && |s.dist| == |g| && |s.processed| == |g|
    ensures |s'.dist| == |g| && |s'.processed| == |g|
  {
    var u := MinIndex(s.dist, s.processed);
    var p := s.processed[u := true];
    Search(RelaxBelow(g, guard, u, s.dist, p, |g|), p)
  }

  /** The state after c rounds. */
  function Rounds(g: Matrix, guard: Guard, source: nat, c: nat): (s: Search)
    requires IsGraph(g) && source < |g| && c <= |g| - 1
    ensures |s.dist| == |g| && |s.processed| == |g|
  {
    if c == 0 then Start(|g|, source) else Round(g, guard, Rounds(g, guard, source, c - 1))
  }

  /** The distance vector returned after the |g| - 1 rounds. */
  function ShortestDistances(g: Matrix, guard: Guard, source: nat): (d: seq<Dist>)
    requires IsGraph(g) && source < |g|
    ensures |d| == |g| && d[source] == Fin(0.0)
  {
    SourceStaysZero(g, guard, source, |g| - 1);
    Rounds(g, guard, source, |g| - 1).dist
  }

  /** A round selects an unprocessed vertex whenever one exists, and so marks exactly one more. */
  lemma RoundMarksOne(g: Matrix, guard: Guard, s: Search)
    requires IsGraph(g) && 1 <= |g| && |s.dist| == |g| && |s.processed| == |g|
    requires CountTrue(s.processed) < |g|
    ensures !s.processed[MinIndex(s.dist, s.processed)]
    ensures CountTrue(Round(g, guard, s).processed) == CountTrue(s.processed) + 1
  {
    CountTrueBelowLength(s.processed);
    MinIndexSelects(s.dist, s.processed);
    CountTrueMark(s.processed, MinIndex(s.dist, s.processed));
  }

  lemma {:induction false} AllFalseCount(p: seq<bool>)
    requires forall v :: 0 <= v < |p| ==> !p[v]
    ensures CountTrue(p) == 0
  {
    if p != [] {
      AllFalseCount(p[1..]);
    }
  }

  /** After c rounds exactly c vertices are processed; in particular |g| - 1 at the end. */
  lemma {:induction false} ProcessedCount(g: Matrix, guard: Guard, source: nat, c: nat)
    requires IsGraph(g) && source < |g| && c <= |g| - 1
    ensures CountTrue(Rounds(g, guard, source, c).processed) == c
  {
    if c == 0 {
      AllFalseCount(Start(|g|, source).processed);
    } else {
      ProcessedCount(g, guard, source, c - 1);
      RoundMarksOne(g, guard, Rounds(g, guard, source, c - 1));
    }
  }

  /** Every one of the |g| - 1 rounds selects a vertex that was not processed yet. */
  lemma RoundPicksUnprocessed(g: Matrix, guard: Guard, source: nat, c: nat)
    requires IsGraph(g) && source < |g| && c < |g| - 1
    ensures var s := Rounds(g, guard, source, c); !s.processed[MinIndex(s.dist, s.processed)]
  {
    ProcessedCount(g, guard, source, c);
    RoundMarksOne(g, guard, Rounds(g, guard, source, c));
  }

  /** The source is selected in the first round and, being processed, is never relaxed again. */
  lemma {:induction false} SourceStaysZero(g: Matrix, guard: Guard, source: nat, c: nat)
    requires IsGraph(g) && source < |g| && c <= |g| - 1
    ensures Rounds(g, guard, source, c).dist[source] == Fin(0.0)
    ensures c >= 1 ==> Rounds(g, guard, source, c).processed[source]
  {
    if c > 0 {
      SourceStaysZero(g, guard, source, c - 1);
      var s := Rounds(g, guard, source, c - 1);
      var u := MinIndex(s.dist, s.processed);
      MinIndexSelects(s.dist, s.processed);
      if c == 1 {
        assert !s.processed[source];
        assert LessEq(s.dist[u], s.dist[source]);
        assert u == source;
      }
      RelaxBelowChanges(g, guard, u, s.dist, s.processed[u := true], |g|);
    }
  }

  /** The guards disagree only on an edge of weight exactly zero between two distinct vertices. */
  predicate NoZeroEdges(g: Matrix)
    requires IsGraph(g)
  {
    forall u, v :: 0 <= u < |g| && 0 <= v < |g| && u != v ==> g[u][v] != Fin(0.0)
  }

  lemma {:induction false} RelaxGuardsAgree(g: Matrix, u: nat, d: seq<Dist>, p: seq<bool>, v: nat)
    requires IsGraph(g) && NoZeroEdges(g) && u < |g| && v <= |d| == |g| && |p| == |g| && p[u]
    ensures RelaxBelow(g, NotInfinite, u, d, p, v) == RelaxBelow(g, NonzeroFromFinite, u, d, p, v)
  {
    if v > 0 {
      RelaxGuardsAgree(g, u, d, p, v - 1);
    }
  }

  lemma RoundGuardsAgree(g: Matrix, s: Search)
    requires IsGraph(g) && NoZeroEdges(g) && 1 <= |g| && |s.dist| == |g| && |s.processed| == |g|
    ensures Round(g, NotInfinite, s) == Round(g, NonzeroFromFinite, s)
  {
    var u := MinIndex(s.dist, s.processed);
    RelaxGuardsAgree(g, u, s.dist, s.processed[u := true], |g|);
  }

  /**
   * On a graph with no zero-weight edge between distinct vertices, the Rust
   * and the C++ edge tests produce the same states round by round.
   */
  lemma {:induction false} GuardsAgree(g: Matrix, source: nat, c: nat)
    requires IsGraph(g) && NoZeroEdges(g) && source < |g| && c <= |g| - 1
    ensures Rounds(g, NotInfinite, source, c) == Rounds(g, NonzeroFromFinite, source, c)
  {
    if c > 0 {
      GuardsAgree(g, source, c - 1);
      RoundGuardsAgree(g, Rounds(g, NotInfinite, source, c - 1));
    }
  }

  /** The 4-vertex graph with negative weights used by both test programs. */
  function Fixture(): Matrix
  {
    [ [Fin(0.0), Inf, Fin(-2.0), Inf],
      [Fin(4.0), Fin(0.0), Fin(3.0), Inf],
      [Inf, Inf, Fin(0.0), Fin(2.0)],
      [Inf, Fin(-1.0), Inf, Fin(0.0)] ]
  }

  /** The distances the Rust test expects, one row per source. */
  function Expected(): seq<seq<Dist>>
  {
    [ [Fin(0.0), Fin(-1.0), Fin(-2.0), Fin(0.0)],
      [Fin(4.0), Fin(0.0), Fin(3.0), Fin(5.0)],
      [Fin(5.0), Fin(1.0), Fin(0.0), Fin(2.0)],
      [Fin(3.0), Fin(-1.0), Fin(2.0), Fin(0.0)] ]
  }

  /** One round on the fixture, given the vertex it selects and the state it produces. */
  lemma FixtureRound(g: Matrix, s: Search, u: nat, s': Search)
    requires g == Fixture()
    requires |s.dist| == 4 && |s.processed| == 4 && u < 4 && !s.processed[u]
    requires forall v :: 0 <= v < 4 && !s.processed[v] ==> LessEq(s.dist[u], s.dist[v])
    requires forall v :: u < v < 4 && !s.processed[v] ==> Less(s.dist[u], s.dist[v])
    requires s'.processed == s.processed[u := true]
    requires s'.dist == seq(4, x requires 0 <= x < 4 =>
      if !s'.processed[x] && g[u][x] != Inf && Less(Add(s.dist[u], g[u][x]), s.dist[x])
      then Add(s.dist[u], g[u][x]) else s.dist[x])
    ensures IsGraph(g) && Round(g, NotInfinite, s) == s'
  {
    MinIndexIs(s.dist, s.processed, u);
    RelaxBelowPointwise(g, NotInfinite, u, s.dist, s.processed[u := true], 4);
  }

  /** The three rounds on the fixture from one source, given the states they pass through. */
  lemma FixtureRounds(g: Matrix, source: nat, s1: Search, s2: Search, s3: Search)
    requires g == Fixture() && source < 4
    requires IsGraph(g) && Round(g, NotInfinite, Start(4, source)) == s1
    requires |s1.dist| == 4 && |s1.processed| == 4 && Round(g, NotInfinite, s1) == s2
    requires |s2.dist| == 4 && |s2.processed| == 4 && Round(g, NotInfinite, s2) == s3
    ensures ShortestDistances(g, NotInfinite, source) == s3.dist
  {
    assert Rounds(g, NotInfinite, source, 1) == s1;
    assert Rounds(g, NotInfinite, source, 2) == s2;
    assert Rounds(g, NotInfinite, source, 3) == s3;
  }

  /** The states the fixture passes through from one source, with the vertex each round selects. */
  function FixtureTrace(source: nat): (seq<Search>, seq<nat>)
    requires source < 4
  {
    var I, F, T := Inf, false, true;
    if source == 0 then
      ([ Search([Fin(0.0), I, I, I], [F, F, F, F]),
         Search([Fin(0.0), I, Fin(-2.0), I], [T, F, F, F]),
         Search([Fin(0.0), I, Fin(-2.0), Fin(0.0)], [T, F, T, F]),
         Search([Fin(0.0), Fin(-1.0), Fin(-2.0), Fin(0.0)], [T, F, T, T]) ], [0, 2, 3])
    else if source == 1 then
      ([ Search([I, Fin(0.0), I, I], [F, F, F, F]),
         Search([Fin(4.0), Fin(0.0), Fin(3.0), I], [F, T, F, F]),
         Search([Fin(4.0), Fin(0.0), Fin(3.0), Fin(5.0)], [F, T, T, F]),
         Search([Fin(4.0), Fin(0.0), Fin(3.0), Fin(5.0)], [T, T, T, F]) ], [1, 2, 0])
    else if source == 2 then
      ([ Search([I, I, Fin(0.0), I], [F, F, F, F]),
         Search([I, I, Fin(0.0), Fin(2.0)], [F, F, T, F]),
         Search([I, Fin(1.0), Fin(0.0), Fin(2.0)], [F, F, T, T]),
         Search([Fin(5.0), Fin(1.0), Fin(0.0), Fin(2.0)], [F, T, T, T]) ], [2, 3, 1])
    else
      ([ Search([I, I, I, Fin(0.0)], [F, F, F, F]),
         Search([I, Fin(-1.0), I, Fin(0.0)], [F, F, F, T]),
         Search([Fin(3.0), Fin(-1.0), Fin(2.0), Fin(0.0)], [F, T, F, T]),
         Search([Fin(3.0), Fin(-1.0), Fin(2.0), Fin(0.0)], [F, T, T, T]) ], [3, 1, 2])
  }

  /**
   * Every round on the fixture selects the recorded vertex and reaches the
   * recorded state. There is one lemma per source: each needs three concrete
   * rounds on real-valued distances, and the four sources together make one
   * proof obligation too large for the solver.
   */
  lemma FixtureStepsFrom0(g: Matrix)
    requires g == Fixture()
    ensures IsGraph(g)
    ensures var t := FixtureTrace(0).0;
      && Round(g, NotInfinite, t[0]) == t[1]
      && Round(g, NotInfinite, t[1]) == t[2]
      && Round(g, NotInfinite, t[2]) == t[3]
  {
    var t := FixtureTrace(0);
    FixtureRound(g, t.0[0], t.1[0], t.0[1]);
    FixtureRound(g, t.0[1], t.1[1], t.0[2]);
    FixtureRound(g, t.0[2], t.1[2], t.0[3]);
  }

  lemma FixtureStepsFrom1(g: Matrix)
    requires g == Fixture()
    ensures IsGraph(g)
    ensures var t := FixtureTrace(1).0;
      && Round(g, NotInfinite, t[0]) == t[1]
      && Round(g, NotInfinite, t[1]) == t[2]
      && Round(g, NotInfinite, t[2]) == t[3]
  {
    var t := FixtureTrace(1);
    FixtureRound(g, t.0[0], t.1[0], t.0[1]);
    FixtureRound(g, t.0[1], t.1[1], t.0[2]);
    FixtureRound(g, t.0[2], t.1[2], t.0[3]);
  }

  lemma FixtureStepsFrom2(g: Matrix)
    requires g == Fixture()
    ensures IsGraph(g)
    ensures var t := FixtureTrace(2).0;
      && Round(g, NotInfinite, t[0]) == t[1]
      && Round(g, NotInfinite, t[1]) == t[2]
      && Round(g, NotInfinite, t[2]) == t[3]
  {
    var t := FixtureTrace(2);
    FixtureRound(g, t.0[0], t.1[0], t.0[1]);
    FixtureRound(g, t.0[1], t.1[1], t.0[2]);
    FixtureRound(g, t.0[2], t.1[2], t.0[3]);
  }

  lemma FixtureStepsFrom3(g: Matrix)
    requires g == Fixture()
    ensures IsGraph(g)
    ensures var t := FixtureTrace(3).0;
      && Round(g, NotInfinite, t[0]) == t[1]
      && Round(g, NotInfinite, t[1]) == t[2]
      && Round(g, NotInfinite, t[2]) == t[3]
  {
    var t := FixtureTrace(3);
    FixtureRound(g, t.0[0], t.1[0], t.0[1]);
    FixtureRound(g, t.0[1], t.1[1], t.0[2]);
    FixtureRound(g, t.0[2], t.1[2], t.0[3]);
  }

  /** From one source, the recorded trace ends in the test's expected row. */
  lemma FixtureTraceEnds(g: Matrix, source: nat)
    requires g == Fixture() && source < 4
    requires var t := FixtureTrace(source).0;
      && IsGraph(g)
      && Round(g, NotInfinite, t[0]) == t[1]
      && Round(g, NotInfinite, t[1]) == t[2]
      && Round(g, NotInfinite, t[2]) == t[3]
    ensures ShortestDistances(g, NotInfinite, source) == Expected()[source]
  {
    var t := FixtureTrace(source).0;
    assert t[0] == Start(4, source);
    assert t[3].dist == Expected()[source];
    FixtureRounds(g, source, t[1], t[2], t[3]);
  }

  /** The test's expected distances are what the algorithm computes on the fixture, from every source. */
  lemma FixtureFromSource(g: Matrix, source: nat)
    requires g == Fixture() && source < 4
    ensures IsGraph(g) && ShortestDistances(g, NotInfinite, source) == Expected()[source]
  {
    if source == 0 {
      FixtureStepsFrom0(g);
    } else if source == 1 {
      FixtureStepsFrom1(g);
    } else if source == 2 {
      FixtureStepsFrom2(g);
    } else {
      FixtureStepsFrom3(g);
    }
    FixtureTraceEnds(g, source);
  }

  /** The C++ guard gives the same expected distances, since the fixture's only zero weights are on the diagonal. */
  lemma FixtureFromSourceNonzeroGuard(g: Matrix, source: nat)
    requires g == Fixture() && source < 4
    ensures IsGraph(g) && ShortestDistances(g, NonzeroFromFinite, source) == Expected()[source]
  {
    FixtureFromSource(g, source);
    assert NoZeroEdges(g);
    GuardsAgree(g, source, 3);
  }

  /**
   * The agreement needs its hypothesis: across a zero-weight edge the Rust
   * guard relaxes and the C++ guard does not.
   */
  lemma ZeroEdgeDisagreement(g: Matrix)
    requires g == [[Fin(0.0), Fin(0.0)], [Inf, Fin(0.0)]]
    ensures IsGraph(g)
    ensures ShortestDistances(g, NotInfinite, 0) == [Fin(0.0), Fin(0.0)]
    ensures ShortestDistances(g, NonzeroFromFinite, 0) == [Fin(0.0), Inf]
  {
    var s0 := Start(2, 0);
    assert s0 == Search([Fin(0.0), Inf], [false, false]);
    MinIndexIs(s0.dist, s0.processed, 0);
    var p := s0.processed[0 := true];
    assert p == [true, false];
    RelaxBelowPointwise(g, NotInfinite, 0, s0.dist, p, 2);
    RelaxBelowPointwise(g, NonzeroFromFinite, 0, s0.dist, p, 2);
    var rust := RelaxBelow(g, NotInfinite, 0, s0.dist, p, 2);
    var cxx := RelaxBelow(g, NonzeroFromFinite, 0, s0.dist, p, 2);
    assert rust[0] == Fin(0.0) && rust[1] == Fin(0.0);
    assert cxx[0] == Fin(0.0) && cxx[1] == Inf;
    assert rust == [Fin(0.0), Fin(0.0)];
    assert cxx == [Fin(0.0), Inf];
    assert Rounds(g, NotInfinite, 0, 1) == Round(g, NotInfinite, s0) == Search(rust, p);
    assert Rounds(g, NonzeroFromFinite, 0, 1) == Round(g, NonzeroFromFinite, s0) == Search(cxx, p);
  }
}
