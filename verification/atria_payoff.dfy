/**
 * The payoff and selection steps of `run` (src/lib.rs:231-247): the payoff of
 * row i is its sum minus 1, collected with `insert(i, …)` into a vector that
 * starts as `size` zeros; then the node of largest payoff magnitude is chosen,
 * the lowest index winning ties.
 */
module AtriaPayoff {
  import opened AtriaGrid

  /** `pay` after adding the cells of row i below column j (row stride n). */
  function RowSum(adj: seq<real>, n: nat, i: nat, j: nat): real
    requires |adj| >= n * n && i < n && j <= n
  {
    if j == 0 then 0.0
    else
      VecOffsetInverse(i, j - 1, n, n);
      RowSum(adj, n, i, j - 1) + adj[VecOffset(i, j - 1, n)]
  }

  /** The payoff of row i: its sum minus 1. */
  function Payoff(adj: seq<real>, n: nat, i: nat): real
    requires |adj| >= n * n && i < n
  {
    RowSum(adj, n, i, n) - 1.0
  }

  /** `output_pay` after the first i iterations of the payoff loop. */
  function PayoffsAfter(adj: seq<real>, n: nat, i: nat): (r: seq<real>)
    requires |adj| >= n * n && i <= n
    ensures |r| == n + i
  {
    if i == 0 then seq(n, _ => 0.0)
    else Insert(PayoffsAfter(adj, n, i - 1), i - 1, Payoff(adj, n, i - 1))
  }

  /**
   * Each `insert(i, …)` lands in front of the zero tail, so after i
   * iterations the vector holds the first i payoffs followed by n zeros.
   */
  lemma {:induction false} PayoffsLayout(adj: seq<real>, n: nat, i: nat)
    requires |adj| >= n * n && i <= n
    ensures var r := PayoffsAfter(adj, n, i);
      && (forall x :: 0 <= x < i ==> r[x] == Payoff(adj, n, x))
      && (forall x :: i <= x < n + i ==> r[x] == 0.0)
  {
    if i > 0 {
      PayoffsLayout(adj, n, i - 1);
      InsertShifts(PayoffsAfter(adj, n, i - 1), i - 1, Payoff(adj, n, i - 1));
    }
  }

  /** The payoff loop: one row sum per node, each inserted at its own index. */
  method ComputePayoffs(adj: seq<real>, n: nat) returns (outputPay: seq<real>)
    requires |adj| >= n * n
    ensures outputPay == PayoffsAfter(adj, n, n)
    ensures |outputPay| == 2 * n
    ensures forall x :: 0 <= x < n ==> outputPay[x] == Payoff(adj, n, x)
    ensures forall x :: n <= x < 2 * n ==> outputPay[x] == 0.0
  {
    outputPay := seq(n, _ => 0.0);
    for i := 0 to n
      invariant outputPay == PayoffsAfter(adj, n, i)
    {
      var pay := 0.0;
      for j := 0 to n
        invariant pay == RowSum(adj, n, i, j)
      {
        VecOffsetInverse(i, j, n, n);
        pay := pay + adj[VecOffset(i, j, n)];
      }
      pay := pay - 1.0;
      outputPay := Insert(outputPay, i, pay);
    }
    PayoffsLayout(adj, n, n);
  }

  /**
   * `(max_node, max_pay)` after the selection loop has looked at the indices
   * below i: it starts at (0, -1.0) and moves to index x whenever |pay[x]| is
   * strictly larger than the best so far.
   */
  function Selection(pay: seq<real>, i: nat): (r: (nat, real))
    requires i <= |pay|
  {
    if i == 0 then (0, -1.0)
    else
      var r' := Selection(pay, i - 1);
      if Abs(pay[i - 1]) > r'.1 then (i - 1, Abs(pay[i - 1])) else r'
  }

  /**
   * With nothing looked at the pair is (0, -1.0). Otherwise max_pay is the
   * largest magnitude among the indices looked at, and max_node is the
   * lowest index attaining it.
   */
  lemma {:induction false} SelectionIsMax(pay: seq<real>, i: nat)
    requires i <= |pay|
    ensures var r := Selection(pay, i);
      && (i == 0 ==> r == (0, -1.0))
      && (i > 0 ==>
        && r.0 < i && r.1 == Abs(pay[r.0])
        && (forall x :: 0 <= x < i ==> Abs(pay[x]) <= r.1)
        && (forall x :: 0 <= x < r.0 ==> Abs(pay[x]) < r.1))
  {
    if i > 0 {
      SelectionIsMax(pay, i - 1);
    }
  }

  /** The round stops exactly when every payoff it looked at is zero. */
  lemma SelectionZeroIff(pay: seq<real>, n: nat)
    requires 1 <= n <= |pay|
    ensures Selection(pay, n).1 == 0.0 <==> forall x :: 0 <= x < n ==> pay[x] == 0.0
  {
    SelectionIsMax(pay, n);
    var r := Selection(pay, n);
    if r.1 == 0.0 {
      forall x | 0 <= x < n
        ensures pay[x] == 0.0
      {
        assert Abs(pay[x]) <= 0.0;
      }
    }
  }

  /** The selection loop: strict `>` against a running maximum that starts at -1. */
  method SelectMax(outputPay: seq<real>, n: nat) returns (maxNode: nat, maxPay: real)
    requires n <= |outputPay|
    ensures (maxNode, maxPay) == Selection(outputPay, n)
    ensures n == 0 ==> maxNode == 0 && maxPay == -1.0
    ensures n > 0 ==>
      && maxNode < n && maxPay == Abs(outputPay[maxNode])
      && (forall x :: 0 <= x < n ==> Abs(outputPay[x]) <= maxPay)
      && (forall x :: 0 <= x < maxNode ==> Abs(outputPay[x]) < maxPay)
  {
    maxNode := 0;
    maxPay := -1.0;
    for i := 0 to n
      invariant (maxNode, maxPay) == Selection(outputPay, i)
    {
      if Abs(outputPay[i]) > maxPay {
        maxNode := i;
        maxPay := Abs(outputPay[i]);
      }
    }
    SelectionIsMax(outputPay, n);
  }
}
