/**
 * The ordering step of `output()` (src/lib.rs:318-325) and the rank column
 * it writes (src/lib.rs:333-348). The bubble sort runs the outer index from
 * size - 1 down to 0 and the inner index over 0..i, swapping neighbours when
 * the left one has the smaller magnitude; every swap of the scores is
 * mirrored on the names. The fold is generic in what travels with the
 * scores, so the same definition, run on the indices 0..n, yields the
 * permutation both vectors undergo.
 */
module AtriaReport {
  import opened AtriaGrid

  /** `Vec::swap(a, b)`. */
  function Swap<T>(s: seq<T>, a: nat, b: nat): (r: seq<T>)
    requires a < |s| && b < |s|
    ensures |r| == |s|
  {
    s[a := s[b]][b := s[a]]
  }

  /** A swap moves entries around without adding or losing any. */
  lemma SwapMultiset<T>(s: seq<T>, a: nat, b: nat)
    requires a < |s| && b < |s|
    ensures multiset(Swap(s, a, b)) == multiset(s)
  {
  }

  /** The inner loop body at j: swap positions j and j + 1 of both vectors when |keys[j]| < |keys[j + 1]|. */
  function Step<T>(keys: seq<real>, t: seq<T>, j: nat): (r: (seq<real>, seq<T>))
    requires j + 1 < |keys| && j + 1 < |t|
    ensures |r.0| == |keys| && |r.1| == |t|
  {
    if Abs(keys[j]) < Abs(keys[j + 1]) then (Swap(keys, j, j + 1), Swap(t, j, j + 1)) else (keys, t)
  }

  /** The inner loop `for j in 0..i` after the iterations below j. */
  function Pass<T>(keys: seq<real>, t: seq<T>, j: nat): (r: (seq<real>, seq<T>))
    requires j < |keys| && j < |t|
    ensures |r.0| == |keys| && |r.1| == |t|
    decreases j
  {
    if j == 0 then (keys, t)
    else
      var r := Pass(keys, t, j - 1);
      Step(r.0, r.1, j - 1)
  }

  /** The outer loop `for i in (0..n).rev()` after the iterations n - 1 down to i. */
  function SortFrom<T>(keys: seq<real>, t: seq<T>, n: nat, i: nat): (r: (seq<real>, seq<T>))
    requires i <= n <= |keys| && n <= |t|
    ensures |r.0| == |keys| && |r.1| == |t|
    decreases n - i
  {
    if i == n then (keys, t)
    else
      var r := SortFrom(keys, t, n, i + 1);
      Pass(r.0, r.1, i)
  }

  /** The whole sort of the first n entries. */
  function Sort<T>(keys: seq<real>, t: seq<T>, n: nat): (r: (seq<real>, seq<T>))
    requires n <= |keys| && n <= |t|
    ensures |r.0| == |keys| && |r.1| == |t|
  {
    SortFrom(keys, t, n, 0)
  }

  /** The indices 0..n, the companion whose sorted image is the permutation applied. */
  function Iota(n: nat): (r: seq<nat>)
    ensures |r| == n && forall x :: 0 <= x < n ==> r[x] == x
  {
    seq(n, x => x)
  }

  /** The permutation the sort applies to the first n entries: position x receives the old entry Perm(keys, n)[x]. */
  function Perm(keys: seq<real>, n: nat): (r: seq<nat>)
    requires n <= |keys|
    ensures |r| == n
  {
    Sort(keys, Iota(n), n).1
  }

  /** The entries in 0..hi have non-increasing magnitude from lo on. */
  predicate SortedByMagnitude(keys: seq<real>, lo: nat, hi: nat)
    requires hi <= |keys|
  {
    forall a, b :: lo <= a < b < hi ==> Abs(keys[a]) >= Abs(keys[b])
  }

  /** Entries i..n are in order and none of them exceeds an entry before i in magnitude. */
  predicate SortedFrom(r: seq<real>, i: nat, n: nat)
    requires n <= |r|
  {
    SortedByMagnitude(r, i, n) && forall a, b :: 0 <= a < i <= b < n ==> Abs(r[a]) >= Abs(r[b])
  }

  /** Each of the first n entries of cur is the entry of orig named by idx. */
  ghost predicate Tracks<T>(cur: seq<T>, idx: seq<nat>, orig: seq<T>, n: nat)
  {
    n <= |cur| && n <= |idx| && forall x :: 0 <= x < n ==> idx[x] < |orig| && cur[x] == orig[idx[x]]
  }

  /** Among the first n entries, two of equal magnitude appear in the order of their original indices. */
  predicate KeepsTies(keys: seq<real>, idx: seq<nat>, n: nat)
    requires n <= |keys| && n <= |idx|
  {
    forall a, b :: 0 <= a < b < n && Abs(keys[a]) == Abs(keys[b]) ==> idx[a] < idx[b]
  }

  /** Entries lo.. of r are those of s. */
  ghost predicate SameFrom<T>(r: seq<T>, s: seq<T>, lo: nat)
  {
    |r| == |s| && forall x :: lo <= x < |s| ==> r[x] == s[x]
  }

  /** No entry before j has smaller magnitude than the entry at j. */
  predicate LeastAt(r: seq<real>, j: nat)
    requires j < |r|
  {
    forall x :: 0 <= x < j ==> Abs(r[x]) >= Abs(r[j])
  }

  /** Every entry in 0..j has magnitude at least c. */
  predicate AtLeast(r: seq<real>, j: nat, c: real)
    requires j < |r|
  {
    forall x :: 0 <= x <= j ==> Abs(r[x]) >= c
  }

  // ---------------------------------------------------------------------------
  // The same swaps on every companion

  lemma StepTracks<T>(keys: seq<real>, t: seq<T>, idx: seq<nat>, keys0: seq<real>, t0: seq<T>, n: nat, j: nat)
    requires j + 1 < n && n <= |keys| && n <= |t| && n <= |idx|
    requires Tracks(t, idx, t0, n) && Tracks(keys, idx, keys0, n)
    ensures var a, b := Step(keys, t, j), Step(keys, idx, j);
      a.0 == b.0 && Tracks(a.1, b.1, t0, n) && Tracks(a.0, b.1, keys0, n)
  {
  }

  lemma {:induction false} PassTracks<T>(keys: seq<real>, t: seq<T>, idx: seq<nat>, keys0: seq<real>, t0: seq<T>, n: nat, j: nat)
    requires j < n && n <= |keys| && n <= |t| && n <= |idx|
    requires Tracks(t, idx, t0, n) && Tracks(keys, idx, keys0, n)
    ensures var a, b := Pass(keys, t, j), Pass(keys, idx, j);
      a.0 == b.0 && Tracks(a.1, b.1, t0, n) && Tracks(a.0, b.1, keys0, n)
  {
    if j > 0 {
      PassTracks(keys, t, idx, keys0, t0, n, j - 1);
      var a, b := Pass(keys, t, j - 1), Pass(keys, idx, j - 1);
      StepTracks(a.0, a.1, b.1, keys0, t0, n, j - 1);

    }
  }

  lemma {:induction false} SortFromTracks<T>(keys: seq<real>, t: seq<T>, n: nat, i: nat)
    requires i <= n <= |keys| && n <= |t|
    ensures var a, b := SortFrom(keys, t, n, i), SortFrom(keys, Iota(n), n, i);
      a.0 == b.0 && Tracks(a.1, b.1, t, n) && Tracks(a.0, b.1, keys, n)
    decreases n - i
  {
    if i < n {
      SortFromTracks(keys, t, n, i + 1);
      var a, b := SortFrom(keys, t, n, i + 1), SortFrom(keys, Iota(n), n, i + 1);
      PassTracks(a.0, a.1, b.1, keys, t, n, i);
    }
  }

  /**
   * Scores and names undergo the same permutation: Perm(keys, n) holds each
   * of 0..n exactly once, and position x of both sorted vectors holds the
   * entry that was at Perm(keys, n)[x].
   */
  lemma SortPermutes<T>(keys: seq<real>, t: seq<T>, n: nat)
    requires n <= |keys| && n <= |t|
    ensures multiset(Perm(keys, n)) == multiset(Iota(n))
    ensures forall x :: 0 <= x < n ==> Perm(keys, n)[x] < n
    ensures Tracks(Sort(keys, t, n).0, Perm(keys, n), keys, n) && Tracks(Sort(keys, t, n).1, Perm(keys, n), t, n)
  {
    SortFromTracks(keys, t, n, 0);
    SortFromTracks(keys, Iota(n), n, 0);
    SortMultiset(keys, Iota(n), n, 0);
  }

  lemma {:induction false} PassMultiset<T>(keys: seq<real>, t: seq<T>, j: nat)
    requires j < |keys| && j < |t|
    ensures multiset(Pass(keys, t, j).1) == multiset(t)
  {
    if j > 0 {
      PassMultiset(keys, t, j - 1);
      var r := Pass(keys, t, j - 1);
      if Abs(r.0[j - 1]) < Abs(r.0[j]) {
        SwapMultiset(r.1, j - 1, j);
      }
    }
  }

  lemma {:induction false} SortMultiset<T>(keys: seq<real>, t: seq<T>, n: nat, i: nat)
    requires i <= n <= |keys| && n <= |t|
    ensures multiset(SortFrom(keys, t, n, i).1) == multiset(t)
    decreases n - i
  {
    if i < n {
      SortMultiset(keys, t, n, i + 1);
      var r := SortFrom(keys, t, n, i + 1);
      PassMultiset(r.0, r.1, i);
    }
  }

  // ---------------------------------------------------------------------------
  // Entries from n on

  lemma {:induction false} PassFrame<T>(keys: seq<real>, t: seq<T>, j: nat)
    requires j < |keys| && j < |t|
    ensures SameFrom(Pass(keys, t, j).0, keys, j + 1) && SameFrom(Pass(keys, t, j).1, t, j + 1)
  {
    if j > 0 {
      PassFrame(keys, t, j - 1);
    }
  }

  lemma {:induction false} SortFromFrame<T>(keys: seq<real>, t: seq<T>, n: nat, i: nat)
    requires i <= n <= |keys| && n <= |t|
    ensures SameFrom(SortFrom(keys, t, n, i).0, keys, n) && SameFrom(SortFrom(keys, t, n, i).1, t, n)
    decreases n - i
  {
    if i < n {
      SortFromFrame(keys, t, n, i + 1);
      var r := SortFrom(keys, t, n, i + 1);
      PassFrame(r.0, r.1, i);
    }
  }

  /** The sort leaves every entry at index n or above where it was. */
  lemma SortKeepsTail<T>(keys: seq<real>, t: seq<T>, n: nat)
    requires n <= |keys| && n <= |t|
    ensures Sort(keys, t, n).0[n..] == keys[n..] && Sort(keys, t, n).1[n..] == t[n..]
  {
    SortFromFrame(keys, t, n, 0);
    var r := Sort(keys, t, n);
    assert r.0[n..] == keys[n..];
    assert r.1[n..] == t[n..];
  }

  // ---------------------------------------------------------------------------
  // Order

  /** A pass over 0..j leaves at j an entry of least magnitude among 0..j. */
  lemma {:induction false} PassSinksMin<T>(keys: seq<real>, t: seq<T>, j: nat)
    requires j < |keys| && j < |t|
    ensures LeastAt(Pass(keys, t, j).0, j)
  {
    if j > 0 {
      PassSinksMin(keys, t, j - 1);
      var s := Pass(keys, t, j - 1);
      var r := Step(s.0, s.1, j - 1).0;
      assert Pass(keys, t, j).0 == r;
      forall x | 0 <= x < j
        ensures Abs(r[x]) >= Abs(r[j])
      {
        if x < j - 1 {
          assert Abs(s.0[x]) >= Abs(s.0[j - 1]);
        }
      }
    }
  }

  /** A pass over 0..j keeps a lower bound on the magnitudes of 0..j. */
  lemma {:induction false} PassKeepsBound<T>(keys: seq<real>, t: seq<T>, j: nat, c: real)
    requires j < |keys| && j < |t| && AtLeast(keys, j, c)
    ensures AtLeast(Pass(keys, t, j).0, j, c)
  {
    if j > 0 {
      PassKeepsBound(keys, t, j - 1, c);
      PassFrame(keys, t, j - 1);
      var s := Pass(keys, t, j - 1);
      var r := Step(s.0, s.1, j - 1).0;
      assert Pass(keys, t, j).0 == r;
      assert s.0[j] == keys[j];
      forall x | 0 <= x <= j
        ensures Abs(r[x]) >= c
      {
        if x < j - 1 {
          assert Abs(s.0[x]) >= c;
        }
      }
    }
  }

  lemma {:induction false} SortFromOrders<T>(keys: seq<real>, t: seq<T>, n: nat, i: nat)
    requires i <= n <= |keys| && n <= |t|
    ensures SortedFrom(SortFrom(keys, t, n, i).0, i, n)
    decreases n - i
  {
    if i < n {
      SortFromOrders(keys, t, n, i + 1);
      var s := SortFrom(keys, t, n, i + 1);
      var r := Pass(s.0, s.1, i).0;
      PassFrame(s.0, s.1, i);
      PassSinksMin(s.0, s.1, i);
      forall b | i < b < n
        ensures forall a :: 0 <= a <= i ==> Abs(r[a]) >= Abs(r[b])
      {
        PassKeepsBound(s.0, s.1, i, Abs(s.0[b]));
      }
    }
  }

  /** After the sort the first n scores have non-increasing magnitude. */
  lemma SortOrders<T>(keys: seq<real>, t: seq<T>, n: nat)
    requires n <= |keys| && n <= |t|
    ensures SortedByMagnitude(Sort(keys, t, n).0, 0, n)
  {
    SortFromOrders(keys, t, n, 0);
  }

  // ---------------------------------------------------------------------------
  // Ties

  lemma StepKeepsTies(keys: seq<real>, idx: seq<nat>, n: nat, j: nat)
    requires j + 1 < n && n <= |keys| && n <= |idx| && KeepsTies(keys, idx, n)
    ensures var r := Step(keys, idx, j); KeepsTies(r.0, r.1, n)
  {
    var r := Step(keys, idx, j);
    if Abs(keys[j]) < Abs(keys[j + 1]) {
      forall a, b | 0 <= a < b < n && Abs(r.0[a]) == Abs(r.0[b])
        ensures r.1[a] < r.1[b]
      {
        var a' := if a == j then j + 1 else if a == j + 1 then j else a;
        var b' := if b == j then j + 1 else if b == j + 1 then j else b;
        assert r.0[a] == keys[a'] && r.1[a] == idx[a'];
        assert r.0[b] == keys[b'] && r.1[b] == idx[b'];
      }
    }
  }

  lemma {:induction false} PassKeepsTies(keys: seq<real>, idx: seq<nat>, n: nat, j: nat)
    requires j < n && n <= |keys| && n <= |idx| && KeepsTies(keys, idx, n)
    ensures var r := Pass(keys, idx, j); KeepsTies(r.0, r.1, n)
  {
    if j > 0 {
      PassKeepsTies(keys, idx, n, j - 1);
      var r := Pass(keys, idx, j - 1);
      StepKeepsTies(r.0, r.1, n, j - 1);
    }
  }

  lemma {:induction false} SortFromKeepsTies(keys: seq<real>, n: nat, i: nat)
    requires i <= n <= |keys|
    ensures var r := SortFrom(keys, Iota(n), n, i); KeepsTies(r.0, r.1, n)
    decreases n - i
  {
    if i < n {
      SortFromKeepsTies(keys, n, i + 1);
      var r := SortFrom(keys, Iota(n), n, i + 1);
      PassKeepsTies(r.0, r.1, n, i);
    }
  }

  /** The sort is stable: sorted entries of equal magnitude keep their original relative order. */
  lemma SortStable(keys: seq<real>, n: nat)
    requires n <= |keys|
    ensures KeepsTies(Sort(keys, Iota(n), n).0, Perm(keys, n), n)
  {
    SortFromKeepsTies(keys, n, 0);
  }

  // ---------------------------------------------------------------------------
  // Re-sorting

  lemma {:induction false} PassOnSorted<T>(keys: seq<real>, t: seq<T>, j: nat)
    requires j < |keys| && j < |t|
    requires forall x :: 0 <= x < j ==> Abs(keys[x]) >= Abs(keys[x + 1])
    ensures Pass(keys, t, j) == (keys, t)
  {
    if j > 0 {
      PassOnSorted(keys, t, j - 1);
    }
  }

  lemma {:induction false} SortFromOnSorted<T>(keys: seq<real>, t: seq<T>, n: nat, i: nat)
    requires i <= n <= |keys| && n <= |t|
    requires SortedByMagnitude(keys, 0, n)
    ensures SortFrom(keys, t, n, i) == (keys, t)
    decreases n - i
  {
    if i < n {
      SortFromOnSorted(keys, t, n, i + 1);
      PassOnSorted(keys, t, i);
    }
  }

  /** Sorting an already sorted prefix swaps nothing, so sorting twice is sorting once. */
  lemma SortIdempotent<T>(keys: seq<real>, t: seq<T>, n: nat)
    requires n <= |keys| && n <= |t|
    ensures var r := Sort(keys, t, n); Sort(r.0, r.1, n) == r
  {
    SortOrders(keys, t, n);
    var r := Sort(keys, t, n);
    SortFromOnSorted(r.0, r.1, n, 0);
  }

  // ---------------------------------------------------------------------------
  // The report rows

  /**
   * The rows `output()` writes after the sort: for each of the first n - 1
   * entries the name, the magnitude of the score and the rank n - i.
   */
  function ReportRows(names: seq<string>, scores: seq<real>, n: nat): (rows: seq<(string, real, nat)>)
    requires 1 <= n <= |names| && n <= |scores|
    ensures |rows| == n - 1
  {
    seq(n - 1, i requires 0 <= i < n - 1 => (names[i], Abs(scores[i]), n - i))
  }

  /**
   * On sorted scores the rows list magnitudes from the largest down, with
   * ranks n, n - 1, ..., 2 (the entry of least magnitude is not written).
   */
  lemma ReportRanked(names: seq<string>, scores: seq<real>, n: nat)
    requires 1 <= n <= |names| && n <= |scores| && SortedByMagnitude(scores, 0, n)
    ensures var rows := ReportRows(names, scores, n);
      && (forall a :: 0 <= a < n - 1 ==> 2 <= rows[a].2 <= n && rows[a].1 >= 0.0)
      && (forall a, b :: 0 <= a < b < n - 1 ==> rows[a].1 >= rows[b].1 && rows[a].2 > rows[b].2)
      && (forall a :: 0 <= a < n - 1 ==> rows[a].1 >= Abs(scores[n - 1]))
  {
  }
}
