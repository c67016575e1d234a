/**
 * The mathematics behind the safety check of the Banker's algorithm:
 * resource vectors, the work vector reached after a sequence of processes
 * has finished and released its allocation, safe orders and safe states,
 * and the theorem that a greedy scan which gets stuck proves the state unsafe.
 */
module Safety {

  /** Every row of `mat` has `m` entries. */
  predicate Columns(mat: seq<seq<int>>, m: nat) {
    forall i :: 0 <= i < |mat| ==> |mat[i]| == m
  }

  /** `mat` is an `n` x `m` matrix. */
  predicate Shaped(mat: seq<seq<int>>, n: nat, m: nat) {
    |mat| == n && Columns(mat, m)
  }

  /** Every entry of `s` is a process index in [0, n). */
  predicate InRange(s: seq<int>, n: nat) {
    forall i :: 0 <= i < |s| ==> 0 <= s[i] < n
  }

  /** No process index occurs twice in `s`. */
  predicate Distinct(s: seq<int>) {
    forall i, k :: 0 <= i < k < |s| ==> s[i] != s[k]
  }

  /** No entry of `mat` is negative. */
  predicate NonNegative(mat: seq<seq<int>>) {
    forall i, j :: 0 <= i < |mat| && 0 <= j < |mat[i]| ==> 0 <= mat[i][j]
  }

  /** A need row can be met from `work`: `row[j] <= work[j]` for every resource type j. */
  predicate Fits(row: seq<int>, work: seq<int>) {
    |row| == |work| && forall j :: 0 <= j < |row| ==> row[j] <= work[j]
  }

  /** Componentwise sum of two resource vectors. */
  function AddVec(a: seq<int>, b: seq<int>): (r: seq<int>)
    requires |a| == |b|
    ensures |r| == |a|
  {
    seq(|a|, j requires 0 <= j < |a| => a[j] + b[j])
  }

  /** The matrices the safety check reads: `available`, `need` and `allocation`. */
  datatype Snapshot = Snapshot(available: seq<int>, need: seq<seq<int>>, allocation: seq<seq<int>>)
  {
    /** One `need` row and one `allocation` row per process, each with one entry per resource type. */
    predicate WellFormed() {
      Shaped(need, |allocation|, |available|) && Shaped(allocation, |allocation|, |available|)
    }
  }

  /**
   * The work vector after the processes of `s` have finished in that order:
   * `available` plus the allocation row of every process in `s`.
   */
  function WorkAfter(st: Snapshot, s: seq<int>): (w: seq<int>)
    requires st.WellFormed() && InRange(s, |st.allocation|)
    ensures |w| == |st.available|
    decreases |s|
  {
    if s == [] then st.available
    else AddVec(WorkAfter(st, s[..|s| - 1]), st.allocation[s[|s| - 1]])
  }

  /**
   * A safe order: each process of `s` has its whole need met by the work vector
   * left by the processes before it.
   */
  ghost predicate IsSafeOrder(st: Snapshot, s: seq<int>)
    requires st.WellFormed() && InRange(s, |st.allocation|)
    decreases |s|
  {
    s == [] ||
    var prefix := s[..|s| - 1];
    IsSafeOrder(st, prefix) && Fits(st.need[s[|s| - 1]], WorkAfter(st, prefix))
  }

  /** In a safe order every process fits the work vector its predecessors leave. */
  lemma {:induction false} SafeOrderAt(st: Snapshot, s: seq<int>, i: nat)
    requires st.WellFormed() && InRange(s, |st.allocation|) && IsSafeOrder(st, s) && i < |s|
    ensures Fits(st.need[s[i]], WorkAfter(st, s[..i]))
    decreases |s|
  {
    if i < |s| - 1 {
      var prefix := s[..|s| - 1];
      SafeOrderAt(st, prefix, i);
      assert prefix[..i] == s[..i];
    }
  }

  /** A safe state: some order of all the processes is a safe order. */
  ghost predicate SafeState(st: Snapshot)
    requires st.WellFormed()
  {
    exists s :: |s| == |st.allocation| && InRange(s, |st.allocation|) && Distinct(s) && IsSafeOrder(st, s)
  }

  /** No process outside `s` can be met from the work vector that `s` leaves. */
  ghost predicate Stuck(st: Snapshot, s: seq<int>)
    requires st.WellFormed() && InRange(s, |st.allocation|)
  {
    forall q :: 0 <= q < |st.allocation| && q !in s ==> !Fits(st.need[q], WorkAfter(st, s))
  }

  /** Letting one more process finish adds exactly its allocation row to the work vector. */
  lemma WorkAfterPush(st: Snapshot, s: seq<int>, p: int)
    requires st.WellFormed() && InRange(s, |st.allocation|) && 0 <= p < |st.allocation|
    ensures InRange(s + [p], |st.allocation|)
    ensures WorkAfter(st, s + [p]) == AddVec(WorkAfter(st, s), st.allocation[p])
  {
    assert (s + [p])[..|s|] == s;
  }

  /** A safe order extended by a process whose need fits the current work is still a safe order. */
  lemma SafeOrderPush(st: Snapshot, s: seq<int>, p: int)
    requires st.WellFormed() && InRange(s, |st.allocation|) && 0 <= p < |st.allocation|
    requires IsSafeOrder(st, s) && Fits(st.need[p], WorkAfter(st, s))
    ensures InRange(s + [p], |st.allocation|) && IsSafeOrder(st, s + [p])
  {
    assert (s + [p])[..|s|] == s;
  }

  /** Column `j` of the allocation rows of the processes in `s`, summed. */
  function ColSum(st: Snapshot, s: seq<int>, j: nat): (c: int)
    requires st.WellFormed() && InRange(s, |st.allocation|) && j < |st.available|
    decreases |s|
  {
    if s == [] then 0 else ColSum(st, s[..|s| - 1], j) + st.allocation[s[|s| - 1]][j]
  }

  /** Entry `j` of the work vector is `available[j]` plus the column sum over the finished processes. */
  lemma {:induction false} WorkAfterColumn(st: Snapshot, s: seq<int>, j: nat)
    requires st.WellFormed() && InRange(s, |st.allocation|) && j < |st.available|
    ensures WorkAfter(st, s)[j] == st.available[j] + ColSum(st, s, j)
    decreases |s|
  {
    if s != [] {
      WorkAfterColumn(st, s[..|s| - 1], j);
    }
  }

  /** Column sums split over concatenation. */
  lemma {:induction false} ColSumConcat(st: Snapshot, a: seq<int>, b: seq<int>, j: nat)
    requires st.WellFormed() && InRange(a, |st.allocation|) && InRange(b, |st.allocation|)
    requires j < |st.available|
    ensures InRange(a + b, |st.allocation|)
    ensures ColSum(st, a + b, j) == ColSum(st, a, j) + ColSum(st, b, j)
    decreases |b|
  {
    if b == [] {
      assert a + b == a;
    } else {
      var b' := b[..|b| - 1];
      assert (a + b)[..|a + b| - 1] == a + b';
      ColSumConcat(st, a, b', j);
    }
  }

  /** With no negative allocation, every column sum is non-negative. */
  lemma {:induction false} ColSumNonNegative(st: Snapshot, s: seq<int>, j: nat)
    requires st.WellFormed() && NonNegative(st.allocation) && InRange(s, |st.allocation|)
    requires j < |st.available|
    ensures 0 <= ColSum(st, s, j)
    decreases |s|
  {
    if s != [] {
      ColSumNonNegative(st, s[..|s| - 1], j);
    }
  }

  /** Taking one process out of `a` takes its allocation out of the column sum. */
  lemma ColSumRemove(st: Snapshot, a: seq<int>, i: nat, j: nat)
    requires st.WellFormed() && InRange(a, |st.allocation|) && i < |a| && j < |st.available|
    ensures InRange(a[..i] + a[i + 1..], |st.allocation|)
    ensures ColSum(st, a, j) == ColSum(st, a[..i] + a[i + 1..], j) + st.allocation[a[i]][j]
  {
    var left, x, right := a[..i], a[i], a[i + 1..];
    assert a == left + [x] + right;
    assert ColSum(st, [x], j) == st.allocation[x][j] by {
      assert [x][..0] == [];
    }
    ColSumConcat(st, left + [x], right, j);
    ColSumConcat(st, left, [x], j);
    ColSumConcat(st, left, right, j);
  }

  /** Taking one entry out of a sequence of distinct entries leaves distinct entries, none equal to it. */
  lemma DistinctRemove(a: seq<int>, i: nat)
    requires Distinct(a) && i < |a|
    ensures Distinct(a[..i] + a[i + 1..])
    ensures forall y :: y in a[..i] + a[i + 1..] ==> y in a && y != a[i]
  {
    var a' := a[..i] + a[i + 1..];
    forall u, v | 0 <= u < v < |a'|
      ensures a'[u] != a'[v]
    {
      var u' := if u < i then u else u + 1;
      var v' := if v < i then v else v + 1;
      assert a'[u] == a[u'] && a'[v] == a[v'];
    }
    forall y | y in a'
      ensures y in a && y != a[i]
    {
      var k :| 0 <= k < |a'| && a'[k] == y;
      var k' := if k < i then k else k + 1;
      assert a[k'] == y && k' != i;
    }
  }

  /** Entries of `g` that are not its last entry are entries of `g` without its last entry. */
  lemma IncludedDropLast(a: seq<int>, g: seq<int>)
    requires g != [] && forall y :: y in a ==> y in g && y != g[|g| - 1]
    ensures forall y :: y in a ==> y in g[..|g| - 1]
  {
    forall y | y in a
      ensures y in g[..|g| - 1]
    {
      var h :| 0 <= h < |g| && g[h] == y;
      assert h < |g| - 1 && g[..|g| - 1][h] == y;
    }
  }

  /**
   * With no negative allocation, the column sum over a set of distinct processes
   * is at most the column sum over any distinct superset.
   */
  lemma {:induction false} ColSumSubset(st: Snapshot, a: seq<int>, g: seq<int>, j: nat)
    requires st.WellFormed() && NonNegative(st.allocation) && j < |st.available|
    requires InRange(a, |st.allocation|) && InRange(g, |st.allocation|)
    requires Distinct(a) && Distinct(g)
    requires forall x :: x in a ==> x in g
    ensures ColSum(st, a, j) <= ColSum(st, g, j)
    decreases |g|
  {
    if a == [] {
      ColSumNonNegative(st, g, j);
    } else {
      assert a[0] in g;
      var g' := g[..|g| - 1];
      var x := g[|g| - 1];
      if x in a {
        var i :| 0 <= i < |a| && a[i] == x;
        var a' := a[..i] + a[i + 1..];
        ColSumRemove(st, a, i, j);
        DistinctRemove(a, i);
        IncludedDropLast(a', g);
        ColSumSubset(st, a', g', j);
      } else {
        IncludedDropLast(a, g);
        ColSumSubset(st, a, g', j);
      }
    }
  }

  /**
   * With no negative allocation, letting a superset of the processes finish
   * leaves at least as much of every resource type.
   */
  lemma WorkMonotone(st: Snapshot, a: seq<int>, g: seq<int>)
    requires st.WellFormed() && NonNegative(st.allocation)
    requires InRange(a, |st.allocation|) && InRange(g, |st.allocation|)
    requires Distinct(a) && Distinct(g)
    requires forall x :: x in a ==> x in g
    ensures forall j :: 0 <= j < |st.available| ==> WorkAfter(st, a)[j] <= WorkAfter(st, g)[j]
  {
    forall j | 0 <= j < |st.available|
      ensures WorkAfter(st, a)[j] <= WorkAfter(st, g)[j]
    {
      WorkAfterColumn(st, a, j);
      WorkAfterColumn(st, g, j);
      ColSumSubset(st, a, g, j);
    }
  }

  /** The set of entries of a sequence. */
  function Elements(s: seq<int>): (e: set<int>) {
    set x | x in s
  }

  lemma {:induction false} ElementsOfDistinct(s: seq<int>)
    requires Distinct(s)
    ensures |Elements(s)| == |s|
    decreases |s|
  {
    if s != [] {
      var s' := s[..|s| - 1];
      var x := s[|s| - 1];
      assert s == s' + [x];
      assert Elements(s) == Elements(s') + {x};
      ElementsOfDistinct(s');
    }
  }

  lemma {:induction false} ElementsBound(s: seq<int>)
    ensures |Elements(s)| <= |s|
    decreases |s|
  {
    if s != [] {
      var s' := s[..|s| - 1];
      assert s == s' + [s[|s| - 1]];
      assert Elements(s) == Elements(s') + {s[|s| - 1]};
      ElementsBound(s');
    }
  }

  /** Pigeonhole: distinct entries that all occur in `g` are at most `|g|` many. */
  lemma DistinctIncluded(a: seq<int>, g: seq<int>)
    requires Distinct(a) && forall x :: x in a ==> x in g
    ensures |a| <= |g|
  {
    ElementsOfDistinct(a);
    ElementsBound(g);
    var A, B := Elements(a), Elements(g);
    assert A <= B;
    assert B == A + (B - A) && A * (B - A) == {};
  }

  /** A sequence of distinct process indices has at most `n` entries. */
  lemma DistinctInRangeBound(s: seq<int>, n: nat)
    requires Distinct(s) && InRange(s, n)
    ensures |s| <= n
  {
    var all := Upto(n);
    forall x | x in s
      ensures x in all
    {
      assert all[x] == x;
    }
    DistinctIncluded(s, all);
  }

  /** `n` distinct process indices in [0, n) name every process: the sequence is a permutation of 0..n-1. */
  lemma DistinctInRangeCovers(s: seq<int>, n: nat)
    requires Distinct(s) && InRange(s, n) && |s| == n
    ensures forall q :: 0 <= q < n ==> q in s
  {
    forall q | 0 <= q < n
      ensures q in s
    {
      if q !in s {
        var others := seq(q, i => i) + seq(n - q - 1, i => q + 1 + i);
        forall x | x in s
          ensures x in others
        {
          if x < q {
            assert others[x] == x;
          } else {
            assert others[x - 1] == x;
          }
        }
        DistinctIncluded(s, others);
      }
    }
  }

  /**
   * If the processes of `g` are stuck, every prefix of any safe order consists of
   * processes of `g` only: the work it leaves is never more than `g` leaves.
   */
  lemma {:induction false} SafeOrderWithinStuck(st: Snapshot, g: seq<int>, s: seq<int>, k: nat)
    requires st.WellFormed() && NonNegative(st.allocation)
    requires InRange(g, |st.allocation|) && Distinct(g) && Stuck(st, g)
    requires InRange(s, |st.allocation|) && Distinct(s) && IsSafeOrder(st, s)
    requires k <= |s|
    ensures forall i :: 0 <= i < k ==> s[i] in g
    decreases k
  {
    if k > 0 {
      SafeOrderWithinStuck(st, g, s, k - 1);
      var pre := s[..k - 1];
      assert Distinct(pre);
      forall x | x in pre
        ensures x in g
      {
        var i :| 0 <= i < |pre| && pre[i] == x;
        assert s[i] == x;
      }
      WorkMonotone(st, pre, g);
      var p := s[k - 1];
      SafeOrderAt(st, s, k - 1);
      assert Fits(st.need[p], WorkAfter(st, g));
    }
  }

  /**
   * Completeness of the greedy scan: with no negative allocation, a set of
   * distinct processes that is stuck before every process has finished shows
   * that no safe order of all the processes exists.
   */
  lemma StuckIsUnsafe(st: Snapshot, g: seq<int>)
    requires st.WellFormed() && NonNegative(st.allocation)
    requires InRange(g, |st.allocation|) && Distinct(g) && |g| < |st.allocation|
    requires Stuck(st, g)
    ensures !SafeState(st)
  {
    if SafeState(st) {
      var s :| |s| == |st.allocation| && InRange(s, |st.allocation|) && Distinct(s) && IsSafeOrder(st, s);
      SafeOrderWithinStuck(st, g, s, |s|);
      DistinctIncluded(s, g);
    }
  }

  /** The processes 0, 1, ..., k-1 in index order. */
  function Upto(k: nat): (s: seq<int>)
    ensures |s| == k && forall i :: 0 <= i < k ==> s[i] == i
  {
    seq(k, i => i)
  }

  /**
   * With no negative allocation, if every need row fits `available` then letting
   * the processes finish in index order is a safe order.
   */
  lemma {:induction false} IndexOrderIsSafe(st: Snapshot, k: nat)
    requires st.WellFormed() && NonNegative(st.allocation) && k <= |st.allocation|
    requires forall q :: 0 <= q < |st.allocation| ==> Fits(st.need[q], st.available)
    ensures InRange(Upto(k), |st.allocation|) && IsSafeOrder(st, Upto(k))
    decreases k
  {
    if k > 0 {
      var prefix := Upto(k - 1);
      assert Upto(k) == prefix + [k - 1];
      IndexOrderIsSafe(st, k - 1);
      assert Distinct(prefix);
      WorkMonotone(st, [], prefix);
      SafeOrderPush(st, prefix, k - 1);
    }
  }

  /**
   * With no negative allocation, a state in which every need row fits `available`
   * (for instance, every need is zero) is safe.
   */
  lemma FitsAvailableIsSafe(st: Snapshot)
    requires st.WellFormed() && NonNegative(st.allocation)
    requires forall q :: 0 <= q < |st.allocation| ==> Fits(st.need[q], st.available)
    ensures SafeState(st)
  {
    var n := |st.allocation|;
    IndexOrderIsSafe(st, n);
    assert Distinct(Upto(n));
  }
}
