/**
 * The class `BankersAlgorithm` of bankers.cpp: the system state of n processes
 * and m resource types, the derivation of the need matrix and the safety check.
 */
module Bankers {
  import opened Safety

  /**
   * What the safety loop keeps true of its locals: `finish[q]` holds exactly for the
   * processes in `s`, `s` is a safe order and `work` is what it leaves. With the
   * source's guard `s` stays empty; with the intended guard `s` has no repeats.
   */
  ghost predicate Scanned(st: Snapshot, skipWhen: bool, work: seq<int>, finish: seq<bool>, s: seq<int>)
    requires st.WellFormed()
  {
    && |finish| == |st.allocation|
    && InRange(s, |st.allocation|)
    && (forall q :: 0 <= q < |st.allocation| ==> (finish[q] <==> q in s))
    && work == WorkAfter(st, s)
    && IsSafeOrder(st, s)
    && (skipWhen ==> Distinct(s) && |s| <= |st.allocation|)
    && (!skipWhen ==> s == [])
  }

  /** The step of bankers.cpp:52-59: a process that was not skipped and fits is released and appended. */
  lemma ScannedPush(st: Snapshot, skipWhen: bool, work: seq<int>, finish: seq<bool>, s: seq<int>, p: int)
    requires st.WellFormed() && Scanned(st, skipWhen, work, finish, s)
    requires 0 <= p < |st.allocation| && finish[p] != skipWhen && Fits(st.need[p], work)
    ensures Scanned(st, skipWhen, AddVec(work, st.allocation[p]), finish[p := true], s + [p])
  {
    WorkAfterPush(st, s, p);
    SafeOrderPush(st, s, p);
    var t := s + [p];
    forall q | 0 <= q < |st.allocation|
      ensures finish[p := true][q] <==> q in t
    {
      assert q in t <==> q in s || q == p;
    }
    if skipWhen {
      assert Distinct(t) by {
        assert p !in s;
      }
      DistinctInRangeBound(t, |st.allocation|);
    }
  }

  class BankersAlgorithm {
    /** number of processes */
    var n: nat
    /** number of resource types */
    var m: nat
    /** resources currently free, one entry per resource type */
    var available: seq<int>
    /** maximum demand of each process */
    var maxNeed: seq<seq<int>>
    /** resources currently held by each process */
    var allocation: seq<seq<int>>
    /** remaining need of each process */
    var need: seq<seq<int>>

    /** Every vector has the size the two counts give it. */
    ghost predicate Valid()
      reads this
    {
      |available| == m && Shaped(maxNeed, n, m) && Shaped(allocation, n, m) && Shaped(need, n, m)
    }

    /** `need` is `maxNeed - allocation`, cell by cell. */
    ghost predicate NeedDerived()
      reads this
      requires Valid()
    {
      forall i, j :: 0 <= i < n && 0 <= j < m ==> need[i][j] == maxNeed[i][j] - allocation[i][j]
    }

    /** The matrices the safety check reads, as one value. */
    ghost function Snap(): (st: Snapshot)
      reads this
      requires Valid()
      ensures st.WellFormed() && |st.allocation| == n && |st.available| == m
    {
      Snapshot(available, need, allocation)
    }

    /** Stores the inputs, sizes `need` to n x m and derives it. */
    constructor (n: nat, m: nat, available: seq<int>, maxNeed: seq<seq<int>>, allocation: seq<seq<int>>)
      requires |available| == m && Shaped(maxNeed, n, m) && Shaped(allocation, n, m)
      ensures Valid() && NeedDerived()
      ensures this.n == n && this.m == m
      ensures this.available == available && this.maxNeed == maxNeed && this.allocation == allocation
    {
      this.n, this.m := n, m;
      this.available, this.maxNeed, this.allocation := available, maxNeed, allocation;
      need := seq(n, _ => seq(m, _ => 0));
      new;
      CalculateNeed();
    }

    /** Overwrites every cell of `need` with `maxNeed - allocation`; nothing else changes. */
    method CalculateNeed()
      requires Valid()
      modifies this`need
      ensures Valid() && NeedDerived()
    {
      for i := 0 to n
        invariant Valid()
        invariant forall i', j :: 0 <= i' < i && 0 <= j < m ==> need[i'][j] == maxNeed[i'][j] - allocation[i'][j]
      {
        for j := 0 to m
          invariant Valid()
          invariant forall i', j' :: 0 <= i' < i && 0 <= j' < m ==> need[i'][j'] == maxNeed[i'][j'] - allocation[i'][j']
          invariant forall j' :: 0 <= j' < j ==> need[i][j'] == maxNeed[i][j'] - allocation[i][j']
        {
          need := need[i := need[i][j := maxNeed[i][j] - allocation[i][j]]];
        }
      }
    }

    /**
     * The safety check of `isSafe` (bankers.cpp:32-67). The test that skips a
     * process on each pass is written `finish[p] == skipWhen`: the source tests
     * `!finish[p]`, that is `skipWhen == false`; skipping the processes already
     * finished is `skipWhen == true`. `safeSequence` is the out-parameter the
     * source clears and appends to.
     */
    method SafetyCheck(skipWhen: bool) returns (safe: bool, safeSequence: seq<int>)
      requires Valid()
      ensures InRange(safeSequence, n) && IsSafeOrder(Snap(), safeSequence)
      ensures !skipWhen ==> (safe <==> n == 0) && safeSequence == []
      ensures skipWhen ==> Distinct(safeSequence) && (safe <==> |safeSequence| == n)
      ensures skipWhen && !safe ==> Stuck(Snap(), safeSequence)
    {
      ghost var st := Snap();
      var work := available;
      var finish := seq(n, _ => false);
      safeSequence := [];
      var count := 0;
      while count < n
        invariant Scanned(st, skipWhen, work, finish, safeSequence) && count == |safeSequence|
        decreases n - count
      {
        var found := false;
        ghost var before := safeSequence;
        for p := 0 to n
          invariant Scanned(st, skipWhen, work, finish, safeSequence) && count == |safeSequence|
          invariant !skipWhen ==> !found
          invariant found ==> |safeSequence| > |before|
          invariant !found ==> safeSequence == before
          invariant !found ==> forall q :: 0 <= q < p && finish[q] != skipWhen ==> !Fits(st.need[q], work)
        {
          if finish[p] == skipWhen {
            continue;
          }
          var canRun := true;
          for j := 0 to m
            invariant canRun
            invariant forall j' :: 0 <= j' < j ==> need[p][j'] <= work[j']
          {
            if need[p][j] > work[j] {
              canRun := false;
              break;
            }
          }
          if canRun {
            ScannedPush(st, skipWhen, work, finish, safeSequence, p);
            ghost var held := work;
            for k := 0 to m
              invariant |work| == m
              invariant forall k' :: 0 <= k' < k ==> work[k'] == held[k'] + allocation[p][k']
              invariant forall k' :: k <= k' < m ==> work[k'] == held[k']
            {
              work := work[k := work[k] + allocation[p][k]];
            }
            assert work == AddVec(held, allocation[p]);
            finish := finish[p := true];
            safeSequence := safeSequence + [p];
            count := count + 1;
            found := true;
          }
        }
        if !found {
          return false, safeSequence;
        }
      }
      return true, safeSequence;
    }

    /**
     * `isSafe` as written: every `finish` flag starts false and the guard skips every
     * unfinished process, so no pass ever makes progress. The check reports every
     * state with at least one process unsafe, with an empty sequence.
     */
    method IsSafeAsWritten() returns (safe: bool, safeSequence: seq<int>)
      requires Valid()
      ensures safe <==> n == 0
      ensures safeSequence == []
    {
      safe, safeSequence := SafetyCheck(false);
    }

    /**
     * `isSafe` with the intended guard (skip processes already finished). The
     * sequence is a safe order of distinct processes; `true` means it holds all n
     * processes; `false` means no remaining process fits the work vector it leaves.
     * With no negative allocation, `true` is returned exactly for the safe states.
     */
    method IsSafe() returns (safe: bool, safeSequence: seq<int>)
      requires Valid()
      ensures InRange(safeSequence, n) && Distinct(safeSequence)
      ensures IsSafeOrder(Snap(), safeSequence)
      ensures safe <==> |safeSequence| == n
      ensures n == 0 ==> safe && safeSequence == []
      ensures safe ==> forall q :: 0 <= q < n ==> q in safeSequence
      ensures !safe ==> Stuck(Snap(), safeSequence)
      ensures NonNegative(allocation) ==> (safe <==> SafeState(Snap()))
    {
      safe, safeSequence := SafetyCheck(true);
      if safe {
        DistinctInRangeCovers(safeSequence, n);
      } else if NonNegative(allocation) {
        DistinctInRangeBound(safeSequence, n);
        StuckIsUnsafe(Snap(), safeSequence);
      }
    }
  }
}
