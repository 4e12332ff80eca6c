/** The "Workload balance" mode of the doctor picker
    (modules/patient/app.py:1216-1224): the candidates are ordered by their
    active-case count with a stable sort, the first one under the cap is
    taken, and the least loaded one is the fallback. */
module Workload {
  import opened Wrappers

  /** `active_counts.get(d, 0)` */
  function Load(counts: map<string, nat>, d: string): nat
  {
    if d in counts then counts[d] else 0
  }

  // ---------------------------------------------------------------------
  // Reference definition: the first least-loaded candidate
  // ---------------------------------------------------------------------

  /** Position `i` holds a least-loaded candidate and every candidate before
      it is strictly busier. */
  predicate IsFirstLeast(pool: seq<string>, counts: map<string, nat>, i: int)
  {
    && 0 <= i < |pool|
    && (forall j :: 0 <= j < |pool| ==> Load(counts, pool[i]) <= Load(counts, pool[j]))
    && (forall j :: 0 <= j < i ==> Load(counts, pool[i]) < Load(counts, pool[j]))
  }

  /** At most one position is the first least-loaded one. */
  lemma FirstLeastUnique(pool: seq<string>, counts: map<string, nat>, i: int, j: int)
    requires IsFirstLeast(pool, counts, i) && IsFirstLeast(pool, counts, j)
    ensures i == j
  {
    var li, lj := Load(counts, pool[i]), Load(counts, pool[j]);
    assert i < j ==> lj < li;
    assert j < i ==> li < lj;
  }

  /** The position of the first least-loaded candidate. */
  function FirstLeastIndex(pool: seq<string>, counts: map<string, nat>): (i: nat)
    requires |pool| > 0
    ensures IsFirstLeast(pool, counts, i)
  {
    if |pool| == 1 then 0
    else
      var k := FirstLeastIndex(pool[1..], counts);
      assert forall j :: 1 <= j < |pool| ==> pool[j] == pool[1..][j - 1];
      if Load(counts, pool[0]) <= Load(counts, pool[1..][k]) then 0 else k + 1
  }

  // ---------------------------------------------------------------------
  // `sorted(pool, key=lambda dd: active_counts.get(dd, 0))`
  // ---------------------------------------------------------------------

  predicate SortedByLoad(s: seq<string>, counts: map<string, nat>)
  {
    forall i, j :: 0 <= i < j < |s| ==> Load(counts, s[i]) <= Load(counts, s[j])
  }

  /** Places `x` before the first element at least as busy; `x` comes from
      earlier in the input than every element of `t`, so equal loads keep
      their input order. */
  function InsertByLoad(x: string, t: seq<string>, counts: map<string, nat>): (u: seq<string>)
    ensures multiset(u) == multiset(t) + multiset{x}
    ensures |u| > 0 && u[0] == (if |t| == 0 || Load(counts, x) <= Load(counts, t[0]) then x else t[0])
  {
    if |t| == 0 || Load(counts, x) <= Load(counts, t[0]) then [x] + t
    else
      assert t == [t[0]] + t[1..];
      [t[0]] + InsertByLoad(x, t[1..], counts)
  }

  /** Inserting keeps a lower bound on the loads. */
  lemma {:induction false} InsertByLoadBound(x: string, t: seq<string>, counts: map<string, nat>, floor: nat)
    requires floor <= Load(counts, x)
    requires forall j :: 0 <= j < |t| ==> floor <= Load(counts, t[j])
    ensures forall j :: 0 <= j < |InsertByLoad(x, t, counts)| ==> floor <= Load(counts, InsertByLoad(x, t, counts)[j])
  {
    if |t| > 0 && Load(counts, x) > Load(counts, t[0]) {
      InsertByLoadBound(x, t[1..], counts, floor);
      var rest := InsertByLoad(x, t[1..], counts);
      assert InsertByLoad(x, t, counts) == [t[0]] + rest;
    }
  }

  lemma {:induction false} InsertByLoadSorted(x: string, t: seq<string>, counts: map<string, nat>)
    requires SortedByLoad(t, counts)
    ensures SortedByLoad(InsertByLoad(x, t, counts), counts)
  {
    if |t| > 0 && Load(counts, x) > Load(counts, t[0]) {
      var rest := InsertByLoad(x, t[1..], counts);
      InsertByLoadSorted(x, t[1..], counts);
      InsertByLoadBound(x, t[1..], counts, Load(counts, t[0]));
      var u := [t[0]] + rest;
      assert InsertByLoad(x, t, counts) == u;
      forall i, j | 0 <= i < j < |u|
        ensures Load(counts, u[i]) <= Load(counts, u[j])
      {
        assert u[j] == rest[j - 1];
        if i > 0 {
          assert u[i] == rest[i - 1];
        }
      }
    }
  }

  /** A stable sort of the pool by load (an insertion sort). */
  function SortByLoad(pool: seq<string>, counts: map<string, nat>): (s: seq<string>)
    ensures multiset(s) == multiset(pool)
    ensures |s| == |pool|
  {
    if |pool| == 0 then []
    else
      assert pool == [pool[0]] + pool[1..];
      InsertByLoad(pool[0], SortByLoad(pool[1..], counts), counts)
  }

  /** The sorted pool is ordered by load and is a permutation of the pool. */
  lemma {:induction false} SortByLoadSorted(pool: seq<string>, counts: map<string, nat>)
    ensures SortedByLoad(SortByLoad(pool, counts), counts)
    ensures multiset(SortByLoad(pool, counts)) == multiset(pool)
  {
    if |pool| > 0 {
      SortByLoadSorted(pool[1..], counts);
      InsertByLoadSorted(pool[0], SortByLoad(pool[1..], counts), counts);
    }
  }

  /** Stability at the head: the first element of the sorted pool is the
      first least-loaded candidate of the pool. */
  lemma {:induction false} SortByLoadHead(pool: seq<string>, counts: map<string, nat>)
    requires |pool| > 0
    ensures SortByLoad(pool, counts)[0] == pool[FirstLeastIndex(pool, counts)]
  {
    if |pool| > 1 {
      SortByLoadHead(pool[1..], counts);
    }
  }

  // ---------------------------------------------------------------------
  // The scan over the sorted candidates
  // ---------------------------------------------------------------------

  /** `for cand in pool_sorted: ...`: with a positive cap the first
      candidate under it, without a cap the first candidate; `None` when the
      loop runs out. */
  function ScanUnderCap(sorted: seq<string>, counts: map<string, nat>, cap: int): Option<string>
  {
    if |sorted| == 0 then None
    else if cap > 0 then
      if Load(counts, sorted[0]) < cap then Some(sorted[0]) else ScanUnderCap(sorted[1..], counts, cap)
    else Some(sorted[0])
  }

  /** When the head is least loaded, the scan finds the head or nothing: a
      later candidate under the cap would make the head under it too. */
  lemma {:induction false} ScanFindsHeadOrNothing(sorted: seq<string>, counts: map<string, nat>, cap: int, floor: nat)
    requires forall j :: 0 <= j < |sorted| ==> floor <= Load(counts, sorted[j])
    requires cap > 0 && floor >= cap
    ensures ScanUnderCap(sorted, counts, cap).None?
  {
    if |sorted| > 0 {
      ScanFindsHeadOrNothing(sorted[1..], counts, cap, floor);
    }
  }

  /** The workload-balance choice: `None` only for an empty pool; otherwise
      the first least-loaded candidate of the pool, whatever the cap. */
  function WorkloadChoice(pool: seq<string>, counts: map<string, nat>, cap: int): (r: Option<string>)
    ensures r.None? <==> |pool| == 0
    ensures r.Some? ==> exists i :: IsFirstLeast(pool, counts, i) && pool[i] == r.value
  {
    var sorted := SortByLoad(pool, counts);
    match ScanUnderCap(sorted, counts, cap)
    case Some(cand) =>
      WorkloadChoiceIsFirstLeast(pool, counts, cap);
      Some(cand)
    case None =>
      if |sorted| > 0 then
        WorkloadChoiceIsFirstLeast(pool, counts, cap);
        Some(sorted[0])
      else None
  }

  lemma WorkloadChoiceIsFirstLeast(pool: seq<string>, counts: map<string, nat>, cap: int)
    requires |pool| > 0
    ensures var sorted := SortByLoad(pool, counts);
            && |sorted| > 0
            && IsFirstLeast(pool, counts, FirstLeastIndex(pool, counts))
            && sorted[0] == pool[FirstLeastIndex(pool, counts)]
            && (ScanUnderCap(sorted, counts, cap).None? || ScanUnderCap(sorted, counts, cap) == Some(sorted[0]))
  {
    var sorted := SortByLoad(pool, counts);
    SortByLoadHead(pool, counts);
    SortByLoadSorted(pool, counts);
    if cap > 0 && Load(counts, sorted[0]) >= cap {
      ScanFindsHeadOrNothing(sorted, counts, cap, Load(counts, sorted[0]));
    }
  }

  /** The cap never changes whom workload balance picks: a capped pick is
      the uncapped pick. */
  lemma CapNeverChangesChoice(pool: seq<string>, counts: map<string, nat>, cap: int)
    ensures WorkloadChoice(pool, counts, cap) == WorkloadChoice(pool, counts, 0)
  {
    var a := WorkloadChoice(pool, counts, cap);
    var b := WorkloadChoice(pool, counts, 0);
    if |pool| > 0 {
      var i :| IsFirstLeast(pool, counts, i) && pool[i] == a.value;
      var j :| IsFirstLeast(pool, counts, j) && pool[j] == b.value;
      FirstLeastUnique(pool, counts, i, j);
    }
  }
}
