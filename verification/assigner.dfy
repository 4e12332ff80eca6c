/** `pick_doctor_for_case` (modules/patient/app.py:1204-1241): the doctor a
    rule's policy for the case's risk tier chooses, and the round-robin
    counters it advances. */
module Assigner {
  import opened Wrappers
  import opened Domain
  import opened Rules
  import opened Matcher
  import opened Workload

  /** The chosen doctor and the round-robin counters afterwards, keyed by
      rule id. */
  datatype Pick = Pick(choice: Option<string>, rr: map<int, int>)

  /** `_rr_counters.get(key, 0)` */
  function RrCounter(rr: map<int, int>, id: int): int
  {
    if id in rr then rr[id] else 0
  }

  /** The Fixed-doctor mode falls back to workload balance by calling the
      picker again, so it ranks above the other modes. */
  function ModeRank(m: Mode): nat
  {
    if m.FixedDoctor? then 1 else 0
  }

  /** The choice is the first least-loaded candidate of the pool. */
  predicate LeastLoadedPick(choice: Option<string>, pool: seq<string>, counts: map<string, nat>)
  {
    exists i :: 0 <= i < |pool| && IsFirstLeast(pool, counts, i) && choice == Some(pool[i])
  }

  /** The fixed doctor is named, in the pool and (when a cap is set) under
      the cap. */
  predicate FixedEligible(doctor: Option<string>, pool: seq<string>, counts: map<string, nat>, cap: int)
  {
    && Truthy(doctor)
    && doctor.value in pool
    && !(cap > 0 && Load(counts, doctor.value) >= cap)
  }

  /** The rule with its mapping replaced by a workload-balance entry for one
      tier, as the Fixed-doctor fallback builds it. */
  function WorkloadFallback(r: Rule, risk: Risk): (f: Rule)
    ensures PolicyFor(f, risk).mode == WorkloadBalance
    ensures f.ruleType == r.ruleType && f.region == r.region && f.maxActiveCases == r.maxActiveCases
  {
    r.(mapping := map[risk := Policy(WorkloadBalance, None)])
  }

  /** `pick_doctor_for_case(case, rule)`. Nobody is picked only for an
      empty roster or an unrecognised mode; whoever is picked is in the
      rule's candidate pool; only round-robin touches the counters. */
  function PickDoctor(c: Case, r: Rule, roster: seq<Doctor>, counts: map<string, nat>, rr: map<int, int>): (p: Pick)
    decreases ModeRank(PolicyFor(r, c.risk).mode)
    ensures p.choice.Some? ==> p.choice.value in CandidatePool(r, roster)
    ensures p.choice.None? <==> |roster| == 0 || PolicyFor(r, c.risk).mode.Unrecognised?
    ensures !PolicyFor(r, c.risk).mode.RoundRobin? || |roster| == 0 ==> p.rr == rr
  {
    var policy := PolicyFor(r, c.risk);
    var pool := CandidatePool(r, roster);
    match policy.mode
    case WorkloadBalance =>
      Pick(WorkloadChoice(pool, counts, r.maxActiveCases), rr)
    case FixedDoctor =>
      if FixedEligible(policy.doctor, pool, counts, r.maxActiveCases) then Pick(policy.doctor, rr)
      else
        var f := WorkloadFallback(r, c.risk);
        assert CandidatePool(f, roster) == pool;
        PickDoctor(c, f, roster, counts, rr)
    case RoundRobin =>
      if |pool| == 0 then Pick(None, rr)
      else
        var k := RrCounter(rr, r.id);
        Pick(Some(pool[k % |pool|]), rr[r.id := (k + 1) % |pool|])
    case Unrecognised(_) =>
      Pick(None, rr)
  }

  /** Workload balance picks the first least-loaded candidate of the pool,
      whatever the cap. */
  lemma PickWorkload(c: Case, r: Rule, roster: seq<Doctor>, counts: map<string, nat>, rr: map<int, int>)
    requires PolicyFor(r, c.risk).mode.WorkloadBalance? && |roster| > 0
    ensures LeastLoadedPick(PickDoctor(c, r, roster, counts, rr).choice, CandidatePool(r, roster), counts)
  {
  }

  /** Fixed doctor: the named doctor when eligible, otherwise the first
      least-loaded candidate. */
  lemma PickFixed(c: Case, r: Rule, roster: seq<Doctor>, counts: map<string, nat>, rr: map<int, int>)
    requires PolicyFor(r, c.risk).mode.FixedDoctor?
    ensures var doctor := PolicyFor(r, c.risk).doctor;
            var choice := PickDoctor(c, r, roster, counts, rr).choice;
            if FixedEligible(doctor, CandidatePool(r, roster), counts, r.maxActiveCases) then choice == doctor
            else |roster| > 0 ==> LeastLoadedPick(choice, CandidatePool(r, roster), counts)
  {
    var doctor := PolicyFor(r, c.risk).doctor;
    if !FixedEligible(doctor, CandidatePool(r, roster), counts, r.maxActiveCases) && |roster| > 0 {
      var f := WorkloadFallback(r, c.risk);
      assert CandidatePool(f, roster) == CandidatePool(r, roster);
      PickWorkload(c, f, roster, counts, rr);
    }
  }

  /** Round-robin: the candidate at the rule's counter, modulo the pool
      size, and the counter advanced by one modulo the pool size. */
  lemma PickRoundRobin(c: Case, r: Rule, roster: seq<Doctor>, counts: map<string, nat>, rr: map<int, int>)
    requires PolicyFor(r, c.risk).mode.RoundRobin? && |roster| > 0
    ensures var pool := CandidatePool(r, roster);
            var k := RrCounter(rr, r.id);
            var p := PickDoctor(c, r, roster, counts, rr);
            && p.choice == Some(pool[k % |pool|])
            && p.rr == rr[r.id := (k + 1) % |pool|]
  {
  }

  /** Round-robin neither looks at the active-case counts nor at the cap. */
  lemma RoundRobinIgnoresLoad(c: Case, r: Rule, roster: seq<Doctor>, counts: map<string, nat>, other: map<string, nat>, rr: map<int, int>, cap: int)
    requires PolicyFor(r, c.risk).mode.RoundRobin?
    ensures PickDoctor(c, r.(maxActiveCases := cap), roster, other, rr) == PickDoctor(c, r, roster, counts, rr)
  {
    assert CandidatePool(r.(maxActiveCases := cap), roster) == CandidatePool(r, roster);
  }

  // ---------------------------------------------------------------------
  // Round-robin over successive cases
  // ---------------------------------------------------------------------

  /** The choices of `k` successive picks for cases of one tier, the
      counters threaded from each pick to the next. */
  function PickSeries(cs: seq<Case>, r: Rule, roster: seq<Doctor>, counts: map<string, nat>, rr: map<int, int>): (out: seq<Option<string>>)
    ensures |out| == |cs|
  {
    if |cs| == 0 then []
    else
      var p := PickDoctor(cs[0], r, roster, counts, rr);
      [p.choice] + PickSeries(cs[1..], r, roster, counts, p.rr)
  }

  lemma ModSucc(a: int, n: int)
    requires n > 0
    ensures ((a % n) + 1) % n == (a + 1) % n
  {
    var q := a / n;
    assert a == q * n + a % n;
    assert (a + 1) == q * n + ((a % n) + 1);
    ModShift(q, (a % n) + 1, n);
  }

  lemma MulSign(d: int, n: int)
    requires n > 0
    ensures d >= 1 ==> d * n >= n
    ensures d <= -1 ==> d * n <= -n
  {
  }

  /** Euclidean division has one remainder. */
  lemma ModUnique(a: int, n: int, q: int, r: int)
    requires n > 0 && 0 <= r < n && a == q * n + r
    ensures a % n == r
  {
    var d := q - a / n;
    assert d * n == a % n - r;
    MulSign(d, n);
  }

  lemma ModShift(q: int, b: int, n: int)
    requires n > 0
    ensures (q * n + b) % n == b % n
  {
    var d := b / n;
    assert q * n + b == (q + d) * n + b % n;
    ModUnique(q * n + b, n, q + d, b % n);
  }

  /** `m` round-robin picks over one pool starting at counter `k`. */
  function RoundRobinSeries(pool: seq<string>, k: int, m: nat): (out: seq<Option<string>>)
    requires |pool| > 0
    ensures |out| == m
    decreases m
  {
    if m == 0 then [] else [Some(pool[k % |pool|])] + RoundRobinSeries(pool, (k + 1) % |pool|, m - 1)
  }

  lemma {:induction false} RoundRobinSeriesRotates(pool: seq<string>, k: int, m: nat)
    requires |pool| > 0
    ensures Rotation(RoundRobinSeries(pool, k, m), pool, k)
    decreases m
  {
    if m > 0 {
      var k1 := (k + 1) % |pool|;
      RoundRobinSeriesRotates(pool, k1, m - 1);
      ShiftedRotation(RoundRobinSeries(pool, k, m), RoundRobinSeries(pool, k1, m - 1), pool, k, k1);
    }
  }

  /** For cases of a round-robin tier, the picker's successive choices are
      the round-robin series of the rule's pool from the rule's counter. */
  lemma {:induction false} PickSeriesIsRoundRobin(cs: seq<Case>, r: Rule, roster: seq<Doctor>, counts: map<string, nat>, rr: map<int, int>)
    requires |roster| > 0
    requires forall j :: 0 <= j < |cs| ==> PolicyFor(r, cs[j].risk).mode.RoundRobin?
    ensures PickSeries(cs, r, roster, counts, rr) == RoundRobinSeries(CandidatePool(r, roster), RrCounter(rr, r.id), |cs|)
  {
    if |cs| > 0 {
      var p := PickDoctor(cs[0], r, roster, counts, rr);
      PickRoundRobin(cs[0], r, roster, counts, rr);
      PickSeriesCons(cs, r, roster, counts, rr);
      RoundRobinTail(cs, r);
      PickSeriesIsRoundRobin(cs[1..], r, roster, counts, p.rr);
    }
  }

  /** Successive round-robin picks walk the pool in order, starting at the
      rule's counter and wrapping around. */
  lemma RoundRobinRotates(cs: seq<Case>, r: Rule, roster: seq<Doctor>, counts: map<string, nat>, rr: map<int, int>)
    requires |roster| > 0
    requires forall j :: 0 <= j < |cs| ==> PolicyFor(r, cs[j].risk).mode.RoundRobin?
    ensures Rotation(PickSeries(cs, r, roster, counts, rr), CandidatePool(r, roster), RrCounter(rr, r.id))
  {
    PickSeriesIsRoundRobin(cs, r, roster, counts, rr);
    RoundRobinSeriesRotates(CandidatePool(r, roster), RrCounter(rr, r.id), |cs|);
  }

  lemma PickSeriesCons(cs: seq<Case>, r: Rule, roster: seq<Doctor>, counts: map<string, nat>, rr: map<int, int>)
    requires |cs| > 0
    ensures var p := PickDoctor(cs[0], r, roster, counts, rr);
            PickSeries(cs, r, roster, counts, rr) == [p.choice] + PickSeries(cs[1..], r, roster, counts, p.rr)
  {
  }

  lemma RoundRobinTail(cs: seq<Case>, r: Rule)
    requires |cs| > 0
    requires forall j :: 0 <= j < |cs| ==> PolicyFor(r, cs[j].risk).mode.RoundRobin?
    ensures forall j :: 0 <= j < |cs[1..]| ==> PolicyFor(r, cs[1..][j].risk).mode.RoundRobin?
  {
    assert forall j :: 0 <= j < |cs[1..]| ==> cs[1..][j] == cs[j + 1];
  }

  /** The picks are the pool's candidates from position `k` on, wrapping
      around. */
  predicate Rotation(picks: seq<Option<string>>, pool: seq<string>, k: int)
    requires |pool| > 0
  {
    forall t :: 0 <= t < |picks| ==> picks[t] == Some(pool[(k + t) % |pool|])
  }

  /** One step of the rotation: a pick at `k` followed by picks from
      `(k + 1) % n` onwards is a run of picks from `k` onwards. */
  lemma ShiftedRotation(all: seq<Option<string>>, rest: seq<Option<string>>, pool: seq<string>, k: int, k1: int)
    requires |pool| > 0 && all == [Some(pool[k % |pool|])] + rest
    requires k1 == (k + 1) % |pool|
    requires Rotation(rest, pool, k1)
    ensures Rotation(all, pool, k)
  {
    var n := |pool|;
    forall t | 0 <= t < |all|
      ensures all[t] == Some(pool[(k + t) % n])
    {
      if t > 0 {
        assert all[t] == rest[t - 1];
        ModSuccShifted(k, t - 1, n);
      }
    }
  }

  lemma ModSuccShifted(k: int, t: int, n: int)
    requires n > 0
    ensures ((k + 1) % n + t) % n == (k + 1 + t) % n
  {
    var q := (k + 1) / n;
    assert k + 1 == q * n + (k + 1) % n;
    ModShift(q, (k + 1) % n + t, n);
    assert k + 1 + t == q * n + ((k + 1) % n + t);
  }

  /** A series at least as long as the pool contains every candidate. */
  lemma SeriesVisitsEveryone(pool: seq<string>, k: int, m: nat, x: string)
    requires |pool| > 0 && m >= |pool| && x in pool
    ensures Some(x) in RoundRobinSeries(pool, k, m)
  {
    var n := |pool|;
    var i :| 0 <= i < n && pool[i] == x;
    var t := (i - k) % n;
    RoundRobinSeriesRotates(pool, k, m);
    ModOffset(i, k, n);
    assert RoundRobinSeries(pool, k, m)[t] == Some(x);
  }

  /** Fairness: within as many round-robin picks as there are candidates,
      every candidate is chosen. */
  lemma RoundRobinVisitsEveryone(cs: seq<Case>, r: Rule, roster: seq<Doctor>, counts: map<string, nat>, rr: map<int, int>, x: string)
    requires |roster| > 0
    requires forall j :: 0 <= j < |cs| ==> PolicyFor(r, cs[j].risk).mode.RoundRobin?
    requires |cs| >= |CandidatePool(r, roster)|
    requires x in CandidatePool(r, roster)
    ensures Some(x) in PickSeries(cs, r, roster, counts, rr)
  {
    PickSeriesIsRoundRobin(cs, r, roster, counts, rr);
    SeriesVisitsEveryone(CandidatePool(r, roster), RrCounter(rr, r.id), |cs|, x);
  }

  /** Counting on from `k` by `(i - k) % n` steps lands on `i`. */
  lemma ModOffset(i: int, k: int, n: int)
    requires 0 <= i < n
    ensures (k + (i - k) % n) % n == i
  {
    var q := (i - k) / n;
    var t := (i - k) % n;
    assert i - k == q * n + t;
    assert k + t == (-q) * n + i;
    ModShift(-q, i, n);
    ModUnique(i, n, 0, i);
  }

  /** A fixed doctor over the cap is replaced by exactly the doctor plain
      workload balance would pick. */
  lemma FixedOverCapIsWorkload(c: Case, r: Rule, roster: seq<Doctor>, counts: map<string, nat>, rr: map<int, int>)
    requires PolicyFor(r, c.risk).mode.FixedDoctor?
    requires !FixedEligible(PolicyFor(r, c.risk).doctor, CandidatePool(r, roster), counts, r.maxActiveCases)
    ensures PickDoctor(c, r, roster, counts, rr) == PickDoctor(c, WorkloadFallback(r, c.risk), roster, counts, rr)
  {
  }
}
