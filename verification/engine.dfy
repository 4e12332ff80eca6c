/** Running one assignment rule over the case queue
    (modules/patient/app.py:1243-1280): every matched case gets a target
    doctor (the first senior when the case has waited too long, otherwise
    the rule's pick, otherwise the first senior or the first doctor), and
    the run either only records what it would do or writes the targets into
    the queue and keeps the active-case counts up to date. */
module Engine {
  import opened Wrappers
  import opened Domain
  import opened Rules
  import opened Matcher
  import opened Workload
  import opened Assigner

  /** "Simulate (no change)" or "Apply assignments (persist)". */
  datatype RunMode = Simulate | Apply

  /** One line of the run summary: the case, its doctor before, its target. */
  datatype Change = Change(caseId: string, previous: Option<string>, target: string)

  /** The queue, the active-case counts, the round-robin counters and the
      summary, as the loop leaves them after each case. */
  datatype RunState = RunState(rows: seq<Case>, counts: map<string, nat>, rr: map<int, int>, changes: seq<Change>)

  /** A target and the counters after choosing it. */
  datatype Targeted = Targeted(target: Option<string>, rr: map<int, int>)

  // ---------------------------------------------------------------------
  // Escalation
  // ---------------------------------------------------------------------

  /** `needs_escalation(case, rule)`: the rule escalates, the case has a
      doctor and a report time, and more than `reassign_after_hours` hours
      have passed by `now` (times in whole seconds). */
  function NeedsEscalation(c: Case, r: Rule, now: int): (b: bool)
  {
    && r.reassignAfterHours > 0
    && Truthy(c.assignedDoctor)
    && c.reportedAt.Some?
    && now - c.reportedAt.value > 3600 * r.reassignAfterHours
  }

  /** Escalation is never due for an unassigned case, a case without a
      report time or a rule that does not escalate; once due, it stays due
      as time passes. */
  lemma EscalationConditions(c: Case, r: Rule, now: int, later: int)
    ensures !Truthy(c.assignedDoctor) || c.reportedAt.None? || r.reassignAfterHours <= 0 ==> !NeedsEscalation(c, r, now)
    ensures NeedsEscalation(c, r, now) && now <= later ==> NeedsEscalation(c, r, later)
    ensures Truthy(c.assignedDoctor) && c.reportedAt.Some? && r.reassignAfterHours > 0 ==>
              (NeedsEscalation(c, r, now) <==> (now - c.reportedAt.value) / 3600 >= r.reassignAfterHours + (if (now - c.reportedAt.value) % 3600 == 0 then 1 else 0))
  {
    if Truthy(c.assignedDoctor) && c.reportedAt.Some? && r.reassignAfterHours > 0 {
      var s := now - c.reportedAt.value;
      var h := r.reassignAfterHours;
      assert s == 3600 * (s / 3600) + s % 3600;
    }
  }

  // ---------------------------------------------------------------------
  // The target of one case
  // ---------------------------------------------------------------------

  /** The first senior on the roster is on the roster. */
  lemma FirstSeniorOnRoster(roster: seq<Doctor>)
    requires |Seniors(roster)| > 0
    ensures Seniors(roster)[0] in Names(roster)
  {
    var i :| 0 <= i < |roster| && roster[i].isSenior && roster[i].name == Seniors(roster)[0];
    assert Names(roster)[i] == roster[i].name;
  }

  /** The target of one matched case: the first senior when escalation is
      due, otherwise the rule's pick; when the pick gives nothing usable,
      the first senior, or else the first doctor. */
  function ChooseTarget(c: Case, r: Rule, roster: seq<Doctor>, counts: map<string, nat>, rr: map<int, int>, now: int): (t: Targeted)
    ensures t.target.Some? ==> t.target.value in Names(roster)
    ensures t.target.Some? <==> |roster| > 0
    ensures NeedsEscalation(c, r, now) && |Seniors(roster)| > 0 ==> t == Targeted(Some(Seniors(roster)[0]), rr)
    ensures !(NeedsEscalation(c, r, now) && |Seniors(roster)| > 0) ==> t.rr == PickDoctor(c, r, roster, counts, rr).rr
  {
    var seniors := Seniors(roster);
    if NeedsEscalation(c, r, now) && |seniors| > 0 then
      FirstSeniorOnRoster(roster);
      Targeted(Some(seniors[0]), rr)
    else
      var p := PickDoctor(c, r, roster, counts, rr);
      if Truthy(p.choice) then
        Targeted(p.choice, p.rr)
      else if |seniors| > 0 then
        FirstSeniorOnRoster(roster);
        Targeted(Some(seniors[0]), p.rr)
      else if |roster| > 0 then
        Targeted(Some(Names(roster)[0]), p.rr)
      else
        Targeted(None, p.rr)
  }

  /** The counters differ at most under the key `id`. */
  ghost predicate RrKeptElsewhere(before: map<int, int>, after: map<int, int>, id: int)
  {
    forall k :: k != id ==> (k in after <==> k in before) && (k in after ==> after[k] == before[k])
  }

  /** Choosing a target touches no other rule's round-robin counter, and a
      target the pick produces usably is the one taken unless an escalation
      to a senior overrides it (a due escalation without seniors on the
      roster falls back to the normal pick). */
  lemma ChooseTargetFacts(c: Case, r: Rule, roster: seq<Doctor>, counts: map<string, nat>, rr: map<int, int>, now: int)
    ensures RrKeptElsewhere(rr, ChooseTarget(c, r, roster, counts, rr, now).rr, r.id)
    ensures var p := PickDoctor(c, r, roster, counts, rr);
            !(NeedsEscalation(c, r, now) && |Seniors(roster)| > 0) && Truthy(p.choice) ==> ChooseTarget(c, r, roster, counts, rr, now).target == p.choice
  {
    var t := ChooseTarget(c, r, roster, counts, rr, now);
    if !(NeedsEscalation(c, r, now) && |Seniors(roster)| > 0) && PolicyFor(r, c.risk).mode.RoundRobin? && |roster| > 0 {
      PickRoundRobin(c, r, roster, counts, rr);
    }
  }

  /** When no escalation to a senior applies and the pick gives nothing
      usable (an unrecognised mode, a Fixed doctor with no name), the
      target falls back to the first senior, else the first doctor. */
  lemma ChooseTargetFallback(c: Case, r: Rule, roster: seq<Doctor>, counts: map<string, nat>, rr: map<int, int>, now: int)
    requires !(NeedsEscalation(c, r, now) && |Seniors(roster)| > 0)
    requires !Truthy(PickDoctor(c, r, roster, counts, rr).choice)
    ensures ChooseTarget(c, r, roster, counts, rr, now).target ==
              if |Seniors(roster)| > 0 then Some(Seniors(roster)[0])
              else if |roster| > 0 then Some(Names(roster)[0])
              else None
  {
  }

  // ---------------------------------------------------------------------
  // One step of the loop
  // ---------------------------------------------------------------------

  /** The first row carrying case id `id`; the loop writes there. */
  function FirstRowOf(rows: seq<Case>, id: string, p: nat): (q: nat)
    requires p < |rows| && rows[p].id == id
    ensures q <= p && rows[q].id == id
    ensures forall i :: 0 <= i < q ==> rows[i].id != id
  {
    if rows[0].id == id then 0
    else 1 + FirstRowOf(rows[1..], id, p - 1)
  }

  /** The two queues hold the same cases, up to their assigned doctors. */
  predicate SameCases(before: seq<Case>, after: seq<Case>)
  {
    && |after| == |before|
    && forall i :: 0 <= i < |before| ==> after[i] == before[i].(assignedDoctor := after[i].assignedDoctor)
  }

  /** The counts never understate how many queued cases a rostered doctor
      holds (the loop adds for a new owner and never subtracts for the old). */
  predicate CountsCover(counts: map<string, nat>, rows: seq<Case>, roster: seq<Doctor>)
  {
    forall d :: d in Names(roster) ==> CountAssigned(rows, d) <= Load(counts, d)
  }

  /** Every doctor name on the roster is non-empty. */
  predicate NamesTruthy(roster: seq<Doctor>)
  {
    forall i :: 0 <= i < |roster| ==> roster[i].name != ""
  }

  /** The record-and-write half of the loop body, once the target is
      chosen: nothing without a usable target; otherwise a summary line and,
      in apply mode, the target written into the first row with the case's
      id and that doctor's count raised unless the row was already theirs. */
  function Commit(st: RunState, p: nat, t: Targeted, mode: RunMode): (next: RunState)
    requires p < |st.rows|
    ensures SameCases(st.rows, next.rows)
    ensures next.rr == t.rr
    ensures mode.Simulate? ==> next.rows == st.rows && next.counts == st.counts
    ensures !Truthy(t.target) ==> next.changes == st.changes && next.rows == st.rows
    ensures Truthy(t.target) ==>
              && |next.changes| == |st.changes| + 1
              && next.changes[..|st.changes|] == st.changes
              && next.changes[|st.changes|].caseId == st.rows[p].id
              && next.changes[|st.changes|].target == t.target.value
              && (mode.Simulate? ==> next.changes[|st.changes|].previous == st.rows[p].assignedDoctor)
  {
    var c := st.rows[p];
    if !Truthy(t.target) then
      st.(rr := t.rr)
    else
      var target := t.target.value;
      match mode
      case Simulate =>
        st.(rr := t.rr, changes := st.changes + [Change(c.id, c.assignedDoctor, target)])
      case Apply =>
        var q := FirstRowOf(st.rows, c.id, p);
        var prev := st.rows[q].assignedDoctor;
        RunState(st.rows[q := st.rows[q].(assignedDoctor := Some(target))],
                 st.counts[target := Load(st.counts, target) + (if prev == Some(target) then 0 else 1)],
                 t.rr,
                 st.changes + [Change(c.id, prev, target)])
  }

  /** With truthy names every roster name is a usable target. */
  lemma NamesTruthyNonEmpty(roster: seq<Doctor>)
    ensures NamesTruthy(roster) ==> forall x :: x in Names(roster) ==> x != ""
  {
    if NamesTruthy(roster) {
      forall x | x in Names(roster)
        ensures x != ""
      {
        var i :| 0 <= i < |roster| && Names(roster)[i] == x;
        assert roster[i].name == x;
      }
    }
  }

  /** The loop body for the matched case at position `p`, reading the row
      as it is now (the loop holds the queue's own case records). */
  function Step(st: RunState, p: nat, r: Rule, roster: seq<Doctor>, now: int, mode: RunMode): (next: RunState)
    requires p < |st.rows|
    ensures SameCases(st.rows, next.rows)
    ensures mode.Simulate? ==> next.rows == st.rows && next.counts == st.counts
    ensures RrKeptElsewhere(st.rr, next.rr, r.id)
    ensures |st.changes| <= |next.changes| <= |st.changes| + 1 && next.changes[..|st.changes|] == st.changes
    ensures |next.changes| > |st.changes| ==>
              && next.changes[|st.changes|].caseId == st.rows[p].id
              && next.changes[|st.changes|].target in Names(roster)
              && (mode.Simulate? ==> next.changes[|st.changes|].previous == st.rows[p].assignedDoctor)
    ensures |roster| == 0 ==> next.changes == st.changes
    ensures |roster| > 0 && NamesTruthy(roster) ==> |next.changes| == |st.changes| + 1
  {
    var t := ChooseTarget(st.rows[p], r, roster, st.counts, st.rr, now);
    assert RrKeptElsewhere(st.rr, t.rr, r.id) by {
      ChooseTargetFacts(st.rows[p], r, roster, st.counts, st.rr, now);
    }
    assert |roster| > 0 && NamesTruthy(roster) ==> Truthy(t.target) by {
      NamesTruthyNonEmpty(roster);
    }
    Commit(st, p, t, mode)
  }

  /** A step commits the target `ChooseTarget` gives for the case as the
      queue and counts are now: the summary grows exactly when that target
      is usable, its new line names that target, and the counters are the
      ones the choice left. */
  lemma StepFollowsChoice(st: RunState, p: nat, r: Rule, roster: seq<Doctor>, now: int, mode: RunMode)
    requires p < |st.rows|
    ensures var t := ChooseTarget(st.rows[p], r, roster, st.counts, st.rr, now);
            var next := Step(st, p, r, roster, now, mode);
            && next.rr == t.rr
            && (|next.changes| > |st.changes| <==> Truthy(t.target))
            && (Truthy(t.target) ==> next.changes[|st.changes|].target == t.target.value)
  {
  }

  /** In apply mode a step writes the chosen target into the first row with
      the case's id and no other row, and raises that doctor's count unless
      the row was already theirs; without a usable target it changes
      neither the queue nor the counts. */
  lemma StepApplies(st: RunState, p: nat, r: Rule, roster: seq<Doctor>, now: int)
    requires p < |st.rows|
    ensures var t := ChooseTarget(st.rows[p], r, roster, st.counts, st.rr, now);
            var next := Step(st, p, r, roster, now, Apply);
            var q := FirstRowOf(st.rows, st.rows[p].id, p);
            && (forall i :: 0 <= i < |st.rows| && i != q ==> next.rows[i] == st.rows[i])
            && (Truthy(t.target) ==>
                  && next.rows[q].assignedDoctor == t.target
                  && Load(next.counts, t.target.value) ==
                       Load(st.counts, t.target.value) + (if st.rows[q].assignedDoctor == t.target then 0 else 1)
                  && (forall d :: d != t.target.value ==> Load(next.counts, d) == Load(st.counts, d)))
            && (!Truthy(t.target) ==> next.rows == st.rows && next.counts == st.counts)
  {
    var t := ChooseTarget(st.rows[p], r, roster, st.counts, st.rr, now);
    CommitApplyWrites(st, p, t);
    CommitApplyCounts(st, p, t);
  }

  /** The choice for a round-robin case that is not escalated advances the
      rule's counter one round the pool. */
  lemma ChooseTargetCounter(c: Case, r: Rule, roster: seq<Doctor>, counts: map<string, nat>, rr: map<int, int>, now: int)
    requires |roster| > 0 && PolicyFor(r, c.risk).mode.RoundRobin?
    requires !NeedsEscalation(c, r, now) || |Seniors(roster)| == 0
    ensures ChooseTarget(c, r, roster, counts, rr, now).rr == rr[r.id := (RrCounter(rr, r.id) + 1) % |CandidatePool(r, roster)|]
  {
    PickRoundRobin(c, r, roster, counts, rr);
  }

  /** Simulating still advances the round-robin counter: for a case of a
      round-robin tier that is not escalated, a step in either mode leaves
      the rule's counter one further round the pool. */
  lemma StepAdvancesCounter(st: RunState, p: nat, r: Rule, roster: seq<Doctor>, now: int, mode: RunMode)
    requires p < |st.rows| && |roster| > 0
    requires PolicyFor(r, st.rows[p].risk).mode.RoundRobin?
    requires !NeedsEscalation(st.rows[p], r, now) || |Seniors(roster)| == 0
    ensures Step(st, p, r, roster, now, mode).rr == st.rr[r.id := (RrCounter(st.rr, r.id) + 1) % |CandidatePool(r, roster)|]
  {
    var c := st.rows[p];
    var pool := CandidatePool(r, roster);
    var k := RrCounter(st.rr, r.id);
    var pick := PickDoctor(c, r, roster, st.counts, st.rr);
    PickRoundRobin(c, r, roster, st.counts, st.rr);
    assert pick.rr == st.rr[r.id := (k + 1) % |pool|];
    var t := ChooseTarget(c, r, roster, st.counts, st.rr, now);
    assert t.rr == pick.rr;
    assert Commit(st, p, t, mode).rr == t.rr;
  }

  /** In apply mode the commit writes its target into the first row with
      the case's id, records that row's previous doctor, and leaves every
      other row alone. */
  lemma CommitApplyWrites(st: RunState, p: nat, t: Targeted)
    requires p < |st.rows|
    ensures var next := Commit(st, p, t, Apply);
            var q := FirstRowOf(st.rows, st.rows[p].id, p);
            && (forall i :: 0 <= i < |st.rows| && i != q ==> next.rows[i] == st.rows[i])
            && (Truthy(t.target) ==>
                  && next.rows[q].assignedDoctor == t.target
                  && next.changes[|st.changes|].previous == st.rows[q].assignedDoctor)
  {
  }

  /** In apply mode the target's count goes up by one unless the row was
      already theirs; no other count moves, so the previous doctor's count
      is never lowered. Without a usable target nothing changes. */
  lemma CommitApplyCounts(st: RunState, p: nat, t: Targeted)
    requires p < |st.rows|
    ensures var next := Commit(st, p, t, Apply);
            var q := FirstRowOf(st.rows, st.rows[p].id, p);
            && (Truthy(t.target) ==>
                  && Load(next.counts, t.target.value) ==
                       Load(st.counts, t.target.value) + (if st.rows[q].assignedDoctor == t.target then 0 else 1)
                  && (forall d :: d != t.target.value ==> Load(next.counts, d) == Load(st.counts, d)))
            && (!Truthy(t.target) ==> next.rows == st.rows && next.counts == st.counts)
  {
  }

  /** The commit keeps the counts covering the queue. */
  lemma {:induction false} CommitKeepsCover(st: RunState, p: nat, t: Targeted, mode: RunMode, roster: seq<Doctor>)
    requires p < |st.rows|
    requires CountsCover(st.counts, st.rows, roster)
    ensures var next := Commit(st, p, t, mode);
            CountsCover(next.counts, next.rows, roster)
  {
    if mode.Apply? && Truthy(t.target) {
      var next := Commit(st, p, t, mode);
      var q := FirstRowOf(st.rows, st.rows[p].id, p);
      var target := t.target.value;
      var x := st.rows[q].(assignedDoctor := Some(target));
      var prev := st.rows[q].assignedDoctor;
      assert next.rows == st.rows[q := x];
      assert next.counts == st.counts[target := Load(st.counts, target) + (if prev == Some(target) then 0 else 1)];
      forall d | d in Names(roster)
        ensures CountAssigned(next.rows, d) <= Load(next.counts, d)
      {
        CountAssignedUpdate(st.rows, q, x, d);
      }
    }
  }

  // ---------------------------------------------------------------------
  // The loop over the matched cases
  // ---------------------------------------------------------------------

  /** No two queued cases share an id. */
  predicate UniqueIds(rows: seq<Case>)
  {
    forall i, j :: 0 <= i < j < |rows| ==> rows[i].id != rows[j].id
  }

  /** The counts the run starts from cover the queue. */
  lemma InitialCover(roster: seq<Doctor>, rows: seq<Case>)
    ensures CountsCover(ActiveCounts(roster, rows), rows, roster)
  {
    var counts := ActiveCounts(roster, rows);
    forall d | d in Names(roster)
      ensures CountAssigned(rows, d) <= Load(counts, d)
    {
      var i :| 0 <= i < |roster| && Names(roster)[i] == d;
      assert roster[i].name == d;
      assert d in counts.Keys;
    }
  }

  /** Positions into the queue. */
  predicate Positions(rows: seq<Case>, matched: seq<nat>)
  {
    forall j :: 0 <= j < |matched| ==> matched[j] < |rows|
  }

  /** After `k` matched cases: at most one summary line per case, none
      without a roster, exactly one per case with a roster of truthy names,
      lines in queue order when none was skipped, targets on the roster. */
  predicate Progress(rows: seq<Case>, matched: seq<nat>, k: nat, changes: seq<Change>, roster: seq<Doctor>)
    requires k <= |matched| && Positions(rows, matched)
  {
    && |changes| <= k
    && (|roster| == 0 ==> changes == [])
    && (|roster| > 0 && NamesTruthy(roster) ==> |changes| == k)
    && (|changes| == k ==> forall j :: 0 <= j < k ==> changes[j].caseId == rows[matched[j]].id)
    && (forall j :: 0 <= j < |changes| ==> changes[j].target in Names(roster))
  }

  /** In simulate mode the summary records each case's doctor as queued. */
  predicate SimulatedPrevious(rows: seq<Case>, matched: seq<nat>, k: nat, changes: seq<Change>)
    requires k <= |matched| && Positions(rows, matched)
  {
    |changes| == k ==> forall j :: 0 <= j < k ==> changes[j].previous == rows[matched[j]].assignedDoctor
  }

  /** The first position the loop has not reached yet. */
  function Frontier(rows: seq<Case>, matched: seq<nat>, k: nat): nat
    requires k <= |matched|
  {
    if k < |matched| then matched[k] else |rows|
  }

  /** The rows the rule does not match, and the rows from the frontier on,
      are as the queue had them. */
  predicate Untouched(rows: seq<Case>, r: Rule, cur: seq<Case>, matched: seq<nat>, k: nat)
    requires k <= |matched|
  {
    && |cur| == |rows|
    && forall i :: 0 <= i < |rows| && (!Matches(rows[i], r) || Frontier(rows, matched, k) <= i) ==> cur[i] == rows[i]
  }

  /** The visited rows hold their targets and the summary records their
      doctors from before the run. */
  predicate Written(rows: seq<Case>, st: RunState, matched: seq<nat>, k: nat)
    requires k <= |matched| && k <= |st.changes|
  {
    forall j :: 0 <= j < k ==>
      && matched[j] < |st.rows|
      && matched[j] < |rows|
      && st.rows[matched[j]].assignedDoctor == Some(st.changes[j].target)
      && st.changes[j].previous == rows[matched[j]].assignedDoctor
  }

  /** The run as a fold: the steps for the positions `ps[k..]`, in order,
      starting from `st`. */
  function RunFrom(st: RunState, ps: seq<nat>, k: nat, r: Rule, roster: seq<Doctor>, now: int, mode: RunMode): RunState
    requires Positions(st.rows, ps)
    decreases |ps| - k
  {
    if k >= |ps| then st
    else RunFrom(Step(st, ps[k], r, roster, now, mode), ps, k + 1, r, roster, now, mode)
  }

  /** What holds after the loop has handled `k` matched cases. */
  ghost predicate RunInvariant(rows: seq<Case>, r: Rule, roster: seq<Doctor>, rr: map<int, int>, mode: RunMode,
                               matched: seq<nat>, k: nat, st: RunState)
    requires k <= |matched| && Positions(rows, matched)
  {
    match mode
    case Simulate =>
      && st.rows == rows
      && SimulatedPrevious(rows, matched, k, st.changes)
      && Progress(rows, matched, k, st.changes, roster)
      && RrKeptElsewhere(rr, st.rr, r.id)
      && CountsCover(st.counts, st.rows, roster)
    case Apply =>
      && SameCases(rows, st.rows)
      && Progress(rows, matched, k, st.changes, roster)
      && RrKeptElsewhere(rr, st.rr, r.id)
      && CountsCover(st.counts, st.rows, roster)
      && (UniqueIds(rows) ==>
            && Untouched(rows, r, st.rows, matched, k)
            && (|st.changes| == k ==> Written(rows, st, matched, k)))
  }

  /** A target the loop can be handed: on the roster, and present exactly
      when the roster is non-empty. */
  predicate TargetOk(t: Targeted, roster: seq<Doctor>)
  {
    && (t.target.Some? ==> t.target.value in Names(roster))
    && (t.target.Some? <==> |roster| > 0)
  }

  /** The commit at the `k`-th matched case extends the summary as the run
      invariant demands. */
  lemma {:induction false} CommitProgress(rows: seq<Case>, matched: seq<nat>, k: nat, st: RunState, t: Targeted, mode: RunMode, roster: seq<Doctor>)
    requires k < |matched| && Positions(rows, matched) && SameCases(rows, st.rows)
    requires TargetOk(t, roster)
    requires Progress(rows, matched, k, st.changes, roster)
    requires mode.Simulate? ==> st.rows == rows && SimulatedPrevious(rows, matched, k, st.changes)
    ensures var next := Commit(st, matched[k], t, mode);
            && Progress(rows, matched, k + 1, next.changes, roster)
            && (mode.Simulate? ==> SimulatedPrevious(rows, matched, k + 1, next.changes))
  {
    var p := matched[k];
    var next := Commit(st, p, t, mode);
    NamesTruthyNonEmpty(roster);
    assert st.rows[p].id == rows[p].id;
    if Truthy(t.target) {
      forall j | 0 <= j < |next.changes|
        ensures next.changes[j].target in Names(roster)
      {
        if j < |st.changes| {
          assert next.changes[j] == next.changes[..|st.changes|][j];
        }
      }
      if |next.changes| == k + 1 {
        forall j | 0 <= j < k + 1
          ensures next.changes[j].caseId == rows[matched[j]].id
          ensures mode.Simulate? ==> next.changes[j].previous == rows[matched[j]].assignedDoctor
        {
          if j < k {
            assert next.changes[j] == next.changes[..|st.changes|][j];
          }
        }
      }
    }
  }

  /** With unique ids, the apply commit at the `k`-th matched position
      writes that very row and no other. */
  lemma ApplyCommitAt(rows: seq<Case>, r: Rule, st: RunState, matched: seq<nat>, k: nat, t: Targeted)
    requires k < |matched| && matched == MatchedPositions(rows, r)
    requires UniqueIds(rows) && SameCases(rows, st.rows)
    ensures matched[k] < |st.rows|
    ensures var next := Commit(st, matched[k], t, Apply);
            && (forall i :: 0 <= i < |st.rows| && i != matched[k] ==> next.rows[i] == st.rows[i])
            && (Truthy(t.target) ==>
                  && next.rows[matched[k]].assignedDoctor == t.target
                  && next.changes[|st.changes|].previous == st.rows[matched[k]].assignedDoctor)
  {
    var p := matched[k];
    var q := FirstRowOf(st.rows, st.rows[p].id, p);
    assert q == p by {
      assert st.rows[q].id == rows[q].id;
      assert st.rows[p].id == rows[p].id;
    }
    CommitApplyWrites(st, p, t);
  }

  /** The apply commit leaves every row outside the handled prefix as it
      was in the queue. */
  lemma {:induction false} ApplyCommitUntouched(rows: seq<Case>, r: Rule, st: RunState, matched: seq<nat>, k: nat, t: Targeted)
    requires k < |matched| && matched == MatchedPositions(rows, r)
    requires UniqueIds(rows) && SameCases(rows, st.rows)
    requires Untouched(rows, r, st.rows, matched, k)
    ensures Untouched(rows, r, Commit(st, matched[k], t, Apply).rows, matched, k + 1)
  {
    var p := matched[k];
    var next := Commit(st, p, t, Apply);
    ApplyCommitAt(rows, r, st, matched, k, t);
    forall i | 0 <= i < |rows| && (!Matches(rows[i], r) || Frontier(rows, matched, k + 1) <= i)
      ensures next.rows[i] == rows[i]
    {
      assert i != p;
      assert Frontier(rows, matched, k) <= i || !Matches(rows[i], r);
    }
  }

  /** The apply commit extends the record of written rows by the `k`-th. */
  lemma {:induction false} ApplyCommitWritten(rows: seq<Case>, r: Rule, st: RunState, matched: seq<nat>, k: nat, t: Targeted)
    requires k < |matched| && matched == MatchedPositions(rows, r)
    requires UniqueIds(rows) && SameCases(rows, st.rows)
    requires Untouched(rows, r, st.rows, matched, k)
    requires |st.changes| == k && Written(rows, st, matched, k)
    ensures var next := Commit(st, matched[k], t, Apply);
            |next.changes| == k + 1 ==> Written(rows, next, matched, k + 1)
  {
    var p := matched[k];
    var next := Commit(st, p, t, Apply);
    ApplyCommitAt(rows, r, st, matched, k, t);
    if |next.changes| == k + 1 {
      assert st.rows[p] == rows[p];
      forall j | 0 <= j < k
        ensures next.changes[j] == st.changes[j]
        ensures next.rows[matched[j]] == st.rows[matched[j]]
      {
        assert matched[j] < p;
        assert next.changes[j] == next.changes[..|st.changes|][j];
      }
    }
  }

  /** With unique ids, the apply commit at the `k`-th matched position
      writes exactly that row, which nothing had touched before. */
  lemma ApplyCommitOnUnique(rows: seq<Case>, r: Rule, st: RunState, matched: seq<nat>, k: nat, t: Targeted)
    requires k < |matched| && matched == MatchedPositions(rows, r)
    requires UniqueIds(rows) && SameCases(rows, st.rows)
    requires Untouched(rows, r, st.rows, matched, k)
    requires |st.changes| == k ==> Written(rows, st, matched, k)
    requires |st.changes| <= k
    ensures var next := Commit(st, matched[k], t, Apply);
            && Untouched(rows, r, next.rows, matched, k + 1)
            && (|next.changes| == k + 1 ==> Written(rows, next, matched, k + 1))
  {
    ApplyCommitUntouched(rows, r, st, matched, k, t);
    if |st.changes| == k {
      ApplyCommitWritten(rows, r, st, matched, k, t);
    }
  }

  /** The invariant holds before the first matched case. */
  lemma InitialInvariant(rows: seq<Case>, r: Rule, roster: seq<Doctor>, rr: map<int, int>, mode: RunMode, matched: seq<nat>)
    requires matched == MatchedPositions(rows, r)
    ensures RunInvariant(rows, r, roster, rr, mode, matched, 0, RunState(rows, ActiveCounts(roster, rows), rr, []))
  {
    InitialCover(roster, rows);
  }

  /** Once every matched case is handled, the invariant is the run's
      contract. */
  lemma FinalInvariant(rows: seq<Case>, r: Rule, roster: seq<Doctor>, rr: map<int, int>, mode: RunMode,
                       matched: seq<nat>, st: RunState)
    requires matched == MatchedPositions(rows, r)
    requires RunInvariant(rows, r, roster, rr, mode, matched, |matched|, st)
    ensures SameCases(rows, st.rows)
    ensures mode.Simulate? ==> st.rows == rows
    ensures |st.changes| <= |matched|
    ensures |roster| == 0 ==> st.changes == []
    ensures |roster| > 0 && NamesTruthy(roster) ==> |st.changes| == |matched|
    ensures |st.changes| == |matched| ==> forall k :: 0 <= k < |matched| ==> st.changes[k].caseId == rows[matched[k]].id
    ensures forall k :: 0 <= k < |st.changes| ==> st.changes[k].target in Names(roster)
    ensures RrKeptElsewhere(rr, st.rr, r.id)
    ensures CountsCover(st.counts, st.rows, roster)
    ensures mode.Simulate? && |st.changes| == |matched| ==>
              forall k :: 0 <= k < |matched| ==> st.changes[k].previous == rows[matched[k]].assignedDoctor
    ensures mode.Apply? && UniqueIds(rows) ==>
              forall i :: 0 <= i < |rows| && !Matches(rows[i], r) ==> st.rows[i] == rows[i]
    ensures mode.Apply? && UniqueIds(rows) && |st.changes| == |matched| ==>
              forall k :: 0 <= k < |matched| ==>
                && st.rows[matched[k]].assignedDoctor == Some(st.changes[k].target)
                && st.changes[k].previous == rows[matched[k]].assignedDoctor
  {
    if mode.Apply? && UniqueIds(rows) {
      forall i | 0 <= i < |rows| && !Matches(rows[i], r)
        ensures st.rows[i] == rows[i]
      {
      }
    }
  }

  /** One pass of the loop body keeps the run invariant. */
  lemma StepKeepsInvariant(rows: seq<Case>, r: Rule, roster: seq<Doctor>, rr: map<int, int>, now: int, mode: RunMode,
                           matched: seq<nat>, k: nat, st: RunState)
    requires k < |matched| && matched == MatchedPositions(rows, r)
    requires RunInvariant(rows, r, roster, rr, mode, matched, k, st)
    ensures RunInvariant(rows, r, roster, rr, mode, matched, k + 1, Step(st, matched[k], r, roster, now, mode))
  {
    var p := matched[k];
    var t := ChooseTarget(st.rows[p], r, roster, st.counts, st.rr, now);
    ChooseTargetFacts(st.rows[p], r, roster, st.counts, st.rr, now);
    var next := Commit(st, p, t, mode);
    assert next == Step(st, p, r, roster, now, mode);
    CommitProgress(rows, matched, k, st, t, mode, roster);
    CommitKeepsCover(st, p, t, mode, roster);
    if mode.Apply? && UniqueIds(rows) {
      ApplyCommitOnUnique(rows, r, st, matched, k, t);
    }
  }

  /** From any point where the run invariant holds, the rest of the run,
      `fin`, reaches the end with it still holding. */
  lemma {:induction false} RunFromKeepsInvariant(rows: seq<Case>, r: Rule, roster: seq<Doctor>, rr: map<int, int>, now: int, mode: RunMode,
                                                 matched: seq<nat>, k: nat, st: RunState, fin: RunState)
    requires k <= |matched| && matched == MatchedPositions(rows, r)
    requires RunInvariant(rows, r, roster, rr, mode, matched, k, st)
    requires |st.rows| == |rows| && fin == RunFrom(st, matched, k, r, roster, now, mode)
    ensures RunInvariant(rows, r, roster, rr, mode, matched, |matched|, fin)
    decreases |matched| - k
  {
    if k < |matched| {
      var next := Step(st, matched[k], r, roster, now, mode);
      StepKeepsInvariant(rows, r, roster, rr, now, mode, matched, k, st);
      RunFromKeepsInvariant(rows, r, roster, rr, now, mode, matched, k + 1, next, fin);
    }
  }

  /** Runs `rule` over the queue: the matched positions, in queue order,
      each go through one step; the counts start from the queue's tallies. */
  method RunRule(rows: seq<Case>, r: Rule, roster: seq<Doctor>, rr: map<int, int>, now: int, mode: RunMode)
    returns (st: RunState, matched: seq<nat>)
    ensures matched == MatchedPositions(rows, r)
    ensures SameCases(rows, st.rows)
    ensures mode.Simulate? ==> st.rows == rows
    ensures |st.changes| <= |matched|
    ensures |roster| == 0 ==> st.changes == []
    ensures |roster| > 0 && NamesTruthy(roster) ==> |st.changes| == |matched|
    ensures |st.changes| == |matched| ==> forall k :: 0 <= k < |matched| ==> st.changes[k].caseId == rows[matched[k]].id
    ensures forall k :: 0 <= k < |st.changes| ==> st.changes[k].target in Names(roster)
    ensures RrKeptElsewhere(rr, st.rr, r.id)
    ensures CountsCover(st.counts, st.rows, roster)
    ensures mode.Simulate? && |st.changes| == |matched| ==>
              forall k :: 0 <= k < |matched| ==> st.changes[k].previous == rows[matched[k]].assignedDoctor
    ensures mode.Apply? && UniqueIds(rows) ==>
              forall i :: 0 <= i < |rows| && !Matches(rows[i], r) ==> st.rows[i] == rows[i]
    ensures mode.Apply? && UniqueIds(rows) && |st.changes| == |matched| ==>
              forall k :: 0 <= k < |matched| ==>
                && st.rows[matched[k]].assignedDoctor == Some(st.changes[k].target)
                && st.changes[k].previous == rows[matched[k]].assignedDoctor
    ensures Positions(rows, matched)
    ensures st == RunFrom(RunState(rows, ActiveCounts(roster, rows), rr, []), matched, 0, r, roster, now, mode)
  {
    matched := MatchedPositions(rows, r);
    st := RunLoop(rows, r, roster, rr, now, mode, matched);
    var init := RunState(rows, ActiveCounts(roster, rows), rr, []);
    InitialInvariant(rows, r, roster, rr, mode, matched);
    RunFromKeepsInvariant(rows, r, roster, rr, now, mode, matched, 0, init, st);
    FinalInvariant(rows, r, roster, rr, mode, matched, st);
  }

  /** The loop over the matched positions, from the queue's own tallies:
      one step per matched case, in queue order. */
  method RunLoop(rows: seq<Case>, r: Rule, roster: seq<Doctor>, rr: map<int, int>, now: int, mode: RunMode, matched: seq<nat>)
    returns (st: RunState)
    requires Positions(rows, matched)
    ensures st == RunFrom(RunState(rows, ActiveCounts(roster, rows), rr, []), matched, 0, r, roster, now, mode)
  {
    var init := RunState(rows, ActiveCounts(roster, rows), rr, []);
    st := init;
    var k := 0;
    while k != |matched|
      invariant 0 <= k <= |matched|
      invariant |st.rows| == |rows|
      invariant RunFrom(st, matched, k, r, roster, now, mode) == RunFrom(init, matched, 0, r, roster, now, mode)
      decreases |matched| - k
    {
      st := Step(st, matched[k], r, roster, now, mode);
      k := k + 1;
    }
  }
}
