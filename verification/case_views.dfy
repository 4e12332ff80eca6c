/** The case-queue screens around the assignment engine
    (modules/patient/app.py): the two filter forms, the per-doctor workload
    figures, the bulk reassignment actions and the id handed to a new
    patient profile. */
module CaseViews {
  import opened Wrappers
  import opened Text
  import opened Decimal
  import opened Domain
  import opened Matcher

  /** The "(any)" choice of the drill-down selectors. */
  const AnyChoice := "(any)"

  /** The "(none)" doctor label and target. */
  const NoDoctor := "(none)"

  // ---------------------------------------------------------------------
  // Shared filter conditions
  // ---------------------------------------------------------------------

  /** The lower-cased search text occurs in the lower-cased name or id. */
  predicate SearchHit(c: Case, qq: string)
  {
    Contains(Lower(c.name), qq) || Contains(Lower(c.id), qq)
  }

  /** A blank search keeps every row; otherwise the stripped, lower-cased
      text has to hit the name or the id. */
  predicate SearchOk(c: Case, query: string)
  {
    Strip(query) == "" || SearchHit(c, Lower(Strip(query)))
  }

  /** No tier selected keeps every row; otherwise the row's tier is selected. */
  predicate RiskOk(c: Case, risks: seq<Risk>)
  {
    |risks| == 0 || c.risk in risks
  }

  /** A blank village text keeps every row; otherwise the stripped,
      lower-cased text occurs in the lower-cased village. */
  predicate VillageOk(c: Case, village: string)
  {
    Strip(village) == "" || Contains(Lower(c.village), Lower(Strip(village)))
  }

  /** What the doctor selector compares with: the doctor, or "(none)". */
  function DoctorLabel(c: Case): string
  {
    if Truthy(c.assignedDoctor) then c.assignedDoctor.value else NoDoctor
  }

  /** `a in b` composes: text inside a hit is a hit. */
  lemma ContainsTrans(hay: string, mid: string, needle: string)
    requires Contains(hay, mid) && Contains(mid, needle)
    ensures Contains(hay, needle)
  {
    var k :| OccursAt(hay, mid, k);
    var j :| OccursAt(mid, needle, j);
    assert mid == hay[k..k + |mid|];
    forall t | 0 <= t < |needle|
      ensures hay[k + j + t] == needle[t]
    {
      assert needle[t] == mid[j + t];
    }
    assert hay[k + j..k + j + |needle|] == needle;
    assert OccursAt(hay, needle, k + j);
  }

  // ---------------------------------------------------------------------
  // `_match_row` (drill-down screen)
  // ---------------------------------------------------------------------

  /** The drill-down form: search text, selected tiers, village text, the
      doctor selector and the status selector. */
  datatype DrillFilter = DrillFilter(query: string, risks: seq<Risk>, village: string, doctor: string, status: string)

  /** The form after "Reset filters". */
  const ResetDrill := DrillFilter("", [], "", AnyChoice, AnyChoice)

  /** `_match_row(r)`: the conditions are tried in order and the first that
      fails rejects the row. */
  function MatchRow(c: Case, f: DrillFilter): bool
  {
    if Strip(f.query) != "" && !SearchHit(c, Lower(Strip(f.query))) then false
    else if |f.risks| > 0 && c.risk !in f.risks then false
    else if Strip(f.village) != "" && !Contains(Lower(c.village), Lower(Strip(f.village))) then false
    else if f.doctor != "" && f.doctor != AnyChoice && DoctorLabel(c) != f.doctor then false
    else if f.status != "" && f.status != AnyChoice && c.status != Some(f.status) then false
    else true
  }

  /** The reset form keeps every row. */
  lemma ResetDrillKeepsAll(c: Case)
    ensures MatchRow(c, ResetDrill)
  {
    var f := ResetDrill;
    assert Strip(f.query) == "" && Strip(f.village) == "";
    assert |f.risks| == 0 && f.doctor == AnyChoice && f.status == AnyChoice;
  }

  /** With only a doctor chosen, the form keeps exactly that doctor's rows. */
  lemma DrillByDoctor(c: Case, d: string)
    requires d != "" && d != AnyChoice && d != NoDoctor
    ensures MatchRow(c, ResetDrill.(doctor := d)) <==> c.assignedDoctor == Some(d)
  {
    var f := ResetDrill.(doctor := d);
    assert Strip(f.query) == "" && Strip(f.village) == "";
    assert |f.risks| == 0 && f.status == AnyChoice;
  }

  /** With only "(none)" chosen, the form keeps the rows without a doctor
      and drops every row whose doctor has a real name. */
  lemma DrillUnassigned(c: Case)
    ensures !Truthy(c.assignedDoctor) ==> MatchRow(c, ResetDrill.(doctor := NoDoctor))
    ensures Truthy(c.assignedDoctor) && c.assignedDoctor.value != NoDoctor ==> !MatchRow(c, ResetDrill.(doctor := NoDoctor))
  {
    var f := ResetDrill.(doctor := NoDoctor);
    assert Strip(f.query) == "" && Strip(f.village) == "";
    assert |f.risks| == 0 && f.status == AnyChoice;
  }

  /** Narrowing the search never brings rows back: a row the longer text
      keeps is kept by any text found inside it. */
  lemma NarrowerSearch(c: Case, f: DrillFilter, wider: string)
    requires MatchRow(c, f)
    requires Strip(wider) != "" ==> Contains(Lower(Strip(f.query)), Lower(Strip(wider)))
    ensures MatchRow(c, f.(query := wider))
  {
    if Strip(wider) != "" {
      var qq, ww := Lower(Strip(f.query)), Lower(Strip(wider));
      if Contains(Lower(c.name), qq) {
        ContainsTrans(Lower(c.name), qq, ww);
      } else {
        ContainsTrans(Lower(c.id), qq, ww);
      }
    }
  }

  /** `filtered = [r for r in rows if _match_row(r)]` */
  function DrillView(rows: seq<Case>, f: DrillFilter): (out: seq<Case>)
    ensures |out| <= |rows|
  {
    Select(rows, seq(|rows|, i requires 0 <= i < |rows| => MatchRow(rows[i], f)))
  }

  /** The drill-down list holds exactly the rows the form keeps. */
  lemma DrillViewMembers(rows: seq<Case>, f: DrillFilter, c: Case)
    ensures c in DrillView(rows, f) <==> c in rows && MatchRow(c, f)
  {
    var keep := seq(|rows|, i requires 0 <= i < |rows| => MatchRow(rows[i], f));
    SelectMembers(rows, keep, c);
    if c in rows && MatchRow(c, f) {
      var i :| 0 <= i < |rows| && rows[i] == c;
      assert keep[i];
    }
  }

  /** Selecting with every flag set keeps the whole sequence. */
  lemma {:induction false} SelectAll<T>(xs: seq<T>, keep: seq<bool>)
    requires |keep| == |xs|
    requires forall i :: 0 <= i < |keep| ==> keep[i]
    ensures Select(xs, keep) == xs
  {
    if |xs| > 0 {
      assert keep[0];
      SelectAll(xs[1..], keep[1..]);
    }
  }

  /** After a reset the drill-down list is the whole queue, in order. */
  lemma ResetDrillShowsQueue(rows: seq<Case>)
    ensures DrillView(rows, ResetDrill) == rows
  {
    var keep := seq(|rows|, i requires 0 <= i < |rows| => MatchRow(rows[i], ResetDrill));
    forall i | 0 <= i < |rows|
      ensures keep[i]
    {
      ResetDrillKeepsAll(rows[i]);
    }
    SelectAll(rows, keep);
  }

  // ---------------------------------------------------------------------
  // `matches_filters` (case allocation screen)
  // ---------------------------------------------------------------------

  /** The "Age/Gender" selector: "Any", "Age>50", "Male", "Female". */
  datatype AgeGender = AnyPatient | Over50 | MaleOnly | FemaleOnly

  /** The allocation form: search text, selected tiers, village text and the
      age/gender selector. */
  datatype AllocationFilter = AllocationFilter(search: string, risks: seq<Risk>, village: string, ageGender: AgeGender)

  /** The age/gender selector keeps the row. */
  predicate AgeGenderOk(c: Case, g: AgeGender)
  {
    match g
    case AnyPatient => true
    case Over50 => c.age > 50
    case MaleOnly => c.gender == "M"
    case FemaleOnly => c.gender == "F"
  }

  /** `matches_filters(r)`: tried in order, the first failing test rejects. */
  function MatchesFilters(c: Case, f: AllocationFilter): bool
  {
    var q := Lower(Strip(f.search));
    if q != "" && !SearchHit(c, q) then false
    else if |f.risks| > 0 && c.risk !in f.risks then false
    else if Strip(f.village) != "" && !Contains(Lower(c.village), Lower(Strip(f.village))) then false
    else if f.ageGender == Over50 && c.age <= 50 then false
    else if f.ageGender == MaleOnly && c.gender != "M" then false
    else if f.ageGender == FemaleOnly && c.gender != "F" then false
    else true
  }

  /** The allocation form keeps a row exactly when every one of its four
      conditions holds, whatever order they are tried in. */
  lemma MatchesFiltersConjunction(c: Case, f: AllocationFilter)
    ensures MatchesFilters(c, f) <==>
              SearchOk(c, f.search) && RiskOk(c, f.risks) && VillageOk(c, f.village) && AgeGenderOk(c, f.ageGender)
  {
    assert |Lower(Strip(f.search))| == |Strip(f.search)|;
  }

  /** The two screens agree: with the doctor and status selectors on
      "(any)" and the age/gender selector on "Any", the drill-down form and
      the allocation form keep the same rows. */
  lemma DrillAgreesWithAllocation(c: Case, query: string, risks: seq<Risk>, village: string)
    ensures MatchRow(c, DrillFilter(query, risks, village, AnyChoice, AnyChoice))
        == MatchesFilters(c, AllocationFilter(query, risks, village, AnyPatient))
  {
    assert |Lower(Strip(query))| == |Strip(query)|;
  }

  // ---------------------------------------------------------------------
  // The doctor list of the workload monitor
  // ---------------------------------------------------------------------

  /** Python's `<` on strings: code point by code point, a proper prefix
      first. */
  predicate LexLess(a: string, b: string)
  {
    if |a| == 0 then |b| > 0
    else if |b| == 0 then false
    else if a[0] != b[0] then a[0] < b[0]
    else LexLess(a[1..], b[1..])
  }

  lemma {:induction false} LexLessIrreflexive(a: string)
    ensures !LexLess(a, a)
  {
    if |a| > 0 {
      LexLessIrreflexive(a[1..]);
    }
  }

  lemma {:induction false} LexLessTransitive(a: string, b: string, c: string)
    requires LexLess(a, b) && LexLess(b, c)
    ensures LexLess(a, c)
  {
    if |a| > 0 && |b| > 0 && |c| > 0 && a[0] == b[0] && b[0] == c[0] {
      LexLessTransitive(a[1..], b[1..], c[1..]);
    }
  }

  lemma {:induction false} LexLessTotal(a: string, b: string)
    requires a != b
    ensures LexLess(a, b) || LexLess(b, a)
  {
    if |a| > 0 && |b| > 0 && a[0] == b[0] {
      assert a == [a[0]] + a[1..] && b == [b[0]] + b[1..];
      LexLessTotal(a[1..], b[1..]);
    }
  }

  /** Strictly increasing, hence without repeats. */
  predicate StrictlySorted(s: seq<string>)
  {
    forall i, j :: 0 <= i < j < |s| ==> LexLess(s[i], s[j])
  }

  /** Adds a name to a strictly sorted list of names, once. */
  function InsertName(x: string, s: seq<string>): (u: seq<string>)
    requires StrictlySorted(s)
    ensures StrictlySorted(u)
    ensures forall y :: y in u <==> y in s || y == x
  {
    if |s| == 0 then [x]
    else if x == s[0] then s
    else if LexLess(x, s[0]) then
      var u := [x] + s;
      forall i, j | 0 <= i < j < |u|
        ensures LexLess(u[i], u[j])
      {
        if i == 0 && j > 1 {
          LexLessTransitive(x, s[0], s[j - 1]);
        }
      }
      u
    else
      LexLessTotal(x, s[0]);
      var rest := InsertName(x, s[1..]);
      var u := [s[0]] + rest;
      forall j | 0 <= j < |rest|
        ensures LexLess(s[0], rest[j])
      {
        assert rest[j] in s[1..] || rest[j] == x;
        if rest[j] != x {
          var k :| 0 <= k < |s[1..]| && s[1..][k] == rest[j];
          assert s[k + 1] == rest[j];
        }
      }
      assert forall y :: y in s <==> y == s[0] || y in s[1..] by {
        assert s == [s[0]] + s[1..];
      }
      u
  }

  /** The doctors named on the rows up to `n`, sorted. */
  function NamesOnRows(rows: seq<Case>, n: nat): (ds: seq<string>)
    requires n <= |rows|
    ensures StrictlySorted(ds)
    ensures forall y :: y in ds <==> exists i :: 0 <= i < n && rows[i].assignedDoctor == Some(y) && y != ""
  {
    if n == 0 then []
    else
      var before := NamesOnRows(rows, n - 1);
      var o := rows[n - 1].assignedDoctor;
      if Truthy(o) then InsertName(o.value, before) else before
  }

  /** `doctors`: the sorted set of the doctors named on the queue, or the
      sample list "Dr. A", "Dr. B", "Dr. C" when no row names one. */
  function MonitorDoctors(rows: seq<Case>): (ds: seq<string>)
    ensures |ds| > 0
    ensures (forall i :: 0 <= i < |rows| ==> !Truthy(rows[i].assignedDoctor)) ==> ds == ["Dr. A", "Dr. B", "Dr. C"]
    ensures (exists i :: 0 <= i < |rows| && Truthy(rows[i].assignedDoctor)) ==>
              && StrictlySorted(ds)
              && forall y :: y in ds <==> exists i :: 0 <= i < |rows| && rows[i].assignedDoctor == Some(y) && y != ""
  {
    var named := NamesOnRows(rows, |rows|);
    if |named| == 0 then
      ["Dr. A", "Dr. B", "Dr. C"]
    else
      var i :| 0 <= i < |rows| && rows[i].assignedDoctor == Some(named[0]) && named[0] != "";
      assert Truthy(rows[i].assignedDoctor);
      named
  }

  // ---------------------------------------------------------------------
  // `compute_doctor_stats`
  // ---------------------------------------------------------------------

  /** The calendar day of a report time (whole seconds on the clock the
      queue uses; `datetime.date()`). */
  function Day(t: int): int
  {
    t / 86400
  }

  /** Every row of doctor `d` carries a report time; the statistics read
      it on every row of the doctor they look at. */
  predicate ReportedFor(rows: seq<Case>, d: string)
  {
    forall i :: 0 <= i < |rows| && rows[i].assignedDoctor == Some(d) ==> rows[i].reportedAt.Some?
  }

  /** The row is the doctor's and was reported on that day. */
  predicate OwnedOnDay(c: Case, d: string, day: int)
  {
    c.assignedDoctor == Some(d) && c.reportedAt.Some? && Day(c.reportedAt.value) == day
  }

  /** Which rows are the doctor's and were reported on the day. */
  function OwnedFlags(rows: seq<Case>, d: string, day: int): (keep: seq<bool>)
    ensures |keep| == |rows|
    ensures forall i :: 0 <= i < |rows| ==> keep[i] == OwnedOnDay(rows[i], d, day)
  {
    seq(|rows|, i requires 0 <= i < |rows| => OwnedOnDay(rows[i], d, day))
  }

  /** `assigned_by_date`: the doctor's rows reported on the day, in queue
      order, once per such row. */
  function OwnedRowsOn(rows: seq<Case>, d: string, day: int): (ps: seq<Case>)
    requires ReportedFor(rows, d)
    ensures |ps| <= CountAssigned(rows, d)
    ensures forall c :: c in ps <==> c in rows && OwnedOnDay(c, d, day)
    ensures ps == Select(rows, OwnedFlags(rows, d, day))
  {
    if |rows| == 0 then []
    else
      var rest := OwnedRowsOn(rows[1..], d, day);
      assert forall c :: c in rows <==> c == rows[0] || c in rows[1..] by {
        assert rows == [rows[0]] + rows[1..];
      }
      assert OwnedFlags(rows, d, day)[1..] == OwnedFlags(rows[1..], d, day);
      if OwnedOnDay(rows[0], d, day) then [rows[0]] + rest else rest
  }

  /** The day's rows of the doctor are the rows at the flagged positions,
      in queue order: the `j`-th is the row at the `j`-th position holding
      one of the doctor's cases reported that day. */
  lemma OwnedRowsInOrder(rows: seq<Case>, d: string, day: int)
    requires ReportedFor(rows, d)
    ensures var ps := OwnedRowsOn(rows, d, day);
            var at := SetPositions(OwnedFlags(rows, d, day), 0);
            && |ps| == |at|
            && forall j :: 0 <= j < |at| ==> ps[j] == rows[at[j]]
  {
    SelectInOrder(rows, OwnedFlags(rows, d, day));
  }

  /** How many rows carry the tier. */
  function TierCount(ps: seq<Case>, k: Risk): nat
  {
    if |ps| == 0 then 0 else (if ps[0].risk == k then 1 else 0) + TierCount(ps[1..], k)
  }

  /** Every row is counted under exactly one tier. */
  lemma {:induction false} TiersPartition(ps: seq<Case>)
    ensures TierCount(ps, Red) + TierCount(ps, Amber) + TierCount(ps, Green) == |ps|
  {
    if |ps| > 0 {
      TiersPartition(ps[1..]);
    }
  }

  /** `min(100, active / 10 * 100)` for a capacity of ten cases. */
  function LoadPercent(active: nat): (p: nat)
    ensures p <= 100
    ensures p == 100 <==> active >= 10
    ensures active <= 10 ==> p == active * 10
  {
    if active >= 10 then 100 else active * 10
  }

  /** One entry of the monitor table (the average response time is left out). */
  datatype DoctorStats = DoctorStats(doctor: string, active: nat, red: nat, amber: nat, green: nat, loadPercent: nat, patients: seq<Case>)

  /** The figures of one doctor for one day: the day's rows of the doctor,
      how many there are, and how many of them carry each tier. */
  function StatsFor(rows: seq<Case>, d: string, day: int): (s: DoctorStats)
    requires ReportedFor(rows, d)
    ensures s.doctor == d && s.active == |s.patients|
    ensures s.red + s.amber + s.green == s.active
    ensures s.active <= CountAssigned(rows, d)
    ensures s.loadPercent <= 100 && (s.loadPercent == 100 <==> s.active >= 10)
    ensures forall c :: c in s.patients <==> c in rows && OwnedOnDay(c, d, day)
    ensures s.patients == Select(rows, OwnedFlags(rows, d, day))
    ensures s.red == TierCount(s.patients, Red) && s.amber == TierCount(s.patients, Amber) && s.green == TierCount(s.patients, Green)
  {
    var ps := OwnedRowsOn(rows, d, day);
    TiersPartition(ps);
    DoctorStats(d, |ps|, TierCount(ps, Red), TierCount(ps, Amber), TierCount(ps, Green), LoadPercent(|ps|), ps)
  }

  /** `compute_doctor_stats(selected_date)`: one entry per listed doctor, in
      list order. */
  function DoctorStatsTable(rows: seq<Case>, doctors: seq<string>, day: int): (table: seq<DoctorStats>)
    requires forall k :: 0 <= k < |doctors| ==> ReportedFor(rows, doctors[k])
    ensures |table| == |doctors|
    ensures forall i :: 0 <= i < |doctors| ==> table[i].doctor == doctors[i]
    ensures forall i :: 0 <= i < |doctors| ==> table[i].red + table[i].amber + table[i].green == table[i].active
    ensures forall i :: 0 <= i < |doctors| ==> table[i] == StatsFor(rows, doctors[i], day)
  {
    seq(|doctors|, i requires 0 <= i < |doctors| => StatsFor(rows, doctors[i], day))
  }

  /** When all of a doctor's rows were reported on one day, the doctor's
      active figure for that day is the number of rows the doctor owns. */
  lemma {:induction false} OneDayCountsEverything(rows: seq<Case>, d: string, day: int)
    requires ReportedFor(rows, d)
    requires forall i :: 0 <= i < |rows| && rows[i].assignedDoctor == Some(d) ==> Day(rows[i].reportedAt.value) == day
    ensures |OwnedRowsOn(rows, d, day)| == CountAssigned(rows, d)
  {
    if |rows| > 0 {
      OneDayCountsEverything(rows[1..], d, day);
    }
  }

  // ---------------------------------------------------------------------
  // Bulk actions
  // ---------------------------------------------------------------------

  /** The "Reassign all" loop: every row of `from` moves to `to`; the count
      is how many rows moved. */
  function MoveAll(rows: seq<Case>, from: string, to: string): (r: (seq<Case>, nat))
    ensures |r.0| == |rows|
    ensures r.1 == CountAssigned(rows, from)
    ensures forall i :: 0 <= i < |rows| ==>
              r.0[i] == if rows[i].assignedDoctor == Some(from) then rows[i].(assignedDoctor := Some(to)) else rows[i]
  {
    if |rows| == 0 then ([], 0)
    else
      var (tail, n) := MoveAll(rows[1..], from, to);
      var head := if rows[0].assignedDoctor == Some(from) then rows[0].(assignedDoctor := Some(to)) else rows[0];
      ([head] + tail, Owns(rows[0], from) + n)
  }

  /** After moving everything from one doctor to another, the first owns
      nothing, the second owns both shares, and every other doctor keeps
      what they had. */
  lemma {:induction false} MoveAllCounts(rows: seq<Case>, from: string, to: string, d: string)
    requires from != to
    ensures CountAssigned(MoveAll(rows, from, to).0, d) ==
              if d == from then 0
              else if d == to then CountAssigned(rows, to) + CountAssigned(rows, from)
              else CountAssigned(rows, d)
  {
    if |rows| > 0 {
      MoveAllCounts(rows[1..], from, to, d);
      assert MoveAll(rows, from, to).0[1..] == MoveAll(rows[1..], from, to).0;
    }
  }

  /** What "Reassign all" leads to. */
  datatype BulkOutcome = PickTargetWarning | Reassigned(rows: seq<Case>, count: nat)

  /** "Reassign all": the "(none)" target only warns; any other target
      takes over every row of the selected doctor, and the message reports
      how many rows that doctor owned. */
  function ReassignAll(rows: seq<Case>, from: string, target: string): (o: BulkOutcome)
    ensures o.PickTargetWarning? <==> target == NoDoctor
    ensures o.Reassigned? ==> |o.rows| == |rows| && o.count == CountAssigned(rows, from)
    ensures o.Reassigned? && from != target ==> CountAssigned(o.rows, from) == 0
    ensures o.Reassigned? ==> forall i :: 0 <= i < |rows| ==>
              o.rows[i] == if rows[i].assignedDoctor == Some(from) then rows[i].(assignedDoctor := Some(target)) else rows[i]
  {
    if target == NoDoctor then PickTargetWarning
    else
      var (moved, count) := MoveAll(rows, from, target);
      assert from != target ==> CountAssigned(moved, from) == 0 by {
        if from != target {
          MoveAllCounts(rows, from, target, from);
        }
      }
      Reassigned(moved, count)
  }

  /** `[rid for rid, sel in case_selected.items() if sel]` */
  function SelectedIds(selection: map<string, bool>): set<string>
  {
    set k | k in selection && selection[k]
  }

  /** What "Assign to selected" leads to. */
  datatype SelectionOutcome = NoSelectionWarning | AssignedSelected(rows: seq<Case>, selection: map<string, bool>)

  /** The doctor value the selector writes: nothing for "(none)". */
  function SelectorDoctor(doc: string): Option<string>
  {
    if doc == NoDoctor then None else Some(doc)
  }

  /** "Assign to selected": with nothing ticked it only warns; otherwise
      every row whose id is ticked gets the chosen doctor (none for
      "(none)"), the other rows stay as they were, and every tick is
      cleared. */
  function AssignToSelected(rows: seq<Case>, selection: map<string, bool>, doc: string): (o: SelectionOutcome)
    ensures o.NoSelectionWarning? <==> SelectedIds(selection) == {}
    ensures o.AssignedSelected? ==>
              && |o.rows| == |rows|
              && o.selection.Keys == selection.Keys
              && SelectedIds(o.selection) == {}
              && forall i :: 0 <= i < |rows| ==>
                   if rows[i].id in SelectedIds(selection) then o.rows[i].assignedDoctor == SelectorDoctor(doc) && o.rows[i].id == rows[i].id
                   else o.rows[i] == rows[i]
  {
    var ids := SelectedIds(selection);
    if ids == {} then NoSelectionWarning
    else
      var out := seq(|rows|, i requires 0 <= i < |rows| =>
        if rows[i].id in ids then rows[i].(assignedDoctor := SelectorDoctor(doc)) else rows[i]);
      AssignedSelected(out, map k | k in selection :: false)
  }

  /** Clearing the ticks makes a second press of the button only warn. */
  lemma AssignTwiceWarns(rows: seq<Case>, selection: map<string, bool>, doc: string)
    requires AssignToSelected(rows, selection, doc).AssignedSelected?
    ensures var o := AssignToSelected(rows, selection, doc);
            AssignToSelected(o.rows, o.selection, doc).NoSelectionWarning?
  {
  }

  /** Rows cleared with "(none)" show up under the drill-down's "(none)"
      doctor choice. */
  lemma ClearedRowsShowAsUnassigned(rows: seq<Case>, selection: map<string, bool>, i: int)
    requires 0 <= i < |rows| && rows[i].id in SelectedIds(selection)
    ensures var o := AssignToSelected(rows, selection, NoDoctor);
            MatchRow(o.rows[i], ResetDrill.(doctor := NoDoctor))
  {
    var o := AssignToSelected(rows, selection, NoDoctor);
    DrillUnassigned(o.rows[i]);
  }

  // ---------------------------------------------------------------------
  // A new patient profile's id
  // ---------------------------------------------------------------------

  /** `int(pid.split("-")[-1])`, or `None` when that raises. */
  function ProfileNumber(pid: string): Option<int>
  {
    var parts := SplitOn(pid, '-');
    ParseInt(parts[|parts| - 1])
  }

  /** The largest of the numbers present, never below 0. */
  function MaxPresent(ns: seq<Option<int>>): (m: nat)
    ensures forall i :: 0 <= i < |ns| && ns[i].Some? ==> ns[i].value <= m
    ensures m == 0 || exists i :: 0 <= i < |ns| && ns[i] == Some(m)
  {
    if |ns| == 0 then 0
    else
      var m := MaxPresent(ns[..|ns| - 1]);
      assert forall i :: 0 <= i < |ns| - 1 ==> ns[..|ns| - 1][i] == ns[i];
      match ns[|ns| - 1]
      case Some(n) => if n > m then n else m
      case None => m
  }

  /** The largest profile number among the ids, never below 0; ids whose
      number does not parse are skipped. */
  function MaxProfileNumber(ids: seq<string>): (m: nat)
    ensures forall i :: 0 <= i < |ids| && ProfileNumber(ids[i]).Some? ==> ProfileNumber(ids[i]).value <= m
    ensures m == 0 || exists i :: 0 <= i < |ids| && ProfileNumber(ids[i]) == Some(m)
  {
    MaxPresent(ProfileNumbers(ids))
  }

  /** The profile number of each id, in order. */
  function ProfileNumbers(ids: seq<string>): (ns: seq<Option<int>>)
    ensures |ns| == |ids|
    ensures forall i :: 0 <= i < |ids| ==> ns[i] == ProfileNumber(ids[i])
  {
    if |ids| == 0 then [] else [ProfileNumber(ids[0])] + ProfileNumbers(ids[1..])
  }

  /** `f"P-{n}"` */
  function FormatProfileId(n: nat): string
  {
    "P-" + NatToString(n)
  }

  /** The number read back from a formatted id is the number written. */
  lemma ProfileNumberOfFormatted(n: nat)
    ensures ProfileNumber(FormatProfileId(n)) == Some(n)
  {
    var digits := NatToString(n);
    assert '-' !in digits by {
      forall k | 0 <= k < |digits|
        ensures digits[k] != '-'
      {
        assert IsDigit(digits[k]);
      }
    }
    assert FormatProfileId(n) == "P" + ['-'] + digits;
    SplitAfterPart("P", digits, '-');
    SplitNoSep(digits, '-');
    assert IntToString(n) == digits;
    ParseIntRoundTrip(n);
  }

  /** The id of a new profile: one past every number in use, plus 100. */
  function NewProfileId(ids: seq<string>): string
  {
    FormatProfileId(MaxProfileNumber(ids) + 101)
  }

  /** The new id is not taken: its number is above every number in use. */
  lemma NewProfileIdFresh(ids: seq<string>)
    ensures NewProfileId(ids) !in ids
  {
    ProfileNumberOfFormatted(MaxProfileNumber(ids) + 101);
  }
}
