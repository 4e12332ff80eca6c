/** Which cases a rule covers, which doctors it may pick from, and the
    active-case tally a run starts from (modules/patient/app.py:1045-1058,
    1186-1195, 1210-1215). */
module Matcher {
  import opened Wrappers
  import opened Text
  import opened Domain
  import opened Rules

  /** Region text as the screen compares it: stripped and lower-cased. */
  function Norm(s: string): string
  {
    Lower(Strip(s))
  }

  /** `_matches_rule(case, rule)`: an inactive rule matches nothing; an
      active rule matches every case unless it is a Region rule with a
      non-empty region, which must then occur (after stripping and
      lower-casing both sides) inside the case's village. */
  function Matches(c: Case, r: Rule): (b: bool)
    ensures b <==> (r.active
                    && (r.ruleType.DefaultRule? || r.region == ""
                        || exists k :: OccursAt(Norm(c.village), Norm(r.region), k)))
  {
    if !r.active then false
    else if r.ruleType == RegionRule && r.region != "" then
      var v, g := Norm(c.village), Norm(r.region);
      Contains(v, g)
    else true
  }

  /** A Region rule whose region is only whitespace matches every case,
      because the empty text occurs in every village. */
  lemma BlankRegionMatchesAll(c: Case, r: Rule)
    requires r.active && Strip(r.region) == ""
    ensures Matches(c, r)
  {
    assert OccursAt(Norm(c.village), Norm(r.region), 0);
  }

  /** Matching ignores the letter case of the village. */
  lemma MatchIgnoresVillageCase(c: Case, r: Rule, v: string)
    requires Lower(v) == Lower(c.village)
    ensures Matches(c.(village := v), r) == Matches(c, r)
  {
    StripLowerCommute(v);
    StripLowerCommute(c.village);
  }

  /** Lower-casing does not move whitespace, so it commutes with `strip`. */
  lemma StripLowerCommute(s: string)
    ensures Norm(s) == Strip(Lower(s))
  {
    var t := TrimStart(s);
    var u := TrimEnd(t);
    TrimStartLower(s);
    TrimEndLower(t);
  }

  lemma LowerCharSpace(c: char)
    ensures IsSpace(LowerChar(c)) == IsSpace(c)
  {
  }

  lemma {:induction false} TrimStartLower(s: string)
    ensures TrimStart(Lower(s)) == Lower(TrimStart(s))
  {
    if |s| > 0 {
      var l := Lower(s);
      LowerCharSpace(s[0]);
      if IsSpace(s[0]) {
        calc {
          TrimStart(l);
          { assert IsSpace(l[0]); }
          TrimStart(l[1..]);
          { assert l[1..] == Lower(s[1..]); }
          TrimStart(Lower(s[1..]));
          { TrimStartLower(s[1..]); }
          Lower(TrimStart(s[1..]));
        }
      } else {
        assert !IsSpace(l[0]);
      }
    }
  }

  lemma {:induction false} TrimEndLower(s: string)
    ensures TrimEnd(Lower(s)) == Lower(TrimEnd(s))
  {
    if |s| > 0 {
      var l := Lower(s);
      var n := |s| - 1;
      LowerCharSpace(s[n]);
      if IsSpace(s[n]) {
        calc {
          TrimEnd(l);
          { assert IsSpace(l[n]); }
          TrimEnd(l[..n]);
          { assert l[..n] == Lower(s[..n]); }
          TrimEnd(Lower(s[..n]));
          { TrimEndLower(s[..n]); }
          Lower(TrimEnd(s[..n]));
        }
      } else {
        assert !IsSpace(l[n]);
      }
    }
  }

  /** Positions, from `from` on, whose flag is set, in increasing order. */
  function SetPositions(flags: seq<bool>, from: nat): (ps: seq<nat>)
    requires from <= |flags|
    ensures forall k :: 0 <= k < |ps| ==> from <= ps[k] < |flags| && flags[ps[k]]
    ensures forall i :: from <= i < |flags| && flags[i] ==> i in ps
    ensures forall j, k :: 0 <= j < k < |ps| ==> ps[j] < ps[k]
    decreases |flags| - from
  {
    if from == |flags| then []
    else if flags[from] then [from] + SetPositions(flags, from + 1)
    else SetPositions(flags, from + 1)
  }

  /** `matched = [c for c in case_rows if _matches_rule(c, rule)]`, as the
      positions of those rows: every matched position holds a case the rule
      matches, every such case is there, and queue order is kept. */
  function MatchedPositions(rows: seq<Case>, r: Rule): (ps: seq<nat>)
    ensures forall k :: 0 <= k < |ps| ==> ps[k] < |rows| && Matches(rows[ps[k]], r)
    ensures forall i :: 0 <= i < |rows| && Matches(rows[i], r) ==> i in ps
    ensures forall j, k :: 0 <= j < k < |ps| ==> ps[j] < ps[k]
  {
    var flags := seq(|rows|, i requires 0 <= i < |rows| => Matches(rows[i], r));
    SetPositions(flags, 0)
  }

  // ---------------------------------------------------------------------
  // Candidate pool
  // ---------------------------------------------------------------------

  /** The doctor's region equals `region` up to whitespace and case. */
  predicate InRegion(d: Doctor, region: string)
  {
    Norm(d.region) == Norm(region)
  }

  /** The elements of `xs` whose flag is set, in their original order. */
  function Select<T>(xs: seq<T>, keep: seq<bool>): (out: seq<T>)
    requires |keep| == |xs|
    ensures |out| <= |xs|
  {
    if |xs| == 0 then []
    else if keep[0] then [xs[0]] + Select(xs[1..], keep[1..])
    else Select(xs[1..], keep[1..])
  }

  /** Exactly the flagged elements are selected. */
  lemma {:induction false} SelectMembers<T>(xs: seq<T>, keep: seq<bool>, x: T)
    requires |keep| == |xs|
    ensures x in Select(xs, keep) <==> exists i :: 0 <= i < |xs| && keep[i] && xs[i] == x
  {
    if |xs| > 0 {
      SelectMembers(xs[1..], keep[1..], x);
      if exists i :: 0 <= i < |xs| - 1 && keep[1..][i] && xs[1..][i] == x {
        var i :| 0 <= i < |xs| - 1 && keep[1..][i] && xs[1..][i] == x;
        assert keep[i + 1] && xs[i + 1] == x;
      }
      if exists i :: 0 <= i < |xs| && keep[i] && xs[i] == x {
        var i :| 0 <= i < |xs| && keep[i] && xs[i] == x;
        if i > 0 {
          assert keep[1..][i - 1] && xs[1..][i - 1] == x;
        }
      }
    }
  }

  /** Selecting from the suffix at `from` keeps the flagged elements there,
      in their original order: the `j`-th kept element is the element at
      the `j`-th flagged position. */
  lemma {:induction false} SelectFrom<T>(xs: seq<T>, keep: seq<bool>, from: nat)
    requires |keep| == |xs| && from <= |xs|
    ensures var ps := SetPositions(keep, from);
            var out := Select(xs[from..], keep[from..]);
            && |out| == |ps|
            && forall j :: 0 <= j < |ps| ==> out[j] == xs[ps[j]]
    decreases |xs| - from
  {
    if from < |xs| {
      assert xs[from..][0] == xs[from] && keep[from..][0] == keep[from];
      assert xs[from..][1..] == xs[from + 1..] && keep[from..][1..] == keep[from + 1..];
      SelectFrom(xs, keep, from + 1);
    }
  }

  /** The selection lists the flagged elements in their original order,
      once per flagged position. */
  lemma SelectInOrder<T>(xs: seq<T>, keep: seq<bool>)
    requires |keep| == |xs|
    ensures var ps := SetPositions(keep, 0);
            var out := Select(xs, keep);
            && |out| == |ps|
            && forall j :: 0 <= j < |ps| ==> out[j] == xs[ps[j]]
  {
    assert xs[0..] == xs && keep[0..] == keep;
    SelectFrom(xs, keep, 0);
  }

  /** Which roster doctors belong to the region. */
  function RegionFlags(roster: seq<Doctor>, region: string): (keep: seq<bool>)
    ensures |keep| == |roster|
    ensures forall i :: 0 <= i < |roster| ==> keep[i] == InRegion(roster[i], region)
  {
    seq(|roster|, i requires 0 <= i < |roster| => InRegion(roster[i], region))
  }

  /** Names of the roster doctors of one region, in roster order. */
  function NamesInRegion(roster: seq<Doctor>, region: string): (ns: seq<string>)
    ensures |ns| <= |roster|
  {
    Select(Names(roster), RegionFlags(roster, region))
  }

  /** The region's names are the names of the region's doctors, one per
      doctor, in roster order: the `j`-th is the name of the `j`-th doctor
      of the region. */
  lemma NamesInRegionInOrder(roster: seq<Doctor>, region: string)
    ensures var ns := NamesInRegion(roster, region);
            var ps := SetPositions(RegionFlags(roster, region), 0);
            && |ns| == |ps|
            && forall j :: 0 <= j < |ps| ==> ns[j] == roster[ps[j]].name
  {
    SelectInOrder(Names(roster), RegionFlags(roster, region));
  }

  /** Some roster doctor of the region carries this name. */
  predicate NamedInRegion(roster: seq<Doctor>, region: string, x: string)
  {
    exists i :: 0 <= i < |roster| && roster[i].name == x && InRegion(roster[i], region)
  }

  /** The region's names are exactly the names of the roster doctors of
      that region. */
  lemma NamesInRegionMembers(roster: seq<Doctor>, region: string, x: string)
    ensures x in NamesInRegion(roster, region) <==> NamedInRegion(roster, region, x)
  {
    var names, keep := Names(roster), RegionFlags(roster, region);
    SelectMembers(names, keep, x);
    if NamedInRegion(roster, region, x) {
      var i :| 0 <= i < |roster| && roster[i].name == x && InRegion(roster[i], region);
      assert keep[i] && names[i] == x;
    }
  }

  /** `_doctor_names_in_region(region)`: a blank or missing region means the
      whole roster; otherwise the names of the region's doctors, one per
      doctor, in roster order. */
  function DoctorNamesInRegion(roster: seq<Doctor>, region: Option<string>): (ns: seq<string>)
    ensures region.None? || Strip(region.value) == "" ==> ns == Names(roster)
    ensures region.Some? && Strip(region.value) != "" ==>
              forall x :: x in ns <==> NamedInRegion(roster, region.value, x)
    ensures region.Some? && Strip(region.value) != "" ==> ns == NamesInRegion(roster, region.value)
  {
    if region.Some? && Strip(region.value) != "" then
      var ns := NamesInRegion(roster, region.value);
      assert forall x :: x in ns <==> NamedInRegion(roster, region.value, x) by {
        forall x ensures x in ns <==> NamedInRegion(roster, region.value, x) {
          NamesInRegionMembers(roster, region.value, x);
        }
      }
      ns
    else Names(roster)
  }

  /** The rule has a region filter that leaves at least one doctor. */
  predicate RegionFilterApplies(r: Rule, roster: seq<Doctor>)
  {
    && r.ruleType == RegionRule
    && Strip(r.region) != ""
    && exists i :: 0 <= i < |roster| && InRegion(roster[i], r.region)
  }

  /** The pool `pick_doctor_for_case` chooses from: for a Region rule the
      roster doctors of the rule's region, in roster order; the whole
      roster for any other rule or when no doctor is in that region. The
      pool is empty only for an empty roster. */
  function CandidatePool(r: Rule, roster: seq<Doctor>): (pool: seq<string>)
    ensures |pool| == 0 <==> |roster| == 0
    ensures forall x :: x in pool ==> x in Names(roster)
    ensures RegionFilterApplies(r, roster) ==> forall x :: x in pool <==> NamedInRegion(roster, r.region, x)
    ensures !RegionFilterApplies(r, roster) ==> pool == Names(roster)
  {
    var filtered := if r.ruleType == RegionRule && r.region != ""
                    then DoctorNamesInRegion(roster, Some(r.region))
                    else DoctorNamesInRegion(roster, None);
    FilteredPoolFacts(r, roster, filtered);
    if |filtered| == 0 then Names(roster) else filtered
  }

  /** A region pool is the region's names: one per doctor of the region,
      in roster order. */
  lemma CandidatePoolInOrder(r: Rule, roster: seq<Doctor>)
    requires RegionFilterApplies(r, roster)
    ensures CandidatePool(r, roster) == NamesInRegion(roster, r.region)
  {
    var filtered := DoctorNamesInRegion(roster, Some(r.region));
    FilteredPoolFacts(r, roster, filtered);
  }

  lemma FilteredPoolFacts(r: Rule, roster: seq<Doctor>, filtered: seq<string>)
    requires filtered == if r.ruleType == RegionRule && r.region != ""
                         then DoctorNamesInRegion(roster, Some(r.region))
                         else DoctorNamesInRegion(roster, None)
    ensures forall x :: x in filtered ==> x in Names(roster)
    ensures RegionFilterApplies(r, roster) ==> |filtered| > 0 && forall x :: x in filtered <==> NamedInRegion(roster, r.region, x)
    ensures RegionFilterApplies(r, roster) ==> filtered == NamesInRegion(roster, r.region)
    ensures !RegionFilterApplies(r, roster) && |filtered| > 0 ==> filtered == Names(roster)
  {
    var names := Names(roster);
    if r.ruleType == RegionRule && Strip(r.region) != "" {
      assert r.region != "";
      assert forall x :: x in filtered <==> NamedInRegion(roster, r.region, x);
      forall x | x in filtered ensures x in names {
        var i :| 0 <= i < |roster| && roster[i].name == x && InRegion(roster[i], r.region);
        assert names[i] == x;
      }
      if RegionFilterApplies(r, roster) {
        var i :| 0 <= i < |roster| && InRegion(roster[i], r.region);
        assert NamedInRegion(roster, r.region, roster[i].name);
      }
      if |filtered| > 0 {
        assert NamedInRegion(roster, r.region, filtered[0]);
      }
    }
  }

  // ---------------------------------------------------------------------
  // Active-case tally
  // ---------------------------------------------------------------------

  /** 1 when the case is assigned to `name`, else 0. */
  function Owns(c: Case, name: string): nat
  {
    if c.assignedDoctor == Some(name) then 1 else 0
  }

  /** Number of rows owned by `name`. */
  function CountAssigned(rows: seq<Case>, name: string): (n: nat)
    ensures n <= |rows|
  {
    if |rows| == 0 then 0 else Owns(rows[0], name) + CountAssigned(rows[1..], name)
  }

  /** Replacing one row changes the tally by what the old and new rows
      contribute. */
  lemma {:induction false} CountAssignedUpdate(rows: seq<Case>, q: nat, x: Case, name: string)
    requires q < |rows|
    ensures CountAssigned(rows[q := x], name) + Owns(rows[q], name) == CountAssigned(rows, name) + Owns(x, name)
  {
    var u := rows[q := x];
    if q == 0 {
      assert u[1..] == rows[1..];
    } else {
      assert u[0] == rows[0];
      assert u[1..] == rows[1..][q - 1 := x];
      CountAssignedUpdate(rows[1..], q - 1, x, name);
    }
  }

  /** `_active_counts()`: one entry per roster name, the number of rows that
      doctor owns. */
  function ActiveCounts(roster: seq<Doctor>, rows: seq<Case>): (counts: map<string, nat>)
    ensures counts.Keys == set i | 0 <= i < |roster| :: roster[i].name
    ensures forall d :: d in counts ==> counts[d] == CountAssigned(rows, d)
  {
    var names := Names(roster);
    map d | d in names :: CountAssigned(rows, d)
  }
}
