/** The three places the health-agent screens turn readings into a
    Red / Amber / Green tier (modules/health_agent/app.py): the vitals
    table's `compute_risk`, the patient picker's `_risk_label` and the
    badge of `_risk_badge_for_patient`. Readings are whole numbers. */
module Triage {
  import opened Wrappers
  import opened Domain

  /** Red above Amber above Green. */
  function Severity(t: Risk): nat
  {
    match t
    case Green => 0
    case Amber => 1
    case Red => 2
  }

  /** A reading that takes part in a test: present and not zero, as
      Python's `x and ...` reads a number. */
  predicate Given(x: Option<int>)
  {
    x.Some? && x.value != 0
  }

  predicate Over(x: Option<int>, limit: int)
  {
    Given(x) && x.value > limit
  }

  predicate InBand(x: Option<int>, lo: int, hi: int)
  {
    Given(x) && lo <= x.value <= hi
  }

  // ---------------------------------------------------------------------
  // `compute_risk` (vitals table)
  // ---------------------------------------------------------------------

  /** A table cell: empty, a number, or text `float()` rejects. */
  datatype Cell = Missing | Num(v: int) | Junk

  /** The four readings after conversion. */
  datatype Readings = Readings(sys: Option<int>, dia: Option<int>, pulse: Option<int>, sugar: Option<int>)

  /** A converted cell, when conversion succeeded. */
  function Value(c: Cell): Option<int>
  {
    if c.Num? then Some(c.v) else None
  }

  /** The `float()` conversions: one unreadable cell makes all four
      readings `None`. */
  function Convert(bs: Cell, bd: Cell, pu: Cell, sg: Cell): (r: Readings)
    ensures bs.Junk? || bd.Junk? || pu.Junk? || sg.Junk? ==> r == Readings(None, None, None, None)
    ensures !(bs.Junk? || bd.Junk? || pu.Junk? || sg.Junk?) ==> r == Readings(Value(bs), Value(bd), Value(pu), Value(sg))
  {
    if bs.Junk? || bd.Junk? || pu.Junk? || sg.Junk? then Readings(None, None, None, None)
    else Readings(Value(bs), Value(bd), Value(pu), Value(sg))
  }

  /** The shared table: Red above 160 / 100 / 120 / 140, else Amber within
      140-160 / 90-100 / 100-120 / 110-140, else Green. */
  function Classify(r: Readings): Risk
  {
    if Over(r.sys, 160) || Over(r.dia, 100) || Over(r.pulse, 120) || Over(r.sugar, 140) then Red
    else if InBand(r.sys, 140, 160) || InBand(r.dia, 90, 100) || InBand(r.pulse, 100, 120) || InBand(r.sugar, 110, 140) then Amber
    else Green
  }

  /** `compute_risk(bp_sys, bp_dia, pulse, sugar)` */
  function ComputeRisk(bs: Cell, bd: Cell, pu: Cell, sg: Cell): (t: Risk)
    ensures bs.Junk? || bd.Junk? || pu.Junk? || sg.Junk? ==> t == Green
  {
    Classify(Convert(bs, bd, pu, sg))
  }

  /** `b` reads at least as high as `a`: wherever `a` has a reading, `b`
      has one no lower. */
  predicate NoLower(a: Option<int>, b: Option<int>)
  {
    a.None? || (b.Some? && b.value >= a.value)
  }

  predicate Dominates(a: Readings, b: Readings)
  {
    NoLower(a.sys, b.sys) && NoLower(a.dia, b.dia) && NoLower(a.pulse, b.pulse) && NoLower(a.sugar, b.sugar)
  }

  /** A reading's own tier under one limit and band. */
  function ReadingTier(x: Option<int>, lo: int, hi: int): Risk
  {
    if Given(x) && x.value > hi then Red else if Given(x) && lo <= x.value then Amber else Green
  }

  /** The table's tier is the worst of the four readings' own tiers. */
  lemma ClassifyIsWorst(r: Readings)
    ensures Severity(Classify(r)) ==
              Max(Max(Severity(ReadingTier(r.sys, 140, 160)), Severity(ReadingTier(r.dia, 90, 100))),
                  Max(Severity(ReadingTier(r.pulse, 100, 120)), Severity(ReadingTier(r.sugar, 110, 140))))
  {
  }

  function Max(a: nat, b: nat): nat
  {
    if a < b then b else a
  }

  /** Raising a reading never moves its own tier down (the limits are
      positive, so a zero never counts). */
  lemma ReadingTierMonotone(x: Option<int>, y: Option<int>, lo: int, hi: int)
    requires NoLower(x, y) && 0 < lo <= hi
    ensures Severity(ReadingTier(x, lo, hi)) <= Severity(ReadingTier(y, lo, hi))
  {
  }

  /** Higher readings never give a lower tier. */
  lemma ClassifyMonotone(a: Readings, b: Readings)
    requires Dominates(a, b)
    ensures Severity(Classify(a)) <= Severity(Classify(b))
  {
    ClassifyIsWorst(a);
    ClassifyIsWorst(b);
    ReadingTierMonotone(a.sys, b.sys, 140, 160);
    ReadingTierMonotone(a.dia, b.dia, 90, 100);
    ReadingTierMonotone(a.pulse, b.pulse, 100, 120);
    ReadingTierMonotone(a.sugar, b.sugar, 110, 140);
  }

  /** Absent or zero readings never raise the tier: dropping any of them
      changes nothing. */
  lemma AbsentOrZeroNeutral(r: Readings)
    ensures Classify(r) == Classify(Readings(
      if Given(r.sys) then r.sys else None,
      if Given(r.dia) then r.dia else None,
      if Given(r.pulse) then r.pulse else None,
      if Given(r.sugar) then r.sugar else None))
  {
  }

  // ---------------------------------------------------------------------
  // `_risk_label` (patient picker)
  // ---------------------------------------------------------------------

  /** The latest vitals row: systolic, diastolic, pulse. */
  datatype VitalsRow = VitalsRow(sys: Option<int>, dia: Option<int>, pulse: Option<int>)

  /** The latest sugar test: its type and result. */
  datatype SugarRow = SugarRow(testType: string, value: Option<int>)

  /** `(x if row else None) or 0` */
  function OrZero(x: Option<int>): int
  {
    if x.Some? then x.value else 0
  }

  /** The sugar figure `_risk_label` uses: the latest test's result when it
      is an FBS test with a value, else 0. */
  function FastingSugar(s: Option<SugarRow>): int
  {
    if s.Some? && s.value.testType == "FBS" && s.value.value.Some? then s.value.value.value else 0
  }

  /** `_risk_label(pid)` on the latest vitals and sugar rows. */
  function RiskLabel(v: Option<VitalsRow>, s: Option<SugarRow>): Risk
  {
    var sys := if v.Some? then OrZero(v.value.sys) else 0;
    var dia := if v.Some? then OrZero(v.value.dia) else 0;
    var pulse := if v.Some? then OrZero(v.value.pulse) else 0;
    var fbs := FastingSugar(s);
    if sys > 160 || dia > 100 || pulse > 120 || fbs > 140 then Red
    else if (140 <= sys <= 160) || (90 <= dia <= 100) || (100 <= pulse <= 120) || (110 <= fbs <= 140) then Amber
    else Green
  }

  /** The vitals of a row as table cells. */
  function VitalsCells(v: Option<VitalsRow>): (Cell, Cell, Cell)
  {
    if v.None? then (Missing, Missing, Missing)
    else (
      if v.value.sys.Some? then Num(v.value.sys.value) else Missing,
      if v.value.dia.Some? then Num(v.value.dia.value) else Missing,
      if v.value.pulse.Some? then Num(v.value.pulse.value) else Missing)
  }

  /** The picker's label is the vitals table's tier of the same vitals and
      the FBS result: missing values read as 0 count as absent. */
  lemma RiskLabelAgreesWithComputeRisk(v: Option<VitalsRow>, s: Option<SugarRow>)
    ensures var (bs, bd, pu) := VitalsCells(v);
            RiskLabel(v, s) == ComputeRisk(bs, bd, pu, Num(FastingSugar(s)))
  {
  }

  // ---------------------------------------------------------------------
  // `_risk_badge_for_patient`
  // ---------------------------------------------------------------------

  /** A reading at or above a bound, as `x and x >= bound` reads it. */
  predicate AtLeast(x: Option<int>, bound: int)
  {
    Given(x) && x.value >= bound
  }

  /** The tier the latest vitals give: Red over the limits, else Amber at
      or above 140 / 90 / 100, else Green; Green without vitals. */
  function VitalsTier(v: Option<VitalsRow>): Risk
  {
    if v.None? then Green
    else if Over(v.value.sys, 160) || Over(v.value.dia, 100) || Over(v.value.pulse, 120) then Red
    else if AtLeast(v.value.sys, 140) || AtLeast(v.value.dia, 90) || AtLeast(v.value.pulse, 100) then Amber
    else Green
  }

  /** The tier the badge shows, as written: a present FBS result replaces
      the vitals tier outright, Red above 140 and Amber from 110. */
  function BadgeTier(v: Option<VitalsRow>, fbs: Option<int>): (t: Risk)
    ensures Over(fbs, 140) ==> t == Red
    ensures AtLeast(fbs, 110) && !Over(fbs, 140) ==> t == Amber
    ensures !AtLeast(fbs, 110) ==> t == VitalsTier(v)
  {
    var t := VitalsTier(v);
    if Over(fbs, 140) then Red else if AtLeast(fbs, 110) then Amber else t
  }

  /** Without a sugar result in the alert range the badge agrees with the
      vitals table's tier of the same vitals. */
  lemma BadgeAgreesWithoutSugar(v: Option<VitalsRow>, fbs: Option<int>)
    requires !AtLeast(fbs, 110)
    ensures var (bs, bd, pu) := VitalsCells(v);
            BadgeTier(v, fbs) == ComputeRisk(bs, bd, pu, Missing)
  {
  }

  /** A moderate FBS result turns a Red from the vitals into an Amber
      badge, where the other two screens say Red. */
  lemma BadgeDowngradesRed()
    ensures BadgeTier(Some(VitalsRow(Some(170), None, None)), Some(120)) == Amber
    ensures ComputeRisk(Num(170), Missing, Missing, Num(120)) == Red
  {
  }

  /** The badge tier as the other two screens decide it: the worse of the
      vitals tier and the FBS tier. */
  function WorstBadgeTier(v: Option<VitalsRow>, fbs: Option<int>): (t: Risk)
    ensures Severity(VitalsTier(v)) <= Severity(t)
  {
    var sugar := if Over(fbs, 140) then Red else if AtLeast(fbs, 110) then Amber else Green;
    if Severity(sugar) > Severity(VitalsTier(v)) then sugar else VitalsTier(v)
  }

  /** The corrected badge tier is the vitals table's tier of the same
      vitals and FBS result. */
  lemma WorstBadgeTierAgrees(v: Option<VitalsRow>, fbs: Option<int>)
    ensures var (bs, bd, pu) := VitalsCells(v);
            WorstBadgeTier(v, fbs) == ComputeRisk(bs, bd, pu, if fbs.Some? then Num(fbs.value) else Missing)
  {
  }

  /** The badge texts exactly as the source file holds them: the UTF-8
      bytes of the red, orange and green circle emoji read back as Mac
      Roman. */
  const RedBadge := "\U{F8FF}\U{FC}\U{EE}\U{A5}"
  const AmberBadge := "\U{F8FF}\U{FC}\U{FC}\U{2020}"
  const GreenBadge := "\U{F8FF}\U{FC}\U{FC}\U{A2}"

  /** `{"Red": ..., "Amber": ..., "Green": ...}.get(risk, green)` */
  function Badge(t: Risk): string
  {
    match t
    case Red => RedBadge
    case Amber => AmberBadge
    case Green => GreenBadge
  }

  /** The three badges are different, so the badge tells the tier. */
  lemma BadgeIdentifiesTier(a: Risk, b: Risk)
    ensures Badge(a) == Badge(b) <==> a == b
  {
    assert RedBadge[3] != AmberBadge[3] && RedBadge[3] != GreenBadge[3] && AmberBadge[3] != GreenBadge[3];
  }

  /** `_risk_badge_for_patient(pid)` on the latest vitals and FBS result,
      with the corrected tier: the badge shows the tier the vitals table
      gives the same readings. */
  function RiskBadge(v: Option<VitalsRow>, fbs: Option<int>): (b: string)
    ensures b in {RedBadge, AmberBadge, GreenBadge}
    ensures var (bs, bd, pu) := VitalsCells(v);
            b == Badge(ComputeRisk(bs, bd, pu, if fbs.Some? then Num(fbs.value) else Missing))
  {
    WorstBadgeTierAgrees(v, fbs);
    Badge(WorstBadgeTier(v, fbs))
  }
}
