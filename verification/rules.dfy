/** Assignment rules: the stored record, its per-tier policies, and the
    normalisation that fills in whatever an older stored rule lacks
    (modules/patient/app.py, `_normalize_rules`). */
module Rules {
  import opened Wrappers
  import opened Domain

  /** `type`: a Region rule only applies to cases of its region. */
  datatype RuleType = DefaultRule | RegionRule

  /** The per-tier assignment mode. A stored mode that is none of the three
      labels the editor offers survives normalisation and makes the picker
      give up (`Unrecognised`). */
  datatype Mode = WorkloadBalance | FixedDoctor | RoundRobin | Unrecognised(stored: string)

  /** `rr_scope`: stored and edited, never read by the picker. */
  datatype RrScope = AllDoctors | DoctorsInRegion

  /** `{mode, doctor}` for one risk tier. */
  datatype Policy = Policy(mode: Mode, doctor: Option<string>)

  /** A normalised rule: every key of the stored dictionary is present.
      `maxActiveCases == 0` means uncapped, `reassignAfterHours == 0` means
      escalation is off. */
  datatype Rule = Rule(
    id: int,
    name: string,
    ruleType: RuleType,
    region: string,
    active: bool,
    mapping: map<Risk, Policy>,
    maxActiveCases: int,
    reassignAfterHours: int,
    rrScope: RrScope,
    createdAt: string)

  const DefaultPolicy := Policy(WorkloadBalance, None)

  /** Every risk tier has its policy. */
  predicate Complete(r: Rule)
  {
    forall k: Risk :: k in r.mapping
  }

  /** `mapping.get(risk, {"mode": "Workload balance", "doctor": None})` */
  function PolicyFor(r: Rule, risk: Risk): Policy
  {
    if risk in r.mapping then r.mapping[risk] else DefaultPolicy
  }

  // ---------------------------------------------------------------------
  // Stored rules as they may be found before normalisation
  // ---------------------------------------------------------------------

  /** A stored mapping entry; `None` is a missing key. For `doctor` the
      inner option is the stored value, which may itself be `None`. */
  datatype RawPolicy = RawPolicy(mode: Option<Mode>, doctor: Option<Option<string>>)

  /** A stored rule dictionary with possibly missing keys. `mapping` is
      `None` when the key is missing or holds an empty/null value. Every
      creation path writes `id` and `name`, so those are always present. */
  datatype RawRule = RawRule(
    id: int,
    name: string,
    ruleType: Option<RuleType>,
    region: Option<string>,
    active: Option<bool>,
    mapping: Option<map<Risk, RawPolicy>>,
    maxActiveCases: Option<int>,
    reassignAfterHours: Option<int>,
    rrScope: Option<RrScope>,
    createdAt: Option<string>)

  /** `setdefault("mode", "Workload balance")`, `setdefault("doctor", None)` */
  function NormalizePolicy(p: RawPolicy): (q: Policy)
    ensures p.mode.Some? ==> q.mode == p.mode.value
    ensures p.mode.None? ==> q.mode == WorkloadBalance
    ensures p.doctor.Some? ==> q.doctor == p.doctor.value
    ensures p.doctor.None? ==> q.doctor == None
  {
    Policy(p.mode.GetOr(WorkloadBalance), p.doctor.GetOr(None))
  }

  /** The tier mapping after normalisation: all three tiers, each entry
      completed, and the default entry for a missing tier. */
  function NormalizeMapping(m: Option<map<Risk, RawPolicy>>): (out: map<Risk, Policy>)
    ensures forall k: Risk :: k in out
    ensures forall k :: m.Some? && k in m.value ==> out[k] == NormalizePolicy(m.value[k])
    ensures forall k :: (m.None? || k !in m.value) ==> out[k] == DefaultPolicy
  {
    var out := map[Red := NormalizeEntry(m, Red), Amber := NormalizeEntry(m, Amber), Green := NormalizeEntry(m, Green)];
    assert forall k: Risk :: k in out by {
      forall k: Risk ensures k in out {
        EveryRiskIn(k, out);
      }
    }
    out
  }

  function NormalizeEntry(m: Option<map<Risk, RawPolicy>>, k: Risk): Policy
  {
    if m.Some? && k in m.value then NormalizePolicy(m.value[k]) else DefaultPolicy
  }

  /** `_normalize_rules` on one rule: fields already present win over the
      defaults, missing ones get the defaults, and the result is complete.
      `stamp` is the creation time written when `created_at` is missing. */
  function Normalize(raw: RawRule, stamp: string): (r: Rule)
    ensures Complete(r)
    ensures r.id == raw.id && r.name == raw.name
    ensures raw.ruleType.Some? ==> r.ruleType == raw.ruleType.value
    ensures raw.ruleType.None? ==> r.ruleType == DefaultRule
    ensures raw.region.Some? ==> r.region == raw.region.value
    ensures raw.region.None? ==> r.region == ""
    ensures raw.active.Some? ==> r.active == raw.active.value
    ensures raw.active.None? ==> r.active
    ensures raw.maxActiveCases.Some? ==> r.maxActiveCases == raw.maxActiveCases.value
    ensures raw.maxActiveCases.None? ==> r.maxActiveCases == 0
    ensures raw.reassignAfterHours.Some? ==> r.reassignAfterHours == raw.reassignAfterHours.value
    ensures raw.reassignAfterHours.None? ==> r.reassignAfterHours == 0
    ensures raw.rrScope.Some? ==> r.rrScope == raw.rrScope.value
    ensures raw.rrScope.None? ==> r.rrScope == AllDoctors
    ensures raw.createdAt.Some? ==> r.createdAt == raw.createdAt.value
    ensures raw.createdAt.None? ==> r.createdAt == stamp
    ensures forall k :: raw.mapping.Some? && k in raw.mapping.value ==>
              r.mapping[k] == NormalizePolicy(raw.mapping.value[k])
    ensures forall k :: raw.mapping.None? || k !in raw.mapping.value ==> r.mapping[k] == DefaultPolicy
  {
    Rule(
      raw.id,
      raw.name,
      raw.ruleType.GetOr(DefaultRule),
      raw.region.GetOr(""),
      raw.active.GetOr(true),
      NormalizeMapping(raw.mapping),
      raw.maxActiveCases.GetOr(0),
      raw.reassignAfterHours.GetOr(0),
      raw.rrScope.GetOr(AllDoctors),
      raw.createdAt.GetOr(stamp))
  }

  /** A complete rule written back as a dictionary with every key present. */
  function Embed(r: Rule): RawRule
  {
    RawRule(
      r.id, r.name, Some(r.ruleType), Some(r.region), Some(r.active),
      Some(map k | k in r.mapping :: RawPolicy(Some(r.mapping[k].mode), Some(r.mapping[k].doctor)))
      , Some(r.maxActiveCases), Some(r.reassignAfterHours), Some(r.rrScope), Some(r.createdAt))
  }

  /** A complete rule is left exactly as it is, whatever the clock says. */
  lemma NormalizeComplete(r: Rule, stamp: string)
    requires Complete(r)
    ensures Normalize(Embed(r), stamp) == r
  {
    var m := Normalize(Embed(r), stamp).mapping;
    assert m == r.mapping;
  }

  /** Normalising twice changes nothing. */
  lemma NormalizeIdempotent(raw: RawRule, stamp: string, later: string)
    ensures Normalize(Embed(Normalize(raw, stamp)), later) == Normalize(raw, stamp)
  {
    NormalizeComplete(Normalize(raw, stamp), later);
  }

  /** The whole list, and whether any stored rule had to be replaced. */
  datatype Normalized = Normalized(rules: seq<Rule>, changed: bool)

  /** A top-level key is missing (or the mapping is empty), so the merged
      dictionary differs from the stored one and replaces it. Entries of a
      non-empty mapping are completed in place on the dictionary the stored
      rule shares with the merged one, so they never make the two differ. */
  predicate MissingKey(raw: RawRule)
  {
    || raw.ruleType.None? || raw.region.None? || raw.active.None? || raw.mapping.None?
    || raw.maxActiveCases.None? || raw.reassignAfterHours.None? || raw.rrScope.None?
    || raw.createdAt.None?
    || (raw.mapping.Some? && |raw.mapping.value| == 0)
  }

  /** A rule with every key present keeps every top-level value; only the
      entries of its mapping are completed. */
  lemma NoMissingKeyKeepsValues(raw: RawRule, stamp: string)
    requires !MissingKey(raw)
    ensures var r := Normalize(raw, stamp);
            && r.ruleType == raw.ruleType.value && r.region == raw.region.value
            && r.active == raw.active.value && r.maxActiveCases == raw.maxActiveCases.value
            && r.reassignAfterHours == raw.reassignAfterHours.value
            && r.rrScope == raw.rrScope.value && r.createdAt == raw.createdAt.value
            && forall k :: k in raw.mapping.value ==> r.mapping[k] == NormalizePolicy(raw.mapping.value[k])
  {
  }

  /** `_normalize_rules`: each rule normalised in place; `changed` is true
      iff some stored rule lacked a top-level key. */
  function NormalizeRules(raws: seq<RawRule>, stamp: string): (res: Normalized)
    ensures |res.rules| == |raws|
    ensures forall i :: 0 <= i < |raws| ==> res.rules[i] == Normalize(raws[i], stamp)
    ensures res.changed <==> exists i :: 0 <= i < |raws| && MissingKey(raws[i])
  {
    Normalized(seq(|raws|, i requires 0 <= i < |raws| => Normalize(raws[i], stamp)),
               exists i | 0 <= i < |raws| :: MissingKey(raws[i]))
  }

  /** A second pass over already normalised rules reports no change and
      keeps every rule. */
  lemma NormalizeRulesStable(rules: seq<Rule>, stamp: string)
    requires forall i :: 0 <= i < |rules| ==> Complete(rules[i])
    ensures var raws := seq(|rules|, i requires 0 <= i < |rules| => Embed(rules[i]));
            NormalizeRules(raws, stamp) == Normalized(rules, false)
  {
    var raws := seq(|rules|, i requires 0 <= i < |rules| => Embed(rules[i]));
    forall i | 0 <= i < |rules|
      ensures Normalize(raws[i], stamp) == rules[i]
    {
      NormalizeComplete(rules[i], stamp);
    }
  }
}
