# Case assignment and field-worker helpers, modelled in Dafny

This project models the core of a rural-clinic application. It has two
parts.

**The doctor assignment rules (`modules/patient/app.py`).** An
administrator keeps a list of assignment rules. Each rule has:

- a type, Default or Region (with a region text);
- an active flag;
- for each triage tier (Red, Amber, Green) a policy: Workload balance,
  Fixed doctor, or Round-robin;
- a cap on active cases per doctor;
- an escalation age in hours.

The rule list is normalised on every screen load: missing fields get their
defaults. Ids come from a session counter. Rules can be created, edited,
deleted and duplicated.

Running a rule goes through these stages:

1. It picks the matching cases from the case queue.
2. It chooses a target doctor for each case:
   - the first senior doctor, when escalation is due;
   - otherwise the policy's pick from the candidate pool (the region's
     doctors, or the whole roster);
   - when the pick gives nothing, the first senior, else the first doctor.
3. In Apply mode, it writes each target into the queue and keeps the
   per-doctor counts up to date. In Simulate mode, it only records the
   changes, but the round-robin counter still advances.

Around the engine sit the case screens:

- the drill-down filter (`_match_row`) and the allocation filter
  (`matches_filters`);
- per-doctor workload figures (`compute_doctor_stats`);
- the two bulk actions, "Reassign all" and "Assign to selected";
- the id given to a new patient profile.

**The health-agent helpers (`modules/health_agent/app.py`).**

- The three risk classifiers: the vitals table's `compute_risk`, the
  health profile's `_risk_label` and the list badge
  `_risk_badge_for_patient`.
- The sub-page navigation: `_set_substate`, `_current_sub`,
  `_resolve_target` and `ROUTE_ALIASES`.
- Reading a positive whole number out of an edited cell
  (`_coerce_pos_int`).
- The medication dosing-time hint (`frequency_to_timings`).
- Stock upkeep: `_upsert_stock`, `_save_stock_requests`, the order list,
  the low-stock table and the colour of a stock alert.
- The split of ticked rows into "send to doctor" and "already sent".

## How the model is organised

Screen state is modelled as immutable values; every operation is a pure
function from the old state to the new one.

- The clock is a parameter `now`, in whole seconds.
- The database is a parameter: a flag saying whether a connection exists,
  plus the table contents as maps.
- Text is `seq<char>`, with ASCII case mapping and Python's whitespace
  set.
- A Python value that can be absent or empty is an `Option`. `Truthy` means
  "present and non-empty", which is how the source tests names.

| file | module | models |
|---|---|---|
| wrappers.dfy | Wrappers | `Option`, Python truthiness of optional text |
| text.dfy | Text | `lower`, `strip`, `in` on text, `split`/`join`, whitespace tokens |
| decimal.dfy | Decimal | digit text, `str(int)`, `int(...)`, `int(float(s))` on decimal text |
| domain.dfy | Domain | tiers, the doctor roster, the case queue, senior doctors |
| rules.dfy | Rules | the rule record and `_normalize_rules` |
| rule_store.dfy | RuleStore | `_next_rule_id`, delete, duplicate, create/edit form |
| matcher.dfy | Matcher | `_matches_rule`, `_doctor_names_in_region`, candidate pool, `_active_counts` |
| workload.dfy | Workload | the stable sort by load and the capped scan of Workload balance |
| assigner.dfy | Assigner | `pick_doctor_for_case`, including the Fixed-doctor fallback and round-robin |
| engine.dfy | Engine | `needs_escalation` and the "Run rule now" loop in both modes |
| case_views.dfy | CaseViews | the filters, doctor statistics, bulk actions, new profile id |
| triage.dfy | Triage | `compute_risk`, `_risk_label`, `_risk_badge_for_patient` |
| navigation.dfy | Navigation | sub-page session keys, `_resolve_target` |
| vitals_table.dfy | VitalsTable | `_coerce_pos_int`, the send-to-doctor split |
| medication.dfy | Medication | `frequency_to_timings` |
| stock.dfy | Stock | stock upsert, stock requests, order list, low-stock table, alert colour |

## Model

| member | source | states |
|---|---|---|
| Rules.Normalize | modules/patient/app.py:1000-1034 | Normalisation yields a complete rule. It keeps every field the stored rule has. A missing field gets its default: type Default, region empty, active, cap 0, no escalation, scope "All doctors", created now. A missing tier, or a tier entry missing mode or doctor, gets Workload balance with no doctor. |
| Rules.NormalizePolicy | modules/patient/app.py:1025-1028 | A tier entry keeps its mode and doctor when present. Otherwise it gets Workload balance and no doctor. |
| Rules.NormalizeMapping | modules/patient/app.py:1021-1029 | The normalised mapping has an entry for all three tiers: a stored tier is normalised, a missing one gets the default policy. |
| Rules.NormalizeComplete | modules/patient/app.py:1031-1033 | A rule with every field present comes out of normalisation unchanged. |
| Rules.NormalizeIdempotent | modules/patient/app.py:1000-1034 | Normalising a normalised rule again, even at a later time, changes nothing. |
| Rules.NoMissingKeyKeepsValues | modules/patient/app.py:1031-1033 | A rule with no missing field keeps every one of its values. |
| Rules.NormalizeRules | modules/patient/app.py:1000-1034 | Every stored rule is replaced by its normalised form. The "changed" result is true exactly when some rule lacked a field or had an empty mapping, the cases where the merged dictionary differs from the stored one. |
| Rules.NormalizeRulesStable | modules/patient/app.py:1031-1033 | A list of complete rules is left as it is, so normalising on every load converges. |
| RuleStore.InitialValid | modules/patient/app.py:993-995 | The first-load store, an empty rule list with the counter at 1, is consistent: ids positive and distinct, counter above all ids. |
| RuleStore.MaxId | modules/patient/app.py:1040 | The largest stored id bounds every id and is one of them; it is 0 for no rules. |
| RuleStore.NextRuleId | modules/patient/app.py:1038-1043 | An issued id is the counter's value, and the counter moves one past it. On first use it starts one above the largest stored id. In a consistent store the id is positive and above every stored id, and the store stays consistent. |
| RuleStore.IssuedIdsIncrease | modules/patient/app.py:1038-1043 | Two successive issued ids strictly increase, so ids are never reused. |
| RuleStore.IndexOfId | modules/patient/app.py:1159-1162 | The position found for an id is the first rule carrying it, or the list length when none does. |
| RuleStore.FindRule | modules/patient/app.py:1087-1088 | The lookup finds nothing exactly when no rule has the id. Otherwise it returns a stored rule with that id. |
| RuleStore.WithoutId | modules/patient/app.py:1091 | The filtered list holds exactly the rules whose id differs from the given one. |
| RuleStore.WithoutIdConcat | modules/patient/app.py:1091 | Filtering distributes over concatenation. |
| RuleStore.WithoutAbsentId | modules/patient/app.py:1091 | Filtering by an id no rule carries keeps the list as it is. |
| RuleStore.WithoutIdDistinct | modules/patient/app.py:1091 | Filtering keeps the surviving rules' ids distinct. |
| RuleStore.DeleteRemovesSelected | modules/patient/app.py:1091 | Deleting a stored id removes the rule with that id, so the list changes. |
| RuleStore.DeleteRule | modules/patient/app.py:1086-1093 | With no rule selected nothing changes. Otherwise the rules kept are exactly those with another id. The counter is untouched and consistency is kept. |
| RuleStore.Duplicate | modules/patient/app.py:1094-1100 | A duplicate is appended as a copy of the selected rule: a fresh id above every stored id, and " (copy)" after the name. The other rules stay as they were. Selecting nothing, or an unknown id, changes nothing. |
| RuleStore.DuplicateThenDelete | modules/patient/app.py:1089-1100 | Deleting the copy a duplication just made restores the original rule list. |
| RuleStore.DeleteRunAsWritten | modules/patient/app.py:1089-1093 | One run of the screen as wired: the "Confirm delete" box is drawn exactly in a run caused by a click on the delete button. The rules change only in such a run when the box was already drawn and ticked. |
| RuleStore.DeleteNeverRuns | modules/patient/app.py:1089-1093 | From an unticked box, no sequence of clicks and ticks ever changes the store, although deleting the selected stored rule would change it. |
| RuleStore.FormRule | modules/patient/app.py:1119-1157 | A rule built from the form is complete and carries the given id. Its name is the form's, or "Rule " plus the time when the field is blank. The form's tier modes are kept. A doctor is kept only for a Fixed doctor tier. |
| RuleStore.DistinctIdsKept | modules/patient/app.py:1158-1165 | Appending a rule whose id is above every stored id, or replacing a rule by one with the same id, keeps ids distinct. |
| RuleStore.EditRule | modules/patient/app.py:1158-1162 | Saving an edit replaces exactly the first rule with the edited id and keeps the counter and consistency. |
| RuleStore.AddRule | modules/patient/app.py:1163-1165 | Saving a new rule appends it with a freshly issued id above all stored ids and keeps consistency. |
| RuleStore.SaveRule | modules/patient/app.py:1146-1167 | Saving an edit replaces exactly the first rule with the edited id and keeps the counter. Saving a new rule appends it with a fresh id above all stored ids. Both keep the store consistent. |
| RuleStore.SaveNewThenFind | modules/patient/app.py:1146-1167 | A newly saved rule is what a lookup of its id finds. |
| Domain.Names | modules/patient/app.py:1051 | The roster's names, one per doctor, in roster order. |
| Domain.Seniors | modules/patient/app.py:1255 | The senior doctors' names in roster order. The list is non-empty exactly when a senior exists, and its head is the first senior on the roster. |
| Matcher.Matches | modules/patient/app.py:1187-1193 | A case matches exactly when the rule is active and, for a Region rule with a region text, the stripped, lower-cased region occurs in the stripped, lower-cased village. |
| Matcher.BlankRegionMatchesAll | modules/patient/app.py:1190-1193 | An active rule whose region is blank matches every case. |
| Matcher.MatchIgnoresVillageCase | modules/patient/app.py:1191 | Matching does not depend on the case of the village name. |
| Matcher.StripLowerCommute | modules/patient/app.py:1191 | Lower-casing and stripping commute, so the order the source applies them in does not matter. |
| Matcher.MatchedPositions | modules/patient/app.py:1195 | The matched positions are exactly the queue positions whose case matches the rule, in increasing queue order. |
| Matcher.SelectMembers | modules/patient/app.py:1049-1051 | A filtered list holds exactly the elements whose keep flag is set. |
| Matcher.NamesInRegionMembers | modules/patient/app.py:1049-1050 | A name is in the region list exactly when some doctor of that name has the region, compared stripped and lower-cased. |
| Matcher.SelectInOrder | modules/patient/app.py:1049-1051 | A filtered list holds the flagged elements in their original order, once per flagged position: its j-th element is the element at the j-th flagged position. |
| Matcher.NamesInRegionInOrder | modules/patient/app.py:1049-1051 | The region list holds the names of the region's doctors, one per doctor, in roster order. |
| Matcher.DoctorNamesInRegion | modules/patient/app.py:1046-1051 | With no region, or a blank one, the list is the whole roster. Otherwise it is the region list: exactly the doctors whose region equals the given one after stripping and lower-casing, in roster order. |
| Matcher.CandidatePool | modules/patient/app.py:1210-1215 | The pool is empty only when the roster is empty, and holds only roster names. For a Region rule whose region has doctors, it holds exactly those. Otherwise it is the whole roster. |
| Matcher.CandidatePoolInOrder | modules/patient/app.py:1210-1215 | When the region filter applies, the pool is the region list, so it keeps roster order and holds one name per doctor of the region. |
| Matcher.FilteredPoolFacts | modules/patient/app.py:1210-1215 | The region-filtered list is non-empty exactly when the region filter applies. When it is empty the source falls back to the whole roster. |
| Matcher.CountAssignedUpdate | modules/patient/app.py:1276-1277 | Replacing one row changes a doctor's tally only by that row's old and new owner. |
| Matcher.ActiveCounts | modules/patient/app.py:1054-1058 | The counts have one entry per roster name, and each entry is the number of queued cases assigned to that doctor. |
| Workload.FirstLeastUnique | modules/patient/app.py:1217 | At most one position is the first least-loaded one. |
| Workload.FirstLeastIndex | modules/patient/app.py:1217 | A non-empty pool has a first least-loaded doctor. |
| Workload.InsertByLoadSorted | modules/patient/app.py:1217 | Inserting into a list sorted by load keeps it sorted. |
| Workload.SortByLoadSorted | modules/patient/app.py:1217 | Sorting by load gives a permutation of the pool ordered by load. |
| Workload.SortByLoadHead | modules/patient/app.py:1217 | The sort is stable: its head is the earliest doctor in pool order among the least loaded. |
| Workload.ScanFindsHeadOrNothing | modules/patient/app.py:1218-1223 | When every doctor is at or over the cap, the capped scan finds no one. |
| Workload.WorkloadChoice | modules/patient/app.py:1216-1224 | Workload balance gives nothing only for an empty pool. Otherwise it gives the first least-loaded doctor in pool order. |
| Workload.WorkloadChoiceIsFirstLeast | modules/patient/app.py:1216-1224 | The scan over the sorted pool either finds nobody under the cap or finds the head. The head is the first least-loaded doctor. |
| Workload.CapNeverChangesChoice | modules/patient/app.py:1218-1224 | The cap never changes whom Workload balance picks, because the fallback after an exhausted scan is the same head. |
| Assigner.WorkloadFallback | modules/patient/app.py:1228-1231 | The fallback rule keeps type, region and cap, and sets the case's tier to Workload balance. |
| Assigner.PickDoctor | modules/patient/app.py:1204-1241 | A pick is always a member of the candidate pool. There is no pick exactly when the roster is empty or the tier's mode is unrecognised. Only a round-robin pick on a non-empty roster touches the counters. |
| Assigner.PickWorkload | modules/patient/app.py:1216-1224 | Under Workload balance the pick is the pool's first least-loaded doctor. |
| Assigner.PickFixed | modules/patient/app.py:1225-1231 | The fixed doctor is picked exactly when it is set, in the pool, and under the cap. Otherwise the pick is Workload balance's. |
| Assigner.FixedOverCapIsWorkload | modules/patient/app.py:1227-1231 | An ineligible fixed doctor gives the same pick as the rule with that tier switched to Workload balance. |
| Assigner.PickRoundRobin | modules/patient/app.py:1232-1240 | Round-robin picks the pool entry at the rule's counter modulo the pool size, and stores the counter plus one modulo the pool size. |
| Assigner.RoundRobinIgnoresLoad | modules/patient/app.py:1232-1240 | Round-robin depends neither on the active-case counts nor on the cap. |
| Assigner.PickSeries | modules/patient/app.py:1258-1263 | Picking a run of cases in turn gives one pick per case. |
| Assigner.RoundRobinSeries | modules/patient/app.py:1236-1239 | The reference rotation gives one entry per case, starting at the counter. |
| Assigner.RoundRobinSeriesRotates | modules/patient/app.py:1236-1239 | The reference rotation's t-th entry is the pool entry at counter plus t, modulo the pool size. |
| Assigner.PickSeriesIsRoundRobin | modules/patient/app.py:1232-1240 | For cases whose tiers all use Round-robin, the picks made in turn equal the reference rotation. |
| Assigner.RoundRobinRotates | modules/patient/app.py:1232-1240 | Successive round-robin picks walk the pool cyclically from the stored counter. |
| Assigner.RoundRobinVisitsEveryone | modules/patient/app.py:1232-1240 | Over as many round-robin cases as the pool has doctors, every pool doctor is picked at least once. |
| Engine.EscalationConditions | modules/patient/app.py:1243-1253 | Escalation is never due for an unassigned case, a case without a report time, or a rule without an escalation age. Once due it stays due as time passes. It is due exactly when the elapsed time exceeds the age in whole hours, with an exact multiple of an hour not yet counting as "more than". |
| Engine.FirstSeniorOnRoster | modules/patient/app.py:1255-1260 | The first senior doctor is a roster name. |
| Engine.ChooseTarget | modules/patient/app.py:1257-1268 | A target exists exactly when the roster is non-empty, and it is always a roster name. A due escalation with a senior on the roster takes the first senior and touches no counter. Otherwise the counters are the pick's. |
| Engine.ChooseTargetFacts | modules/patient/app.py:1257-1268 | Choosing a target changes no other rule's round-robin counter. A usable pick is taken unless an escalation to a senior applies; a due escalation with no senior on the roster falls through to the pick. |
| Engine.ChooseTargetFallback | modules/patient/app.py:1262-1268 | When no escalation to a senior applies and the pick gives nothing usable, the target is the first senior, else the first doctor, else none. |
| Engine.ChooseTargetCounter | modules/patient/app.py:1232-1240 | For a round-robin case with no escalation to a senior, choosing the target advances the rule's counter by one round the pool. |
| Engine.FirstRowOf | modules/patient/app.py:1272-1279 | The row written is the first queue row with the case's id. |
| Engine.Commit | modules/patient/app.py:1269-1280 | Recording a target keeps the queue's cases and stores the target's counters. Simulate changes neither the queue nor the counts. Without a target, nothing is recorded. With a target, one summary line records case id, previous doctor and target. |
| Engine.CommitApplyWrites | modules/patient/app.py:1271-1277 | In Apply mode the target goes into the first row with the case's id, and every other row stays as it was. The summary records that row's previous doctor. |
| Engine.CommitApplyCounts | modules/patient/app.py:1276 | In Apply mode the target's count goes up by one unless the row already had that doctor. No other count changes. |
| Engine.CommitKeepsCover | modules/patient/app.py:1269-1280 | Recording a target keeps every count at or above the true number of cases that doctor owns. |
| Engine.Step | modules/patient/app.py:1257-1280 | One loop step adds at most one summary line. It adds exactly one when the roster is non-empty with non-empty names, and none when the roster is empty. It touches only this rule's round-robin counter. Simulate leaves queue and counts alone. |
| Engine.StepFollowsChoice | modules/patient/app.py:1257-1280 | A step commits exactly the target the choice gives for the case, with the queue, counts and counters as they are before the step. A summary line is added exactly when that target is usable, and it names that target. The counters after the step are the choice's. |
| Engine.StepApplies | modules/patient/app.py:1271-1278 | In Apply mode a step writes the chosen target into the first row with the case's id and no other row. It raises that doctor's count unless the row was already theirs, and no other count moves. Without a usable target, queue and counts stay as they were. |
| Engine.StepAdvancesCounter | modules/patient/app.py:1232-1240 | For a round-robin case that is not escalated to a senior, a step advances, in Simulate mode as in Apply mode, the rule's counter by one round the pool. |
| Engine.InitialCover | modules/patient/app.py:1054-1058 | The counts the run starts from cover the queue. |
| Engine.CommitProgress | modules/patient/app.py:1269-1280 | Each step extends the summary in match order, with case ids, roster targets and, in Simulate mode, the doctors as queued. |
| Engine.ApplyCommitOnUnique | modules/patient/app.py:1269-1277 | With distinct case ids, an Apply step writes exactly the case's own row. Rows not yet reached and unmatched rows stay as they were. |
| Engine.RunFromKeepsInvariant | modules/patient/app.py:1258-1280 | From any point where the run invariant holds, the rest of the run ends with it holding. |
| Engine.RunLoop | modules/patient/app.py:1258-1280 | The loop's result is the fold of one step per matched position, in order, from the queue, its tallies and the stored counters. |
| Engine.RunRule | modules/patient/app.py:1195-1280 | The run's result is the fold of one step per matched case, in queue order, starting from the queue, its tallies and the stored counters. So each case's target and counters are the choice made on the state the earlier cases left. A run processes exactly the matched cases in queue order and keeps the queue's cases. It yields at most one summary line per match, none for an empty roster, and one per match when the roster's names are non-empty; every target is a roster name. Simulate leaves the queue unchanged and records each case's queued doctor. Apply with distinct ids writes each matched row's target, leaves unmatched rows alone, and keeps counts covering the queue. |
| CaseViews.ContainsTrans | modules/patient/app.py:562-564 | Text inside a hit is itself a hit, which is what makes a longer search narrower. |
| CaseViews.ResetDrillKeepsAll | modules/patient/app.py:551-556 | After "Reset filters" the drill-down keeps every row. |
| CaseViews.DrillByDoctor | modules/patient/app.py:571-573 | Choosing a named doctor keeps exactly that doctor's rows. |
| CaseViews.DrillUnassigned | modules/patient/app.py:571-573 | `_match_row` reads an unassigned row's doctor as "(none)". A doctor filter value of "(none)" therefore keeps every unassigned row and drops every row whose doctor has another name. |
| CaseViews.NarrowerSearch | modules/patient/app.py:561-564 | A row kept under a search is kept under any search text contained in it. |
| CaseViews.DrillViewMembers | modules/patient/app.py:579 | The drill-down shows exactly the queue rows the filter keeps. |
| CaseViews.ResetDrillShowsQueue | modules/patient/app.py:579 | With the reset form values, the `filtered` list holds the whole queue in queue order. This is the list before its newest-first sort. |
| CaseViews.MatchesFiltersConjunction | modules/patient/app.py:1386-1404 | The allocation filter keeps a row exactly when search, tier, village and the age/gender choice each keep it. |
| CaseViews.DrillAgreesWithAllocation | modules/patient/app.py:1386-1404 | With doctor and status at "(any)" and age/gender at "Any", the two screens' filters agree on every row. |
| CaseViews.LexLessTransitive | modules/patient/app.py:354 | The name order used for sorting doctors is transitive. |
| CaseViews.LexLessTotal | modules/patient/app.py:354 | The name order is total on distinct names. |
| CaseViews.InsertName | modules/patient/app.py:354 | Adding a name to a strictly sorted list keeps it strictly sorted, holding the old names plus the new one. |
| CaseViews.NamesOnRows | modules/patient/app.py:354 | The doctor names on the queue form a strictly sorted list of exactly the non-empty assigned names. |
| CaseViews.MonitorDoctors | modules/patient/app.py:354-358 | The monitor's doctor list is the sorted set of doctors named on the queue. When no row names one, it is the sample list "Dr. A", "Dr. B", "Dr. C". |
| CaseViews.OwnedRowsOn | modules/patient/app.py:364-366 | A doctor's rows for a day are exactly the queued rows assigned to them and reported that day: the selection of the rows so flagged, in queue order. |
| CaseViews.OwnedRowsInOrder | modules/patient/app.py:364-366 | The day's list holds one entry per flagged row, in queue order: its j-th entry is the row at the j-th flagged position, so its length is the number of such rows. |
| CaseViews.TiersPartition | modules/patient/app.py:368-370 | The Red, Amber and Green counts add up to the number of rows. |
| CaseViews.LoadPercent | modules/patient/app.py:378-379 | The load percentage is at most 100, reaching it exactly at ten cases. Up to ten cases it is ten per case. |
| CaseViews.StatsFor | modules/patient/app.py:361-391 | A doctor's daily figures list exactly their rows of that day, in queue order. The active count is their number, and the red, amber and green counts are how many of them carry each tier. These add up to the active count, which never exceeds the doctor's total. The load percentage follows the ten-case capacity. |
| CaseViews.DoctorStatsTable | modules/patient/app.py:361-391 | The table has one entry per doctor, in order, and each entry is that doctor's daily figures. |
| CaseViews.OneDayCountsEverything | modules/patient/app.py:364-366 | When every row of a doctor was reported on the chosen day, that doctor's active count is their total count. |
| CaseViews.MoveAll | modules/patient/app.py:707-712 | Moving every row of one doctor to another rewrites exactly those rows and reports how many there were. |
| CaseViews.MoveAllCounts | modules/patient/app.py:707-711 | After moving, the first doctor owns nothing and the second owns both shares. Every other doctor keeps their count. |
| CaseViews.ReassignAll | modules/patient/app.py:703-713 | The "(none)" target only warns. Any other target is written into every row of the selected doctor, every other row is left as it was, and the reported count is what that doctor owned. |
| CaseViews.AssignToSelected | modules/patient/app.py:1457-1467 | With nothing ticked it only warns. Otherwise every ticked row gets the chosen doctor ("(none)" clears it) and every other row is unchanged. All ticks are cleared, keeping the same keys. |
| CaseViews.AssignTwiceWarns | modules/patient/app.py:1457-1467 | Because the ticks are cleared, pressing the button again only warns. |
| CaseViews.ClearedRowsShowAsUnassigned | modules/patient/app.py:1462-1463 | Rows cleared with "(none)" hold no doctor, so `_match_row` keeps them under a "(none)" doctor filter value. |
| CaseViews.MaxPresent | modules/patient/app.py:129-135 | The running maximum bounds every readable number and is one of them, or 0 when none is readable. |
| CaseViews.MaxProfileNumber | modules/patient/app.py:129-135 | The largest number read from the existing ids bounds every readable id number and is one of them, or 0. |
| CaseViews.ProfileNumberOfFormatted | modules/patient/app.py:132-137 | Reading back the number of a formatted id "P-n" gives n. |
| CaseViews.NewProfileIdFresh | modules/patient/app.py:129-137 | The new profile id "P-(max+101)" is not among the existing ids. |
| Triage.Convert | modules/health_agent/app.py:1268-1274 | A cell that is not a number wipes all four readings. Otherwise each reading is its cell's value or absent. |
| Triage.ComputeRisk | modules/health_agent/app.py:1267-1284 | A row with any unreadable cell is Green. |
| Triage.ClassifyIsWorst | modules/health_agent/app.py:1276-1284 | The tier is the worst of the four per-reading tiers: over the upper bound is Red, within the band is Amber. |
| Triage.ReadingTierMonotone | modules/health_agent/app.py:1276-1284 | A higher reading never gives a lower per-reading tier. |
| Triage.ClassifyMonotone | modules/health_agent/app.py:1276-1284 | Readings that are all at least as high never get a lower tier. |
| Triage.AbsentOrZeroNeutral | modules/health_agent/app.py:1277 | A zero reading counts as an absent one. |
| Triage.RiskLabelAgreesWithComputeRisk | modules/health_agent/app.py:2626-2648 | The health profile's label equals the vitals table's tier of the same latest vitals, with the latest FBS result or zero. |
| Triage.BadgeTier | modules/health_agent/app.py:2823-2848 | The badge follows the FBS result whenever one is at least 110, Red above 140 and Amber otherwise. Only without such a result does it follow the vitals. |
| Triage.BadgeAgreesWithoutSugar | modules/health_agent/app.py:2834-2839 | Without an FBS result of 110 or more, the badge agrees with the vitals table's tier of the same vitals. |
| Triage.BadgeDowngradesRed | modules/health_agent/app.py:2841-2846 | A systolic 170 with an FBS of 120 gets an Amber badge, where the vitals table says Red. |
| Triage.WorstBadgeTier | modules/health_agent/app.py:2834-2846 | The corrected badge tier is never below the vitals tier. |
| Triage.WorstBadgeTierAgrees | modules/health_agent/app.py:2834-2846 | The corrected badge tier is the vitals table's tier of the same vitals and FBS result. |
| Triage.BadgeIdentifiesTier | modules/health_agent/app.py:2848 | Distinct tiers get distinct badges. |
| Triage.RiskBadge | modules/health_agent/app.py:2823-2848 | The patient list's badge, with the corrected tier, is one of the three circle texts. It is the badge of the tier the vitals table gives the same latest vitals and FBS result. |
| Navigation.ReplaceChar | modules/health_agent/app.py:165 | Replacing spaces changes only the spaces, position by position. |
| Navigation.SubstateKey | modules/health_agent/app.py:165 | The per-section key always ends in "_sub". |
| Navigation.SubstateKeyNotReserved | modules/health_agent/app.py:162-166 | A section's sub-state key never collides with the section or page key. |
| Navigation.SetSubstate | modules/health_agent/app.py:157-166 | Setting a sub-state stores the section as both section and page, and the sub-state under the section's key. Every other session key is untouched. |
| Navigation.SubstateRoundTrip | modules/health_agent/app.py:157-171 | Reading a section's sub-state right after setting it gives back what was set. |
| Navigation.SubstateIndependent | modules/health_agent/app.py:157-171 | Setting one section's sub-state leaves another section's unchanged. |
| Navigation.SectionsShareSlot | modules/health_agent/app.py:165 | Sections differing only in case, or in spaces versus underscores, share one sub-state slot. |
| Navigation.ResolveTarget | modules/health_agent/app.py:245-256 | An explicit target wins. A "btn_" key uses its alias when it has one, and otherwise derives the page from the key's suffix. Any other key falls back to the title. |
| Navigation.DerivedRouteShape | modules/health_agent/app.py:253-255 | A derived page has the suffix's parts, each capitalised, and equals the suffix ignoring case. |
| Navigation.CapitalizeAll | modules/health_agent/app.py:254 | Each part is capitalised in place. |
| Text.SplitJoinRoundTrip | modules/health_agent/app.py:254-255 | Splitting a join of separator-free parts on the separator gives the parts back. |
| Text.Tokens | modules/health_agent/app.py:2483 | The whitespace tokens of a message are non-empty and hold no whitespace. |
| Text.TokensCoverText | modules/health_agent/app.py:2483 | The tokens, put together, are the message with its whitespace removed. |
| Text.StripPadded | modules/health_agent/app.py:2937 | `strip()` removes the whitespace around a text and nothing else: stripping pad + x + pad gives x when x starts and ends with a non-space. |
| Decimal.ParseIntRoundTrip | modules/health_agent/app.py:2941 | Reading back the text of a whole number gives the number. |
| Decimal.TruncateDropsFraction | modules/health_agent/app.py:2941 | `int(float(s))` of a decimal text truncates toward zero to its whole part. |
| VitalsTable.PositiveFromText | modules/health_agent/app.py:2937-2944 | The result is the truncation toward zero of the stripped text when that reads as a number above zero, and nothing otherwise. Refusing blank text and "nan" changes no answer. |
| VitalsTable.NanIsNotDecimal | modules/health_agent/app.py:2938-2941 | Text reading "nan" in any case is never decimal text, so the early "nan" refusal only spares the error `int(nan)` would raise. |
| VitalsTable.CoercePosInt | modules/health_agent/app.py:2926-2944 | None and NaN give nothing, and any result is above zero. Text gives the truncation of its stripped form when that is above zero, and nothing otherwise. |
| VitalsTable.CoercePaddedText | modules/health_agent/app.py:2937-2942 | Whitespace around the digits and a leading plus sign are accepted: padded "+n" or "n" gives n for every n above zero. |
| VitalsTable.CoerceWhole | modules/health_agent/app.py:2926-2944 | A whole number comes through unchanged when above zero, and is refused otherwise. |
| VitalsTable.CoerceDecimalText | modules/health_agent/app.py:2937-2944 | Decimal text is truncated toward zero: "12.9" gives 12, "0.5" and negatives give nothing. |
| VitalsTable.EligibleIds | modules/health_agent/app.py:1605-1609 | The eligible ids are exactly those of the ticked rows not marked as sent. |
| VitalsTable.AlreadySentIds | modules/health_agent/app.py:1610-1612 | The already-sent ids are exactly those of the ticked rows marked as sent. |
| VitalsTable.SplitCoversTicked | modules/health_agent/app.py:1605-1612 | Every ticked row lands in exactly one of the two lists. |
| VitalsTable.SendDisabled | modules/health_agent/app.py:1617 | "Send to doctor" is disabled exactly when every ticked row is already sent, including when nothing is ticked. |
| Medication.TimingsFor | modules/health_agent/app.py:2150-2159 | The hint is always one of the five timing texts. |
| Medication.FrequencyToTimings | modules/health_agent/app.py:2146-2159 | A missing or empty frequency gives the placeholder. Any other gives a timing text, never the placeholder. |
| Medication.ThriceFirst | modules/health_agent/app.py:2150-2151 | "thrice" wins over every other key word. |
| Medication.DailyBeforeFour | modules/health_agent/app.py:2154-2157 | "daily" is tried before "four". |
| Medication.BlankFrequencyIsCustom | modules/health_agent/app.py:2146-2159 | An all-whitespace frequency is not empty, so it gets the custom hint rather than the placeholder. |
| Stock.Clamp | modules/health_agent/app.py:657 | The clamped quantity is never negative and keeps a non-negative value as it is. |
| Stock.UpsertStock | modules/health_agent/app.py:650-664 | Without a connection nothing changes and the result is false. With one, the item's quantity becomes its stored quantity (0 if empty or new) plus the change, floored at zero. Every other item is untouched. |
| Stock.UpsertKeepsNonNegative | modules/health_agent/app.py:650-664 | Upserts keep every stored quantity non-negative. |
| Stock.UpsertAdditionsCompose | modules/health_agent/app.py:650-664 | Two additions equal one addition of their sum. |
| Stock.UpsertRemovalStopsAtZero | modules/health_agent/app.py:657 | Removing more than is in stock leaves zero. |
| Stock.RequestRows | modules/health_agent/app.py:2318 | The rows written are exactly the requests with a quantity of zero or more, each stamped with the user and the time. |
| Stock.SaveStockRequests | modules/health_agent/app.py:2313-2327 | Saving succeeds exactly when connected and some request has a quantity of zero or more. On success it writes exactly those rows; on failure it writes nothing. |
| Stock.OrderList | modules/health_agent/app.py:2402-2409 | The order list holds exactly the items whose quantity cell reads above zero, with that quantity. |
| Stock.SubmitDisabled | modules/health_agent/app.py:2411 | Submitting is disabled exactly when no quantity reads above zero. |
| Stock.OrderListAllSaved | modules/health_agent/app.py:2402-2413 | Every line of the order list is saved, since all its quantities are positive. |
| Stock.LowStockTable | modules/health_agent/app.py:2331-2382 | One line per item, in order. Offline, every line is zero and not low. Online, the total is current plus approved stock, and it is low exactly when the total is at most the threshold. |
| Stock.PendingNeverFlags | modules/health_agent/app.py:2375-2376 | Pending requests never change whether an item is flagged low. |
| Stock.ThresholdMonotone | modules/health_agent/app.py:2376 | An item low under one threshold is low under any higher threshold. |
| Stock.FirstNumber | modules/health_agent/app.py:2481-2485 | The quantity is the value of the first all-digit token, and there is none exactly when no token is all digits. |
| Stock.StyleForMonotone | modules/health_agent/app.py:2488-2495 | A smaller quantity never gets a less urgent colour. |
| Stock.AlertStyleOf | modules/health_agent/app.py:2488-2495 | "Out of stock" always gives the error colour. The success colour is given exactly when the message is not out of stock and has no quantity or one above 5. |
| Stock.FewerIsMoreUrgent | modules/health_agent/app.py:2488-2495 | Of two messages with quantities, the smaller quantity's colour is at least as urgent. |

## Left out

- The Streamlit screens, SQL statements, CSV downloads and reruns are not modelled. Table contents and the connection are parameters.
- The clock: `datetime.now()` is a parameter `now` in whole seconds. Time stamps are text parameters.
- The sample data loaders (`load_sample_data`, the fallback queues and rosters) are fixtures and not modelled.
- The unused code between `modules/patient/app.py:727` and `:962` is not modelled.
- Floating point is not modelled. Readings and report times are whole numbers, the average response time of `compute_doctor_stats` is not modelled, and `load_pct` is the integer the rounding gives for whole case counts.
- Case mapping and whitespace are ASCII and Python's Latin-1 whitespace set. Unicode case folding is not modelled.
- `_coerce_pos_int` accepts plain decimal text only. Exponents, underscores, "inf" and float values other than NaN are not modelled.
- The round-robin counter key is the rule id as an integer, not `str(id)`. The mapping is one-to-one, so nothing is lost.
- The rule's `rr_scope` field is stored and normalised but read by nothing, matching the source.
- Engine.RunRule: the statement that each matched row gets its own target is made only for a queue whose case ids are distinct. With duplicate ids the source writes every duplicate's target into the first row with that id; the model does the same (`Engine.FirstRowOf`), but no end-to-end property is stated for that case.
- Engine.CommitKeepsCover: the counts are proved to cover the true tallies rather than equal them. The source never lowers the previous doctor's count on a reassignment, so equality does not hold.
- The page texts with emoji are kept exactly as the source file holds them: the UTF-8 bytes read back as Mac Roman (the badge circles and the medication placeholder).
- `_save_stock_requests` keeps zero quantities, as the source does. Only the order list screen drops them.
- `RuleStore.DeleteRule` is the delete the screen evidently intends. The screen as wired is `RuleStore.DeleteRunAsWritten` (see Findings). That model assumes two things about the framework: a button reads true only in the run its click causes, and a widget not drawn in a run loses its value.
- CaseViews.DrillView: the newest-first re-sort of the drill-down list (`modules/patient/app.py:581`) is not modelled. The view is the `filtered` list before that sort.
- CaseViews.DrillUnassigned: the drill-down's doctor selector offers only "(any)" and the roster names. The "(none)" value that `_match_row` compares against is modelled as a filter value, but the screen never offers it.
- Decimal.ParseInt: accepts only whitespace, an optional sign and ASCII digits. Python's `int()` also accepts underscores between digits and non-ASCII digits; the model refuses those, so a profile id written that way would not be read. The profile ids the screen writes never contain them.
- `compute_risk`'s `float()` of arbitrary text is reduced to a number, a missing value, or unreadable text.

## Findings

| source | as written | input that shows it | evidently intended | confidence | as-written member | corrected member |
|---|---|---|---|---|---|---|
| modules/patient/app.py:1089-1093 | The "Confirm delete" checkbox is drawn only inside the branch of the "Delete selected rule" button. Ticking it reruns the script, and in that run the button reads false, so the delete line is never reached. | Select a rule, click "Delete selected rule", tick "Confirm delete", click the button again: the rule stays. | Clicking the button with the box ticked deletes every rule with the selected id. | medium, not executed | RuleStore.DeleteNeverRuns | RuleStore.DeleteRule |
| modules/health_agent/app.py:2841-2846 | The FBS result overwrites the tier from the vitals, so a moderate FBS replaces a Red from the vitals with Amber. | Latest vitals systolic 170, latest FBS 120: the badge is Amber, while the vitals table and the health profile's label say Red. | The badge is the worse of the vitals tier and the FBS tier, as the other two screens decide it. | medium, not executed | Triage.BadgeDowngradesRed | Triage.RiskBadge |
