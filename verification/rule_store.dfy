/** The rule store of the assignment-rules screen: the session's rule list
    and its id counter, with the create, edit, delete and duplicate actions
    (modules/patient/app.py:1038-1043, 1083-1100, 1108-1167). */
module RuleStore {
  import opened Wrappers
  import opened Domain
  import opened Rules

  /** The session's `assignment_rules` list and `_next_rule_id` counter;
      `nextId` is `None` when the counter key is missing. */
  datatype Store = Store(rules: seq<Rule>, nextId: Option<int>)

  /** A fresh session: no rules, counter at 1. */
  const Initial := Store([], Some(1))

  /** No two rules share an id. */
  predicate DistinctIds(rules: seq<Rule>)
  {
    forall i, j :: 0 <= i < j < |rules| ==> rules[i].id != rules[j].id
  }

  /** Ids are positive and distinct, and when the counter is present every
      stored id lies below it. Every action below keeps this. */
  predicate Valid(s: Store)
  {
    && (forall i :: 0 <= i < |s.rules| ==> s.rules[i].id > 0)
    && DistinctIds(s.rules)
    && (s.nextId.Some? ==> s.nextId.value > 0)
    && (s.nextId.Some? ==> forall i :: 0 <= i < |s.rules| ==> s.rules[i].id < s.nextId.value)
  }

  /** Appending a rule whose id is above every stored id, or replacing a
      rule by one with the same id, keeps the ids distinct. */
  lemma DistinctIdsKept(rules: seq<Rule>, x: Rule, k: nat)
    ensures DistinctIds(rules) && (forall i :: 0 <= i < |rules| ==> rules[i].id < x.id) ==> DistinctIds(rules + [x])
    ensures DistinctIds(rules) && k < |rules| && rules[k].id == x.id ==> DistinctIds(rules[k := x])
  {
  }

  lemma InitialValid()
    ensures Valid(Initial)
  {
  }

  /** `max((r.get("id", 0) for r in rules), default=0)` */
  function MaxId(rules: seq<Rule>): (m: int)
    ensures forall i :: 0 <= i < |rules| ==> rules[i].id <= m
    ensures |rules| == 0 ==> m == 0
    ensures |rules| > 0 ==> exists i :: 0 <= i < |rules| && rules[i].id == m
  {
    if |rules| == 0 then 0
    else if |rules| == 1 then rules[0].id
    else
      var m := MaxId(rules[1..]);
      assert forall i :: 1 <= i < |rules| ==> rules[i] == rules[1..][i - 1];
      if rules[0].id >= m then rules[0].id else m
  }

  /** An issued id and the store with its counter advanced. */
  datatype Issued = Issued(id: int, store: Store)

  /** `_next_rule_id`: hands out the stored counter and increments it; with
      the counter missing it starts one above the largest stored id. In a
      valid store the id is positive and above every stored id. */
  function NextRuleId(s: Store): (res: Issued)
    ensures res.store.rules == s.rules
    ensures res.store.nextId == Some(res.id + 1)
    ensures s.nextId.Some? ==> res.id == s.nextId.value
    ensures Valid(s) ==> res.id > 0 && forall i :: 0 <= i < |s.rules| ==> s.rules[i].id < res.id
    ensures Valid(s) ==> Valid(res.store)
  {
    var id := if s.nextId.Some? then s.nextId.value else MaxId(s.rules) + 1;
    Issued(id, Store(s.rules, Some(id + 1)))
  }

  /** Two ids handed out one after the other strictly increase. */
  lemma IssuedIdsIncrease(s: Store)
    ensures NextRuleId(s).id < NextRuleId(NextRuleId(s).store).id
  {
  }

  // ---------------------------------------------------------------------
  // Lookup
  // ---------------------------------------------------------------------

  /** Position of the first rule with this id, or `|rules|`. */
  function IndexOfId(rules: seq<Rule>, id: int): (k: nat)
    ensures k <= |rules|
    ensures k < |rules| ==> rules[k].id == id
    ensures forall j :: 0 <= j < k ==> rules[j].id != id
  {
    if |rules| == 0 then 0
    else if rules[0].id == id then 0
    else 1 + IndexOfId(rules[1..], id)
  }

  /** `next((rr for rr in rules if rr.get("id") == id), None)` */
  function FindRule(rules: seq<Rule>, id: int): (r: Option<Rule>)
    ensures r.None? <==> forall i :: 0 <= i < |rules| ==> rules[i].id != id
    ensures r.Some? ==> exists i :: 0 <= i < |rules| && rules[i] == r.value && r.value.id == id
                                   && forall j :: 0 <= j < i ==> rules[j].id != id
  {
    var k := IndexOfId(rules, id);
    if k < |rules| then Some(rules[k]) else None
  }

  // ---------------------------------------------------------------------
  // Delete
  // ---------------------------------------------------------------------

  /** `[rr for rr in rules if rr.get("id") != id]` */
  function WithoutId(rules: seq<Rule>, id: int): (out: seq<Rule>)
    ensures |out| <= |rules|
    ensures forall r :: r in out <==> r in rules && r.id != id
  {
    if |rules| == 0 then []
    else if rules[0].id == id then WithoutId(rules[1..], id)
    else [rules[0]] + WithoutId(rules[1..], id)
  }

  lemma WithoutIdCons(x: Rule, rest: seq<Rule>, id: int)
    ensures WithoutId([x] + rest, id) == (if x.id == id then [] else [x]) + WithoutId(rest, id)
  {
    var s := [x] + rest;
    assert s[0] == x && s[1..] == rest;
  }

  /** Deleting works rule by rule: the survivors keep their relative order. */
  lemma {:induction false} WithoutIdConcat(a: seq<Rule>, b: seq<Rule>, id: int)
    ensures WithoutId(a + b, id) == WithoutId(a, id) + WithoutId(b, id)
  {
    if |a| == 0 {
      assert a + b == b;
    } else {
      var x := a[0];
      var pre := if x.id == id then [] else [x];
      var tail, rest := WithoutId(a[1..], id), WithoutId(b, id);
      calc {
        WithoutId(a + b, id);
        { assert a + b == [x] + (a[1..] + b); WithoutIdCons(x, a[1..] + b, id); }
        pre + WithoutId(a[1..] + b, id);
        { WithoutIdConcat(a[1..], b, id); }
        pre + (tail + rest);
        { AppendAssoc(pre, tail, rest); }
        (pre + tail) + rest;
        { assert a == [x] + a[1..]; WithoutIdCons(x, a[1..], id); }
        WithoutId(a, id) + rest;
      }
    }
  }

  lemma AppendAssoc<T>(p: seq<T>, q: seq<T>, r: seq<T>)
    ensures p + (q + r) == (p + q) + r
  {
  }

  /** Deleting an id no rule carries changes nothing. */
  lemma {:induction false} WithoutAbsentId(rules: seq<Rule>, id: int)
    requires forall i :: 0 <= i < |rules| ==> rules[i].id != id
    ensures WithoutId(rules, id) == rules
  {
    if |rules| > 0 {
      WithoutAbsentId(rules[1..], id);
      assert [rules[0]] + rules[1..] == rules;
    }
  }

  /** Deleting keeps the survivors' ids distinct. */
  lemma {:induction false} WithoutIdDistinct(rules: seq<Rule>, id: int)
    ensures DistinctIds(rules) ==> DistinctIds(WithoutId(rules, id))
  {
    if DistinctIds(rules) && |rules| > 0 {
      var rest := rules[1..];
      assert DistinctIds(rest) by {
        forall i, j | 0 <= i < j < |rest| ensures rest[i].id != rest[j].id {
          assert rest[i] == rules[i + 1] && rest[j] == rules[j + 1];
        }
      }
      WithoutIdDistinct(rest, id);
      if rules[0].id != id {
        var tail := WithoutId(rest, id);
        forall j | 0 <= j < |tail| ensures tail[j].id != rules[0].id {
          assert tail[j] in rest;
          var i :| 0 <= i < |rest| && rest[i] == tail[j];
          assert rules[i + 1] == tail[j];
        }
      }
    }
  }

  /** "Delete selected rule": a selection of 0 is Python-falsy and does
      nothing; otherwise every rule with that id goes, the counter stays. */
  function DeleteRule(s: Store, sel: int): (t: Store)
    ensures t.nextId == s.nextId
    ensures sel == 0 ==> t == s
    ensures sel != 0 ==> forall r :: r in t.rules <==> r in s.rules && r.id != sel
    ensures Valid(s) ==> Valid(t)
  {
    if sel == 0 then s
    else
      WithoutIdDistinct(s.rules, sel);
      Store(WithoutId(s.rules, sel), s.nextId)
  }

  /** Deleting a stored id removes that rule from the list. */
  lemma DeleteRemovesSelected(s: Store, sel: int)
    requires sel != 0 && FindRule(s.rules, sel).Some?
    ensures FindRule(s.rules, sel).value !in DeleteRule(s, sel).rules
    ensures DeleteRule(s, sel).rules != s.rules
  {
  }

  // ---------------------------------------------------------------------
  // Delete as the screen wires it
  // ---------------------------------------------------------------------

  /** What the user does before the screen's script runs again. */
  datatype UiEvent = ClickDelete | TickConfirm | OtherEvent

  /** The store and the "Confirm delete" checkbox after one script run:
      whether the box was drawn in that run, and its value. */
  datatype DeleteScreen = DeleteScreen(store: Store, confirmDrawn: bool, confirm: bool)

  /** One script run after `e`, with the checkbox drawn only inside the
      branch of the "Delete selected rule" button. A button reads true only
      in the run its click causes; a box drawn in the previous run keeps its
      value (flipped by a tick), one drawn afresh starts unticked, and one
      not drawn loses its value. The rules go only when the button and the
      box read true in the same run. */
  function DeleteRunAsWritten(u: DeleteScreen, sel: int, e: UiEvent): (v: DeleteScreen)
    ensures v.confirmDrawn <==> e == ClickDelete
    ensures v.store != u.store ==> e == ClickDelete && u.confirmDrawn && u.confirm
  {
    var button := e == ClickDelete;
    var boxValue := u.confirmDrawn && (if e == TickConfirm then !u.confirm else u.confirm);
    if !button then DeleteScreen(u.store, false, false)
    else if boxValue then DeleteScreen(DeleteRule(u.store, sel), true, true)
    else DeleteScreen(u.store, true, false)
  }

  /** The runs the events cause, one after the other. */
  function DeleteRunsAsWritten(u: DeleteScreen, sel: int, events: seq<UiEvent>): DeleteScreen
    decreases |events|
  {
    if |events| == 0 then u
    else DeleteRunsAsWritten(DeleteRunAsWritten(u, sel, events[0]), sel, events[1..])
  }

  /** As wired, the delete never happens: ticking the box causes a run in
      which the button reads false, so the box is never ticked in a run
      where the button reads true. From an unticked box, no sequence of
      clicks and ticks changes the store, although `DeleteRule` would
      remove a selected stored rule. */
  lemma {:induction false} DeleteNeverRuns(u: DeleteScreen, sel: int, events: seq<UiEvent>)
    requires !u.confirm
    ensures DeleteRunsAsWritten(u, sel, events).store == u.store
    ensures sel != 0 && FindRule(u.store.rules, sel).Some? ==>
              DeleteRunsAsWritten(u, sel, events).store.rules != DeleteRule(u.store, sel).rules
    decreases |events|
  {
    if |events| > 0 {
      var v := DeleteRunAsWritten(u, sel, events[0]);
      assert v.store == u.store && !v.confirm;
      DeleteNeverRuns(v, sel, events[1..]);
    }
    if sel != 0 && FindRule(u.store.rules, sel).Some? {
      DeleteRemovesSelected(u.store, sel);
    }
  }

  // ---------------------------------------------------------------------
  // Duplicate
  // ---------------------------------------------------------------------

  /** The copy appended by "Duplicate selected rule". */
  function CopyOf(r: Rule, id: int): Rule
  {
    r.(id := id, name := r.name + " (copy)")
  }

  /** "Duplicate selected rule": appends a copy of the first rule with that
      id, under a freshly issued id and with " (copy)" after its name.
      Nothing happens for a falsy selection or an unknown id. */
  function Duplicate(s: Store, sel: int): (t: Store)
    ensures sel == 0 || FindRule(s.rules, sel).None? ==> t == s
    ensures sel != 0 && FindRule(s.rules, sel).Some? ==>
              && |t.rules| == |s.rules| + 1
              && t.rules[..|s.rules|] == s.rules
              && t.rules[|s.rules|] == CopyOf(FindRule(s.rules, sel).value, t.rules[|s.rules|].id)
              && (Valid(s) ==> forall i :: 0 <= i < |s.rules| ==> s.rules[i].id < t.rules[|s.rules|].id)
    ensures Valid(s) ==> Valid(t)
  {
    if sel == 0 then s
    else match FindRule(s.rules, sel)
      case None => s
      case Some(orig) =>
        var issued := NextRuleId(s);
        DistinctIdsKept(s.rules, CopyOf(orig, issued.id), 0);
        Store(s.rules + [CopyOf(orig, issued.id)], issued.store.nextId)
  }

  /** Deleting the copy a duplication just made gives the original list back. */
  lemma DuplicateThenDelete(s: Store, sel: int)
    requires Valid(s) && sel != 0 && FindRule(s.rules, sel).Some?
    ensures var t := Duplicate(s, sel);
            DeleteRule(t, t.rules[|s.rules|].id).rules == s.rules
  {
    var t := Duplicate(s, sel);
    var copy := t.rules[|s.rules|];
    assert t.rules == s.rules + [copy];
    WithoutIdConcat(s.rules, [copy], copy.id);
    WithoutAbsentId(s.rules, copy.id);
    assert WithoutId([copy], copy.id) == [];
  }

  // ---------------------------------------------------------------------
  // Create / edit
  // ---------------------------------------------------------------------

  /** The mode picked for one tier and, for "Fixed doctor", the doctor
      picked (`None` for "(none)"). */
  datatype TierChoice = TierChoice(mode: Mode, doctor: Option<string>)

  /** The values of the rule form when "Save rule" is pressed. */
  datatype RuleForm = RuleForm(
    name: string,
    ruleType: RuleType,
    region: string,
    active: bool,
    red: TierChoice,
    amber: TierChoice,
    green: TierChoice,
    maxActiveCases: int,
    reassignAfterHours: int,
    rrScope: RrScope)

  /** The stored policy for a tier: the doctor is kept only in Fixed mode. */
  function TierPolicy(c: TierChoice): Policy
  {
    Policy(c.mode, if c.mode == FixedDoctor then c.doctor else None)
  }

  /** `rule_obj`: the rule the form describes, stamped `now`; an empty name
      becomes "Rule <now>". */
  function FormRule(id: int, f: RuleForm, now: string): (r: Rule)
    ensures Complete(r) && r.id == id
    ensures f.name != "" ==> r.name == f.name
    ensures f.name == "" ==> r.name == "Rule " + now
    ensures forall k :: r.mapping[k].mode != FixedDoctor ==> r.mapping[k].doctor == None
    ensures r.mapping[Red].mode == f.red.mode && r.mapping[Amber].mode == f.amber.mode
            && r.mapping[Green].mode == f.green.mode
  {
    var mapping := map[Red := TierPolicy(f.red), Amber := TierPolicy(f.amber), Green := TierPolicy(f.green)];
    assert forall k: Risk :: k in mapping by {
      forall k: Risk ensures k in mapping {
        EveryRiskIn(k, mapping);
      }
    }
    Rule(id, if f.name == "" then "Rule " + now else f.name, f.ruleType, f.region, f.active,
         mapping, f.maxActiveCases, f.reassignAfterHours, f.rrScope, now)
  }

  /** Saving an edit: the first rule with that id is replaced in place by
      the form's rule; the counter stays. */
  function EditRule(s: Store, id: int, f: RuleForm, now: string): (t: Store)
    ensures t.nextId == s.nextId
    ensures |t.rules| == |s.rules|
    ensures var k := IndexOfId(s.rules, id);
            forall i :: 0 <= i < |s.rules| ==> t.rules[i] == (if i == k then FormRule(id, f, now) else s.rules[i])
    ensures Valid(s) ==> Valid(t)
  {
    var k := IndexOfId(s.rules, id);
    var edited := FormRule(id, f, now);
    DistinctIdsKept(s.rules, edited, k);
    if k < |s.rules| then Store(s.rules[k := edited], s.nextId) else s
  }

  /** Saving a new rule: it goes at the end under a freshly issued id. */
  function AddRule(s: Store, f: RuleForm, now: string): (t: Store)
    ensures |t.rules| == |s.rules| + 1
    ensures t.rules[..|s.rules|] == s.rules
    ensures t.rules[|s.rules|] == FormRule(t.rules[|s.rules|].id, f, now)
    ensures Valid(s) ==> forall i :: 0 <= i < |s.rules| ==> s.rules[i].id < t.rules[|s.rules|].id
    ensures Valid(s) ==> Valid(t)
  {
    var issued := NextRuleId(s);
    var created := FormRule(issued.id, f, now);
    DistinctIdsKept(s.rules, created, 0);
    Store(s.rules + [created], issued.store.nextId)
  }

  /** "Save rule". Editing (a truthy selected id) replaces the first rule
      with that id in place and leaves the counter alone; otherwise the new
      rule gets a freshly issued id and goes at the end. */
  function SaveRule(s: Store, choice: Option<int>, f: RuleForm, now: string): (t: Store)
    ensures choice.Some? && choice.value != 0 ==>
              && t.nextId == s.nextId
              && |t.rules| == |s.rules|
              && var k := IndexOfId(s.rules, choice.value);
                 forall i :: 0 <= i < |s.rules| ==>
                   t.rules[i] == (if i == k then FormRule(choice.value, f, now) else s.rules[i])
    ensures !(choice.Some? && choice.value != 0) ==>
              && |t.rules| == |s.rules| + 1
              && t.rules[..|s.rules|] == s.rules
              && t.rules[|s.rules|] == FormRule(t.rules[|s.rules|].id, f, now)
              && (Valid(s) ==> forall i :: 0 <= i < |s.rules| ==> s.rules[i].id < t.rules[|s.rules|].id)
    ensures Valid(s) ==> Valid(t)
  {
    if choice.Some? && choice.value != 0 then EditRule(s, choice.value, f, now)
    else AddRule(s, f, now)
  }

  /** A newly created rule is the one found under its id afterwards. */
  lemma SaveNewThenFind(s: Store, f: RuleForm, now: string)
    requires Valid(s)
    ensures var t := SaveRule(s, None, f, now);
            var id := t.rules[|s.rules|].id;
            FindRule(t.rules, id) == Some(t.rules[|s.rules|])
  {
    var t := SaveRule(s, None, f, now);
    var id := t.rules[|s.rules|].id;
    assert forall j :: 0 <= j < |s.rules| ==> t.rules[j].id != id by {
      assert forall j :: 0 <= j < |s.rules| ==> t.rules[j] == s.rules[j];
    }
  }
}
