/** The two feeds the assignment engine consumes: the doctor roster and the
    case queue. Times are whole seconds on one clock. */
module Domain {
  import opened Wrappers

  /** The triage tier attached to every case. */
  datatype Risk = Red | Amber | Green

  /** A map with an entry for each of the three tiers has one for every tier. */
  lemma EveryRiskIn<V>(k: Risk, m: map<Risk, V>)
    requires Red in m && Amber in m && Green in m
    ensures k in m
  {
  }

  /** A roster entry; an empty `region` means "any region". */
  datatype Doctor = Doctor(name: string, region: string, isSenior: bool)

  /** A row of the case queue. `assignedDoctor` is the owning doctor's name;
      `status` is only read by the drill-down filter. */
  datatype Case = Case(
    id: string,
    name: string,
    age: int,
    gender: string,
    risk: Risk,
    village: string,
    reportedAt: Option<int>,
    assignedDoctor: Option<string>,
    status: Option<string>)

  /** `[d["name"] for d in doctors]` */
  function Names(roster: seq<Doctor>): (ns: seq<string>)
    ensures |ns| == |roster|
    ensures forall i :: 0 <= i < |roster| ==> ns[i] == roster[i].name
  {
    if |roster| == 0 then [] else [roster[0].name] + Names(roster[1..])
  }

  /** `[d["name"] for d in doctors if d.get("is_senior")]`: the senior
      doctors' names in roster order. The first of them is the name of the
      first senior on the roster. */
  function Seniors(roster: seq<Doctor>): (s: seq<string>)
    ensures |s| <= |roster|
    ensures forall x :: x in s ==> exists i :: 0 <= i < |roster| && roster[i].isSenior && roster[i].name == x
    ensures |s| > 0 <==> exists i :: 0 <= i < |roster| && roster[i].isSenior
    ensures |s| > 0 ==> exists i :: 0 <= i < |roster| && roster[i].isSenior && roster[i].name == s[0]
                                     && forall j :: 0 <= j < i ==> !roster[j].isSenior
  {
    if |roster| == 0 then []
    else
      var rest := Seniors(roster[1..]);
      assert forall i :: 0 <= i < |roster| - 1 ==> roster[1..][i] == roster[i + 1];
      if roster[0].isSenior then [roster[0].name] + rest else rest
  }

  /** Every name in the list is some roster doctor's name. */
  predicate AllOnRoster(names: seq<string>, roster: seq<Doctor>)
  {
    forall k :: 0 <= k < |names| ==> names[k] in Names(roster)
  }
}
