/** Page routing of the health-agent screens (modules/health_agent/app.py):
    the per-section sub-page slot kept in the session, and the page a
    dashboard button leads to. */
module Navigation {
  import opened Wrappers
  import opened Text

  // ---------------------------------------------------------------------
  // Sub-page slots: `_set_substate` and `_current_sub`
  // ---------------------------------------------------------------------

  /** `s.replace(a, b)` for single characters. */
  function ReplaceChar(s: string, a: char, b: char): (r: string)
    ensures |r| == |s|
    ensures forall i :: 0 <= i < |s| ==> r[i] == (if s[i] == a then b else s[i])
  {
    seq(|s|, i requires 0 <= i < |s| => if s[i] == a then b else s[i])
  }

  /** `f"{section.lower().replace(' ', '_')}_sub"` */
  function SubstateKey(section: string): (key: string)
    ensures |key| >= 4 && key[|key| - 4..] == "_sub"
  {
    ReplaceChar(Lower(section), ' ', '_') + "_sub"
  }

  /** The session entries the routing reads and writes; a stored `None`
      is kept apart from a missing key. */
  type Session = map<string, Option<string>>

  const SectionKey := "rmp_section"
  const PageKey := "rmp_page"

  /** No section's slot is one of the two routing entries. */
  lemma SubstateKeyNotReserved(section: string)
    ensures SubstateKey(section) != SectionKey && SubstateKey(section) != PageKey
  {
    var key := SubstateKey(section);
    assert key[|key| - 1] == 'b';
    assert SectionKey[|SectionKey| - 1] == 'n';
    assert PageKey[|PageKey| - 1] == 'e';
  }

  /** `_set_substate(section, sub)`: records the section (under both
      routing entries) and the section's sub-page; every other entry keeps
      its value. */
  function SetSubstate(session: Session, section: string, sub: Option<string>): (after: Session)
    ensures after.Keys == session.Keys + {SectionKey, PageKey, SubstateKey(section)}
    ensures after[SectionKey] == Some(section) && after[PageKey] == Some(section)
    ensures after[SubstateKey(section)] == sub
    ensures forall k :: k in session && k != SectionKey && k != PageKey && k != SubstateKey(section) ==> after[k] == session[k]
  {
    SubstateKeyNotReserved(section);
    session[SectionKey := Some(section)][PageKey := Some(section)][SubstateKey(section) := sub]
  }

  /** `_current_sub(section, default)`: the stored sub-page (possibly
      `None`), or the default when the section never stored one. */
  function CurrentSub(session: Session, section: string, default: string): Option<string>
  {
    var key := SubstateKey(section);
    if key in session then session[key] else Some(default)
  }

  /** Reading a section's sub-page gives back what was last stored for it. */
  lemma SubstateRoundTrip(session: Session, section: string, sub: Option<string>, default: string)
    ensures CurrentSub(SetSubstate(session, section, sub), section, default) == sub
  {
  }

  /** Storing one section's sub-page leaves every section with another
      slot as it was. */
  lemma SubstateIndependent(session: Session, a: string, b: string, sub: Option<string>, default: string)
    requires SubstateKey(a) != SubstateKey(b)
    ensures CurrentSub(SetSubstate(session, a, sub), b, default) == CurrentSub(session, b, default)
  {
    SubstateKeyNotReserved(b);
  }

  /** Sections that differ only in letter case, or in spaces against
      underscores, share one slot. */
  lemma SectionsShareSlot(section: string)
    ensures SubstateKey(Lower(section)) == SubstateKey(section)
    ensures SubstateKey(ReplaceChar(section, ' ', '_')) == SubstateKey(section)
  {
    LowerIdempotent(section);
    var u := ReplaceChar(section, ' ', '_');
    assert ReplaceChar(Lower(u), ' ', '_') == ReplaceChar(Lower(section), ' ', '_');
  }

  // ---------------------------------------------------------------------
  // Button targets: `ROUTE_ALIASES` and `_resolve_target`
  // ---------------------------------------------------------------------

  /** `ROUTE_ALIASES` */
  const RouteAliases: map<string, string> := map[
    "btn_patients_new" := "Patients_New",
    "btn_patients_search" := "Patients_Search",
    "btn_stock_orders" := "Stock_Order_List",
    "btn_stock_low" := "Stock_Low_Alert"
  ]

  /** `[p.capitalize() for p in parts]` */
  function CapitalizeAll(parts: seq<string>): (caps: seq<string>)
    ensures |caps| == |parts|
    ensures forall i :: 0 <= i < |parts| ==> caps[i] == Capitalize(parts[i])
  {
    seq(|parts|, i requires 0 <= i < |parts| => Capitalize(parts[i]))
  }

  /** `[p.lower() for p in parts]` */
  function LowerAll(parts: seq<string>): (lows: seq<string>)
    ensures |lows| == |parts|
    ensures forall i :: 0 <= i < |parts| ==> lows[i] == Lower(parts[i])
  {
    seq(|parts|, i requires 0 <= i < |parts| => Lower(parts[i]))
  }

  /** The best-effort page name: the suffix's "_"-separated parts,
      capitalised and joined with "_" again. */
  function DerivedRoute(suffix: string): string
  {
    JoinWith(CapitalizeAll(SplitOn(suffix, '_')), '_')
  }

  /** `_resolve_target(key, title, target)` */
  function ResolveTarget(key: string, title: string, target: Option<string>): (page: string)
    ensures Truthy(target) ==> page == target.value
    ensures !Truthy(target) && StartsWith(key, "btn_") && key in RouteAliases ==> page == RouteAliases[key]
    ensures !Truthy(target) && StartsWith(key, "btn_") && key !in RouteAliases ==> page == DerivedRoute(key[4..])
    ensures !Truthy(target) && !StartsWith(key, "btn_") ==> page == title
  {
    if Truthy(target) then target.value
    else if StartsWith(key, "btn_") then
      if key in RouteAliases then RouteAliases[key] else DerivedRoute(key[4..])
    else title
  }

  /** Case mapping never produces or removes an underscore. */
  lemma CapitalizeKeepsUnderscores(p: string)
    ensures '_' in Capitalize(p) <==> '_' in p
  {
    if |p| > 0 {
      var c := Capitalize(p);
      assert c == [UpperChar(p[0])] + Lower(p[1..]);
      forall i | 0 <= i < |p|
        ensures c[i] == '_' <==> p[i] == '_'
      {
        if i > 0 {
          assert c[i] == LowerChar(p[i]);
        }
      }
      if '_' in p {
        var i :| 0 <= i < |p| && p[i] == '_';
        assert c[i] == '_';
      }
    }
  }

  /** Lower-casing a joined text lower-cases each part. */
  lemma {:induction false} LowerJoin(parts: seq<string>)
    ensures Lower(JoinWith(parts, '_')) == JoinWith(LowerAll(parts), '_')
  {
    if |parts| > 1 {
      LowerJoin(parts[1..]);
      LowerConcat(parts[0] + ['_'], JoinWith(parts[1..], '_'));
      LowerConcat(parts[0], ['_']);
      assert LowerAll(parts)[1..] == LowerAll(parts[1..]);
    }
  }

  /** A derived page name splits back into as many parts as the suffix,
      each the capitalised part, and differs from the suffix only in
      letter case. */
  lemma DerivedRouteShape(suffix: string)
    ensures SplitOn(DerivedRoute(suffix), '_') == CapitalizeAll(SplitOn(suffix, '_'))
    ensures |SplitOn(DerivedRoute(suffix), '_')| == |SplitOn(suffix, '_')|
    ensures Lower(DerivedRoute(suffix)) == Lower(suffix)
  {
    var parts := SplitOn(suffix, '_');
    var caps := CapitalizeAll(parts);
    forall i | 0 <= i < |caps|
      ensures '_' !in caps[i]
    {
      CapitalizeKeepsUnderscores(parts[i]);
    }
    SplitJoinRoundTrip(caps, '_');
    LowerJoin(caps);
    LowerJoin(parts);
    forall i | 0 <= i < |parts|
      ensures LowerAll(caps)[i] == LowerAll(parts)[i]
    {
      LowerCapitalize(parts[i]);
    }
    assert LowerAll(caps) == LowerAll(parts);
  }
}
