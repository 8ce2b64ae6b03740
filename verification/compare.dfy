/** The comparison phase (`ConfigPatch._compare` and `_compare_section`): one
    `Change` for each target parameter whose value differs from the base one,
    the non-cluster sections first, then the first cluster section once the
    mock sections are gone. */
module Comparison {
  import opened Wrappers
  import opened UpdatePolicies
  import opened ConfigModel
  import opened Adaptation

  /** The `Change` named tuple. */
  datatype Change = Change(
    sectionKey: string,
    sectionLabel: string,
    paramKey: string,
    oldValue: Value,
    newValue: Value,
    policy: UpdatePolicy)

  /** `base_section.get_param(param.key).value if base_section else None`; a
      base section without the parameter also gives `None`. */
  function BaseValue(bc: Config, base: Option<Section>, paramKey: string): Value {
    match base
    case None => NoValue
    case Some(s) =>
      match FindParam(s.params, paramKey)
      case Some(p) => EffectiveValue(bc, p)
      case None => NoValue
  }

  /** The change recorded for target parameter `p` of section (`key`, `lbl`). */
  function ChangeFor(bc: Config, tc: Config, key: string, lbl: string, base: Option<Section>, p: Param): Change {
    Change(key, lbl, p.key, BaseValue(bc, base, p.key), EffectiveValue(tc, p), p.policy)
  }

  /** `base_value != target_value`. */
  predicate Differs(bc: Config, tc: Config, base: Option<Section>, p: Param) {
    !SameValue(BaseValue(bc, base, p.key), EffectiveValue(tc, p))
  }

  /** The loop of `_compare_section` over the target parameters `ps`. */
  function CompareParams(bc: Config, tc: Config, key: string, lbl: string, base: Option<Section>, ps: seq<Param>): (r: seq<Change>)
    ensures forall j :: 0 <= j < |r| ==> ChangeOfSome(bc, tc, key, lbl, base, ps, r[j])
    ensures forall j :: 0 <= j < |r| ==>
      r[j].sectionKey == key && r[j].sectionLabel == lbl && !SameValue(r[j].oldValue, r[j].newValue)
    decreases |ps|
  {
    if ps == [] then []
    else
      var rest := CompareParams(bc, tc, key, lbl, base, ps[1..]);
      var head := if Differs(bc, tc, base, ps[0]) then [ChangeFor(bc, tc, key, lbl, base, ps[0])] else [];
      CompareParamsCons(bc, tc, key, lbl, base, ps, head, rest);
      head + rest
  }

  /** `c` is the change `_compare_section` reports for some differing parameter of `ps`. */
  predicate ChangeOfSome(bc: Config, tc: Config, key: string, lbl: string, base: Option<Section>, ps: seq<Param>, c: Change) {
    exists i :: 0 <= i < |ps| && Differs(bc, tc, base, ps[i]) && c == ChangeFor(bc, tc, key, lbl, base, ps[i])
  }

  /** Prepending the change of `ps[0]`, when it differs, to changes coming from `ps[1..]` yields changes coming from `ps`. */
  lemma CompareParamsCons(bc: Config, tc: Config, key: string, lbl: string, base: Option<Section>, ps: seq<Param>,
                          head: seq<Change>, rest: seq<Change>)
    requires ps != []
    requires head == if Differs(bc, tc, base, ps[0]) then [ChangeFor(bc, tc, key, lbl, base, ps[0])] else []
    requires forall j :: 0 <= j < |rest| ==> ChangeOfSome(bc, tc, key, lbl, base, ps[1..], rest[j])
    ensures forall j :: 0 <= j < |head + rest| ==> ChangeOfSome(bc, tc, key, lbl, base, ps, (head + rest)[j])
  {
    var r := head + rest;
    forall j | 0 <= j < |r| ensures ChangeOfSome(bc, tc, key, lbl, base, ps, r[j]) {
      if j < |head| {
        ChangeOfHead(bc, tc, key, lbl, base, ps);
      } else {
        ChangeOfTail(bc, tc, key, lbl, base, ps, rest[j - |head|]);
      }
    }
  }

  lemma ChangeOfHead(bc: Config, tc: Config, key: string, lbl: string, base: Option<Section>, ps: seq<Param>)
    requires ps != [] && Differs(bc, tc, base, ps[0])
    ensures ChangeOfSome(bc, tc, key, lbl, base, ps, ChangeFor(bc, tc, key, lbl, base, ps[0]))
  {
  }

  lemma ChangeOfTail(bc: Config, tc: Config, key: string, lbl: string, base: Option<Section>, ps: seq<Param>, c: Change)
    requires ps != [] && ChangeOfSome(bc, tc, key, lbl, base, ps[1..], c)
    ensures ChangeOfSome(bc, tc, key, lbl, base, ps, c)
  {
    var i :| 0 <= i < |ps[1..]| && Differs(bc, tc, base, ps[1..][i]) && c == ChangeFor(bc, tc, key, lbl, base, ps[1..][i]);
    assert ps[1..][i] == ps[i + 1];
  }

  /** `_compare_section(base_section, target_section)`. */
  function CompareSection(bc: Config, tc: Config, key: string, base: Option<Section>, t: Section): seq<Change> {
    CompareParams(bc, tc, key, t.sectionLabel, base, t.params)
  }

  /** How many changes concern parameter `paramKey`. */
  function CountKey(cs: seq<Change>, paramKey: string): nat {
    if cs == [] then 0 else (if cs[0].paramKey == paramKey then 1 else 0) + CountKey(cs[1..], paramKey)
  }

  lemma {:induction false} CountKeyAbsent(cs: seq<Change>, paramKey: string)
    requires forall j :: 0 <= j < |cs| ==> cs[j].paramKey != paramKey
    ensures CountKey(cs, paramKey) == 0
    decreases |cs|
  {
    if cs != [] {
      CountKeyAbsent(cs[1..], paramKey);
    }
  }

  /** `_compare_section` emits one change for each target parameter whose value
      differs from the base value and none for the others; each change carries
      the target section's key and label, the base value as old value (`None`
      without a base section), the target value as new value, and the
      parameter's own policy. */
  lemma {:induction false} CompareSectionExactlyOnce(bc: Config, tc: Config, key: string, base: Option<Section>, t: Section)
    requires DistinctParamKeys(t.params)
    ensures var r := CompareSection(bc, tc, key, base, t);
      forall i :: 0 <= i < |t.params| ==>
        CountKey(r, t.params[i].key) == (if Differs(bc, tc, base, t.params[i]) then 1 else 0)
    ensures var r := CompareSection(bc, tc, key, base, t);
      forall j :: 0 <= j < |r| ==>
        exists i :: 0 <= i < |t.params| && Differs(bc, tc, base, t.params[i]) &&
          r[j] == Change(key, t.sectionLabel, t.params[i].key, BaseValue(bc, base, t.params[i].key),
                         EffectiveValue(tc, t.params[i]), t.params[i].policy)
    ensures base.None? ==> forall j :: 0 <= j < |CompareSection(bc, tc, key, base, t)| ==>
      CompareSection(bc, tc, key, base, t)[j].oldValue == NoValue
  {
    CompareParamsExactlyOnce(bc, tc, key, t.sectionLabel, base, t.params);
  }

  lemma {:induction false} CompareParamsExactlyOnce(bc: Config, tc: Config, key: string, lbl: string, base: Option<Section>, ps: seq<Param>)
    requires DistinctParamKeys(ps)
    ensures var r := CompareParams(bc, tc, key, lbl, base, ps);
      forall i :: 0 <= i < |ps| ==> CountKey(r, ps[i].key) == (if Differs(bc, tc, base, ps[i]) then 1 else 0)
    decreases |ps|
  {
    if ps != [] {
      var rest := CompareParams(bc, tc, key, lbl, base, ps[1..]);
      var head := if Differs(bc, tc, base, ps[0]) then [ChangeFor(bc, tc, key, lbl, base, ps[0])] else [];
      var r := CompareParams(bc, tc, key, lbl, base, ps);
      assert r == head + rest;
      assert DistinctParamKeys(ps[1..]);
      CompareParamsExactlyOnce(bc, tc, key, lbl, base, ps[1..]);
      RestAvoidsHeadKey(bc, tc, key, lbl, base, ps);
      CountKeyAbsent(rest, ps[0].key);
      forall i | 0 <= i < |ps| ensures CountKey(r, ps[i].key) == (if Differs(bc, tc, base, ps[i]) then 1 else 0) {
        CountKeyCons(head, rest, ps[i].key);
        if i > 0 {
          assert ps[1..][i - 1] == ps[i];
        }
      }
    }
  }

  /** With distinct parameter keys, no change of the tail concerns the head's key. */
  lemma RestAvoidsHeadKey(bc: Config, tc: Config, key: string, lbl: string, base: Option<Section>, ps: seq<Param>)
    requires DistinctParamKeys(ps) && ps != []
    ensures var rest := CompareParams(bc, tc, key, lbl, base, ps[1..]);
      forall j :: 0 <= j < |rest| ==> rest[j].paramKey != ps[0].key
  {
    var rest := CompareParams(bc, tc, key, lbl, base, ps[1..]);
    forall j | 0 <= j < |rest| ensures rest[j].paramKey != ps[0].key {
      var i' :| 0 <= i' < |ps[1..]| && rest[j] == ChangeFor(bc, tc, key, lbl, base, ps[1..][i']);
      assert ps[1..][i'] == ps[i' + 1];
    }
  }

  lemma CountKeyCons(head: seq<Change>, rest: seq<Change>, paramKey: string)
    requires |head| <= 1
    ensures CountKey(head + rest, paramKey) ==
      (if head != [] && head[0].paramKey == paramKey then 1 else 0) + CountKey(rest, paramKey)
  {
    if head != [] {
      assert (head + rest)[1..] == rest;
    } else {
      assert head + rest == rest;
    }
  }

  /** The inner loop of `_compare` over the sections of one key: each target
      section is compared with the base section of the same key and label. */
  function CompareSections(bc: Config, tc: Config, key: string, ts: seq<Section>): (r: seq<Change>)
    ensures forall j :: 0 <= j < |r| ==> r[j].sectionKey == key && !SameValue(r[j].oldValue, r[j].newValue)
    decreases |ts|
  {
    if ts == [] then []
    else
      CompareSection(bc, tc, key, Lookup(GroupOf(bc, key), ts[0].sectionLabel), ts[0]) +
      CompareSections(bc, tc, key, ts[1..])
  }

  /** The outer loop of `_compare`: every key but `cluster`. */
  function CompareGroups(bc: Config, tc: Config, gs: seq<Group>): (r: seq<Change>)
    ensures forall j :: 0 <= j < |r| ==> r[j].sectionKey != "cluster" && !SameValue(r[j].oldValue, r[j].newValue)
    decreases |gs|
  {
    if gs == [] then []
    else if gs[0].key == "cluster" then CompareGroups(bc, tc, gs[1..])
    else CompareSections(bc, tc, gs[0].key, gs[0].sections) + CompareGroups(bc, tc, gs[1..])
  }

  /** "All sections are compared one by one": a differing parameter of the
      target parameters `ps` produces its change. */
  lemma {:induction false} CompareParamsComplete(bc: Config, tc: Config, key: string, lbl: string, base: Option<Section>,
                                                 ps: seq<Param>, k: int)
    requires 0 <= k < |ps| && Differs(bc, tc, base, ps[k])
    ensures ChangeFor(bc, tc, key, lbl, base, ps[k]) in CompareParams(bc, tc, key, lbl, base, ps)
    decreases |ps|
  {
    var rest := CompareParams(bc, tc, key, lbl, base, ps[1..]);
    var head := if Differs(bc, tc, base, ps[0]) then [ChangeFor(bc, tc, key, lbl, base, ps[0])] else [];
    assert CompareParams(bc, tc, key, lbl, base, ps) == head + rest;
    if k == 0 {
      assert head[0] == ChangeFor(bc, tc, key, lbl, base, ps[0]);
    } else {
      assert ps[1..][k - 1] == ps[k];
      CompareParamsComplete(bc, tc, key, lbl, base, ps[1..], k - 1);
    }
  }

  /** A differing parameter of target section `ts[i]` produces its change, compared
      with the base section of the same key and label. */
  lemma {:induction false} CompareSectionsComplete(bc: Config, tc: Config, key: string, ts: seq<Section>, i: int, k: int)
    requires 0 <= i < |ts| && 0 <= k < |ts[i].params|
    requires Differs(bc, tc, Lookup(GroupOf(bc, key), ts[i].sectionLabel), ts[i].params[k])
    ensures ChangeFor(bc, tc, key, ts[i].sectionLabel, Lookup(GroupOf(bc, key), ts[i].sectionLabel), ts[i].params[k])
      in CompareSections(bc, tc, key, ts)
    decreases |ts|
  {
    var here := CompareSection(bc, tc, key, Lookup(GroupOf(bc, key), ts[0].sectionLabel), ts[0]);
    var rest := CompareSections(bc, tc, key, ts[1..]);
    assert CompareSections(bc, tc, key, ts) == here + rest;
    if i == 0 {
      CompareParamsComplete(bc, tc, key, ts[0].sectionLabel, Lookup(GroupOf(bc, key), ts[0].sectionLabel), ts[0].params, k);
    } else {
      assert ts[1..][i - 1] == ts[i];
      CompareSectionsComplete(bc, tc, key, ts[1..], i - 1, k);
    }
  }

  /** A differing parameter of a section of a non-cluster group `gs[g]` produces its change. */
  lemma {:induction false} CompareGroupsComplete(bc: Config, tc: Config, gs: seq<Group>, g: int, i: int, k: int)
    requires 0 <= g < |gs| && gs[g].key != "cluster"
    requires 0 <= i < |gs[g].sections| && 0 <= k < |gs[g].sections[i].params|
    requires var t := gs[g].sections[i];
      Differs(bc, tc, Lookup(GroupOf(bc, gs[g].key), t.sectionLabel), t.params[k])
    ensures var t := gs[g].sections[i];
      ChangeFor(bc, tc, gs[g].key, t.sectionLabel, Lookup(GroupOf(bc, gs[g].key), t.sectionLabel), t.params[k])
        in CompareGroups(bc, tc, gs)
    decreases |gs|
  {
    var rest := CompareGroups(bc, tc, gs[1..]);
    if g == 0 {
      assert CompareGroups(bc, tc, gs) == CompareSections(bc, tc, gs[0].key, gs[0].sections) + rest;
      CompareSectionsComplete(bc, tc, gs[0].key, gs[0].sections, i, k);
    } else {
      assert gs[1..][g - 1] == gs[g];
      CompareGroupsComplete(bc, tc, gs[1..], g - 1, i, k);
      if gs[0].key != "cluster" {
        assert CompareGroups(bc, tc, gs) == CompareSections(bc, tc, gs[0].key, gs[0].sections) + rest;
      }
    }
  }

  /** The target has a cluster section that is not a mock. */
  predicate HasCluster(tc: Config) {
    exists i :: 0 <= i < |GroupOf(tc, "cluster")| && !GroupOf(tc, "cluster")[i].mock
  }

  lemma HasClusterNonMock(tc: Config)
    ensures HasCluster(tc) <==> NonMock(GroupOf(tc, "cluster")) != []
  {
    var ss := GroupOf(tc, "cluster");
    if HasCluster(tc) {
      var i :| 0 <= i < |ss| && !ss[i].mock;
      assert ss[i] in NonMock(ss);
    }
    if NonMock(ss) != [] {
      assert NonMock(ss)[0] in ss;
    }
  }

  /** `ConfigPatch._compare` on the adapted pair: all non-cluster keys first,
      then, with the mock sections removed from both sides, the first cluster
      sections. Without a target cluster the source dereferences `None`. */
  function Compare(bc: Config, tc: Config): (r: Result<seq<Change>, PatchError>)
    ensures r.Success? <==> HasCluster(tc)
    ensures r.Failure? ==> r.error == MissingCluster
  {
    HasClusterNonMock(tc);
    ClusterWithoutMocks(bc);
    ClusterWithoutMocks(tc);
    var front := CompareGroups(bc, tc, tc.groups);
    var b := RemoveMocks(bc);
    var t := RemoveMocks(tc);
    match First(GroupOf(t, "cluster"))
    case None => Failure(MissingCluster)
    case Some(tcl) => Success(front + CompareSection(b, t, "cluster", First(GroupOf(b, "cluster")), tcl))
  }

  /** The changes `_compare` records: every one has differing values; the
      non-cluster ones come first, and the cluster ones carry the label of the
      first non-mock target cluster section and are computed with the mock
      sections removed from both sides. */
  lemma CompareOrder(bc: Config, tc: Config)
    requires Compare(bc, tc).Success?
    ensures var r := Compare(bc, tc).value;
      forall j :: 0 <= j < |r| ==> !SameValue(r[j].oldValue, r[j].newValue)
    ensures var r := Compare(bc, tc).value;
      forall i, j :: 0 <= i < j < |r| && r[i].sectionKey == "cluster" ==> r[j].sectionKey == "cluster"
    ensures var r := Compare(bc, tc).value;
      forall j :: 0 <= j < |r| && r[j].sectionKey == "cluster" ==>
        r[j].sectionLabel == NonMock(GroupOf(tc, "cluster"))[0].sectionLabel
    ensures var r := Compare(bc, tc).value;
      var front := CompareGroups(bc, tc, tc.groups);
      |front| <= |r| && r[..|front|] == front &&
      r[|front|..] == CompareSection(RemoveMocks(bc), RemoveMocks(tc), "cluster",
                                     First(NonMock(GroupOf(bc, "cluster"))), NonMock(GroupOf(tc, "cluster"))[0])
  {
    CompareValue(bc, tc);
    var front := CompareGroups(bc, tc, tc.groups);
    var tcl := NonMock(GroupOf(tc, "cluster"))[0];
    var tail := CompareParams(RemoveMocks(bc), RemoveMocks(tc), "cluster", tcl.sectionLabel,
                              First(NonMock(GroupOf(bc, "cluster"))), tcl.params);
    ClusterLast(front, tail, tcl.sectionLabel);
  }

  /** A successful `_compare` is the non-cluster changes followed by those of the
      first non-mock target cluster section. */
  lemma CompareValue(bc: Config, tc: Config)
    requires Compare(bc, tc).Success?
    ensures NonMock(GroupOf(tc, "cluster")) != []
    ensures var tcl := NonMock(GroupOf(tc, "cluster"))[0];
      Compare(bc, tc).value == CompareGroups(bc, tc, tc.groups) +
        CompareParams(RemoveMocks(bc), RemoveMocks(tc), "cluster", tcl.sectionLabel,
                      First(NonMock(GroupOf(bc, "cluster"))), tcl.params)
  {
    HasClusterNonMock(tc);
    var tcl := NonMock(GroupOf(tc, "cluster"))[0];
    ClusterWithoutMocks(bc);
    ClusterWithoutMocks(tc);
    CompareOfCluster(bc, tc, tcl);
  }

  /** The cluster sections once the mocks are removed. */
  lemma ClusterWithoutMocks(c: Config)
    ensures GroupOf(RemoveMocks(c), "cluster") == NonMock(GroupOf(c, "cluster"))
  {
  }

  /** `_compare` once the first target cluster section without mocks is known. */
  lemma CompareOfCluster(bc: Config, tc: Config, tcl: Section)
    requires First(GroupOf(RemoveMocks(tc), "cluster")) == Some(tcl)
    ensures Compare(bc, tc) == Success(CompareGroups(bc, tc, tc.groups) +
      CompareParams(RemoveMocks(bc), RemoveMocks(tc), "cluster", tcl.sectionLabel,
                    First(GroupOf(RemoveMocks(bc), "cluster")), tcl.params))
  {
  }

  /** `_compare` reports every differing parameter: of each section of a
      non-cluster key, against the base section with the same key and label; and
      of the first non-mock target cluster section, against the first non-mock
      base cluster section, with the mocks removed from both sides. */
  lemma CompareComplete(bc: Config, tc: Config)
    requires HasCluster(tc)
    ensures forall g, i, k | 0 <= g < |tc.groups| && tc.groups[g].key != "cluster" &&
                              0 <= i < |tc.groups[g].sections| && 0 <= k < |tc.groups[g].sections[i].params| ::
      var t := tc.groups[g].sections[i];
      var b := Lookup(GroupOf(bc, tc.groups[g].key), t.sectionLabel);
      Differs(bc, tc, b, t.params[k]) ==>
        ChangeFor(bc, tc, tc.groups[g].key, t.sectionLabel, b, t.params[k]) in Compare(bc, tc).value
    ensures NonMock(GroupOf(tc, "cluster")) != []
    ensures var tcl := NonMock(GroupOf(tc, "cluster"))[0];
      var b := First(NonMock(GroupOf(bc, "cluster")));
      forall k | 0 <= k < |tcl.params| && Differs(RemoveMocks(bc), RemoveMocks(tc), b, tcl.params[k]) ::
        ChangeFor(RemoveMocks(bc), RemoveMocks(tc), "cluster", tcl.sectionLabel, b, tcl.params[k]) in Compare(bc, tc).value
  {
    CompareValue(bc, tc);
    var front := CompareGroups(bc, tc, tc.groups);
    var tcl := NonMock(GroupOf(tc, "cluster"))[0];
    var b := First(NonMock(GroupOf(bc, "cluster")));
    var tail := CompareParams(RemoveMocks(bc), RemoveMocks(tc), "cluster", tcl.sectionLabel, b, tcl.params);
    forall g, i, k | 0 <= g < |tc.groups| && tc.groups[g].key != "cluster" &&
                     0 <= i < |tc.groups[g].sections| && 0 <= k < |tc.groups[g].sections[i].params| &&
                     Differs(bc, tc, Lookup(GroupOf(bc, tc.groups[g].key), tc.groups[g].sections[i].sectionLabel),
                             tc.groups[g].sections[i].params[k])
      ensures ChangeFor(bc, tc, tc.groups[g].key, tc.groups[g].sections[i].sectionLabel,
                        Lookup(GroupOf(bc, tc.groups[g].key), tc.groups[g].sections[i].sectionLabel),
                        tc.groups[g].sections[i].params[k]) in front + tail
    {
      CompareGroupsComplete(bc, tc, tc.groups, g, i, k);
    }
    forall k | 0 <= k < |tcl.params| && Differs(RemoveMocks(bc), RemoveMocks(tc), b, tcl.params[k])
      ensures ChangeFor(RemoveMocks(bc), RemoveMocks(tc), "cluster", tcl.sectionLabel, b, tcl.params[k]) in front + tail
    {
      CompareParamsComplete(RemoveMocks(bc), RemoveMocks(tc), "cluster", tcl.sectionLabel, b, tcl.params, k);
    }
  }

  lemma ClusterLast(front: seq<Change>, tail: seq<Change>, lbl: string)
    requires forall j :: 0 <= j < |front| ==> front[j].sectionKey != "cluster" && !SameValue(front[j].oldValue, front[j].newValue)
    requires forall j :: 0 <= j < |tail| ==>
      tail[j].sectionKey == "cluster" && tail[j].sectionLabel == lbl && !SameValue(tail[j].oldValue, tail[j].newValue)
    ensures var r := front + tail;
      && (forall j :: 0 <= j < |r| ==> !SameValue(r[j].oldValue, r[j].newValue))
      && (forall i, j :: 0 <= i < j < |r| && r[i].sectionKey == "cluster" ==> r[j].sectionKey == "cluster")
      && (forall j :: 0 <= j < |r| && r[j].sectionKey == "cluster" ==> r[j].sectionLabel == lbl)
      && r[..|front|] == front && r[|front|..] == tail
  {
    var r := front + tail;
    assert forall j :: |front| <= j < |r| ==> r[j] == tail[j - |front|];
    assert forall j :: 0 <= j < |front| ==> r[j] == front[j];
  }

  // ---------------------------------------------------------------------------
  // Configurations with the same sections
  // ---------------------------------------------------------------------------

  /** The sections of a key in a well-formed configuration have distinct labels
      and each has distinct parameter keys. */
  lemma WellFormedGroupOf(c: Config, key: string)
    requires WellFormed(c)
    ensures DistinctLabels(GroupOf(c, key))
    ensures forall j :: 0 <= j < |GroupOf(c, key)| ==> DistinctParamKeys(GroupOf(c, key)[j].params)
  {
    SectionsOfSomeGroup(c.groups, key);
  }

  lemma {:induction false} CompareParamsSelf(bc: Config, tc: Config, key: string, lbl: string, s: Section, ps: seq<Param>)
    requires bc.groups == tc.groups
    requires DistinctParamKeys(s.params)
    requires forall i :: 0 <= i < |ps| ==> ps[i] in s.params
    ensures CompareParams(bc, tc, key, lbl, Some(s), ps) == []
    decreases |ps|
  {
    if ps != [] {
      var p := ps[0];
      var i :| 0 <= i < |s.params| && s.params[i] == p;
      assert FindParam(s.params, p.key) == Some(p);
      SameValueIsEquivalence(EffectiveValue(tc, p), EffectiveValue(tc, p), EffectiveValue(tc, p));
      assert !Differs(bc, tc, Some(s), p);
      assert forall i :: 0 <= i < |ps[1..]| ==> ps[1..][i] == ps[i + 1];
      CompareParamsSelf(bc, tc, key, lbl, s, ps[1..]);
    }
  }

  lemma {:induction false} CompareSectionsSelf(bc: Config, tc: Config, key: string, ts: seq<Section>)
    requires bc.groups == tc.groups
    requires DistinctLabels(GroupOf(tc, key))
    requires forall j :: 0 <= j < |ts| ==> ts[j] in GroupOf(tc, key) && DistinctParamKeys(ts[j].params)
    ensures CompareSections(bc, tc, key, ts) == []
    decreases |ts|
  {
    if ts != [] {
      var ss := GroupOf(tc, key);
      var i :| 0 <= i < |ss| && ss[i] == ts[0];
      assert Lookup(GroupOf(bc, key), ts[0].sectionLabel) == Some(ts[0]);
      CompareParamsSelf(bc, tc, key, ts[0].sectionLabel, ts[0], ts[0].params);
      assert forall j :: 0 <= j < |ts[1..]| ==> ts[1..][j] == ts[j + 1];
      CompareSectionsSelf(bc, tc, key, ts[1..]);
    }
  }

  lemma {:induction false} CompareGroupsSelf(bc: Config, tc: Config, gs: seq<Group>)
    requires bc.groups == tc.groups && WellFormed(tc)
    requires forall i :: 0 <= i < |gs| ==> gs[i] in tc.groups
    ensures CompareGroups(bc, tc, gs) == []
    decreases |gs|
  {
    if gs != [] {
      var g := gs[0];
      var i :| 0 <= i < |tc.groups| && tc.groups[i] == g;
      SectionsOfAt(tc.groups, i);
      WellFormedGroupOf(tc, g.key);
      CompareSectionsSelf(bc, tc, g.key, g.sections);
      assert forall j :: 0 <= j < |gs[1..]| ==> gs[1..][j] == gs[j + 1];
      CompareGroupsSelf(bc, tc, gs[1..]);
    }
  }

  lemma ClusterParamsDistinct(tc: Config)
    requires WellFormed(tc) && HasCluster(tc)
    ensures NonMock(GroupOf(tc, "cluster")) != []
    ensures DistinctParamKeys(NonMock(GroupOf(tc, "cluster"))[0].params)
  {
    HasClusterNonMock(tc);
    var tcl := NonMock(GroupOf(tc, "cluster"))[0];
    WellFormedGroupOf(tc, "cluster");
    assert tcl in GroupOf(tc, "cluster");
  }

  lemma ClusterSelf(bc: Config, tc: Config)
    requires bc.groups == tc.groups
    requires NonMock(GroupOf(tc, "cluster")) != []
    requires DistinctParamKeys(NonMock(GroupOf(tc, "cluster"))[0].params)
    ensures CompareSection(RemoveMocks(bc), RemoveMocks(tc), "cluster",
                           First(NonMock(GroupOf(bc, "cluster"))), NonMock(GroupOf(tc, "cluster"))[0]) == []
  {
    var tcl := NonMock(GroupOf(tc, "cluster"))[0];
    var b, t := RemoveMocks(bc), RemoveMocks(tc);
    assert b.groups == t.groups;
    CompareParamsSelf(b, t, "cluster", tcl.sectionLabel, tcl, tcl.params);
  }

  /** Two configurations with the same sections (whatever their files) compare
      without a single change. */
  lemma CompareSelf(bc: Config, tc: Config)
    requires bc.groups == tc.groups && WellFormed(tc) && HasCluster(tc)
    ensures Compare(bc, tc) == Success([])
  {
    CompareGroupsSelf(bc, tc, tc.groups);
    ClusterParamsDistinct(tc);
    ClusterSelf(bc, tc);
    CompareOrder(bc, tc);
  }
}
