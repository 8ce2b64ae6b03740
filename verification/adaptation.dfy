/** Adaptation of the base configuration to the target one (`ConfigPatch._adapt`):
    drop the ignored sections, give every base section a synthetic label, match
    each base section to a target section (adding a mock partner to the target
    when there is none), relabel it after its partner, then give every target
    section without a base partner a mock partner in the base. */
module Adaptation {
  import opened Wrappers
  import opened Strings
  import opened ConfigModel

  /** Why a patch cannot be built. */
  datatype PatchError =
    | AmbiguousRemoval(key: string)  // `remove_section(key)` with several sections of the key
    | MissingCluster                 // no `cluster` section left to compare in the target

  /** `ConfigPatch.IGNORED_SECTIONS`. */
  const IgnoredKeys: seq<string> := ["global", "aliases"]

  lemma ClusterNotIgnored()
    ensures "cluster" !in IgnoredKeys
  {
  }

  // ---------------------------------------------------------------------------
  // Ignored sections
  // ---------------------------------------------------------------------------

  function DropIgnored(gs: seq<Group>): (r: seq<Group>)
    ensures forall k :: SectionsOf(r, k) == (if k in IgnoredKeys then [] else SectionsOf(gs, k))
    ensures forall k :: k in KeysOf(r) ==> k in KeysOf(gs) && k !in IgnoredKeys
    ensures DistinctKeys(gs) ==> DistinctKeys(r)
    ensures forall g :: g in r ==> g in gs
  {
    if gs == [] then []
    else
      var rest := DropIgnored(gs[1..]);
      assert KeysOf(gs) == [gs[0].key] + KeysOf(gs[1..]);
      if gs[0].key in IgnoredKeys then rest
      else
        var r := [gs[0]] + rest;
        assert KeysOf(r) == [gs[0].key] + KeysOf(rest);
        assert DistinctKeys(gs) ==> DistinctKeys(r) by {
          if DistinctKeys(gs) {
            assert DistinctKeys(gs[1..]);
            assert gs[0].key !in KeysOf(gs[1..]);
            forall i, j | 0 <= i < j < |r| ensures r[i].key != r[j].key {
              if i == 0 {
                assert KeysOf(rest)[j - 1] == r[j].key;
              }
            }
          }
        }
        r
  }

  /** Groups with no ignored key are kept as they are. */
  lemma {:induction false} DropNothing(gs: seq<Group>)
    requires forall i :: 0 <= i < |gs| ==> gs[i].key !in IgnoredKeys
    ensures DropIgnored(gs) == gs
  {
    if gs != [] {
      assert gs[0].key !in IgnoredKeys;
      assert DropIgnored(gs) == [gs[0]] + DropIgnored(gs[1..]);
      DropNothing(gs[1..]);
      assert gs == [gs[0]] + gs[1..];
    }
  }

  /** Each ignored key has at most one section, so `_remove_ignored_sections` can remove it. */
  predicate Removable(c: Config) {
    |GroupOf(c, "global")| <= 1 && |GroupOf(c, "aliases")| <= 1
  }

  /** `_remove_ignored_sections`: `remove_section(key)` for each ignored key,
      which raises when the key has more than one section. */
  function RemoveIgnored(c: Config): (r: Result<Config, PatchError>)
    ensures r.Success? <==> forall k :: k in IgnoredKeys ==> |GroupOf(c, k)| <= 1
    ensures r.Success? <==> Removable(c)
    ensures r.Failure? ==> r.error.AmbiguousRemoval? && r.error.key in IgnoredKeys && |GroupOf(c, r.error.key)| > 1
    ensures r.Success? ==> r.value.configFile == c.configFile
    ensures r.Success? ==> forall k :: GroupOf(r.value, k) == (if k in IgnoredKeys then [] else GroupOf(c, k))
  {
    if |GroupOf(c, "global")| > 1 then Failure(AmbiguousRemoval("global"))
    else if |GroupOf(c, "aliases")| > 1 then Failure(AmbiguousRemoval("aliases"))
    else Success(c.(groups := DropIgnored(c.groups)))
  }

  // ---------------------------------------------------------------------------
  // Renaming the base sections
  // ---------------------------------------------------------------------------

  /** How many sections have a label that sorts strictly before `lbl`: the
      position of `lbl` in the sorted labels when labels are distinct. */
  function CountBefore(ss: seq<Section>, lbl: string): nat {
    if ss == [] then 0
    else (if LexLt(ss[0].sectionLabel, lbl) then 1 else 0) + CountBefore(ss[1..], lbl)
  }

  /** `u"_{0}{1}".format(section_key, i if i > 0 else "")`. */
  function RenamedLabel(key: string, i: nat): string {
    "_" + key + (if i > 0 then NatToString(i) else "")
  }

  lemma RenamedLabelInjective(key: string, i: nat, j: nat)
    requires RenamedLabel(key, i) == RenamedLabel(key, j)
    ensures i == j
  {
    var a, b := RenamedLabel(key, i), RenamedLabel(key, j);
    var n := |key| + 1;
    if i > 0 && j > 0 {
      assert a[n..] == NatToString(i);
      assert b[n..] == NatToString(j);
      NatToStringInjective(i, j);
    }
  }

  /** The sections of one key relabelled `_key`, `_key1`, `_key2`, ... in the
      sorted order of their current labels. */
  function RenameSections(key: string, ss: seq<Section>): seq<Section> {
    seq(|ss|, i requires 0 <= i < |ss| =>
      ss[i].(sectionLabel := RenamedLabel(key, CountBefore(ss, ss[i].sectionLabel))))
  }

  lemma {:induction false} CountBeforeOwnLabel(ss: seq<Section>, lbl: string)
    requires HasLabel(ss, lbl)
    ensures CountBefore(ss, lbl) < |ss|
    decreases |ss|
  {
    if ss[0].sectionLabel != lbl {
      assert HasLabel(ss[1..], lbl) by {
        var i :| 0 <= i < |ss| && ss[i].sectionLabel == lbl;
        assert ss[1..][i - 1].sectionLabel == lbl;
      }
      CountBeforeOwnLabel(ss[1..], lbl);
    } else {
      assert CountBefore(ss[1..], lbl) <= |ss[1..]| by { CountBeforeAtMost(ss[1..], lbl); }
    }
  }

  lemma {:induction false} CountBeforeAtMost(ss: seq<Section>, lbl: string)
    ensures CountBefore(ss, lbl) <= |ss|
    decreases |ss|
  {
    if ss != [] {
      CountBeforeAtMost(ss[1..], lbl);
    }
  }

  /** A label that sorts before another has fewer labels before it, and one
      fewer still when it is itself present. */
  lemma {:induction false} CountBeforeStrict(ss: seq<Section>, a: string, b: string)
    requires LexLt(a, b)
    ensures CountBefore(ss, a) + (if HasLabel(ss, a) then 1 else 0) <= CountBefore(ss, b)
    decreases |ss|
  {
    if ss != [] {
      CountBeforeStrict(ss[1..], a, b);
      var x := ss[0].sectionLabel;
      if LexLt(x, a) {
        LexLtTransitive(x, a, b);
      }
      if x == a {
        assert LexLt(x, b);
      }
      if HasLabel(ss, a) && x != a {
        var i :| 0 <= i < |ss| && ss[i].sectionLabel == a;
        assert ss[1..][i - 1].sectionLabel == a;
      }
    }
  }

  /** The renaming of one key: its sections keep everything but their label,
      the new labels are pairwise distinct, all start with `_`, each is
      `RenamedLabel(key, n)` for the section's position `n` below the number of
      sections, and they follow the sorted order of the old labels. */
  lemma RenameSectionsProperties(key: string, ss: seq<Section>)
    requires DistinctLabels(ss)
    ensures var r := RenameSections(key, ss);
      && |r| == |ss|
      && (forall i :: 0 <= i < |ss| ==> r[i] == ss[i].(sectionLabel := r[i].sectionLabel))
      && DistinctLabels(r)
      && (forall i :: 0 <= i < |ss| ==> StartsWith(r[i].sectionLabel, "_"))
      && (forall i :: 0 <= i < |ss| ==>
            CountBefore(ss, ss[i].sectionLabel) < |ss| &&
            r[i].sectionLabel == RenamedLabel(key, CountBefore(ss, ss[i].sectionLabel)))
      && (forall i, j :: 0 <= i < |ss| && 0 <= j < |ss| && LexLt(ss[i].sectionLabel, ss[j].sectionLabel) ==>
            CountBefore(ss, ss[i].sectionLabel) < CountBefore(ss, ss[j].sectionLabel))
  {
    var r := RenameSections(key, ss);
    forall i | 0 <= i < |ss| ensures CountBefore(ss, ss[i].sectionLabel) < |ss| {
      CountBeforeOwnLabel(ss, ss[i].sectionLabel);
    }
    forall i, j | 0 <= i < |ss| && 0 <= j < |ss| && LexLt(ss[i].sectionLabel, ss[j].sectionLabel)
      ensures CountBefore(ss, ss[i].sectionLabel) < CountBefore(ss, ss[j].sectionLabel)
    {
      CountBeforeStrict(ss, ss[i].sectionLabel, ss[j].sectionLabel);
    }
    forall i, j | 0 <= i < j < |ss| ensures r[i].sectionLabel != r[j].sectionLabel {
      var a, b := ss[i].sectionLabel, ss[j].sectionLabel;
      LexLeTotal(a, b);
      if LexLe(a, b) {
        CountBeforeStrict(ss, a, b);
      } else {
        CountBeforeStrict(ss, b, a);
      }
      if r[i].sectionLabel == r[j].sectionLabel {
        RenamedLabelInjective(key, CountBefore(ss, a), CountBefore(ss, b));
      }
    }
    forall i | 0 <= i < |ss| ensures StartsWith(r[i].sectionLabel, "_") {
      assert r[i].sectionLabel[..1] == "_";
    }
  }

  /** `_rename_base_sections` over every group. */
  function RenameGroups(gs: seq<Group>): (r: seq<Group>)
    ensures |r| == |gs|
    ensures forall i :: 0 <= i < |gs| ==> r[i] == Group(gs[i].key, RenameSections(gs[i].key, gs[i].sections))
    ensures KeysOf(r) == KeysOf(gs)
    ensures forall k :: SectionsOf(r, k) == RenameSections(k, SectionsOf(gs, k))
  {
    if gs == [] then []
    else
      var r := [Group(gs[0].key, RenameSections(gs[0].key, gs[0].sections))] + RenameGroups(gs[1..]);
      assert KeysOf(r) == [gs[0].key] + KeysOf(gs[1..]);
      r
  }

  /** Renaming sections leaves the keys of the groups distinct. */
  lemma RenameGroupsDistinct(gs: seq<Group>)
    requires DistinctKeys(gs)
    ensures DistinctKeys(RenameGroups(gs))
  {
    var r := RenameGroups(gs);
    forall i, j | 0 <= i < j < |r| ensures r[i].key != r[j].key {
      assert r[i].key == gs[i].key && r[j].key == gs[j].key;
    }
  }

  // ---------------------------------------------------------------------------
  // Matching a base section to a target section
  // ---------------------------------------------------------------------------

  /** `base_section.get_param_value(key_param)`. */
  function KeyValue(s: Section): Value {
    match FindParam(s.params, s.keyParam)
    case Some(p) => p.value
    case None => NoValue
  }

  /** `param and param.value == param_value`: the section has the parameter and
      its value equals `v`. */
  predicate Matches(s: Section, paramKey: string, v: Value) {
    FindParam(s.params, paramKey).Some? && SameValue(FindParam(s.params, paramKey).value.value, v)
  }

  /** `_get_target_section_by_param`: the position of the FIRST section whose
      parameter matches, if any. */
  function FirstByParam(ts: seq<Section>, paramKey: string, v: Value): (r: Option<nat>)
    ensures r.Some? ==> r.value < |ts| && Matches(ts[r.value], paramKey, v)
    ensures r.Some? ==> forall j :: 0 <= j < r.value ==> !Matches(ts[j], paramKey, v)
    ensures r.None? ==> forall j :: 0 <= j < |ts| ==> !Matches(ts[j], paramKey, v)
  {
    if ts == [] then None
    else if Matches(ts[0], paramKey, v) then Some(0)
    else
      match FirstByParam(ts[1..], paramKey, v)
      case Some(j) => NoMatchBeforeShift(ts, paramKey, v, j); Some(j + 1)
      case None => NoMatchBeforeShift(ts, paramKey, v, |ts| - 1); None
  }

  /** No section of `ts[1..]` before `n` matches and the head does not either:
      no section of `ts` before `n + 1` matches. */
  lemma NoMatchBeforeShift(ts: seq<Section>, paramKey: string, v: Value, n: nat)
    requires ts != [] && n < |ts| && !Matches(ts[0], paramKey, v)
    requires forall j :: 0 <= j < n ==> !Matches(ts[1..][j], paramKey, v)
    ensures forall j :: 0 <= j < n + 1 ==> !Matches(ts[j], paramKey, v)
  {
    forall j | 1 <= j < n + 1 ensures !Matches(ts[j], paramKey, v) {
      assert ts[j] == ts[1..][j - 1];
    }
  }

  /** `_get_target_section`: the partner of base section `s` among the target
      sections `ts` of its key, and the target sections afterwards. The partner
      is, in order of precedence: the first target section whose key parameter
      value equals the base one (keyed sections); the only target section of the
      key (other sections); a new mock section, which is appended. */
  function TargetPartner(s: Section, ts: seq<Section>): (r: (Section, seq<Section>))
    ensures HasLabel(r.1, r.0.sectionLabel)
    ensures r.1 == ts || r == (Mock(s), ts + [Mock(s)])
  {
    if s.keyParam != "" then
      match FirstByParam(ts, s.keyParam, KeyValue(s))
      case Some(j) => (ts[j], ts)
      case None =>
        var m := Mock(s);
        assert (ts + [m])[|ts|] == m;
        (m, ts + [m])
    else if |ts| == 1 then (ts[0], ts)
    else
      var m := Mock(s);
      assert (ts + [m])[|ts|] == m;
      (m, ts + [m])
  }

  /** The precedence `_get_target_section` follows. */
  lemma TargetPartnerPrecedence(s: Section, ts: seq<Section>)
    ensures var r := TargetPartner(s, ts);
      s.keyParam != "" && (exists j :: 0 <= j < |ts| && Matches(ts[j], s.keyParam, KeyValue(s))) ==>
        r.1 == ts &&
        exists j :: 0 <= j < |ts| && r.0 == ts[j] && Matches(ts[j], s.keyParam, KeyValue(s)) &&
          forall i :: 0 <= i < j ==> !Matches(ts[i], s.keyParam, KeyValue(s))
    ensures var r := TargetPartner(s, ts);
      s.keyParam != "" && (forall j :: 0 <= j < |ts| ==> !Matches(ts[j], s.keyParam, KeyValue(s))) ==>
        r == (Mock(s), ts + [Mock(s)])
    ensures s.keyParam == "" && |ts| == 1 ==> TargetPartner(s, ts) == (ts[0], ts)
    ensures s.keyParam == "" && |ts| != 1 ==> TargetPartner(s, ts) == (Mock(s), ts + [Mock(s)])
  {
  }

  /** The base loop of `_adapt` for one key: each base section in turn is
      relabelled after its partner; the target sections grow by the mocks. */
  function MatchGroup(bs: seq<Section>, ts: seq<Section>): (r: (seq<Section>, seq<Section>))
    ensures |r.0| == |bs|
    decreases |bs|
  {
    if bs == [] then ([], ts)
    else
      var p := TargetPartner(bs[0], ts);
      var rest := MatchGroup(bs[1..], p.1);
      ([bs[0].(sectionLabel := p.0.sectionLabel)] + rest.0, rest.1)
  }

  /** Matching only relabels the base sections, and only appends to the target ones. */
  lemma {:induction false} MatchGroupKeeps(bs: seq<Section>, ts: seq<Section>)
    ensures var r := MatchGroup(bs, ts);
      && (forall i :: 0 <= i < |bs| ==> r.0[i] == bs[i].(sectionLabel := r.0[i].sectionLabel))
      && |ts| <= |r.1| && r.1[..|ts|] == ts
    decreases |bs|
  {
    if bs != [] {
      var p := TargetPartner(bs[0], ts);
      var rest := MatchGroup(bs[1..], p.1);
      MatchGroupKeeps(bs[1..], p.1);
      var r := MatchGroup(bs, ts);
      assert r == ([bs[0].(sectionLabel := p.0.sectionLabel)] + rest.0, rest.1);
      forall i | 1 <= i < |bs| ensures r.0[i] == bs[i].(sectionLabel := r.0[i].sectionLabel) {
        assert r.0[i] == rest.0[i - 1] && bs[i] == bs[1..][i - 1];
      }
      assert r.1[..|ts|] == ts by {
        assert r.1[..|p.1|] == p.1;
        assert p.1[..|ts|] == ts;
      }
    }
  }

  /** Every relabelled base section has a same-label partner among the resulting
      target sections. */
  lemma {:induction false} MatchGroupPartners(bs: seq<Section>, ts: seq<Section>)
    ensures var r := MatchGroup(bs, ts);
      forall i :: 0 <= i < |bs| ==> HasLabel(r.1, r.0[i].sectionLabel)
    decreases |bs|
  {
    if bs != [] {
      var p := TargetPartner(bs[0], ts);
      var rest := MatchGroup(bs[1..], p.1);
      MatchGroupPartners(bs[1..], p.1);
      MatchGroupKeeps(bs[1..], p.1);
      var r := MatchGroup(bs, ts);
      assert r == ([bs[0].(sectionLabel := p.0.sectionLabel)] + rest.0, rest.1);
      HasLabelExtends(p.1, rest.1, p.0.sectionLabel);
      forall i | 1 <= i < |bs| ensures HasLabel(r.1, r.0[i].sectionLabel) {
        assert r.0[i] == rest.0[i - 1];
      }
    }
  }

  /** A section appended while matching the head is the head's mock partner. */
  lemma MockFromHead(bs: seq<Section>, ts: seq<Section>, j: int)
    requires bs != [] && |ts| <= j < |TargetPartner(bs[0], ts).1|
    ensures var r := MatchGroup(bs, ts);
      j < |r.1| && r.1[j] == Mock(bs[0]) && r.0[0].sectionLabel == bs[0].sectionLabel
  {
    var p := TargetPartner(bs[0], ts);
    var rest := MatchGroup(bs[1..], p.1);
    MatchGroupKeeps(bs[1..], p.1);
    assert p == (Mock(bs[0]), ts + [Mock(bs[0])]);
    assert rest.1[j] == rest.1[..|p.1|][j] == p.1[j];
  }

  /** A section appended while matching the tail, as the mock partner of tail
      section `i`, keeps that place once the head is put back. */
  lemma MockFromTail(bs: seq<Section>, ts: seq<Section>, j: int, i: int)
    requires bs != [] && 0 <= i < |bs| - 1
    requires var rest := MatchGroup(bs[1..], TargetPartner(bs[0], ts).1);
      && 0 <= j < |rest.1| && rest.1[j] == Mock(bs[i + 1]) && rest.0[i].sectionLabel == bs[i + 1].sectionLabel
    ensures var r := MatchGroup(bs, ts);
      j < |r.1| && r.1[j] == Mock(bs[i + 1]) && r.0[i + 1].sectionLabel == bs[i + 1].sectionLabel
  {
  }

  /** Every section matching appends to the target is the mock partner of a base
      section, and that base section keeps its label. */
  lemma {:induction false} MatchGroupMocks(bs: seq<Section>, ts: seq<Section>)
    ensures var r := MatchGroup(bs, ts);
      forall j :: |ts| <= j < |r.1| ==>
        exists i :: 0 <= i < |bs| && r.1[j] == Mock(bs[i]) && r.0[i].sectionLabel == bs[i].sectionLabel
    decreases |bs|
  {
    if bs != [] {
      var p := TargetPartner(bs[0], ts);
      var rest := MatchGroup(bs[1..], p.1);
      MatchGroupMocks(bs[1..], p.1);
      MatchGroupKeeps(bs[1..], p.1);
      var r := MatchGroup(bs, ts);
      forall j | |ts| <= j < |r.1|
        ensures exists i :: 0 <= i < |bs| && r.1[j] == Mock(bs[i]) && r.0[i].sectionLabel == bs[i].sectionLabel
      {
        if j < |p.1| {
          MockFromHead(bs, ts, j);
        } else {
          var i :| 0 <= i < |bs[1..]| && rest.1[j] == Mock(bs[1..][i]) && rest.0[i].sectionLabel == bs[1..][i].sectionLabel;
          MockFromTail(bs, ts, j, i);
        }
      }
    }
  }

  /** The base loop of `_adapt` over every base key. */
  function MatchAll(bgs: seq<Group>, target: Config): (r: (seq<Group>, Config))
    ensures KeysOf(r.0) == KeysOf(bgs)
    ensures r.1.configFile == target.configFile
    decreases |bgs|
  {
    if bgs == [] then ([], target)
    else
      var g := bgs[0];
      var m := MatchGroup(g.sections, GroupOf(target, g.key));
      var rest := MatchAll(bgs[1..], SetGroup(target, g.key, m.1));
      var r := ([Group(g.key, m.0)] + rest.0, rest.1);
      assert KeysOf(r.0) == [g.key] + KeysOf(rest.0);
      assert KeysOf(bgs) == [g.key] + KeysOf(bgs[1..]);
      r
  }

  lemma {:induction false} MatchAllGroups(bgs: seq<Group>, target: Config)
    requires DistinctKeys(bgs)
    ensures var r := MatchAll(bgs, target);
      forall k :: SectionsOf(r.0, k) == MatchGroup(SectionsOf(bgs, k), GroupOf(target, k)).0 &&
                  GroupOf(r.1, k) == MatchGroup(SectionsOf(bgs, k), GroupOf(target, k)).1
    decreases |bgs|
  {
    if bgs != [] {
      var g := bgs[0];
      var m := MatchGroup(g.sections, GroupOf(target, g.key));
      var t1 := SetGroup(target, g.key, m.1);
      assert DistinctKeys(bgs[1..]);
      MatchAllGroups(bgs[1..], t1);
      assert KeysOf(bgs) == [g.key] + KeysOf(bgs[1..]);
      SectionsOfAbsent(bgs[1..], g.key);
      var rest := MatchAll(bgs[1..], t1);
      var r := MatchAll(bgs, target);
      assert r == ([Group(g.key, m.0)] + rest.0, rest.1);
      forall k
        ensures SectionsOf(r.0, k) == MatchGroup(SectionsOf(bgs, k), GroupOf(target, k)).0
        ensures GroupOf(r.1, k) == MatchGroup(SectionsOf(bgs, k), GroupOf(target, k)).1
      {
        if k == g.key {
          assert SectionsOf(bgs, k) == g.sections;
          assert SectionsOf(r.0, k) == m.0;
          assert GroupOf(r.1, k) == MatchGroup([], m.1).1;
        } else {
          assert SectionsOf(bgs, k) == SectionsOf(bgs[1..], k);
          assert SectionsOf(r.0, k) == SectionsOf(rest.0, k);
        }
      }
    }
  }

  lemma {:induction false} MatchAllDistinct(bgs: seq<Group>, target: Config)
    requires DistinctKeys(target.groups)
    ensures DistinctKeys(MatchAll(bgs, target).1.groups)
    decreases |bgs|
  {
    if bgs != [] {
      var g := bgs[0];
      var m := MatchGroup(g.sections, GroupOf(target, g.key));
      ReplaceGroupDistinct(target.groups, g.key, m.1);
      MatchAllDistinct(bgs[1..], SetGroup(target, g.key, m.1));
    }
  }

  // ---------------------------------------------------------------------------
  // Mock partners for target sections
  // ---------------------------------------------------------------------------

  /** The mock partner of each section, in order. */
  function Mocks(ss: seq<Section>): seq<Section> {
    seq(|ss|, i requires 0 <= i < |ss| => Mock(ss[i]))
  }

  /** The target loop of `_adapt` for one key (`_get_base_section`): every
      target section without a same-label base section gets a mock partner
      appended to the base sections. */
  function FillBase(ts: seq<Section>, bs: seq<Section>): (r: seq<Section>)
    ensures |bs| <= |r| && r[..|bs|] == bs
    decreases |ts|
  {
    if ts == [] then bs
    else
      var bs1 := if HasLabel(bs, ts[0].sectionLabel) then bs else bs + [Mock(ts[0])];
      var r := FillBase(ts[1..], bs1);
      assert r[..|bs|] == bs by {
        assert r[..|bs1|] == bs1;
        assert bs1[..|bs|] == bs;
      }
      r
  }

  lemma LabelSetCons(ts: seq<Section>)
    requires ts != []
    ensures LabelSet(ts) == {ts[0].sectionLabel} + LabelSet(ts[1..])
  {
    assert forall i :: 1 <= i < |ts| ==> ts[i] == ts[1..][i - 1];
    forall x | x in LabelSet(ts) ensures x in {ts[0].sectionLabel} + LabelSet(ts[1..]) {
      var i :| 0 <= i < |ts| && ts[i].sectionLabel == x;
      if i > 0 { assert ts[1..][i - 1].sectionLabel == x; }
    }
  }

  /** After the target loop the base labels are the old base labels plus the target labels. */
  lemma {:induction false} FillBaseLabels(ts: seq<Section>, bs: seq<Section>)
    ensures LabelSet(FillBase(ts, bs)) == LabelSet(bs) + LabelSet(ts)
    decreases |ts|
  {
    if ts != [] {
      var bs1 := if HasLabel(bs, ts[0].sectionLabel) then bs else bs + [Mock(ts[0])];
      FillBaseLabels(ts[1..], bs1);
      assert LabelSet(bs1) == LabelSet(bs) + {ts[0].sectionLabel} by {
        if !HasLabel(bs, ts[0].sectionLabel) {
          assert bs1[|bs|] == Mock(ts[0]);
          assert forall i :: 0 <= i < |bs| ==> bs1[i] == bs[i];
        } else {
          var i :| 0 <= i < |bs| && bs[i].sectionLabel == ts[0].sectionLabel;
        }
      }
      LabelSetCons(ts);
    }
  }

  /** Every section the target loop appends to the base is the mock partner of a
      target section. */
  lemma {:induction false} FillBaseMocks(ts: seq<Section>, bs: seq<Section>)
    ensures var r := FillBase(ts, bs);
      forall j :: |bs| <= j < |r| ==> r[j] in Mocks(ts)
    decreases |ts|
  {
    if ts != [] {
      var bs1 := if HasLabel(bs, ts[0].sectionLabel) then bs else bs + [Mock(ts[0])];
      var r := FillBase(ts[1..], bs1);
      assert r == FillBase(ts, bs);
      FillBaseMocks(ts[1..], bs1);
      assert forall j :: |bs1| <= j < |FillBase(ts[1..], bs1)| ==> FillBase(ts[1..], bs1)[j] in Mocks(ts[1..]);
      assert Mocks(ts) == [Mock(ts[0])] + Mocks(ts[1..]);
      forall j | |bs| <= j < |r| ensures r[j] in Mocks(ts) {
        if j < |bs1| {
          assert r[j] == r[..|bs1|][j] == bs1[j] == Mock(ts[0]);
        } else {
          assert r[j] in Mocks(ts[1..]);
        }
      }
    }
  }

  /** The target loop of `_adapt` over every target key. */
  function FillAll(tgs: seq<Group>, base: Config): (r: Config)
    ensures r.configFile == base.configFile
    decreases |tgs|
  {
    if tgs == [] then base
    else
      var g := tgs[0];
      FillAll(tgs[1..], SetGroup(base, g.key, FillBase(g.sections, GroupOf(base, g.key))))
  }

  lemma {:induction false} FillAllGroups(tgs: seq<Group>, base: Config)
    requires DistinctKeys(tgs)
    ensures forall k :: GroupOf(FillAll(tgs, base), k) == FillBase(SectionsOf(tgs, k), GroupOf(base, k))
    decreases |tgs|
  {
    if tgs != [] {
      var g := tgs[0];
      var b1 := SetGroup(base, g.key, FillBase(g.sections, GroupOf(base, g.key)));
      assert DistinctKeys(tgs[1..]);
      FillAllGroups(tgs[1..], b1);
      assert KeysOf(tgs) == [g.key] + KeysOf(tgs[1..]);
      SectionsOfAbsent(tgs[1..], g.key);
    }
  }

  // ---------------------------------------------------------------------------
  // The whole adaptation
  // ---------------------------------------------------------------------------

  /** `ConfigPatch._adapt`: the adapted base and target configurations. */
  function Adapt(base: Config, target: Config): (r: Result<(Config, Config), PatchError>)
    ensures r.Success? <==> Removable(base) && Removable(target)
    ensures r.Failure? ==> r.error.AmbiguousRemoval?
  {
    var b0 :- RemoveIgnored(base);
    var t0 :- RemoveIgnored(target);
    var b1 := b0.(groups := RenameGroups(b0.groups));
    var m := MatchAll(b1.groups, t0);
    var t1 := m.1;
    var b2 := FillAll(t1.groups, b1.(groups := m.0));
    Success((b2, t1))
  }

  /** What `_adapt` does to the labels of one key: `bs0` are the base sections,
      `ts0` the target ones; matching the renamed base sections gives `mg`, and
      adding mock partners to the base gives `fb`, with the same labels as the
      matched target. */
  lemma GroupPairingLabels(key: string, bs0: seq<Section>, ts0: seq<Section>)
    ensures var mg := MatchGroup(RenameSections(key, bs0), ts0);
      LabelSet(FillBase(mg.1, mg.0)) == LabelSet(mg.1)
  {
    var bs := RenameSections(key, bs0);
    var mg := MatchGroup(bs, ts0);
    MatchGroupPartners(bs, ts0);
    FillBaseLabels(mg.1, mg.0);
    forall x | x in LabelSet(mg.0) ensures x in LabelSet(mg.1) {
      var i :| 0 <= i < |mg.0| && mg.0[i].sectionLabel == x;
      LabelSetMembership(mg.1, x);
    }
  }

  /** The base side of one key: the base sections come first, unchanged but for
      their label, and everything after them is a mock partner of a target section. */
  lemma GroupPairingBase(key: string, bs0: seq<Section>, ts0: seq<Section>)
    ensures var mg := MatchGroup(RenameSections(key, bs0), ts0);
      var fb := FillBase(mg.1, mg.0);
      && |bs0| <= |fb|
      && (forall i :: 0 <= i < |bs0| ==> fb[i] == bs0[i].(sectionLabel := fb[i].sectionLabel))
      && (forall j :: |bs0| <= j < |fb| ==> fb[j] in Mocks(mg.1))
  {
    var bs := RenameSections(key, bs0);
    var mg := MatchGroup(bs, ts0);
    MatchGroupKeeps(bs, ts0);
    var fb := FillBase(mg.1, mg.0);
    FillBaseMocks(mg.1, mg.0);
    forall i | 0 <= i < |bs0| ensures fb[i] == bs0[i].(sectionLabel := fb[i].sectionLabel) {
      assert fb[i] == fb[..|mg.0|][i] == mg.0[i];
    }
  }

  /** The target side of one key: the target sections come first, unchanged, and
      everything after them is a mock partner of a base section. */
  lemma GroupPairingTarget(key: string, bs0: seq<Section>, ts0: seq<Section>)
    ensures var mg := MatchGroup(RenameSections(key, bs0), ts0);
      var fb := FillBase(mg.1, mg.0);
      && |ts0| <= |mg.1| && mg.1[..|ts0|] == ts0
      && (forall j :: |ts0| <= j < |mg.1| ==> mg.1[j] in Mocks(fb))
  {
    var bs := RenameSections(key, bs0);
    var mg := MatchGroup(bs, ts0);
    MatchGroupKeeps(bs, ts0);
    MatchGroupMocks(bs, ts0);
    var fb := FillBase(mg.1, mg.0);
    forall j | |ts0| <= j < |mg.1| ensures mg.1[j] in Mocks(fb) {
      var i :| 0 <= i < |bs| && mg.1[j] == Mock(bs[i]) && mg.0[i].sectionLabel == bs[i].sectionLabel;
      assert fb[i] == fb[..|mg.0|][i] == mg.0[i] == bs[i];
      assert Mocks(fb)[i] == Mock(fb[i]);
    }
  }

  /** Removing the ignored sections keeps the keys of the groups distinct. */
  lemma RemoveIgnoredDistinct(c: Config)
    requires DistinctKeys(c.groups) && RemoveIgnored(c).Success?
    ensures DistinctKeys(RemoveIgnored(c).value.groups)
  {
    assert RemoveIgnored(c).value.groups == DropIgnored(c.groups);
  }

  /** `_adapt` as its four steps: drop the ignored sections, rename the base
      sections, match them to the target and give the base its mock partners. */
  lemma AdaptSteps(base: Config, target: Config)
    requires Removable(base) && Removable(target)
    ensures RemoveIgnored(base).Success? && RemoveIgnored(target).Success?
    ensures var b0, t0 := RemoveIgnored(base).value, RemoveIgnored(target).value;
      var m := MatchAll(RenameGroups(b0.groups), t0);
      Adapt(base, target).value == (FillAll(m.1.groups, b0.(groups := m.0)), m.1)
  {
  }

  /** The adapted pair, key by key: the target is the matched target sections,
      the base is the matched base sections completed with mock partners. */
  lemma AdaptGroups(base: Config, target: Config)
    requires DistinctKeys(base.groups) && DistinctKeys(target.groups)
    requires Removable(base) && Removable(target)
    ensures var b, t := Adapt(base, target).value.0, Adapt(base, target).value.1;
      forall k ::
        var mg := MatchGroup(RenameSections(k, GroupOf(RemoveIgnored(base).value, k)), GroupOf(RemoveIgnored(target).value, k));
        GroupOf(t, k) == mg.1 && GroupOf(b, k) == FillBase(mg.1, mg.0)
  {
    var b0, t0 := RemoveIgnored(base).value, RemoveIgnored(target).value;
    AdaptSteps(base, target);
    RemoveIgnoredDistinct(base);
    RemoveIgnoredDistinct(target);
    PipelineGroups(b0, t0);
    var m := MatchAll(RenameGroups(b0.groups), t0);
    assert Adapt(base, target).value.1 == m.1;
    assert Adapt(base, target).value.0 == FillAll(m.1.groups, b0.(groups := m.0));
  }

  /** The renaming, matching and filling steps of `_adapt`, key by key. */
  lemma PipelineGroups(b0: Config, t0: Config)
    requires DistinctKeys(b0.groups) && DistinctKeys(t0.groups)
    ensures var m := MatchAll(RenameGroups(b0.groups), t0);
      forall k ::
        var mg := MatchGroup(RenameSections(k, GroupOf(b0, k)), GroupOf(t0, k));
        GroupOf(m.1, k) == mg.1 && GroupOf(FillAll(m.1.groups, b0.(groups := m.0)), k) == FillBase(mg.1, mg.0)
  {
    var b1 := RenameGroups(b0.groups);
    var m := MatchAll(b1, t0);
    var b1m := b0.(groups := m.0);
    RenameGroupsDistinct(b0.groups);
    MatchAllGroups(b1, t0);
    MatchAllDistinct(b1, t0);
    FillAllGroups(m.1.groups, b1m);
  }

  /** After adaptation every key has the same labels on both sides, so each base
      section has a same-key same-label target partner and vice versa. The target
      keeps its sections, in order, ahead of any mock; the base keeps its
      sections, in order and unchanged but for the label, ahead of any mock;
      every added section is the mock partner of a section on the other side;
      the ignored keys are gone from both. */
  lemma AdaptPairsSections(base: Config, target: Config)
    requires DistinctKeys(base.groups) && DistinctKeys(target.groups)
    requires Removable(base) && Removable(target)
    ensures var b, t := Adapt(base, target).value.0, Adapt(base, target).value.1;
      forall k :: LabelSet(GroupOf(b, k)) == LabelSet(GroupOf(t, k))
    ensures var b, t := Adapt(base, target).value.0, Adapt(base, target).value.1;
      forall k :: k !in IgnoredKeys ==>
        && |GroupOf(target, k)| <= |GroupOf(t, k)|
        && GroupOf(t, k)[..|GroupOf(target, k)|] == GroupOf(target, k)
        && (forall j :: |GroupOf(target, k)| <= j < |GroupOf(t, k)| ==> GroupOf(t, k)[j] in Mocks(GroupOf(b, k)))
    ensures var b, t := Adapt(base, target).value.0, Adapt(base, target).value.1;
      forall k :: k !in IgnoredKeys ==>
        && |GroupOf(base, k)| <= |GroupOf(b, k)|
        && (forall i :: 0 <= i < |GroupOf(base, k)| ==>
              GroupOf(b, k)[i] == GroupOf(base, k)[i].(sectionLabel := GroupOf(b, k)[i].sectionLabel))
        && (forall j :: |GroupOf(base, k)| <= j < |GroupOf(b, k)| ==> GroupOf(b, k)[j] in Mocks(GroupOf(t, k)))
    ensures var b, t := Adapt(base, target).value.0, Adapt(base, target).value.1;
      forall k :: k in IgnoredKeys ==> GroupOf(b, k) == [] && GroupOf(t, k) == []
  {
    AdaptGroups(base, target);
    var b0 := RemoveIgnored(base).value;
    var t0 := RemoveIgnored(target).value;
    forall k {
      GroupPairingLabels(k, GroupOf(b0, k), GroupOf(t0, k));
    }
    forall k {
      GroupPairingBase(k, GroupOf(b0, k), GroupOf(t0, k));
    }
    forall k {
      GroupPairingTarget(k, GroupOf(b0, k), GroupOf(t0, k));
    }
  }

  // ---------------------------------------------------------------------------
  // Configurations that differ only in the base labels
  // ---------------------------------------------------------------------------

  /** Section by section, `bs` and `ts` differ at most in their labels. */
  predicate SameShapeSections(bs: seq<Section>, ts: seq<Section>) {
    |bs| == |ts| && forall j :: 0 <= j < |ts| ==> bs[j].(sectionLabel := ts[j].sectionLabel) == ts[j]
  }

  /** Group by group, the configurations differ at most in section labels. */
  predicate SameShape(bgs: seq<Group>, tgs: seq<Group>) {
    |bgs| == |tgs| &&
    forall i :: 0 <= i < |tgs| ==> bgs[i].key == tgs[i].key && SameShapeSections(bgs[i].sections, tgs[i].sections)
  }

  /** Every section of the key finds itself as its partner: a keyed section
      carries its key parameter and no other section of the key has the same
      key value; an unkeyed section is the only one of its key. */
  predicate Unambiguous(ts: seq<Section>) {
    forall j :: 0 <= j < |ts| ==>
      && (ts[j].keyParam == "" ==> |ts| == 1)
      && (ts[j].keyParam != "" ==>
            && FindParam(ts[j].params, ts[j].keyParam).Some?
            && forall i :: 0 <= i < |ts| && i != j ==> !Matches(ts[i], ts[j].keyParam, KeyValue(ts[j])))
  }

  lemma {:induction false} SameShapeSectionsOf(bgs: seq<Group>, tgs: seq<Group>, k: string)
    requires SameShape(bgs, tgs)
    ensures SameShapeSections(SectionsOf(bgs, k), SectionsOf(tgs, k))
    decreases |bgs|
  {
    if bgs != [] {
      assert SameShape(bgs[1..], tgs[1..]) by {
        forall i | 0 <= i < |tgs[1..]|
          ensures bgs[1..][i].key == tgs[1..][i].key && SameShapeSections(bgs[1..][i].sections, tgs[1..][i].sections)
        {
          assert bgs[1..][i] == bgs[i + 1] && tgs[1..][i] == tgs[i + 1];
        }
      }
      SameShapeSectionsOf(bgs[1..], tgs[1..], k);
      assert bgs[0].key == tgs[0].key && SameShapeSections(bgs[0].sections, tgs[0].sections);
    }
  }

  lemma {:induction false} SameShapeDropIgnored(bgs: seq<Group>, tgs: seq<Group>)
    requires SameShape(bgs, tgs)
    ensures SameShape(DropIgnored(bgs), DropIgnored(tgs))
    decreases |bgs|
  {
    if bgs != [] {
      SameShapeTail(bgs, tgs);
      SameShapeDropIgnored(bgs[1..], tgs[1..]);
      var rb, rt := DropIgnored(bgs[1..]), DropIgnored(tgs[1..]);
      if bgs[0].key !in IgnoredKeys {
        assert DropIgnored(bgs) == [bgs[0]] + rb;
        assert DropIgnored(tgs) == [tgs[0]] + rt;
        SameShapeCons(bgs[0], tgs[0], rb, rt);
      } else {
        assert DropIgnored(bgs) == rb;
        assert DropIgnored(tgs) == rt;
      }
    }
  }

  lemma SameShapeTail(bgs: seq<Group>, tgs: seq<Group>)
    requires SameShape(bgs, tgs) && bgs != []
    ensures bgs[0].key == tgs[0].key && SameShapeSections(bgs[0].sections, tgs[0].sections)
    ensures SameShape(bgs[1..], tgs[1..])
  {
    forall i | 0 <= i < |tgs[1..]|
      ensures bgs[1..][i].key == tgs[1..][i].key && SameShapeSections(bgs[1..][i].sections, tgs[1..][i].sections)
    {
      assert bgs[1..][i] == bgs[i + 1] && tgs[1..][i] == tgs[i + 1];
    }
  }

  lemma SameShapeCons(b: Group, t: Group, rb: seq<Group>, rt: seq<Group>)
    requires b.key == t.key && SameShapeSections(b.sections, t.sections) && SameShape(rb, rt)
    ensures SameShape([b] + rb, [t] + rt)
  {
    forall i | 1 <= i < |[t] + rt|
      ensures ([b] + rb)[i] == rb[i - 1] && ([t] + rt)[i] == rt[i - 1]
    {
    }
  }

  lemma SameShapeRenamed(key: string, bs: seq<Section>, ts: seq<Section>)
    requires SameShapeSections(bs, ts)
    ensures SameShapeSections(RenameSections(key, bs), ts)
  {
    var r := RenameSections(key, bs);
    forall j | 0 <= j < |ts| ensures r[j].(sectionLabel := ts[j].sectionLabel) == ts[j] {
      assert r[j].(sectionLabel := ts[j].sectionLabel) == bs[j].(sectionLabel := ts[j].sectionLabel);
    }
  }

  /** A base section that differs from a target section of an unambiguous key
      only in its label has that very section as its partner. */
  lemma TargetPartnerSameShape(s: Section, ts: seq<Section>, j: int)
    requires Unambiguous(ts) && 0 <= j < |ts|
    requires s.(sectionLabel := ts[j].sectionLabel) == ts[j]
    ensures TargetPartner(s, ts) == (ts[j], ts)
  {
    assert KeyValue(s) == KeyValue(ts[j]);
    if s.keyParam != "" {
      var v := KeyValue(s);
      SameValueIsEquivalence(v, v, v);
      assert Matches(ts[j], s.keyParam, v);
      match FirstByParam(ts, s.keyParam, v)
      case Some(x) =>
        assert x == j;
      case None =>
    } else {
      assert |ts| == 1;
    }
  }

  /** When no base section needs a mock partner, matching leaves the target
      sections alone and relabels each base section after its partner. */
  lemma {:induction false} MatchGroupNoMocks(bs: seq<Section>, ts: seq<Section>)
    requires forall j :: 0 <= j < |bs| ==> TargetPartner(bs[j], ts).1 == ts
    ensures MatchGroup(bs, ts).1 == ts
    ensures forall j :: 0 <= j < |bs| ==>
      MatchGroup(bs, ts).0[j] == bs[j].(sectionLabel := TargetPartner(bs[j], ts).0.sectionLabel)
    decreases |bs|
  {
    if bs != [] {
      assert forall j :: 1 <= j < |bs| ==> bs[1..][j - 1] == bs[j];
      MatchGroupNoMocks(bs[1..], ts);
    }
  }

  lemma MatchGroupSameShape(bs: seq<Section>, ts: seq<Section>)
    requires SameShapeSections(bs, ts) && Unambiguous(ts)
    ensures MatchGroup(bs, ts) == (ts, ts)
  {
    forall j | 0 <= j < |bs| ensures TargetPartner(bs[j], ts) == (ts[j], ts) {
      TargetPartnerSameShape(bs[j], ts, j);
    }
    MatchGroupNoMocks(bs, ts);
    assert MatchGroup(bs, ts).0 == ts;
  }

  /** Matching base groups whose sections already line up with the target's
      changes nothing in the target, and gives each base key the target's sections. */
  lemma {:induction false} MatchAllStable(bgs: seq<Group>, target: Config)
    requires forall i :: 0 <= i < |bgs| ==>
      SameShapeSections(bgs[i].sections, GroupOf(target, bgs[i].key)) && Unambiguous(GroupOf(target, bgs[i].key))
    ensures MatchAll(bgs, target).1 == target
    ensures |MatchAll(bgs, target).0| == |bgs|
    ensures forall i :: 0 <= i < |bgs| ==> MatchAll(bgs, target).0[i] == Group(bgs[i].key, GroupOf(target, bgs[i].key))
    decreases |bgs|
  {
    if bgs != [] {
      var g := bgs[0];
      MatchGroupSameShape(g.sections, GroupOf(target, g.key));
      ReplaceGroupSame(target.groups, g.key);
      assert SetGroup(target, g.key, GroupOf(target, g.key)) == target;
      assert forall i :: 1 <= i < |bgs| ==> bgs[1..][i - 1] == bgs[i];
      MatchAllStable(bgs[1..], target);
      assert |KeysOf(MatchAll(bgs, target).0)| == |bgs|;
    }
  }

  /** A target loop over sections that all have a same-label base section adds nothing. */
  lemma {:induction false} FillBaseNoop(ts: seq<Section>, bs: seq<Section>)
    requires forall j :: 0 <= j < |ts| ==> HasLabel(bs, ts[j].sectionLabel)
    ensures FillBase(ts, bs) == bs
    decreases |ts|
  {
    if ts != [] {
      assert forall j :: 1 <= j < |ts| ==> ts[1..][j - 1] == ts[j];
      FillBaseNoop(ts[1..], bs);
    }
  }

  lemma {:induction false} FillAllNoop(tgs: seq<Group>, base: Config)
    requires forall i, j :: 0 <= i < |tgs| && 0 <= j < |tgs[i].sections| ==>
      HasLabel(GroupOf(base, tgs[i].key), tgs[i].sections[j].sectionLabel)
    ensures FillAll(tgs, base) == base
    decreases |tgs|
  {
    if tgs != [] {
      var g := tgs[0];
      FillBaseNoop(g.sections, GroupOf(base, g.key));
      ReplaceGroupSame(base.groups, g.key);
      assert SetGroup(base, g.key, GroupOf(base, g.key)) == base;
      assert forall i :: 1 <= i < |tgs| ==> tgs[1..][i - 1] == tgs[i];
      FillAllNoop(tgs[1..], base);
    }
  }

  /** The renamed base groups line up with the target groups of the same keys,
      so matching hands every key the target's sections and leaves the target alone. */
  lemma MatchAllLabelOnly(bgs: seq<Group>, t0: Config)
    requires SameShape(bgs, t0.groups) && DistinctKeys(t0.groups)
    requires forall i :: 0 <= i < |t0.groups| ==> Unambiguous(t0.groups[i].sections)
    ensures MatchAll(RenameGroups(bgs), t0) == (t0.groups, t0)
  {
    var rgs := RenameGroups(bgs);
    forall i | 0 <= i < |rgs|
      ensures SameShapeSections(rgs[i].sections, GroupOf(t0, rgs[i].key)) && Unambiguous(GroupOf(t0, rgs[i].key))
    {
      SectionsOfAt(t0.groups, i);
      SameShapeRenamed(bgs[i].key, bgs[i].sections, t0.groups[i].sections);
    }
    MatchAllStable(rgs, t0);
    var m := MatchAll(rgs, t0);
    assert |m.0| == |t0.groups|;
    forall i | 0 <= i < |t0.groups| ensures m.0[i] == t0.groups[i] {
      SectionsOfAt(t0.groups, i);
      assert m.0[i] == Group(rgs[i].key, GroupOf(t0, rgs[i].key));
    }
    assert m.0 == t0.groups;
  }

  /** Configurations that differ only in the labels of the base sections, with
      every key unambiguous, adapt without error, and the adapted base then
      holds exactly the target's sections: every base section got its target
      label back and no mock was added on either side. */
  lemma AdaptLabelOnly(base: Config, target: Config)
    requires WellFormed(target)
    requires SameShape(base.groups, target.groups)
    requires forall i :: 0 <= i < |target.groups| ==> Unambiguous(target.groups[i].sections)
    requires forall k :: k in IgnoredKeys ==> |GroupOf(target, k)| <= 1
    ensures Adapt(base, target).Success?
    ensures Adapt(base, target).value.1 == target.(groups := DropIgnored(target.groups))
    ensures Adapt(base, target).value.0 == target.(groups := DropIgnored(target.groups), configFile := base.configFile)
  {
    forall k ensures |GroupOf(base, k)| == |GroupOf(target, k)| {
      SameShapeSectionsOf(base.groups, target.groups, k);
    }
    var b0 := RemoveIgnored(base).value;
    var t0 := RemoveIgnored(target).value;
    assert t0 == target.(groups := DropIgnored(target.groups));
    assert b0 == base.(groups := DropIgnored(base.groups));
    SameShapeDropIgnored(base.groups, target.groups);
    DropIgnoredUnambiguous(target.groups);
    MatchAllLabelOnly(b0.groups, t0);
    AdaptSteps(base, target);
    var tgs := t0.groups;
    var b1m := b0.(groups := tgs);
    assert DistinctKeys(tgs);
    OwnLabels(tgs);
    FillAllNoop(tgs, b1m);
  }

  /** Removing the ignored groups keeps every remaining group unambiguous. */
  lemma DropIgnoredUnambiguous(gs: seq<Group>)
    requires forall i :: 0 <= i < |gs| ==> Unambiguous(gs[i].sections)
    ensures var d := DropIgnored(gs); forall i :: 0 <= i < |d| ==> Unambiguous(d[i].sections)
  {
    var d := DropIgnored(gs);
    forall i | 0 <= i < |d| ensures Unambiguous(d[i].sections) {
      assert d[i] in gs;
    }
  }

  /** With distinct keys, every label of a group is found among its key's sections. */
  lemma OwnLabels(gs: seq<Group>)
    requires DistinctKeys(gs)
    ensures forall i, j :: 0 <= i < |gs| && 0 <= j < |gs[i].sections| ==>
      HasLabel(SectionsOf(gs, gs[i].key), gs[i].sections[j].sectionLabel)
  {
    forall i, j | 0 <= i < |gs| && 0 <= j < |gs[i].sections|
      ensures HasLabel(SectionsOf(gs, gs[i].key), gs[i].sections[j].sectionLabel)
    {
      SectionsOfAt(gs, i);
    }
  }
}
