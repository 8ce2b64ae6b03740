/** Worked instances of the patch on small configurations with EBS sections,
    following the expectations of the repository's tests. */
module Scenarios {
  import opened Wrappers
  import opened Strings
  import opened UpdatePolicies
  import opened ConfigModel
  import opened Adaptation
  import opened Comparison
  import opened ConfigPatches

  /** The policy of the `ebs_settings` parameter. */
  const EbsSettingsPolicy: UpdatePolicy :=
    Derive(Some(DENIED), None, Some("Cannot add/remove EBS Sections"), None, NoChecker)

  /** An EBS section, keyed by its shared directory. */
  function EbsSection(lbl: string, dir: string): Section {
    Section(lbl, [Param("shared_dir", Text(dir), NoValue, DENIED, "")], "shared_dir", false)
  }

  /** The cluster section; its `ebs_settings` value follows the EBS sections. */
  function ClusterSection(settings: string): Section {
    Section("default", [Param("ebs_settings", Text(settings), NoValue, EbsSettingsPolicy, "ebs")], "", false)
  }

  /** Two EBS sections, `ebs-1` on `vol1` and `ebs-2` on `vol2`. */
  function TwoVolumes(file: string): Config {
    Config([Group("cluster", [ClusterSection("ebs-1,ebs-2")]),
            Group("ebs", [EbsSection("ebs-1", "vol1"), EbsSection("ebs-2", "vol2")])], file)
  }

  /** The same configuration with section `ebs-1` removed. */
  function SecondVolumeOnly(file: string): Config {
    Config([Group("cluster", [ClusterSection("ebs-2")]),
            Group("ebs", [EbsSection("ebs-2", "vol2")])], file)
  }

  /** Python's string order on the two labels. */
  lemma LabelOrder()
    ensures LexLt("ebs-1", "ebs-2") && !LexLt("ebs-2", "ebs-1")
    ensures !LexLt("ebs-1", "ebs-1") && !LexLt("ebs-2", "ebs-2")
  {
  }

  /** Renaming: `ebs-1` sorts first and becomes `_ebs`, `ebs-2` becomes `_ebs1`. */
  lemma RenameStep(f: string)
    ensures RenameGroups(TwoVolumes(f).groups) == RenamedGroups
  {
    var gs := TwoVolumes(f).groups;
    RenameGroupsOfTwo(gs[0], gs[1]);
    RenameOne("cluster", ClusterSection("ebs-1,ebs-2"));
    LabelOrder();
    RenameTwo("ebs", EbsSection("ebs-1", "vol1"), EbsSection("ebs-2", "vol2"));
    SyntheticLabels();
  }

  /** The synthetic labels of the scenarios. */
  lemma SyntheticLabels()
    ensures "_" + "cluster" == "_cluster" && "_" + "ebs" == "_ebs" && "_" + "ebs" + "1" == "_ebs1"
  {
  }

  /** Renaming two groups renames each on its own. */
  lemma RenameGroupsOfTwo(g0: Group, g1: Group)
    ensures RenameGroups([g0, g1]) ==
      [Group(g0.key, RenameSections(g0.key, g0.sections)), Group(g1.key, RenameSections(g1.key, g1.sections))]
  {
  }

  /** A key's only section is renamed `_key`. */
  lemma RenameOne(key: string, s: Section)
    ensures RenameSections(key, [s]) == [s.(sectionLabel := "_" + key)]
  {
    assert [s][1..] == [];
    assert CountBefore([s], s.sectionLabel) == 0;
    assert RenamedLabel(key, 0) == "_" + key;
  }

  /** Of two sections, the one whose label sorts first is renamed `_key`, the other `_key1`. */
  lemma RenameTwo(key: string, s0: Section, s1: Section)
    requires LexLt(s0.sectionLabel, s1.sectionLabel) && !LexLt(s1.sectionLabel, s0.sectionLabel)
    ensures RenameSections(key, [s0, s1]) == [s0.(sectionLabel := "_" + key), s1.(sectionLabel := "_" + key + "1")]
  {
    var ss := [s0, s1];
    assert ss[1..] == [s1] && ss[1..][1..] == [];
    assert !LexLt(s0.sectionLabel, s0.sectionLabel) && !LexLt(s1.sectionLabel, s1.sectionLabel);
    assert CountBefore([s1], s0.sectionLabel) == 0 + CountBefore([], s0.sectionLabel);
    assert CountBefore(ss, s0.sectionLabel) == 0 + CountBefore([s1], s0.sectionLabel);
    assert CountBefore([s1], s1.sectionLabel) == 0 + CountBefore([], s1.sectionLabel);
    assert CountBefore(ss, s1.sectionLabel) == 1 + CountBefore([s1], s1.sectionLabel);
    assert NatToString(1) == "1";
    assert RenamedLabel(key, 0) == "_" + key;
    assert RenamedLabel(key, 1) == "_" + key + "1";
  }

  /** The mock partner `_create_default_section` builds for a base EBS section. */
  function MockEbs(lbl: string): Section {
    Section(lbl, [Param("shared_dir", NoValue, NoValue, DENIED, "")], "shared_dir", true)
  }

  /** A mock EBS section has no shared directory. */
  lemma MockStep(lbl: string, dir: string)
    ensures Mock(EbsSection(lbl, dir)) == MockEbs(lbl)
  {
    var m := Mock(EbsSection(lbl, dir));
    assert |m.params| == 1;
    assert m.params == [Param("shared_dir", NoValue, NoValue, DENIED, "")];
  }

  /** Matching the EBS sections by directory: `_ebs` finds none and gets a mock
      partner appended to the target; `_ebs1` takes the label `ebs-2`. */
  lemma MatchEbsStep()
    ensures MatchGroup([EbsSection("_ebs", "vol1"), EbsSection("_ebs1", "vol2")], [EbsSection("ebs-2", "vol2")]) ==
      ([EbsSection("_ebs", "vol1"), EbsSection("ebs-2", "vol2")], [EbsSection("ebs-2", "vol2"), MockEbs("_ebs")])
  {
    var ts := [EbsSection("ebs-2", "vol2")];
    var first := EbsSection("_ebs", "vol1");
    var second := EbsSection("_ebs1", "vol2");
    assert KeyValue(first) == Text("vol1") && KeyValue(second) == Text("vol2");
    assert !Matches(ts[0], "shared_dir", Text("vol1"));
    assert FirstByParam(ts, "shared_dir", Text("vol1")) == None;
    MockStep("_ebs", "vol1");
    assert TargetPartner(first, ts) == (MockEbs("_ebs"), ts + [MockEbs("_ebs")]);
    var ts1 := ts + [MockEbs("_ebs")];
    assert Matches(ts1[0], "shared_dir", Text("vol2"));
    assert FirstByParam(ts1, "shared_dir", Text("vol2")) == Some(0);
    assert TargetPartner(second, ts1) == (ts1[0], ts1);
    var bs := [first, second];
    assert bs[1..] == [second];
    var one := [second];
    assert one[0] == second && one[1..] == [];
    var rest := MatchGroup(one[1..], ts1);
    assert rest == ([], ts1);
    assert MatchGroup(one, ts1) == ([second.(sectionLabel := ts1[0].sectionLabel)] + rest.0, rest.1);
    assert second.(sectionLabel := ts1[0].sectionLabel) == EbsSection("ebs-2", "vol2");
    assert [EbsSection("ebs-2", "vol2")] + rest.0 == [EbsSection("ebs-2", "vol2")];
    assert MatchGroup(one, ts1) == ([EbsSection("ebs-2", "vol2")], ts1);
    assert first.(sectionLabel := "_ebs") == first;
    assert bs[0] == first && bs[1..] == one;
    assert MatchGroup(bs, ts) == ([first.(sectionLabel := MockEbs("_ebs").sectionLabel)] + MatchGroup(one, ts1).0, MatchGroup(one, ts1).1);
    assert [first] + [EbsSection("ebs-2", "vol2")] == [EbsSection("_ebs", "vol1"), EbsSection("ebs-2", "vol2")];
    assert ts1 == [EbsSection("ebs-2", "vol2"), MockEbs("_ebs")];
    assert MatchGroup(bs, ts) ==
      ([EbsSection("_ebs", "vol1"), EbsSection("ebs-2", "vol2")], [EbsSection("ebs-2", "vol2"), MockEbs("_ebs")]);
  }

  /** The only target cluster section is the partner of the base one. */
  lemma MatchClusterStep(x: string, y: string)
    ensures MatchGroup([ClusterSection(x).(sectionLabel := "_cluster")], [ClusterSection(y)]) ==
      ([ClusterSection(x)], [ClusterSection(y)])
  {
    var bs := [ClusterSection(x).(sectionLabel := "_cluster")];
    var ts := [ClusterSection(y)];
    assert TargetPartner(bs[0], ts) == (ts[0], ts);
    assert bs[1..] == [];
    var rest := MatchGroup(bs[1..], ts);
    assert rest == ([], ts);
    assert MatchGroup(bs, ts) == ([bs[0].(sectionLabel := ts[0].sectionLabel)] + rest.0, rest.1);
    assert bs[0].(sectionLabel := ts[0].sectionLabel) == ClusterSection(x);
    assert [ClusterSection(x)] + rest.0 == [ClusterSection(x)];
  }

  /** Neither configuration has an ignored key, so removing them changes nothing. */
  lemma NothingIgnored(c: Config)
    requires forall i :: 0 <= i < |c.groups| ==> c.groups[i].key !in IgnoredKeys
    ensures RemoveIgnored(c) == Success(c)
  {
    DropNothing(c.groups);
  }

  /** Neither scenario configuration has a `global` or `aliases` section. */
  lemma VolumesNotIgnored(file: string)
    ensures RemoveIgnored(TwoVolumes(file)) == Success(TwoVolumes(file))
    ensures RemoveIgnored(SecondVolumeOnly(file)) == Success(SecondVolumeOnly(file))
  {
    ScenarioKeys();
    KeysOfTwo(TwoVolumes(file));
    NothingIgnored(TwoVolumes(file));
    KeysOfTwo(SecondVolumeOnly(file));
    NothingIgnored(SecondVolumeOnly(file));
  }

  lemma ScenarioKeys()
    ensures "cluster" !in IgnoredKeys && "ebs" !in IgnoredKeys
  {
  }

  /** A configuration of a cluster group and an EBS group, in that order. */
  lemma KeysOfTwo(c: Config)
    requires |c.groups| == 2 && c.groups[0].key == "cluster" && c.groups[1].key == "ebs"
    requires "cluster" !in IgnoredKeys && "ebs" !in IgnoredKeys
    ensures forall i :: 0 <= i < |c.groups| ==> c.groups[i].key !in IgnoredKeys
  {
  }

  /** The base groups after renaming. */
  const RenamedGroups: seq<Group> :=
    [Group("cluster", [ClusterSection("ebs-1,ebs-2").(sectionLabel := "_cluster")]),
     Group("ebs", [EbsSection("_ebs", "vol1"), EbsSection("_ebs1", "vol2")])]

  /** The base groups after matching: `_ebs1` found its partner `ebs-2`, `_ebs` did not. */
  const MatchedGroups: seq<Group> :=
    [Group("cluster", [ClusterSection("ebs-1,ebs-2")]),
     Group("ebs", [EbsSection("_ebs", "vol1"), EbsSection("ebs-2", "vol2")])]

  /** The target after matching: a mock partner for `_ebs` was appended. */
  function MatchedTarget(file: string): Config {
    Config([Group("cluster", [ClusterSection("ebs-2")]),
            Group("ebs", [EbsSection("ebs-2", "vol2"), MockEbs("_ebs")])], file)
  }

  /** The base loop over two keys: the first key's matching may grow the
      target before the second key is matched. */
  lemma MatchAllOfTwo(g0: Group, g1: Group, t: Config)
    ensures var m0 := MatchGroup(g0.sections, GroupOf(t, g0.key));
      var t1 := SetGroup(t, g0.key, m0.1);
      var m1 := MatchGroup(g1.sections, GroupOf(t1, g1.key));
      MatchAll([g0, g1], t) == ([Group(g0.key, m0.0), Group(g1.key, m1.0)], SetGroup(t1, g1.key, m1.1))
  {
    var m0 := MatchGroup(g0.sections, GroupOf(t, g0.key));
    var t1 := SetGroup(t, g0.key, m0.1);
    var m1 := MatchGroup(g1.sections, GroupOf(t1, g1.key));
    var t2 := SetGroup(t1, g1.key, m1.1);
    assert [g1][1..] == [];
    assert MatchAll([g1], t1) == ([Group(g1.key, m1.0)] + MatchAll([], t2).0, MatchAll([], t2).1);
    assert [g0, g1][1..] == [g1];
    assert MatchAll([g0, g1], t) == ([Group(g0.key, m0.0)] + MatchAll([g1], t1).0, MatchAll([g1], t1).1);
    assert [Group(g0.key, m0.0)] + ([Group(g1.key, m1.0)] + []) == [Group(g0.key, m0.0), Group(g1.key, m1.0)];
  }

  /** The target loop over two keys. */
  lemma FillAllOfTwo(g0: Group, g1: Group, b: Config)
    ensures var b1 := SetGroup(b, g0.key, FillBase(g0.sections, GroupOf(b, g0.key)));
      FillAll([g0, g1], b) == SetGroup(b1, g1.key, FillBase(g1.sections, GroupOf(b1, g1.key)))
  {
    var b1 := SetGroup(b, g0.key, FillBase(g0.sections, GroupOf(b, g0.key)));
    var b2 := SetGroup(b1, g1.key, FillBase(g1.sections, GroupOf(b1, g1.key)));
    assert [g1][1..] == [];
    assert FillAll([g1], b1) == FillAll([], b2);
    assert [g0, g1][1..] == [g1];
    assert FillAll([g0, g1], b) == FillAll([g1], b1);
  }

  /** Matching over both keys. */
  lemma MatchAllStep(file: string)
    ensures MatchAll(RenamedGroups, SecondVolumeOnly(file)) == (MatchedGroups, MatchedTarget(file))
  {
    var t := SecondVolumeOnly(file);
    MatchAllOfTwo(RenamedGroups[0], RenamedGroups[1], t);
    MatchClusterStep("ebs-1,ebs-2", "ebs-2");
    MatchEbsStep();
    SecondVolumeGroups(file);
  }

  /** Looking up and storing the groups of the removal's target. */
  lemma SecondVolumeGroups(file: string)
    ensures GroupOf(SecondVolumeOnly(file), "cluster") == [ClusterSection("ebs-2")]
    ensures SetGroup(SecondVolumeOnly(file), "cluster", [ClusterSection("ebs-2")]) == SecondVolumeOnly(file)
    ensures GroupOf(SecondVolumeOnly(file), "ebs") == [EbsSection("ebs-2", "vol2")]
    ensures SetGroup(SecondVolumeOnly(file), "ebs", [EbsSection("ebs-2", "vol2"), MockEbs("_ebs")]) == MatchedTarget(file)
  {
  }

  /** Every target section already has a same-label base section, so the base gains no mock. */
  lemma FillStep(f: string, g: string)
    ensures FillAll(MatchedTarget(g).groups, Config(MatchedGroups, f)) == Config(MatchedGroups, f)
  {
    var b := Config(MatchedGroups, f);
    var tgs := MatchedTarget(g).groups;
    FillAllOfTwo(tgs[0], tgs[1], b);
    MatchedBaseGroups(f);
    FillMatchedCluster();
    FillMatchedEbs();
  }

  /** Looking up and storing the groups of the matched base. */
  lemma MatchedBaseGroups(f: string)
    ensures GroupOf(Config(MatchedGroups, f), "cluster") == [ClusterSection("ebs-1,ebs-2")]
    ensures SetGroup(Config(MatchedGroups, f), "cluster", [ClusterSection("ebs-1,ebs-2")]) == Config(MatchedGroups, f)
    ensures GroupOf(Config(MatchedGroups, f), "ebs") == [EbsSection("_ebs", "vol1"), EbsSection("ebs-2", "vol2")]
    ensures SetGroup(Config(MatchedGroups, f), "ebs", [EbsSection("_ebs", "vol1"), EbsSection("ebs-2", "vol2")]) ==
      Config(MatchedGroups, f)
  {
  }

  /** The base cluster section already carries the target's label. */
  lemma FillMatchedCluster()
    ensures FillBase([ClusterSection("ebs-2")], [ClusterSection("ebs-1,ebs-2")]) == [ClusterSection("ebs-1,ebs-2")]
  {
    var ts := [ClusterSection("ebs-2")];
    var bs := [ClusterSection("ebs-1,ebs-2")];
    assert bs[0].sectionLabel == ts[0].sectionLabel;
    assert HasLabel(bs, ts[0].sectionLabel);
    assert ts[1..] == [];
    assert FillBase(ts, bs) == FillBase(ts[1..], bs);
  }

  /** Both target EBS labels, `ebs-2` and `_ebs`, are already in the base. */
  lemma FillMatchedEbs()
    ensures FillBase([EbsSection("ebs-2", "vol2"), MockEbs("_ebs")], [EbsSection("_ebs", "vol1"), EbsSection("ebs-2", "vol2")]) ==
      [EbsSection("_ebs", "vol1"), EbsSection("ebs-2", "vol2")]
  {
    var es := [EbsSection("_ebs", "vol1"), EbsSection("ebs-2", "vol2")];
    var us := [EbsSection("ebs-2", "vol2"), MockEbs("_ebs")];
    assert es[1].sectionLabel == "ebs-2" && es[0].sectionLabel == "_ebs";
    assert us[1..][1..] == [];
    assert FillBase(us, es) == FillBase(us[1..], es) == FillBase(us[1..][1..], es);
  }


  /** The settings value of two EBS sections lists both labels in sorted order. */
  lemma SettingsOfTwo(a: string, da: string, b: string, db: string)
    requires LexLe(a, b)
    ensures SettingsValue([EbsSection(a, da), EbsSection(b, db)]) == a + "," + b
  {
    var ss := [EbsSection(a, da), EbsSection(b, db)];
    assert ss[1..][1..] == [];
    assert NonMockLabels(ss) == [a, b];
    SettingsValueCharacterization(ss, [a, b]);
  }

  lemma SettingsOfOne(a: string, dir: string)
    ensures SettingsValue([EbsSection(a, dir)]) == a
  {
    SettingsValueCharacterization([EbsSection(a, dir)], [a]);
  }

  /** The adapted base lists the renamed `_ebs`, which sorts before `ebs-2`. */
  lemma AdaptedBaseSettings()
    ensures SettingsValue([EbsSection("_ebs", "vol1"), EbsSection("ebs-2", "vol2")]) == "_ebs,ebs-2"
  {
    LexLeAt("_ebs", "ebs-2", 0);
    SettingsOfTwo("_ebs", "vol1", "ebs-2", "vol2");
    RenamedPair();
  }

  lemma RenamedPair()
    ensures "_ebs" + "," + "ebs-2" == "_ebs,ebs-2"
  {
  }

  /** A mock section is never listed. */
  lemma SettingsWithMock()
    ensures SettingsValue([EbsSection("ebs-2", "vol2"), MockEbs("_ebs")]) == "ebs-2"
  {
    var ss := [EbsSection("ebs-2", "vol2"), MockEbs("_ebs")];
    assert ss[1..][1..] == [];
    assert NonMockLabels(ss) == ["ebs-2"];
    SettingsValueCharacterization(ss, ["ebs-2"]);
  }

  /** The EBS sections: `ebs-2` is unchanged, the mock partner of `_ebs` has lost its directory. */
  lemma FrontStep(f: string, g: string)
    ensures CompareGroups(Config(MatchedGroups, f), MatchedTarget(g), MatchedTarget(g).groups) ==
      [Change("ebs", "_ebs", "shared_dir", Text("vol1"), NoValue, DENIED)]
  {
    var bc := Config(MatchedGroups, f);
    var tc := MatchedTarget(g);
    CompareGroupsAfterCluster(bc, tc, tc.groups[0], tc.groups[1]);
    CompareSectionsOfTwo(bc, tc, "ebs", EbsSection("ebs-2", "vol2"), MockEbs("_ebs"));
    MatchedBaseGroups(f);
    MatchedLookups();
    EbsUnchanged(bc, tc, "ebs-2", "ebs-2", "vol2");
    EbsLost(bc, tc, "_ebs", "vol1", "_ebs");
  }

  lemma MatchedLookups()
    ensures Lookup([EbsSection("_ebs", "vol1"), EbsSection("ebs-2", "vol2")], "ebs-2") == Some(EbsSection("ebs-2", "vol2"))
    ensures Lookup([EbsSection("_ebs", "vol1"), EbsSection("ebs-2", "vol2")], "_ebs") == Some(EbsSection("_ebs", "vol1"))
  {
  }

  /** The first phase of the comparison skips the cluster group. */
  lemma CompareGroupsAfterCluster(bc: Config, tc: Config, g0: Group, g1: Group)
    requires tc.groups == [g0, g1] && g0.key == "cluster" && g1.key != "cluster"
    ensures CompareGroups(bc, tc, tc.groups) == CompareSections(bc, tc, g1.key, g1.sections)
  {
    assert [g0, g1][1..] == [g1];
    assert [g1][1..] == [];
    assert CompareGroups(bc, tc, [g1]) == CompareSections(bc, tc, g1.key, g1.sections) + CompareGroups(bc, tc, []);
  }

  /** Two target sections of a key, each compared with its same-label base section. */
  lemma CompareSectionsOfTwo(bc: Config, tc: Config, key: string, s0: Section, s1: Section)
    ensures CompareSections(bc, tc, key, [s0, s1]) ==
      CompareSection(bc, tc, key, Lookup(GroupOf(bc, key), s0.sectionLabel), s0) +
      CompareSection(bc, tc, key, Lookup(GroupOf(bc, key), s1.sectionLabel), s1)
  {
    assert [s0, s1][1..] == [s1];
    assert [s1][1..] == [];
    assert CompareSections(bc, tc, key, [s1]) ==
      CompareSection(bc, tc, key, Lookup(GroupOf(bc, key), s1.sectionLabel), s1) + CompareSections(bc, tc, key, []);
  }

  /** An EBS section whose directory did not change yields no change. */
  lemma EbsUnchanged(bc: Config, tc: Config, a: string, lbl: string, dir: string)
    ensures CompareSection(bc, tc, "ebs", Some(EbsSection(a, dir)), EbsSection(lbl, dir)) == []
  {
    var p := EbsSection(lbl, dir).params[0];
    assert FindParam(EbsSection(a, dir).params, "shared_dir") == Some(EbsSection(a, dir).params[0]);
    assert !Differs(bc, tc, Some(EbsSection(a, dir)), p);
    assert EbsSection(lbl, dir).params[1..] == [];
    assert CompareParams(bc, tc, "ebs", lbl, Some(EbsSection(a, dir)), [p]) ==
      (if Differs(bc, tc, Some(EbsSection(a, dir)), p) then [ChangeFor(bc, tc, "ebs", lbl, Some(EbsSection(a, dir)), p)] else []) +
      CompareParams(bc, tc, "ebs", lbl, Some(EbsSection(a, dir)), []);
  }

  /** An EBS section whose target partner is a mock loses its directory. */
  lemma EbsLost(bc: Config, tc: Config, a: string, dir: string, lbl: string)
    ensures CompareSection(bc, tc, "ebs", Some(EbsSection(a, dir)), MockEbs(lbl)) ==
      [Change("ebs", lbl, "shared_dir", Text(dir), NoValue, DENIED)]
  {
    var p := MockEbs(lbl).params[0];
    assert FindParam(EbsSection(a, dir).params, "shared_dir") == Some(EbsSection(a, dir).params[0]);
    assert Differs(bc, tc, Some(EbsSection(a, dir)), p);
    assert MockEbs(lbl).params[1..] == [];
    assert CompareParams(bc, tc, "ebs", lbl, Some(EbsSection(a, dir)), [p]) ==
      (if Differs(bc, tc, Some(EbsSection(a, dir)), p) then [ChangeFor(bc, tc, "ebs", lbl, Some(EbsSection(a, dir)), p)] else []) +
      CompareParams(bc, tc, "ebs", lbl, Some(EbsSection(a, dir)), []);
  }

  /** A new EBS section, whose base partner is a mock, gains its directory. */
  lemma EbsGained(bc: Config, tc: Config, a: string, lbl: string, dir: string)
    ensures CompareSection(bc, tc, "ebs", Some(MockEbs(a)), EbsSection(lbl, dir)) ==
      [Change("ebs", lbl, "shared_dir", NoValue, Text(dir), DENIED)]
  {
    var p := EbsSection(lbl, dir).params[0];
    assert FindParam(MockEbs(a).params, "shared_dir") == Some(MockEbs(a).params[0]);
    assert Differs(bc, tc, Some(MockEbs(a)), p);
    assert EbsSection(lbl, dir).params[1..] == [];
    assert CompareParams(bc, tc, "ebs", lbl, Some(MockEbs(a)), [p]) ==
      (if Differs(bc, tc, Some(MockEbs(a)), p) then [ChangeFor(bc, tc, "ebs", lbl, Some(MockEbs(a)), p)] else []) +
      CompareParams(bc, tc, "ebs", lbl, Some(MockEbs(a)), []);
  }

  /** Removing the mocks leaves the matched base alone and takes the target back to where it started. */
  lemma RemoveMocksStep(f: string, g: string)
    ensures RemoveMocks(Config(MatchedGroups, f)) == Config(MatchedGroups, f)
    ensures RemoveMocks(MatchedTarget(g)) == SecondVolumeOnly(g)
  {
    RemoveMockGroupsOfTwo(MatchedGroups[0], MatchedGroups[1]);
    NonMockOne(ClusterSection("ebs-1,ebs-2"));
    NonMockTwo(EbsSection("_ebs", "vol1"), EbsSection("ebs-2", "vol2"));
    var tgs := MatchedTarget(g).groups;
    RemoveMockGroupsOfTwo(tgs[0], tgs[1]);
    NonMockOne(ClusterSection("ebs-2"));
    NonMockTrailing(EbsSection("ebs-2", "vol2"), MockEbs("_ebs"));
  }

  lemma RemoveMockGroupsOfTwo(g0: Group, g1: Group)
    ensures RemoveMockGroups([g0, g1]) == [Group(g0.key, NonMock(g0.sections)), Group(g1.key, NonMock(g1.sections))]
  {
  }

  lemma NonMockOne(s: Section)
    requires !s.mock
    ensures NonMock([s]) == [s]
  {
  }

  lemma NonMockTwo(s0: Section, s1: Section)
    requires !s0.mock && !s1.mock
    ensures NonMock([s0, s1]) == [s0, s1]
  {
  }

  lemma NonMockTrailing(s: Section, m: Section)
    requires !s.mock && m.mock
    ensures NonMock([s, m]) == [s]
  {
    assert [s, m][1..] == [m] && [m][1..] == [];
  }


  /** The cluster comparison: the only cluster parameter is `ebs_settings`,
      whose value on each side is the settings value of that side's EBS group. */
  lemma ClusterParamsStep(b: Config, t: Config, x: string, y: string, u: string, v: string)
    requires SettingsValue(GroupOf(b, "ebs")) == u && SettingsValue(GroupOf(t, "ebs")) == v && u != v
    ensures CompareSection(b, t, "cluster", Some(ClusterSection(x)), ClusterSection(y)) ==
      [Change("cluster", "default", "ebs_settings", Text(u), Text(v), EbsSettingsPolicy)]
  {
    var bs := ClusterSection(x);
    var ps := ClusterSection(y).params;
    assert ps[1..] == [];
    assert FindParam(bs.params, "ebs_settings") == Some(bs.params[0]);
    assert BaseValue(b, Some(bs), "ebs_settings") == Text(u);
    assert EffectiveValue(t, ps[0]) == Text(v);
    assert CompareParams(b, t, "cluster", "default", Some(bs), ps[1..]) == [];
    assert CompareParams(b, t, "cluster", "default", Some(bs), ps) ==
      [Change("cluster", "default", "ebs_settings", Text(u), Text(v), EbsSettingsPolicy)] + [];
  }

  /** `Compare` in two parts: the non-cluster changes, then the cluster ones
      computed without mocks. */
  lemma CompareInParts(bc: Config, tc: Config, b: Config, t: Config, cb: Section, ct: Section, front: seq<Change>, tail: seq<Change>)
    requires CompareGroups(bc, tc, tc.groups) == front
    requires RemoveMocks(bc) == b && RemoveMocks(tc) == t
    requires GroupOf(b, "cluster") == [cb] && GroupOf(t, "cluster") == [ct]
    requires CompareSection(b, t, "cluster", Some(cb), ct) == tail
    ensures Compare(bc, tc) == Success(front + tail)
  {
  }

  /** The two changes the removal of `ebs-1` yields. */
  const DirectoryLost: Change := Change("ebs", "_ebs", "shared_dir", Text("vol1"), NoValue, DENIED)
  const SettingsShrunk: Change :=
    Change("cluster", "default", "ebs_settings", Text("_ebs,ebs-2"), Text("ebs-2"), EbsSettingsPolicy)

  lemma PairConcat(x: Change, y: Change)
    ensures [x] + [y] == [x, y]
  {
  }

  /** The whole comparison of the adapted pair. */
  lemma ClusterStep(f: string, g: string)
    ensures Compare(Config(MatchedGroups, f), MatchedTarget(g)) == Success([DirectoryLost, SettingsShrunk])
  {
    var b := Config(MatchedGroups, f);
    var t := SecondVolumeOnly(g);
    var tc := MatchedTarget(g);
    assert CompareGroups(b, tc, tc.groups) == [DirectoryLost] by { FrontStep(f, g); }
    assert RemoveMocks(b) == b && RemoveMocks(tc) == t by { RemoveMocksStep(f, g); }
    assert GroupOf(b, "cluster") == [ClusterSection("ebs-1,ebs-2")];
    assert GroupOf(t, "cluster") == [ClusterSection("ebs-2")];
    assert CompareSection(b, t, "cluster", Some(ClusterSection("ebs-1,ebs-2")), ClusterSection("ebs-2")) == [SettingsShrunk] by {
      assert SettingsValue(GroupOf(b, "ebs")) == "_ebs,ebs-2" by {
        assert GroupOf(b, "ebs") == [EbsSection("_ebs", "vol1"), EbsSection("ebs-2", "vol2")];
        AdaptedBaseSettings();
      }
      assert SettingsValue(GroupOf(t, "ebs")) == "ebs-2" by {
        assert GroupOf(t, "ebs") == [EbsSection("ebs-2", "vol2")];
        SettingsOfOne("ebs-2", "vol2");
      }
      assert "_ebs,ebs-2" != "ebs-2" by { assert |"_ebs,ebs-2"| != |"ebs-2"|; }
      ClusterParamsStep(b, t, "ebs-1,ebs-2", "ebs-2", "_ebs,ebs-2", "ebs-2");
    }
    CompareInParts(b, tc, b, t, ClusterSection("ebs-1,ebs-2"), ClusterSection("ebs-2"), [DirectoryLost], [SettingsShrunk]);
    PairConcat(DirectoryLost, SettingsShrunk);
  }

  /** Removing section `ebs-1` from the target: the base section, renamed `_ebs`,
      finds no target section with its directory, so a mock partner stands in
      for it; the settings parameter loses the label. Both changes are denied. */
  lemma RemovingAnEbsSection()
    ensures NewPatch(TwoVolumes("base.ini"), SecondVolumeOnly("target.ini")).Success?
    ensures NewPatch(TwoVolumes("base.ini"), SecondVolumeOnly("target.ini")).value.changes ==
      [DirectoryLost, SettingsShrunk]
    ensures UpdatePolicyLevel(NewPatch(TwoVolumes("base.ini"), SecondVolumeOnly("target.ini")).value.changes) == 1000
  {
    RemovalPatch("base.ini", "target.ini");
    DeniedPairLevel(DirectoryLost, SettingsShrunk);
  }

  /** The removal's patch, whatever the file names. */
  lemma RemovalPatch(f: string, g: string)
    ensures NewPatch(TwoVolumes(f), SecondVolumeOnly(g)) ==
      Success(ConfigPatch(Config(MatchedGroups, f), MatchedTarget(g), [DirectoryLost, SettingsShrunk]))
  {
    RemovalAdapts(f, g);
    ClusterStep(f, g);
    PatchOfAdaptedPair(TwoVolumes(f), SecondVolumeOnly(g), Config(MatchedGroups, f), MatchedTarget(g),
                       [DirectoryLost, SettingsShrunk]);
  }

  /** The adaptation of the removal, whatever the file names. */
  lemma RemovalAdapts(f: string, g: string)
    ensures Adapt(TwoVolumes(f), SecondVolumeOnly(g)) == Success((Config(MatchedGroups, f), MatchedTarget(g)))
  {
    VolumesNotIgnored(f);
    VolumesNotIgnored(g);
    RenameStep(f);
    MatchAllStep(g);
    FillStep(f, g);
    AdaptInSteps(TwoVolumes(f), SecondVolumeOnly(g), RenamedGroups, MatchedGroups, MatchedTarget(g), Config(MatchedGroups, f));
  }

  /** `_adapt` as its four steps: removal of the ignored keys (a no-op here),
      renaming, the base loop and the target loop. */
  lemma AdaptInSteps(base: Config, target: Config, renamed: seq<Group>, matched: seq<Group>, t1: Config, b2: Config)
    requires RemoveIgnored(base) == Success(base) && RemoveIgnored(target) == Success(target)
    requires RenameGroups(base.groups) == renamed
    requires MatchAll(renamed, target) == (matched, t1)
    requires FillAll(t1.groups, base.(groups := matched)) == b2
    ensures Adapt(base, target) == Success((b2, t1))
  {
  }

  /** Two changes at DENIED's level put the patch at that level. */
  lemma DeniedPairLevel(x: Change, y: Change)
    requires x.policy.level == 1000 && y.policy.level == 1000
    ensures UpdatePolicyLevel([x, y]) == 1000
  {
    assert [x, y][1..] == [y];
  }

  /** A settings value follows the labels of its sections: relabelling
      `ebs1` to `ebs1_updated` renames it in the value, removing `ebs2` drops
      it, adding it back restores it. */
  lemma SettingsFollowLabels()
    ensures SettingsValue([EbsSection("ebs1", "ebs1"), EbsSection("ebs2", "ebs2")]) == "ebs1,ebs2"
    ensures SettingsValue([EbsSection("ebs1_updated", "ebs1"), EbsSection("ebs2", "ebs2")]) == "ebs1_updated,ebs2"
    ensures SettingsValue([EbsSection("ebs1_updated", "ebs1")]) == "ebs1_updated"
    ensures SettingsValue([EbsSection("ebs2", "ebs2"), EbsSection("ebs1_updated", "ebs1")]) == "ebs1_updated,ebs2"
  {
    InitialSettings();
    RelabelledSettings();
    SettingsOfOne("ebs1_updated", "ebs1");
    ReaddedSettings();
  }

  lemma InitialSettings()
    ensures SettingsValue([EbsSection("ebs1", "ebs1"), EbsSection("ebs2", "ebs2")]) == "ebs1,ebs2"
  {
    LexLeAt("ebs1", "ebs2", 3);
    SettingsOfTwo("ebs1", "ebs1", "ebs2", "ebs2");
    InitialPair();
  }

  lemma InitialPair()
    ensures "ebs1" + "," + "ebs2" == "ebs1,ebs2"
  {
  }

  lemma RelabelledSettings()
    ensures SettingsValue([EbsSection("ebs1_updated", "ebs1"), EbsSection("ebs2", "ebs2")]) == "ebs1_updated,ebs2"
  {
    LexLeAt("ebs1_updated", "ebs2", 3);
    SettingsOfTwo("ebs1_updated", "ebs1", "ebs2", "ebs2");
    UpdatedPair();
  }

  lemma ReaddedSettings()
    ensures SettingsValue([EbsSection("ebs2", "ebs2"), EbsSection("ebs1_updated", "ebs1")]) == "ebs1_updated,ebs2"
  {
    LexLeAt("ebs1_updated", "ebs2", 3);
    SettingsOfTwoSwapped("ebs1_updated", "ebs1", "ebs2", "ebs2");
    UpdatedPair();
  }

  lemma UpdatedPair()
    ensures "ebs1_updated" + "," + "ebs2" == "ebs1_updated,ebs2"
  {
  }

  /** Section order does not matter: the labels are sorted. */
  lemma SettingsOfTwoSwapped(a: string, da: string, b: string, db: string)
    requires LexLe(a, b)
    ensures SettingsValue([EbsSection(b, db), EbsSection(a, da)]) == a + "," + b
  {
    var ss := [EbsSection(b, db), EbsSection(a, da)];
    assert ss[1..][1..] == [];
    assert NonMockLabels(ss) == [b, a];
    assert multiset([b, a]) == multiset([a, b]);
    SettingsValueCharacterization(ss, [a, b]);
  }

  // ---------------------------------------------------------------------------
  // Adding an EBS section: the mirror image
  // ---------------------------------------------------------------------------

  /** The two changes the addition of `ebs-1` yields. */
  const DirectoryGained: Change := Change("ebs", "ebs-1", "shared_dir", NoValue, Text("vol1"), DENIED)
  const SettingsGrown: Change :=
    Change("cluster", "default", "ebs_settings", Text("ebs-2"), Text("ebs-1,ebs-2"), EbsSettingsPolicy)

  /** The single base EBS section is renamed `_ebs`. */
  lemma RenameOneStep(f: string)
    ensures RenameGroups(SecondVolumeOnly(f).groups) ==
      [Group("cluster", [ClusterSection("ebs-2").(sectionLabel := "_cluster")]),
       Group("ebs", [EbsSection("_ebs", "vol2")])]
  {
    var gs := SecondVolumeOnly(f).groups;
    RenameGroupsOfTwo(gs[0], gs[1]);
    RenameOne("cluster", ClusterSection("ebs-2"));
    RenameOne("ebs", EbsSection("ebs-2", "vol2"));
    SyntheticLabels();
  }


  /** `_ebs` is matched by directory to the second target section, `ebs-2`; no mock is needed. */
  lemma MatchOneEbsStep()
    ensures MatchGroup([EbsSection("_ebs", "vol2")], [EbsSection("ebs-1", "vol1"), EbsSection("ebs-2", "vol2")]) ==
      ([EbsSection("ebs-2", "vol2")], [EbsSection("ebs-1", "vol1"), EbsSection("ebs-2", "vol2")])
  {
    var ts := [EbsSection("ebs-1", "vol1"), EbsSection("ebs-2", "vol2")];
    var only := EbsSection("_ebs", "vol2");
    assert KeyValue(only) == Text("vol2");
    assert !Matches(ts[0], "shared_dir", Text("vol2"));
    assert Matches(ts[1], "shared_dir", Text("vol2"));
    assert ts[1..][0] == ts[1];
    assert FirstByParam(ts[1..], "shared_dir", Text("vol2")) == Some(0);
    assert FirstByParam(ts, "shared_dir", Text("vol2")) == Some(1);
    assert TargetPartner(only, ts) == (ts[1], ts);
    var bs := [only];
    assert bs[0] == only && bs[1..] == [];
    var rest := MatchGroup(bs[1..], ts);
    assert rest == ([], ts);
    assert MatchGroup(bs, ts) == ([only.(sectionLabel := ts[1].sectionLabel)] + rest.0, rest.1);
    assert only.(sectionLabel := ts[1].sectionLabel) == EbsSection("ebs-2", "vol2");
    assert [EbsSection("ebs-2", "vol2")] + rest.0 == [EbsSection("ebs-2", "vol2")];
  }

  /** Matching leaves the target as it is and gives the base back its original labels. */
  lemma MatchOneAllStep(f: string, g: string)
    ensures MatchAll(RenameGroups(SecondVolumeOnly(f).groups), TwoVolumes(g)) == (SecondVolumeOnly(f).groups, TwoVolumes(g))
  {
    RenameOneStep(f);
    var bgs := RenameGroups(SecondVolumeOnly(f).groups);
    MatchAllOfTwo(bgs[0], bgs[1], TwoVolumes(g));
    MatchClusterStep("ebs-2", "ebs-1,ebs-2");
    MatchOneEbsStep();
    TwoVolumesGroups(g);
    SecondVolumeGroupsOf(f);
  }

  /** Looking up and storing the groups of the addition's target. */
  lemma TwoVolumesGroups(file: string)
    ensures GroupOf(TwoVolumes(file), "cluster") == [ClusterSection("ebs-1,ebs-2")]
    ensures SetGroup(TwoVolumes(file), "cluster", [ClusterSection("ebs-1,ebs-2")]) == TwoVolumes(file)
    ensures GroupOf(TwoVolumes(file), "ebs") == [EbsSection("ebs-1", "vol1"), EbsSection("ebs-2", "vol2")]
    ensures SetGroup(TwoVolumes(file), "ebs", [EbsSection("ebs-1", "vol1"), EbsSection("ebs-2", "vol2")]) == TwoVolumes(file)
  {
  }

  lemma SecondVolumeGroupsOf(file: string)
    ensures SecondVolumeOnly(file).groups == [Group("cluster", [ClusterSection("ebs-2")]), Group("ebs", [EbsSection("ebs-2", "vol2")])]
  {
  }

  /** The base after filling: a mock partner for the target's new `ebs-1`. */
  function FilledBase(file: string): Config {
    Config([Group("cluster", [ClusterSection("ebs-2")]),
            Group("ebs", [EbsSection("ebs-2", "vol2"), MockEbs("ebs-1")])], file)
  }

  /** The target loop of the addition gives the base a mock `ebs-1`. */
  lemma FillOneStep(f: string, g: string)
    ensures FillAll(TwoVolumes(g).groups, SecondVolumeOnly(f)) == FilledBase(f)
  {
    var tgs := TwoVolumes(g).groups;
    FillAllOfTwo(tgs[0], tgs[1], SecondVolumeOnly(f));
    SecondVolumeGroups(f);
    FillOneCluster();
    FillOneEbs();
    FilledBaseStored(f);
  }

  lemma FilledBaseStored(f: string)
    ensures SetGroup(SecondVolumeOnly(f), "ebs", [EbsSection("ebs-2", "vol2"), MockEbs("ebs-1")]) == FilledBase(f)
  {
  }

  /** The base cluster section already carries the target's label. */
  lemma FillOneCluster()
    ensures FillBase([ClusterSection("ebs-1,ebs-2")], [ClusterSection("ebs-2")]) == [ClusterSection("ebs-2")]
  {
    var ts := [ClusterSection("ebs-1,ebs-2")];
    var bs := [ClusterSection("ebs-2")];
    assert bs[0].sectionLabel == ts[0].sectionLabel;
    assert HasLabel(bs, ts[0].sectionLabel);
    assert ts[1..] == [];
    assert FillBase(ts, bs) == FillBase(ts[1..], bs);
  }

  /** `ebs-1` has no base section with its label, so a mock one is appended. */
  lemma FillOneEbs()
    ensures FillBase([EbsSection("ebs-1", "vol1"), EbsSection("ebs-2", "vol2")], [EbsSection("ebs-2", "vol2")]) ==
      [EbsSection("ebs-2", "vol2"), MockEbs("ebs-1")]
  {
    var es := [EbsSection("ebs-2", "vol2")];
    var us := [EbsSection("ebs-1", "vol1"), EbsSection("ebs-2", "vol2")];
    assert !HasLabel(es, "ebs-1");
    MockStep("ebs-1", "vol1");
    var es1 := es + [MockEbs("ebs-1")];
    assert FillBase(us, es) == FillBase(us[1..], es1);
    assert es1[0].sectionLabel == "ebs-2";
    assert us[1..][1..] == [];
    assert FillBase(us[1..], es1) == FillBase(us[1..][1..], es1) == es1;
  }


  /** The EBS sections: the mock partner of `ebs-1` has no directory, `ebs-2` is unchanged. */
  lemma FrontOneStep(f: string, g: string)
    ensures CompareGroups(FilledBase(f), TwoVolumes(g), TwoVolumes(g).groups) == [DirectoryGained]
  {
    var bc := FilledBase(f);
    var tc := TwoVolumes(g);
    CompareGroupsAfterCluster(bc, tc, tc.groups[0], tc.groups[1]);
    CompareSectionsOfTwo(bc, tc, "ebs", EbsSection("ebs-1", "vol1"), EbsSection("ebs-2", "vol2"));
    FilledBaseLookups(f);
    EbsGained(bc, tc, "ebs-1", "ebs-1", "vol1");
    EbsUnchanged(bc, tc, "ebs-2", "ebs-2", "vol2");
  }

  lemma FilledBaseLookups(f: string)
    ensures GroupOf(FilledBase(f), "ebs") == [EbsSection("ebs-2", "vol2"), MockEbs("ebs-1")]
    ensures Lookup([EbsSection("ebs-2", "vol2"), MockEbs("ebs-1")], "ebs-1") == Some(MockEbs("ebs-1"))
    ensures Lookup([EbsSection("ebs-2", "vol2"), MockEbs("ebs-1")], "ebs-2") == Some(EbsSection("ebs-2", "vol2"))
  {
  }


  lemma RemoveMocksOneStep(f: string, g: string)
    ensures RemoveMocks(FilledBase(f)) == SecondVolumeOnly(f)
    ensures RemoveMocks(TwoVolumes(g)) == TwoVolumes(g)
  {
    var bgs := FilledBase(f).groups;
    RemoveMockGroupsOfTwo(bgs[0], bgs[1]);
    NonMockOne(ClusterSection("ebs-2"));
    NonMockTrailing(EbsSection("ebs-2", "vol2"), MockEbs("ebs-1"));
    var tgs := TwoVolumes(g).groups;
    RemoveMockGroupsOfTwo(tgs[0], tgs[1]);
    NonMockOne(ClusterSection("ebs-1,ebs-2"));
    NonMockTwo(EbsSection("ebs-1", "vol1"), EbsSection("ebs-2", "vol2"));
  }


  /** The original labels sort `ebs-1` first. */
  lemma OriginalSettings()
    ensures SettingsValue([EbsSection("ebs-1", "vol1"), EbsSection("ebs-2", "vol2")]) == "ebs-1,ebs-2"
  {
    LabelOrder();
    SettingsOfTwo("ebs-1", "vol1", "ebs-2", "vol2");
    OriginalPair();
  }

  lemma OriginalPair()
    ensures "ebs-1" + "," + "ebs-2" == "ebs-1,ebs-2"
  {
  }

  /** The whole comparison of the adapted pair. */
  lemma CompareOneStep(f: string, g: string)
    ensures Compare(FilledBase(f), TwoVolumes(g)) == Success([DirectoryGained, SettingsGrown])
  {
    var bc := FilledBase(f);
    var b := SecondVolumeOnly(f);
    var t := TwoVolumes(g);
    assert CompareGroups(bc, t, t.groups) == [DirectoryGained] by { FrontOneStep(f, g); }
    assert RemoveMocks(bc) == b && RemoveMocks(t) == t by { RemoveMocksOneStep(f, g); }
    assert GroupOf(b, "cluster") == [ClusterSection("ebs-2")];
    assert GroupOf(t, "cluster") == [ClusterSection("ebs-1,ebs-2")];
    assert CompareSection(b, t, "cluster", Some(ClusterSection("ebs-2")), ClusterSection("ebs-1,ebs-2")) == [SettingsGrown] by {
      assert SettingsValue(GroupOf(b, "ebs")) == "ebs-2" by {
        assert GroupOf(b, "ebs") == [EbsSection("ebs-2", "vol2")];
        SettingsOfOne("ebs-2", "vol2");
      }
      assert SettingsValue(GroupOf(t, "ebs")) == "ebs-1,ebs-2" by {
        assert GroupOf(t, "ebs") == [EbsSection("ebs-1", "vol1"), EbsSection("ebs-2", "vol2")];
        OriginalSettings();
      }
      assert "ebs-2" != "ebs-1,ebs-2" by { assert |"ebs-2"| != |"ebs-1,ebs-2"|; }
      ClusterParamsStep(b, t, "ebs-2", "ebs-1,ebs-2", "ebs-2", "ebs-1,ebs-2");
    }
    CompareInParts(bc, t, b, t, ClusterSection("ebs-2"), ClusterSection("ebs-1,ebs-2"), [DirectoryGained], [SettingsGrown]);
    PairConcat(DirectoryGained, SettingsGrown);
  }

  /** Adding section `ebs-1` to the target: the base gets a mock partner for it,
      whose missing directory is one change; the settings parameter gains the
      label. Both changes are denied. */
  lemma AddingAnEbsSection()
    ensures NewPatch(SecondVolumeOnly("base.ini"), TwoVolumes("target.ini")).Success?
    ensures NewPatch(SecondVolumeOnly("base.ini"), TwoVolumes("target.ini")).value.changes ==
      [DirectoryGained, SettingsGrown]
    ensures UpdatePolicyLevel(NewPatch(SecondVolumeOnly("base.ini"), TwoVolumes("target.ini")).value.changes) == 1000
  {
    AdditionPatch("base.ini", "target.ini");
    DeniedPairLevel(DirectoryGained, SettingsGrown);
  }

  /** The addition's patch, whatever the file names. */
  lemma AdditionPatch(f: string, g: string)
    ensures NewPatch(SecondVolumeOnly(f), TwoVolumes(g)) ==
      Success(ConfigPatch(FilledBase(f), TwoVolumes(g), [DirectoryGained, SettingsGrown]))
  {
    AdditionAdapts(f, g);
    CompareOneStep(f, g);
    PatchOfAdaptedPair(SecondVolumeOnly(f), TwoVolumes(g), FilledBase(f), TwoVolumes(g), [DirectoryGained, SettingsGrown]);
  }

  /** The adaptation of the addition, whatever the file names. */
  lemma AdditionAdapts(f: string, g: string)
    ensures Adapt(SecondVolumeOnly(f), TwoVolumes(g)) == Success((FilledBase(f), TwoVolumes(g)))
  {
    VolumesNotIgnored(f);
    VolumesNotIgnored(g);
    MatchOneAllStep(f, g);
    FillOneStep(f, g);
    AdaptInSteps(SecondVolumeOnly(f), TwoVolumes(g), RenameGroups(SecondVolumeOnly(f).groups),
                 SecondVolumeOnly(f).groups, TwoVolumes(g), FilledBase(f));
  }

}
