/** `ConfigPatch`: the adapted configurations, the changes between them, the
    patch's update level and its check against the live cluster. */
module ConfigPatches {
  import opened Wrappers
  import opened Strings
  import opened UpdatePolicies
  import opened ConfigModel
  import opened Adaptation
  import opened Comparison

  /** A built patch: the adapted base and target configurations and the changes. */
  datatype ConfigPatch = ConfigPatch(base: Config, target: Config, changes: seq<Change>)

  /** `ConfigPatch(base_config, target_config)`: adapt, then compare. It fails
      when an ignored key holds several sections on either side, or when the
      adapted target has no cluster section left once mocks are removed. */
  function NewPatch(base: Config, target: Config): (r: Result<ConfigPatch, PatchError>)
    ensures r.Failure? && r.error.AmbiguousRemoval? ==>
      r.error.key in IgnoredKeys && (|GroupOf(base, r.error.key)| > 1 || |GroupOf(target, r.error.key)| > 1)
    ensures r.Success? ==> r.value.base.configFile == base.configFile && r.value.target.configFile == target.configFile
    ensures r.Success? ==> forall j :: 0 <= j < |r.value.changes| ==>
      !SameValue(r.value.changes[j].oldValue, r.value.changes[j].newValue)
  {
    var adapted :- Adapt(base, target);
    var changes :- Compare(adapted.0, adapted.1);
    CompareOrder(adapted.0, adapted.1);
    Success(ConfigPatch(adapted.0, adapted.1, changes))
  }

  /** After building a patch from configurations with one group per key, every
      key has the same section labels on the patch's base and target sides. */
  lemma PatchPairsSections(base: Config, target: Config)
    requires DistinctKeys(base.groups) && DistinctKeys(target.groups)
    ensures NewPatch(base, target).Success? ==>
      var p := NewPatch(base, target).value;
      forall k :: LabelSet(GroupOf(p.base, k)) == LabelSet(GroupOf(p.target, k))
  {
    if NewPatch(base, target).Success? {
      AdaptPairsSections(base, target);
    }
  }

  /** A built patch's changes are what `_compare` gives on its adapted pair. */
  lemma PatchChanges(base: Config, target: Config)
    requires NewPatch(base, target).Success?
    ensures var p := NewPatch(base, target).value;
      Compare(p.base, p.target) == Success(p.changes)
  {
  }

  /** "All sections in both configurations are compared one by one": every
      parameter of an adapted non-cluster target section whose value differs
      from the base section of the same key and label is among the patch's
      changes, and so is every differing parameter of the cluster section. */
  lemma PatchReportsEveryDifference(base: Config, target: Config)
    ensures NewPatch(base, target).Success? ==>
      var p := NewPatch(base, target).value;
      forall g, i, k | 0 <= g < |p.target.groups| && p.target.groups[g].key != "cluster" &&
                        0 <= i < |p.target.groups[g].sections| && 0 <= k < |p.target.groups[g].sections[i].params| ::
        var t := p.target.groups[g].sections[i];
        var b := Lookup(GroupOf(p.base, p.target.groups[g].key), t.sectionLabel);
        Differs(p.base, p.target, b, t.params[k]) ==>
          ChangeFor(p.base, p.target, p.target.groups[g].key, t.sectionLabel, b, t.params[k]) in p.changes
    ensures NewPatch(base, target).Success? ==>
      var p := NewPatch(base, target).value;
      NonMock(GroupOf(p.target, "cluster")) != [] &&
      var tcl := NonMock(GroupOf(p.target, "cluster"))[0];
      var b := First(NonMock(GroupOf(p.base, "cluster")));
      forall k | 0 <= k < |tcl.params| && Differs(RemoveMocks(p.base), RemoveMocks(p.target), b, tcl.params[k]) ::
        ChangeFor(RemoveMocks(p.base), RemoveMocks(p.target), "cluster", tcl.sectionLabel, b, tcl.params[k]) in p.changes
  {
    if NewPatch(base, target).Success? {
      var p := NewPatch(base, target).value;
      PatchChanges(base, target);
      CompareComplete(p.base, p.target);
    }
  }

  // ---------------------------------------------------------------------------
  // Update level
  // ---------------------------------------------------------------------------

  /** The largest policy level among non-empty `cs`. */
  function MaxLevel(cs: seq<Change>): (r: int)
    requires cs != []
    ensures exists i :: 0 <= i < |cs| && r == cs[i].policy.level
    ensures forall i :: 0 <= i < |cs| ==> cs[i].policy.level <= r
  {
    if |cs| == 1 then cs[0].policy.level
    else
      var m := MaxLevel(cs[1..]);
      assert forall i :: 1 <= i < |cs| ==> cs[i] == cs[1..][i - 1];
      if cs[0].policy.level >= m then cs[0].policy.level else m
  }

  /** `update_policy_level`: the maximum level over the changes, ALLOWED's
      level when there are none. */
  function UpdatePolicyLevel(cs: seq<Change>): (r: int)
    ensures cs == [] ==> r == ALLOWED.level
    ensures cs != [] ==> (exists i :: 0 <= i < |cs| && r == cs[i].policy.level) &&
                         (forall i :: 0 <= i < |cs| ==> cs[i].policy.level <= r)
  {
    if cs == [] then ALLOWED.level else MaxLevel(cs)
  }

  /** The level does not depend on the order of the changes. */
  lemma LevelOrderIndependent(a: seq<Change>, b: seq<Change>)
    requires multiset(a) == multiset(b)
    ensures UpdatePolicyLevel(a) == UpdatePolicyLevel(b)
  {
    if a != [] {
      assert |b| == |multiset(b)| == |multiset(a)| == |a|;
      var i :| 0 <= i < |a| && UpdatePolicyLevel(a) == a[i].policy.level;
      assert a[i] in multiset(b);
      var j :| 0 <= j < |b| && UpdatePolicyLevel(b) == b[j].policy.level;
      assert b[j] in multiset(a);
    } else {
      assert |b| == |multiset(b)| == 0;
    }
  }

  // ---------------------------------------------------------------------------
  // Check
  // ---------------------------------------------------------------------------

  /** One row of the check report; `reason` is `-` for a change whose check
      succeeded and the policy's failure reason (possibly `None`) otherwise. */
  datatype ReportRow = ReportRow(
    section: string,
    parameter: string,
    oldValue: Value,
    newValue: Value,
    check: string,
    reason: Option<string>)

  const Header: ReportRow :=
    ReportRow("section", "parameter", Text("old value"), Text("new value"), "check", Some("reason"))

  /** The section column: the key, then a space and the label when the label is not empty. */
  function SectionTitle(key: string, lbl: string): string {
    key + (if lbl != "" then " " else "") + lbl
  }

  /** The report row for a change that is not ignored. */
  function RowFor(c: Change, live: LiveState): ReportRow {
    var result := Check(c.policy, live);
    ReportRow(SectionTitle(c.sectionKey, c.sectionLabel), c.paramKey, c.oldValue, c.newValue, result.Value(),
              if result == Succeeded then Some("-") else c.policy.failReason)
  }

  /** The changes `check` reports: those whose policy is not equal to IGNORED, in order. */
  function Reported(cs: seq<Change>): (r: seq<Change>)
    ensures |r| <= |cs|
    ensures forall j :: 0 <= j < |r| ==> r[j] in cs && !IsIgnored(r[j].policy)
    ensures forall i :: 0 <= i < |cs| && !IsIgnored(cs[i].policy) ==> cs[i] in r
  {
    if cs == [] then []
    else
      var last := cs[|cs| - 1];
      var init := cs[..|cs| - 1];
      assert cs == init + [last];
      Reported(init) + (if IsIgnored(last.policy) then [] else [last])
  }

  /** `check` walks the changes in order and keeps each non-ignored one once:
      reporting distributes over concatenation, and a single change is reported
      alone exactly when its policy is not IGNORED. Together these fix the
      report of every list, in order and with multiplicity. */
  lemma {:induction false} ReportedConcat(a: seq<Change>, b: seq<Change>)
    ensures Reported(a + b) == Reported(a) + Reported(b)
    decreases |b|
  {
    if b == [] {
      assert a + b == a;
    } else {
      var init, last := b[..|b| - 1], b[|b| - 1];
      var tail := if IsIgnored(last.policy) then [] else [last];
      assert b == init + [last];
      assert a + b == (a + init) + [last];
      calc {
        Reported(a + b);
        == { ReportedSnoc(a + init, last); }
        Reported(a + init) + tail;
        == { ReportedConcat(a, init); }
        (Reported(a) + Reported(init)) + tail;
        == { ReportedSnoc(init, last); }
        Reported(a) + Reported(b);
      }
    }
  }

  /** One step of `check`'s loop: the last change is reported after the others unless it is ignored. */
  lemma ReportedSnoc(cs: seq<Change>, c: Change)
    ensures Reported(cs + [c]) == Reported(cs) + (if IsIgnored(c.policy) then [] else [c])
  {
    assert (cs + [c])[..|cs|] == cs;
  }

  /** A single change is reported exactly when its policy is not IGNORED. */
  lemma ReportedSingle(c: Change)
    ensures Reported([c]) == if IsIgnored(c.policy) then [] else [c]
  {
    assert [c][..0] == [];
  }

  /** `$CONFIG_FILE` becomes the target file, then `$CLUSTER_NAME` the base file. */
  function Substitute(text: string, targetFile: string, baseFile: string): string {
    ReplaceAll(ReplaceAll(text, "$CONFIG_FILE", targetFile), "$CLUSTER_NAME", baseFile)
  }

  /** A text without placeholders is left as it is. */
  lemma SubstituteWithoutPlaceholders(text: string, targetFile: string, baseFile: string)
    requires !Contains(text, "$CONFIG_FILE") && !Contains(text, "$CLUSTER_NAME")
    ensures Substitute(text, targetFile, baseFile) == text
  {
  }

  /** The change is reported, its check did not succeed, and its policy has a
      remediation text. */
  predicate NeedsAction(c: Change, live: LiveState) {
    !IsIgnored(c.policy) && Check(c.policy, live) != Succeeded && TruthyText(c.policy.actionNeeded)
  }

  /** The remediation text of a change, placeholders substituted. */
  function ActionText(p: ConfigPatch, c: Change): string
    requires c.policy.actionNeeded.Some?
  {
    Substitute(c.policy.actionNeeded.value, p.target.configFile, p.base.configFile)
  }

  /** The verdict after the changes `cs`, built change by change. */
  predicate AllSucceed(cs: seq<Change>, live: LiveState) {
    if cs == [] then true
    else
      var last := cs[|cs| - 1];
      AllSucceed(cs[..|cs| - 1], live) && (IsIgnored(last.policy) || Check(last.policy, live) == Succeeded)
  }

  /** The report rows after the changes `cs`, built change by change. */
  function Rows(cs: seq<Change>, live: LiveState): seq<ReportRow> {
    if cs == [] then [Header]
    else
      var last := cs[|cs| - 1];
      Rows(cs[..|cs| - 1], live) + (if IsIgnored(last.policy) then [] else [RowFor(last, live)])
  }

  /** The remediation texts after the changes `cs`, built change by change. */
  function Actions(p: ConfigPatch, cs: seq<Change>, live: LiveState): set<string> {
    if cs == [] then {}
    else
      var last := cs[|cs| - 1];
      Actions(p, cs[..|cs| - 1], live) + (if NeedsAction(last, live) then {ActionText(p, last)} else {})
  }

  lemma {:induction false} AllSucceedMeans(cs: seq<Change>, live: LiveState)
    ensures AllSucceed(cs, live) <==>
      forall i :: 0 <= i < |cs| && !IsIgnored(cs[i].policy) ==> Check(cs[i].policy, live) == Succeeded
    decreases |cs|
  {
    if cs != [] {
      var init := cs[..|cs| - 1];
      AllSucceedMeans(init, live);
      assert forall i :: 0 <= i < |init| ==> init[i] == cs[i];
    }
  }

  lemma {:induction false} RowsMeans(cs: seq<Change>, live: LiveState)
    ensures |Rows(cs, live)| == |Reported(cs)| + 1 && Rows(cs, live)[0] == Header
    ensures forall j :: 0 <= j < |Reported(cs)| ==> Rows(cs, live)[j + 1] == RowFor(Reported(cs)[j], live)
    decreases |cs|
  {
    if cs != [] {
      var init := cs[..|cs| - 1];
      RowsMeans(init, live);
    }
  }

  lemma {:induction false} ActionsMeans(p: ConfigPatch, cs: seq<Change>, live: LiveState)
    ensures forall a :: a in Actions(p, cs, live) <==>
      exists i :: 0 <= i < |cs| && NeedsAction(cs[i], live) && a == ActionText(p, cs[i])
    decreases |cs|
  {
    if cs != [] {
      var init := cs[..|cs| - 1];
      ActionsMeans(p, init, live);
      assert forall i :: 0 <= i < |init| ==> init[i] == cs[i];
      forall a | a in Actions(p, cs, live)
        ensures exists i :: 0 <= i < |cs| && NeedsAction(cs[i], live) && a == ActionText(p, cs[i])
      {
        if a !in Actions(p, init, live) {
          assert NeedsAction(cs[|cs| - 1], live) && a == ActionText(p, cs[|cs| - 1]);
        }
      }
      forall a | exists i :: 0 <= i < |cs| && NeedsAction(cs[i], live) && a == ActionText(p, cs[i])
        ensures a in Actions(p, cs, live)
      {
        var i :| 0 <= i < |cs| && NeedsAction(cs[i], live) && a == ActionText(p, cs[i]);
        if i < |init| {
          assert init[i] == cs[i];
        }
      }
    }
  }

  /** `ConfigPatch.check`: the patch is allowed iff every reported change checks
      SUCCEEDED; the rows are the header then one row per reported change, in
      order; the actions are the substituted remediation texts of exactly the
      reported changes whose check did not succeed. */
  method CheckPatch(p: ConfigPatch, live: LiveState) returns (allowed: bool, rows: seq<ReportRow>, actionsNeeded: set<string>)
    ensures allowed <==> forall i :: 0 <= i < |p.changes| && !IsIgnored(p.changes[i].policy) ==>
      Check(p.changes[i].policy, live) == Succeeded
    ensures |rows| == |Reported(p.changes)| + 1 && rows[0] == Header
    ensures forall j :: 0 <= j < |Reported(p.changes)| ==> rows[j + 1] == RowFor(Reported(p.changes)[j], live)
    ensures forall a :: a in actionsNeeded <==>
      exists i :: 0 <= i < |p.changes| && NeedsAction(p.changes[i], live) && a == ActionText(p, p.changes[i])
  {
    rows := [Header];
    actionsNeeded := {};
    allowed := true;
    var i := 0;
    while i < |p.changes|
      invariant 0 <= i <= |p.changes|
      invariant allowed == AllSucceed(p.changes[..i], live)
      invariant rows == Rows(p.changes[..i], live)
      invariant actionsNeeded == Actions(p, p.changes[..i], live)
    {
      var c := p.changes[i];
      assert p.changes[..i + 1][..i] == p.changes[..i];
      assert p.changes[..i + 1][i] == c;
      if !IsIgnored(c.policy) {
        var result := Check(c.policy, live);
        var reason := Some("-");
        if result != Succeeded {
          reason := c.policy.failReason;
          allowed := false;
          if TruthyText(c.policy.actionNeeded) {
            actionsNeeded := actionsNeeded + {ActionText(p, c)};
          }
        }
        rows := rows + [ReportRow(SectionTitle(c.sectionKey, c.sectionLabel), c.paramKey, c.oldValue, c.newValue,
                                  result.Value(), reason)];
      }
      i := i + 1;
    }
    assert p.changes[..i] == p.changes;
    AllSucceedMeans(p.changes, live);
    RowsMeans(p.changes, live);
    ActionsMeans(p, p.changes, live);
  }

  // ---------------------------------------------------------------------------
  // Patches without changes
  // ---------------------------------------------------------------------------

  lemma WellFormedDropIgnored(c: Config)
    requires WellFormed(c)
    ensures WellFormed(c.(groups := DropIgnored(c.groups)))
  {
    var gs := DropIgnored(c.groups);
    forall i | 0 <= i < |gs|
      ensures DistinctLabels(gs[i].sections)
      ensures forall j :: 0 <= j < |gs[i].sections| ==> DistinctParamKeys(gs[i].sections[j].params)
    {
      assert gs[i] in c.groups;
    }
  }

  /** Configurations that differ only in the labels of the base sections (every
      key unambiguous, at most one section per ignored key, a cluster section in
      the target) give a patch without changes, at ALLOWED's level, whose base
      carries the target's sections with the target's labels. */
  lemma LabelOnlyDifferencesYieldNoChanges(base: Config, target: Config)
    requires WellFormed(target) && HasCluster(target)
    requires SameShape(base.groups, target.groups)
    requires forall i :: 0 <= i < |target.groups| ==> Unambiguous(target.groups[i].sections)
    requires forall k :: k in IgnoredKeys ==> |GroupOf(target, k)| <= 1
    ensures NewPatch(base, target).Success?
    ensures NewPatch(base, target).value.changes == []
    ensures UpdatePolicyLevel(NewPatch(base, target).value.changes) == ALLOWED.level
    ensures NewPatch(base, target).value.base.groups == NewPatch(base, target).value.target.groups
  {
    AdaptLabelOnly(base, target);
    var t0 := target.(groups := DropIgnored(target.groups));
    var b0 := t0.(configFile := base.configFile);
    DroppedTargetComparesEmpty(target, b0, t0);
    PatchOfAdaptedPair(base, target, b0, t0, []);
  }

  /** Dropping the ignored keys keeps a well-formed target with a cluster
      section, which then compares with a copy of itself without changes. */
  lemma DroppedTargetComparesEmpty(target: Config, b0: Config, t0: Config)
    requires WellFormed(target) && HasCluster(target)
    requires t0 == target.(groups := DropIgnored(target.groups)) && b0.groups == t0.groups
    ensures Compare(b0, t0) == Success([])
  {
    WellFormedDropIgnored(target);
    DropIgnoredKeepsCluster(target);
    CompareSelf(b0, t0);
  }

  lemma DropIgnoredKeepsCluster(c: Config)
    requires HasCluster(c)
    ensures HasCluster(c.(groups := DropIgnored(c.groups)))
  {
    ClusterNotIgnored();
    var d := c.(groups := DropIgnored(c.groups));
    assert GroupOf(d, "cluster") == GroupOf(c, "cluster");
    var i :| 0 <= i < |GroupOf(c, "cluster")| && !GroupOf(c, "cluster")[i].mock;
    assert !GroupOf(d, "cluster")[i].mock;
  }

  /** A patch is the adapted pair together with the changes their comparison finds. */
  lemma PatchOfAdaptedPair(base: Config, target: Config, b0: Config, t0: Config, cs: seq<Change>)
    requires Adapt(base, target) == Success((b0, t0)) && Compare(b0, t0) == Success(cs)
    ensures NewPatch(base, target) == Success(ConfigPatch(b0, t0, cs))
  {
  }

  /** A configuration compared with itself gives a patch without changes. */
  lemma IdenticalConfigsYieldNoChanges(c: Config)
    requires WellFormed(c) && HasCluster(c)
    requires forall i :: 0 <= i < |c.groups| ==> Unambiguous(c.groups[i].sections)
    requires forall k :: k in IgnoredKeys ==> |GroupOf(c, k)| <= 1
    ensures NewPatch(c, c).Success?
    ensures NewPatch(c, c).value.changes == []
    ensures UpdatePolicyLevel(NewPatch(c, c).value.changes) == ALLOWED.level
  {
    LabelOnlyDifferencesYieldNoChanges(c, c);
  }
}
