/** The configuration data the patch engine works on: parameter values,
    sections, and a configuration as an ordered collection of section groups,
    one group per section key (PclusterConfig keeps an ordered dictionary of
    ordered dictionaries: key -> label -> section). */
module ConfigModel {
  import opened Wrappers
  import opened Strings
  import opened UpdatePolicies

  /** A scalar parameter value: Python's `None`, a `str`, an `int` or a `bool`. */
  datatype Value = NoValue | Text(text: string) | Number(number: int) | Flag(flag: bool)

  /** The integer a value stands for under Python's `==`: `bool` is a subclass of `int`. */
  function NumericValue(v: Value): Option<int> {
    match v
    case Number(n) => Some(n)
    case Flag(b) => Some(if b then 1 else 0)
    case _ => None
  }

  /** Python's `a == b` on parameter values (so `False == 0` and `True == 1`). */
  predicate SameValue(a: Value, b: Value) {
    match a
    case NoValue => b.NoValue?
    case Text(x) => b.Text? && b.text == x
    case _ => NumericValue(b).Some? && NumericValue(a) == NumericValue(b)
  }

  lemma SameValueIsEquivalence(a: Value, b: Value, c: Value)
    ensures SameValue(a, a)
    ensures SameValue(a, b) ==> SameValue(b, a)
    ensures SameValue(a, b) && SameValue(b, c) ==> SameValue(a, c)
    ensures SameValue(Flag(false), Number(0)) && SameValue(Flag(true), Number(1))
    ensures !SameValue(NoValue, Text("")) && !SameValue(Text("0"), Number(0))
  {
  }

  /** A parameter: its current value, the default a fresh section gives it, its
      own update policy, and, for a "settings" parameter, the key of the
      sections whose labels it lists (`""` when it refers to none). */
  datatype Param = Param(key: string, value: Value, default: Value, policy: UpdatePolicy, referredKey: string)

  /** A section instance. `keyParam` is `""` when the section's definition has no
      key parameter (Python's `None`); `mock` marks sections synthesised by the
      patch engine. */
  datatype Section = Section(sectionLabel: string, params: seq<Param>, keyParam: string, mock: bool)

  /** All the sections of one key, in the configuration's order. */
  datatype Group = Group(key: string, sections: seq<Section>)

  /** A configuration and the file it was loaded from. */
  datatype Config = Config(groups: seq<Group>, configFile: string)

  /** `get_section_keys()`: the keys of the groups, in order. */
  function KeysOf(gs: seq<Group>): (r: seq<string>)
    ensures |r| == |gs|
    ensures forall i :: 0 <= i < |gs| ==> r[i] == gs[i].key
  {
    if gs == [] then [] else [gs[0].key] + KeysOf(gs[1..])
  }

  predicate DistinctKeys(gs: seq<Group>) {
    forall i, j :: 0 <= i < j < |gs| ==> gs[i].key != gs[j].key
  }

  /** `get_sections(key)`: the sections of the first group with that key, or none. */
  function SectionsOf(gs: seq<Group>, key: string): seq<Section> {
    if gs == [] then []
    else if gs[0].key == key then gs[0].sections
    else SectionsOf(gs[1..], key)
  }

  function GroupOf(c: Config, key: string): seq<Section> {
    SectionsOf(c.groups, key)
  }

  lemma {:induction false} SectionsOfAt(gs: seq<Group>, i: int)
    requires DistinctKeys(gs) && 0 <= i < |gs|
    ensures SectionsOf(gs, gs[i].key) == gs[i].sections
    decreases i
  {
    if i > 0 {
      assert gs[0].key != gs[i].key;
      SectionsOfAt(gs[1..], i - 1);
    }
  }

  /** The sections of a key are those of some group, or none at all. */
  lemma {:induction false} SectionsOfSomeGroup(gs: seq<Group>, key: string)
    ensures SectionsOf(gs, key) == [] || exists i :: 0 <= i < |gs| && SectionsOf(gs, key) == gs[i].sections
    decreases |gs|
  {
    if gs != [] && gs[0].key != key {
      SectionsOfSomeGroup(gs[1..], key);
      if SectionsOf(gs[1..], key) != [] {
        var i :| 0 <= i < |gs[1..]| && SectionsOf(gs[1..], key) == gs[1..][i].sections;
        assert gs[1..][i] == gs[i + 1];
      }
    }
  }

  lemma {:induction false} SectionsOfAbsent(gs: seq<Group>, key: string)
    requires key !in KeysOf(gs)
    ensures SectionsOf(gs, key) == []
    decreases |gs|
  {
    if gs != [] {
      assert KeysOf(gs) == [gs[0].key] + KeysOf(gs[1..]);
      SectionsOfAbsent(gs[1..], key);
    }
  }

  /** Stores `ss` as the sections of `key`: the key's group is replaced in
      place, or a new group is appended when the key has none and `ss` is not
      empty (`add_section` of a section whose key is new). */
  function ReplaceGroup(gs: seq<Group>, key: string, ss: seq<Section>): (r: seq<Group>)
    ensures SectionsOf(r, key) == ss
    ensures forall k :: k != key ==> SectionsOf(r, k) == SectionsOf(gs, k)
  {
    if gs == [] then
      if ss == [] then [] else [Group(key, ss)]
    else if gs[0].key == key then [Group(key, ss)] + gs[1..]
    else [gs[0]] + ReplaceGroup(gs[1..], key, ss)
  }

  /** Replacing a group keeps the key order; a new key goes last. */
  lemma {:induction false} ReplaceGroupKeys(gs: seq<Group>, key: string, ss: seq<Section>)
    ensures var r := ReplaceGroup(gs, key, ss);
      KeysOf(r) == KeysOf(gs) || (key !in KeysOf(gs) && KeysOf(r) == KeysOf(gs) + [key])
    decreases |gs|
  {
    if gs != [] && gs[0].key != key {
      ReplaceGroupKeys(gs[1..], key, ss);
      var rest := ReplaceGroup(gs[1..], key, ss);
      assert KeysOf(gs) == [gs[0].key] + KeysOf(gs[1..]);
      assert KeysOf([gs[0]] + rest) == [gs[0].key] + KeysOf(rest);
    } else if gs != [] {
      assert KeysOf([Group(key, ss)] + gs[1..]) == KeysOf(gs);
    }
  }

  lemma DistinctKeysByKeys(gs: seq<Group>, hs: seq<Group>, key: string)
    requires DistinctKeys(gs)
    requires KeysOf(hs) == KeysOf(gs) || (key !in KeysOf(gs) && KeysOf(hs) == KeysOf(gs) + [key])
    ensures DistinctKeys(hs)
  {
    forall i, j | 0 <= i < j < |hs| ensures hs[i].key != hs[j].key {
      assert KeysOf(hs)[i] == hs[i].key && KeysOf(hs)[j] == hs[j].key;
      if KeysOf(hs) != KeysOf(gs) && j == |gs| {
        assert KeysOf(gs)[i] == hs[i].key;
      } else {
        assert KeysOf(gs)[i] == hs[i].key && KeysOf(gs)[j] == hs[j].key;
      }
    }
  }

  lemma ReplaceGroupDistinct(gs: seq<Group>, key: string, ss: seq<Section>)
    requires DistinctKeys(gs)
    ensures DistinctKeys(ReplaceGroup(gs, key, ss))
  {
    ReplaceGroupKeys(gs, key, ss);
    DistinctKeysByKeys(gs, ReplaceGroup(gs, key, ss), key);
  }

  /** Storing a key's own sections back changes nothing. */
  lemma {:induction false} ReplaceGroupSame(gs: seq<Group>, key: string)
    ensures ReplaceGroup(gs, key, SectionsOf(gs, key)) == gs
    decreases |gs|
  {
    if gs != [] && gs[0].key != key {
      ReplaceGroupSame(gs[1..], key);
      assert gs == [gs[0]] + gs[1..];
    } else if gs != [] {
      assert gs == [gs[0]] + gs[1..];
    }
  }

  function SetGroup(c: Config, key: string, ss: seq<Section>): Config {
    c.(groups := ReplaceGroup(c.groups, key, ss))
  }

  /** `section.get_param(key)`: the section's parameter with that key, if any. */
  function FindParam(ps: seq<Param>, key: string): (r: Option<Param>)
    ensures r.Some? ==> r.value.key == key && r.value in ps
    ensures r.None? ==> forall i :: 0 <= i < |ps| ==> ps[i].key != key
    ensures forall i :: 0 <= i < |ps| && ps[i].key == key && (forall j :: 0 <= j < i ==> ps[j].key != key) ==> r == Some(ps[i])
  {
    if ps == [] then None
    else if ps[0].key == key then Some(ps[0])
    else FindParam(ps[1..], key)
  }

  predicate DistinctParamKeys(ps: seq<Param>) {
    forall i, j :: 0 <= i < j < |ps| ==> ps[i].key != ps[j].key
  }

  predicate HasLabel(ss: seq<Section>, lbl: string) {
    exists i :: 0 <= i < |ss| && ss[i].sectionLabel == lbl
  }

  /** A label found in a prefix is found in the whole sequence. */
  lemma HasLabelExtends(pre: seq<Section>, ss: seq<Section>, lbl: string)
    requires |pre| <= |ss| && ss[..|pre|] == pre && HasLabel(pre, lbl)
    ensures HasLabel(ss, lbl)
  {
    var j :| 0 <= j < |pre| && pre[j].sectionLabel == lbl;
    assert ss[j] == ss[..|pre|][j];
  }

  function LabelSet(ss: seq<Section>): set<string> {
    set i | 0 <= i < |ss| :: ss[i].sectionLabel
  }

  lemma LabelSetMembership(ss: seq<Section>, lbl: string)
    ensures lbl in LabelSet(ss) <==> HasLabel(ss, lbl)
  {
  }

  predicate DistinctLabels(ss: seq<Section>) {
    forall i, j :: 0 <= i < j < |ss| ==> ss[i].sectionLabel != ss[j].sectionLabel
  }

  /** Section `i` is the first of `ss` labelled `lbl`. */
  predicate FirstLabelledAt(ss: seq<Section>, lbl: string, i: int) {
    0 <= i < |ss| && ss[i].sectionLabel == lbl && forall j :: 0 <= j < i ==> ss[j].sectionLabel != lbl
  }

  /** `get_section(key, lbl)` within one key's sections: the first section with that label. */
  function Lookup(ss: seq<Section>, lbl: string): (r: Option<Section>)
    ensures r.Some? <==> HasLabel(ss, lbl)
    ensures r.Some? ==> r.value.sectionLabel == lbl
    ensures forall i :: FirstLabelledAt(ss, lbl, i) ==> r == Some(ss[i])
  {
    if ss == [] then None
    else if ss[0].sectionLabel == lbl then Some(ss[0])
    else
      var r := Lookup(ss[1..], lbl);
      FirstLabelledAfterHead(ss, lbl, r);
      r
  }

  /** When the head is not labelled `lbl`, the first section labelled `lbl` is the first such section of the tail. */
  lemma FirstLabelledAfterHead(ss: seq<Section>, lbl: string, r: Option<Section>)
    requires ss != [] && ss[0].sectionLabel != lbl
    requires forall i :: FirstLabelledAt(ss[1..], lbl, i) ==> r == Some(ss[1..][i])
    ensures forall i :: FirstLabelledAt(ss, lbl, i) ==> r == Some(ss[i])
  {
    forall i | FirstLabelledAt(ss, lbl, i) ensures r == Some(ss[i]) {
      assert FirstLabelledAt(ss[1..], lbl, i - 1);
    }
  }

  /** `get_section(key)` without a label: the first section of the key, if any. */
  function First(ss: seq<Section>): Option<Section> {
    if ss == [] then None else Some(ss[0])
  }

  /** The sections that are not flagged mock, in order. */
  function NonMock(ss: seq<Section>): (r: seq<Section>)
    ensures forall i :: 0 <= i < |r| ==> !r[i].mock && r[i] in ss
    ensures forall i :: 0 <= i < |ss| && !ss[i].mock ==> ss[i] in r
    ensures (forall i :: 0 <= i < |ss| ==> !ss[i].mock) ==> r == ss
  {
    if ss == [] then []
    else if ss[0].mock then NonMock(ss[1..])
    else [ss[0]] + NonMock(ss[1..])
  }

  /** The labels of the non-mock sections, in order. */
  function NonMockLabels(ss: seq<Section>): (r: seq<string>)
    ensures |r| <= |ss|
  {
    if ss == [] then []
    else if ss[0].mock then NonMockLabels(ss[1..])
    else [ss[0].sectionLabel] + NonMockLabels(ss[1..])
  }

  lemma {:induction false} NonMockLabelsOfNonMock(ss: seq<Section>)
    ensures NonMockLabels(NonMock(ss)) == NonMockLabels(ss)
    decreases |ss|
  {
    if ss != [] {
      NonMockLabelsOfNonMock(ss[1..]);
    }
  }

  /** The value of a settings parameter: the sorted labels of the non-mock
      sections of the referred key, joined by commas. */
  function SettingsValue(ss: seq<Section>): string {
    Join(SortStrings(NonMockLabels(ss)), ",")
  }

  /** The settings value is the comma-join of ANY sorted arrangement of the
      non-mock labels: it depends on which labels are there, not on the order
      of the sections, and never on a mock section. */
  lemma SettingsValueCharacterization(ss: seq<Section>, labels: seq<string>)
    requires Sorted(labels) && multiset(labels) == multiset(NonMockLabels(ss))
    ensures SettingsValue(ss) == Join(labels, ",")
  {
    SortedUnique(SortStrings(NonMockLabels(ss)), labels);
  }

  /** A settings parameter's value follows the referred sections; any other
      parameter holds its own value. */
  function EffectiveValue(c: Config, p: Param): Value {
    if p.referredKey != "" then Text(SettingsValue(GroupOf(c, p.referredKey))) else p.value
  }

  /** Drops every mock section, keeping groups and their order. */
  function RemoveMockGroups(gs: seq<Group>): (r: seq<Group>)
    ensures |r| == |gs|
    ensures forall i :: 0 <= i < |gs| ==> r[i] == Group(gs[i].key, NonMock(gs[i].sections))
    ensures forall k :: SectionsOf(r, k) == NonMock(SectionsOf(gs, k))
  {
    if gs == [] then []
    else [Group(gs[0].key, NonMock(gs[0].sections))] + RemoveMockGroups(gs[1..])
  }

  /** `_remove_mock_sections`. */
  function RemoveMocks(c: Config): (r: Config)
    ensures r.configFile == c.configFile
    ensures forall k :: GroupOf(r, k) == NonMock(GroupOf(c, k))
    ensures forall k, i :: 0 <= i < |GroupOf(r, k)| ==> !GroupOf(r, k)[i].mock
  {
    c.(groups := RemoveMockGroups(c.groups))
  }

  /** Removing the mock sections leaves every settings value as it was, since
      the model derives settings values from the non-mock labels only. */
  lemma RemoveMocksKeepsValues(c: Config, p: Param)
    ensures EffectiveValue(RemoveMocks(c), p) == EffectiveValue(c, p)
  {
    if p.referredKey != "" {
      NonMockLabelsOfNonMock(GroupOf(c, p.referredKey));
    }
  }

  /** `_create_default_section`: a fresh section of the same definition with the
      given section's label and every parameter at its default; flagged mock
      only when the definition has a key parameter. */
  function Mock(s: Section): (m: Section)
    ensures m.sectionLabel == s.sectionLabel && m.keyParam == s.keyParam
    ensures m.mock <==> s.keyParam != ""
    ensures |m.params| == |s.params|
    ensures forall i :: 0 <= i < |s.params| ==> m.params[i] == s.params[i].(value := s.params[i].default)
  {
    Section(s.sectionLabel, seq(|s.params|, i requires 0 <= i < |s.params| => s.params[i].(value := s.params[i].default)),
            s.keyParam, s.keyParam != "")
  }

  /** What PclusterConfig guarantees: one group per key, one section per label
      within a key, one parameter per key within a section. */
  predicate WellFormed(c: Config) {
    && DistinctKeys(c.groups)
    && (forall i :: 0 <= i < |c.groups| ==> DistinctLabels(c.groups[i].sections))
    && (forall i, j :: 0 <= i < |c.groups| && 0 <= j < |c.groups[i].sections| ==>
          DistinctParamKeys(c.groups[i].sections[j].params))
  }
}
