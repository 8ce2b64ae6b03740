# Update feasibility of a cluster configuration

A Dafny model of the part of the ParallelCluster CLI that decides whether a
running cluster can be updated from one configuration (the *base*, rebuilt from
the running stack) to another (the *target*, loaded from the configuration
file). It covers two Python classes:

- `ConfigPatch` (`cli/pcluster/config/config_patch.py`). Building a patch first
  *adapts* the two configurations to each other:
  - it drops the ignored `global` and `aliases` sections;
  - it renames the base sections `_key`, `_key1`, … in the sorted order of
    their labels;
  - it finds each base section a target partner: by the value of its key
    parameter, or as the only target section of its key, or as a new mock
    section;
  - it gives the target labels to the base sections and adds mock partners for
    the remaining target sections.

  It then *compares* the two configurations into a list of `Change`s: all keys
  but `cluster` first, then the cluster section once the mock sections are
  removed. A patch has an *update level* (the largest level of its changes)
  and a *check* against the live cluster: a verdict, report rows and
  remediation texts.
- `UpdatePolicy` (`cli/pcluster/config/update_policy.py`): the policy of one
  parameter. It is built by copying a base policy and overriding the fields
  given a truthy argument. It has a three-way check against the live cluster,
  an equality that looks only at the failure reason and the level, and six
  base policies with ascending levels.

Files and modules:

| file | module | contents |
|---|---|---|
| `wrappers.dfy` | `Wrappers` | `Option`, `Result` |
| `strings.dfy` | `Strings` | Python's string order, `sorted`, `",".join`, integer formatting, `str.replace` |
| `update_policy.dfy` | `UpdatePolicies` | `UpdatePolicy`, its check and equality, the base policies |
| `config.dfy` | `ConfigModel` | values, parameters, sections, configurations, settings values, mock sections |
| `adaptation.dfy` | `Adaptation` | `_adapt` and its steps |
| `compare.dfy` | `Comparison` | `Change`, `_compare`, `_compare_section` |
| `config_patch.dfy` | `ConfigPatches` | the patch, `update_policy_level`, `check` |
| `scenarios.dfy` | `Scenarios` | the EBS add/remove and settings-tracking cases of the test suite, worked out step by step |

Modelling choices:

- **Configuration.** A configuration is a sequence of groups, one per section
  key and in key order. Each group holds its sections in insertion order. This
  is the ordered dictionary of ordered dictionaries that `PclusterConfig`
  keeps. A section carries its label, its parameters in order, its key
  parameter (`""` for none) and a mock flag.
- **Values.** A parameter value is `NoValue` (Python's `None`), a text, an
  integer or a flag. Values are compared with Python's `==`, under which
  `True == 1`.
- **Settings parameters.** A settings parameter (such as `ebs_settings`) names
  the key it refers to. Its value is always derived from the configuration: the
  sorted labels of the non-mock sections of that key, joined by `,`. This is
  `_restore_settings_param`'s formula. Leaving the mock sections out of it is a
  modelling assumption, not something the configuration code shows: see
  `ConfigModel.RemoveMocksKeepsValues` under "Left out".
- **Live cluster.** The live stack is an abstract `LiveState`: the number of
  compute instances and the master server state. The condition checkers are an
  enumeration evaluated on it.
- **Errors.** The two errors the Python code raises become `PatchError` values:
  - `AmbiguousRemoval`: `remove_section(key)` finds several sections for an
    ignored key;
  - `MissingCluster`: the adapted target has no cluster section left once the
    mocks are removed.

## Model

| member | source | states |
|---|---|---|
| UpdatePolicies.Derive | cli/pcluster/config/update_policy.py:26-45 | Each field of the new policy is the argument when that argument is truthy, otherwise the base policy's field, otherwise `None` (level 0); so a level of 0 or an empty reason never overrides |
| UpdatePolicies.DeriveWithoutOverridesIsBase | cli/pcluster/config/update_policy.py:32-39 | Deriving from a base policy with only falsy arguments gives back exactly the base policy |
| UpdatePolicies.Check | cli/pcluster/config/update_policy.py:47-62 | FAILED iff the policy has no condition checker; SUCCEEDED iff it has one and it holds on the live state; ACTION NEEDED iff it has one and it does not hold |
| UpdatePolicies.EqualIgnoresActionAndChecker | cli/pcluster/config/update_policy.py:64-69 | Two policies that differ only in remediation text and condition checker are equal |
| UpdatePolicies.BaseLevelsAscending | cli/pcluster/config/update_policy.py:72-96 | The six base policies have levels -10, 0, 10, 20, 100, 1000, strictly ascending in the order IGNORED, ALLOWED, COMPUTE_FLEET_RESTART, MASTER_RESTART, UNKNOWN, DENIED |
| UpdatePolicies.BasePolicyChecks | cli/pcluster/config/update_policy.py:73-96 | IGNORED and ALLOWED always succeed; UNKNOWN and DENIED always fail; COMPUTE_FLEET_RESTART succeeds iff the fleet is empty and MASTER_RESTART iff the master is stopped, and otherwise each needs action |
| UpdatePolicies.DerivedDeniedEqualsDenied | cli/tests/pcluster/config/test_config_patch.py:134-137 | A policy derived from DENIED without overrides equals DENIED; the EBS settings policy, which overrides the reason, does not; UNKNOWN is not DENIED; only IGNORED is ignored |
| Strings.SortStrings | cli/pcluster/config/config_patch.py:136 | `sorted` returns a permutation of its input that is in Python's string order |
| Strings.SortedUnique | cli/pcluster/config/config_patch.py:136 | Two sequences in string order that are permutations of each other are equal, so a sorted list depends only on its elements |
| ConfigModel.SettingsValueCharacterization | cli/pcluster/config/config_patch.py:129-136 | A settings value is the comma-join of every sorted arrangement of the labels of the referred key's non-mock sections, whatever the order of the sections |
| ConfigModel.RemoveMocks | cli/pcluster/config/config_patch.py:142-146 | After removing mocks, every key holds exactly its former non-mock sections, in their former order, and no mock section is left |
| ConfigModel.RemoveMocksKeepsValues | cli/pcluster/config/config_patch.py:97-104 | Under the model's settings formula, which leaves mock labels out, removing the mock sections changes no parameter's value |
| ConfigModel.Mock | cli/pcluster/config/config_patch.py:171-182 | A mock section keeps the label and key parameter of its model section and sets every parameter to its default; it is flagged mock iff the section has a key parameter |
| ConfigModel.Lookup | cli/pcluster/config/config_patch.py:213-219 | Looking a section up by label gives the first section with that label, and nothing iff no section has it |
| Adaptation.RemoveIgnored | cli/pcluster/config/config_patch.py:138-140 | Succeeds iff each ignored key has at most one section, otherwise fails naming such a key; on success the ignored keys are empty and every other key is unchanged |
| Adaptation.RenameSectionsProperties | cli/pcluster/config/config_patch.py:148-160 | Renaming changes only labels. The new labels are pairwise distinct and start with `_`. Each is `_key` followed by the section's position (omitted for 0) in the sorted order of the old labels, and that position respects the order of the old labels |
| Adaptation.RenamedLabelInjective | cli/pcluster/config/config_patch.py:156-159 | Different positions give different synthetic labels |
| Adaptation.RenameGroups | cli/pcluster/config/config_patch.py:155-160 | Renaming keeps the keys and their order and renames each key's sections on their own |
| Adaptation.FirstByParam | cli/pcluster/config/config_patch.py:184-192 | The section found by parameter value is the first whose parameter exists and equals the value; nothing is found iff no section matches |
| Adaptation.TargetPartnerPrecedence | cli/pcluster/config/config_patch.py:194-211 | A keyed base section's partner is the first target section with an equal key-parameter value, else a new mock. A non-keyed one's partner is the only target section of its key when there is exactly one, else a new mock. The mock is appended to the target sections |
| Adaptation.MatchGroupKeeps | cli/pcluster/config/config_patch.py:70-74 | The base loop of the adaptation only relabels base sections and only appends to the target sections |
| Adaptation.MatchGroupPartners | cli/pcluster/config/config_patch.py:70-74 | After the base loop every base section's label is the label of a target section of its key |
| Adaptation.MatchGroupMocks | cli/pcluster/config/config_patch.py:194-211 | Every section the base loop appends to the target is the mock of a base section, and that base section kept its (renamed) label |
| Adaptation.FillBaseLabels | cli/pcluster/config/config_patch.py:76-79 | After the target loop the base labels are the former base labels plus the target labels |
| Adaptation.FillBaseMocks | cli/pcluster/config/config_patch.py:213-219 | Every section the target loop appends to the base is the mock of a target section |
| Adaptation.Adapt | cli/pcluster/config/config_patch.py:53-79 | Adaptation fails, with the ambiguous-removal error, exactly when base or target has more than one section under an ignored key |
| Adaptation.AdaptGroups | cli/pcluster/config/config_patch.py:53-79 | Key by key, the adapted target is the result of matching the renamed base sections against the target sections, and the adapted base is the matched base completed with mocks |
| Adaptation.AdaptPairsSections | cli/pcluster/config/config_patch.py:53-79 | After adaptation every key has the same label set on both sides. Each side keeps its own sections in order, ahead of any addition: the target unchanged, the base changed only in labels. Every addition is the mock of a section on the other side, and the ignored keys are empty on both sides |
| Adaptation.AdaptLabelOnly | cli/pcluster/config/config_patch.py:53-79 | When the base differs from the target only in section labels (and each target key is unambiguous), adaptation succeeds: the target only loses its ignored keys, and the base becomes the target's sections under the base's file name |
| Comparison.CompareParams | cli/pcluster/config/config_patch.py:106-121 | Every change is made for a target parameter whose base value differs. It carries the section's key and label, the parameter's key, the base value (`None` without a base section or parameter), the target value and the parameter's policy |
| Comparison.CompareSectionExactlyOnce | cli/pcluster/config/config_patch.py:106-121 | With distinct parameter keys, a section comparison yields exactly one change for a parameter whose base and target values differ and none for any other parameter key |
| Comparison.CompareGroups | cli/pcluster/config/config_patch.py:90-95 | The first phase yields no cluster change and only changes whose values differ |
| Comparison.CompareGroupsComplete | cli/pcluster/config/config_patch.py:90-95 | Every differing parameter of a section of a non-cluster key yields its change, made against the base section with the same key and label |
| Comparison.CompareComplete | cli/pcluster/config/config_patch.py:81-104 | `_compare` reports every differing parameter: those of the non-cluster sections, and those of the first non-mock cluster section compared with the mocks removed |
| Comparison.Compare | cli/pcluster/config/config_patch.py:81-104 | The comparison succeeds iff the adapted target has a non-mock cluster section, and otherwise fails with the missing-cluster error |
| Comparison.CompareOrder | cli/pcluster/config/config_patch.py:81-104 | All changes have differing values. The non-cluster changes come first. The cluster changes come last, carry the first non-mock target cluster section's label, and are computed on the configurations without mocks |
| Comparison.CompareSelf | cli/pcluster/config/config_patch.py:81-121 | Comparing a well-formed configuration that has a cluster section with a copy of its sections yields no change |
| ConfigPatches.NewPatch | cli/pcluster/config/config_patch.py:35-51 | Building a patch fails with an ambiguous removal only for an ignored key holding several sections on one side; a built patch keeps both configuration files, and its changes all have differing values |
| ConfigPatches.PatchPairsSections | cli/pcluster/config/config_patch.py:53-61 | In a built patch, base and target have the same section labels under every key |
| ConfigPatches.PatchReportsEveryDifference | cli/pcluster/config/config_patch.py:81-104 | Every differing parameter of the patch's adapted target is among the patch's changes: non-cluster sections against the same-label base section, the cluster section with mocks removed |
| ConfigPatches.UpdatePolicyLevel | cli/pcluster/config/config_patch.py:162-169 | The level is ALLOWED's when there are no changes, and otherwise the level of some change that no change exceeds |
| ConfigPatches.LevelOrderIndependent | cli/pcluster/config/config_patch.py:162-169 | The level does not depend on the order of the changes |
| ConfigPatches.Reported | cli/pcluster/config/config_patch.py:234-235 | The reported changes are changes of the patch that are not ignored, and every non-ignored change is reported |
| ConfigPatches.ReportedConcat | cli/pcluster/config/config_patch.py:234-235 | The changes are reported in order: the report of a concatenation is the concatenation of the reports, so each non-ignored change appears once, in its place |
| ConfigPatches.SubstituteWithoutPlaceholders | cli/pcluster/config/config_patch.py:249-251 | A remediation text without placeholders is reported as it is |
| ConfigPatches.CheckPatch | cli/pcluster/config/config_patch.py:221-256 | Allowed iff every non-ignored change checks SUCCEEDED. The rows are the header, then one row per non-ignored change in order, with reason `-` on success and the policy's reason otherwise. The actions are exactly the substituted remediation texts of the non-ignored changes that did not succeed and have one |
| ConfigPatches.LabelOnlyDifferencesYieldNoChanges | cli/tests/pcluster/config/test_config_patch.py:268-296 | Configurations that differ only in base section labels give a patch with no changes and ALLOWED's level, whose base carries the target's sections and labels |
| ConfigPatches.IdenticalConfigsYieldNoChanges | cli/tests/pcluster/config/test_config_patch.py:37-42 | A configuration patched against itself gives no changes and ALLOWED's level |
| Scenarios.RemovingAnEbsSection | cli/tests/pcluster/config/test_config_patch.py:194-216 | Removing `ebs-1` from the target gives exactly two DENIED-level changes: `shared_dir` from `vol1` to `None` under `_ebs`, then `ebs_settings` from `_ebs,ebs-2` to `ebs-2` |
| Scenarios.AddingAnEbsSection | cli/tests/pcluster/config/test_config_patch.py:219-241 | Adding `ebs-1` to the target gives exactly two DENIED-level changes: `shared_dir` from `None` to `vol1` under `ebs-1`, then `ebs_settings` from `ebs-2` to `ebs-1,ebs-2` |
| Scenarios.SettingsFollowLabels | cli/tests/pcluster/config/test_runtime.py:24-41 | A settings value follows its sections: `ebs1,ebs2`, then `ebs1_updated,ebs2` after a relabel, `ebs1_updated` after a removal, and `ebs1_updated,ebs2` again after the section is added back |

## Left out

- `cli/pcluster/update/update_command.py` is not part of this model. It holds the CloudFormation calls, stack polling, table printing, user consent and exit codes: all I/O.
- The live condition checkers query AWS for the compute instances and the master state. Here they are evaluated on an abstract `LiveState` parameter, and the `stack_name` argument is dropped.
- `PclusterConfig` (loading, validation, section definitions and types) is not part of this model. Its effects are taken as given: a configuration is one group per key, the parameter policies are inputs, and a mock section is built from the model section's own parameters at their defaults.
- The deepcopy patch for compiled regular expressions (config_patch.py line 22) is a Python runtime workaround. The model uses immutable values, so it is not needed.
- The report's string formatting (the table layout) is left out. The rows keep their data: section title, parameter, values, check result and reason.
- Comparison.CompareParams: a base section without the target's parameter gives `None` as the old value. Python would instead raise `AttributeError` there. Sections of the same key share a definition, so the case does not arise in practice.
- Comparison.Compare: a missing base cluster section gives `None` as every old value, as `_compare_section` does for a falsy base section.
- ConfigModel.Lookup: several sections of one key may end up with the same label (two base sections matched to the same target partner). A lookup then returns the first of them. `PclusterConfig`'s dictionary behaviour in that case is not part of this model.
- UpdatePolicies.Check: the condition checkers are the three the base policies use (always, empty fleet, stopped master). Checkers of other parameters' policies live in mapping files that are not part of this model.
- ConfigPatches.CheckPatch: the condition results are not cached per policy, as `condition_results` would allow. The check is deterministic on a fixed live state, so caching would not change the result.
- ConfigPatches.SubstituteWithoutPlaceholders: only the placeholder-free case is stated as a lemma. The replacement itself follows `str.replace`: `$CONFIG_FILE` becomes the target configuration file, then `$CLUSTER_NAME` becomes the base configuration file, exactly as written.
- ConfigModel.RemoveMocksKeepsValues: the model derives a settings value from the non-mock sections only. The configuration code that refreshes settings parameters is not part of this model. The comment in `_compare` suggests that in Python the live settings values may still list mock labels until `_remove_mock_sections` runs. The reported changes are the same either way: settings parameters sit in the cluster section, which is compared only after the mocks are removed.
- ConfigPatches.Reported: `!=` against IGNORED is read with Python 3 semantics, as the negation of `UpdatePolicy.__eq__`, so a policy equal to IGNORED counts as ignored. Under Python 2, `UpdatePolicy` defines no `__ne__`, so `!=` compares identity: an equal copy of IGNORED, such as `UpdatePolicy(UpdatePolicy.IGNORED)`, would be reported.
- ConfigModel.SameValue: values are `None`, strings, integers and booleans only. Float, list and dict parameter values, with Python's `==` on them (for instance `0.0 == 0`), are not modelled.
