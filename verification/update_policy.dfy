/** The policy that rules the update of one configuration parameter: a severity
    level, a failure reason, a remediation text and an optional live-stack
    condition. */
module UpdatePolicies {
  import opened Wrappers

  /** The three results of checking a policy against the live stack. */
  datatype CheckResult = Succeeded | ActionNeeded | Failed {
    /** The enum's string value, as printed in the report's "check" column. */
    function Value(): string {
      match this
      case Succeeded => "SUCCEEDED"
      case ActionNeeded => "ACTION NEEDED"
      case Failed => "FAILED"
    }
  }

  /** What the live stack looks like to the condition checkers: the number of
      instances in the compute auto-scaling group and the master server state. */
  datatype LiveState = LiveState(asgInstanceCount: nat, masterState: string)

  /** The condition checkers the base policies use; `NoChecker` is Python's `None`. */
  datatype ConditionChecker = AlwaysTrue | FleetEmpty | MasterStopped | NoChecker {
    /** The checker's verdict on the live stack (`NoChecker` is never called). */
    predicate Holds(live: LiveState) {
      match this
      case AlwaysTrue => true
      case FleetEmpty => live.asgInstanceCount == 0
      case MasterStopped => live.masterState == "stopped"
      case NoChecker => false
    }
  }

  datatype UpdatePolicy = UpdatePolicy(
    failReason: Option<string>,
    actionNeeded: Option<string>,
    conditionChecker: ConditionChecker,
    level: int)

  /** Python truthiness of an optional string argument: neither `None` nor `""`. */
  predicate TruthyText(o: Option<string>) {
    o.Some? && o.value != ""
  }

  /** Python truthiness of an optional integer argument: neither `None` nor `0`. */
  predicate TruthyLevel(o: Option<int>) {
    o.Some? && o.value != 0
  }

  /** `UpdatePolicy(base_policy, level, fail_reason, action_needed, condition_checker)`:
      copy every field from the base policy (or start from `None`s and level 0),
      then override a field only with an argument that is truthy. */
  function Derive(
    base: Option<UpdatePolicy>,
    level: Option<int>,
    failReason: Option<string>,
    actionNeeded: Option<string>,
    conditionChecker: ConditionChecker): (p: UpdatePolicy)
    ensures TruthyLevel(level) ==> p.level == level.value
    ensures !TruthyLevel(level) && base.Some? ==> p.level == base.value.level
    ensures !TruthyLevel(level) && base.None? ==> p.level == 0
    ensures TruthyText(failReason) ==> p.failReason == failReason
    ensures !TruthyText(failReason) ==> p.failReason == (if base.Some? then base.value.failReason else None)
    ensures TruthyText(actionNeeded) ==> p.actionNeeded == actionNeeded
    ensures !TruthyText(actionNeeded) ==> p.actionNeeded == (if base.Some? then base.value.actionNeeded else None)
    ensures conditionChecker != NoChecker ==> p.conditionChecker == conditionChecker
    ensures conditionChecker == NoChecker ==> p.conditionChecker == (if base.Some? then base.value.conditionChecker else NoChecker)
  {
    var start := if base.Some? then base.value else UpdatePolicy(None, None, NoChecker, 0);
    UpdatePolicy(
      if TruthyText(failReason) then failReason else start.failReason,
      if TruthyText(actionNeeded) then actionNeeded else start.actionNeeded,
      if conditionChecker != NoChecker then conditionChecker else start.conditionChecker,
      if TruthyLevel(level) then level.value else start.level)
  }

  /** Deriving from a base policy without a truthy override reproduces the base
      policy exactly, whatever falsy values the arguments hold. */
  lemma DeriveWithoutOverridesIsBase(p: UpdatePolicy, level: Option<int>, failReason: Option<string>, actionNeeded: Option<string>)
    requires !TruthyLevel(level) && !TruthyText(failReason) && !TruthyText(actionNeeded)
    ensures Derive(Some(p), level, failReason, actionNeeded, NoChecker) == p
  {
  }

  /** `UpdatePolicy.check`: FAILED without a checker, otherwise SUCCEEDED or
      ACTION NEEDED according to the checker's verdict. */
  function Check(p: UpdatePolicy, live: LiveState): (r: CheckResult)
    ensures r == Failed <==> p.conditionChecker == NoChecker
    ensures r == Succeeded <==> p.conditionChecker != NoChecker && p.conditionChecker.Holds(live)
    ensures r == ActionNeeded <==> p.conditionChecker != NoChecker && !p.conditionChecker.Holds(live)
  {
    if p.conditionChecker == NoChecker then Failed
    else if p.conditionChecker.Holds(live) then Succeeded
    else ActionNeeded
  }

  /** `UpdatePolicy.__eq__`: only the failure reason and the level are compared. */
  predicate Equal(p: UpdatePolicy, q: UpdatePolicy) {
    p.failReason == q.failReason && p.level == q.level
  }

  /** Policies that differ only in remediation text or checker are equal. */
  lemma EqualIgnoresActionAndChecker(p: UpdatePolicy, actionNeeded: Option<string>, checker: ConditionChecker)
    ensures Equal(p, p.(actionNeeded := actionNeeded, conditionChecker := checker))
  {
  }

  const StopClusterAction: string :=
    "Stop the cluster with the following command: \npcluster stop -c $CONFIG_FILE $CLUSTER_NAME"
  const RestoreValueAction: string :=
    "Restore the previous parameter value for the unsupported changes."

  /** The six base policies. */
  const IGNORED: UpdatePolicy := Derive(None, Some(-10), None, None, AlwaysTrue)
  const ALLOWED: UpdatePolicy := Derive(None, Some(0), None, None, AlwaysTrue)
  const COMPUTE_FLEET_RESTART: UpdatePolicy :=
    Derive(None, Some(10), Some("Compute fleet must be empty"), Some(StopClusterAction), FleetEmpty)
  const MASTER_RESTART: UpdatePolicy :=
    Derive(None, Some(20), Some("Master node must be down"), Some(StopClusterAction), MasterStopped)
  const UNKNOWN: UpdatePolicy :=
    Derive(None, Some(100), Some("Update currently not supported"), Some(RestoreValueAction), NoChecker)
  const DENIED: UpdatePolicy :=
    Derive(None, Some(1000), Some("Update currently unsupported"), Some(RestoreValueAction), NoChecker)

  /** A change is left out of the report when its policy equals IGNORED. */
  predicate IsIgnored(p: UpdatePolicy) {
    Equal(p, IGNORED)
  }

  lemma BaseLevelsAscending()
    ensures IGNORED.level == -10 && ALLOWED.level == 0 && COMPUTE_FLEET_RESTART.level == 10
    ensures MASTER_RESTART.level == 20 && UNKNOWN.level == 100 && DENIED.level == 1000
    ensures IGNORED.level < ALLOWED.level < COMPUTE_FLEET_RESTART.level < MASTER_RESTART.level
    ensures MASTER_RESTART.level < UNKNOWN.level < DENIED.level
  {
  }

  lemma BasePolicyChecks(live: LiveState)
    ensures Check(IGNORED, live) == Succeeded && Check(ALLOWED, live) == Succeeded
    ensures Check(UNKNOWN, live) == Failed && Check(DENIED, live) == Failed
    ensures Check(COMPUTE_FLEET_RESTART, live) == (if live.asgInstanceCount == 0 then Succeeded else ActionNeeded)
    ensures Check(MASTER_RESTART, live) == (if live.masterState == "stopped" then Succeeded else ActionNeeded)
  {
  }

  /** The test expectation `UpdatePolicy(UpdatePolicy.DENIED) == UpdatePolicy.DENIED`,
      and the reason override the EBS settings policy uses breaks that equality. */
  lemma DerivedDeniedEqualsDenied()
    ensures Equal(Derive(Some(DENIED), None, None, None, NoChecker), DENIED)
    ensures !Equal(Derive(Some(DENIED), None, Some("Cannot add/remove EBS Sections"), None, NoChecker), DENIED)
    ensures !Equal(UNKNOWN, DENIED)
    ensures !IsIgnored(ALLOWED) && IsIgnored(IGNORED)
  {
  }
}
