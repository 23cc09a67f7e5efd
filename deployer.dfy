/** The deployment simulator: reports every ECU of a baseline as deployed to
    the fixed test rig (scripts/deploy_baseline_mock.py). */
module Deployer {
  import opened Values

  const RigId: string := "SYSTEM-RIG-01"
  const Deployed: string := "DEPLOYED"

  /** The report `simulate_deployment` builds. `deployedAt` is the
      `isoformat()` text of the clock reading followed by "Z"; the reading's
      text is passed in as `deployedIso`. */
  datatype DeploymentReport = DeploymentReport(
    baselineId: Value,
    rigId: string,
    status: string,
    deployedAt: string,
    ecus: seq<Value>)

  /** The Python exceptions that make `main` exit with status 1. */
  datatype DeployError =
    | NotAMapping               // `baseline.get` on a document that is not a dict
    | EcusNotIterable           // `for ecu in <int or None>`
    | FragmentNotSubscriptable  // `ecu["ecu_name"]` on a fragment that is not a dict
    | MissingEcuName            // KeyError: 'ecu_name'
    | MissingBaselineId         // KeyError: 'baseline_id'

  /** What `for ecu in baseline.get("ecus", [])` iterates over. An empty
      string or dict iterates over nothing; a non-empty one yields strings,
      and the first of them fails the subscript. */
  function EcusToDeploy(fields: map<string, Value>): Result<seq<Value>, DeployError>
  {
    match Get(fields, "ecus", List([]))
    case List(items) => Ok(items)
    case Str(s) => if s == [] then Ok([]) else Err(FragmentNotSubscriptable)
    case Map(m) => if m == map[] then Ok([]) else Err(FragmentNotSubscriptable)
    case Int(_) => Err(EcusNotIterable)
    case Null => Err(EcusNotIterable)
  }

  /** `ecu["ecu_name"]` for one fragment. */
  function NameOf(ecu: Value): Result<Value, DeployError>
  {
    if !ecu.Map? then Err(FragmentNotSubscriptable)
    else if "ecu_name" !in ecu.fields then Err(MissingEcuName)
    else Ok(ecu.fields["ecu_name"])
  }

  predicate HasName(ecu: Value)
  {
    ecu.Map? && "ecu_name" in ecu.fields
  }

  /** The names the loop collects, or the error of the first fragment
      without one. */
  function EcuNames(ecus: seq<Value>): Result<seq<Value>, DeployError>
    decreases |ecus|
  {
    if ecus == [] then Ok([])
    else match NameOf(ecus[0])
      case Err(e) => Err(e)
      case Ok(name) =>
        match EcuNames(ecus[1..])
        case Err(e) => Err(e)
        case Ok(names) => Ok([name] + names)
  }

  /** `simulate_deployment` as a function of the loaded baseline. */
  function Deploy(baseline: Value, deployedIso: string): Result<DeploymentReport, DeployError>
  {
    if !baseline.Map? then Err(NotAMapping)
    else match EcusToDeploy(baseline.fields)
      case Err(e) => Err(e)
      case Ok(ecus) =>
        match EcuNames(ecus)
        case Err(e) => Err(e)
        case Ok(names) =>
          if "baseline_id" !in baseline.fields then Err(MissingBaselineId)
          else Ok(DeploymentReport(baseline.fields["baseline_id"], RigId, Deployed, deployedIso + "Z", names))
  }

  /** `names` put in front of the outcome of the rest of the loop. */
  function Prepend(names: seq<Value>, rest: Result<seq<Value>, DeployError>): Result<seq<Value>, DeployError>
  {
    match rest
    case Err(e) => Err(e)
    case Ok(more) => Ok(names + more)
  }

  /** The loop of `simulate_deployment`, appending to `deployed_ecus`. */
  method SimulateDeployment(baseline: Value, deployedIso: string) returns (r: Result<DeploymentReport, DeployError>)
    ensures r == Deploy(baseline, deployedIso)
  {
    if !baseline.Map? {
      return Err(NotAMapping);
    }
    var iterated := EcusToDeploy(baseline.fields);
    if iterated.Err? {
      return Err(iterated.error);
    }
    var ecus := iterated.value;
    var deployedEcus: seq<Value> := [];
    var i := 0;
    assert ecus[i..] == ecus;
    assert EcuNames(ecus).Ok? ==> [] + EcuNames(ecus).value == EcuNames(ecus).value;
    while i < |ecus|
      invariant 0 <= i <= |ecus|
      invariant EcuNames(ecus) == Prepend(deployedEcus, EcuNames(ecus[i..]))
    {
      var ecu := ecus[i];
      assert ecus[i..][0] == ecu && ecus[i..][1..] == ecus[i + 1..];
      if !ecu.Map? {
        return Err(FragmentNotSubscriptable);
      }
      if "ecu_name" !in ecu.fields {
        return Err(MissingEcuName);
      }
      var ecuName := ecu.fields["ecu_name"];
      assert deployedEcus + ([ecuName] + []) == deployedEcus + [ecuName];
      assert forall more :: deployedEcus + ([ecuName] + more) == (deployedEcus + [ecuName]) + more;
      deployedEcus := deployedEcus + [ecuName];
      i := i + 1;
    }
    assert ecus[i..] == [];
    assert deployedEcus + [] == deployedEcus;
    if "baseline_id" !in baseline.fields {
      return Err(MissingBaselineId);
    }
    return Ok(DeploymentReport(baseline.fields["baseline_id"], RigId, Deployed, deployedIso + "Z", deployedEcus));
  }

  // ---------------------------------------------------------------------
  // Lemmas
  // ---------------------------------------------------------------------

  /** The loop succeeds exactly when every fragment is a dict with an
      `ecu_name`, and then yields those names in order. */
  lemma {:induction false} EcuNamesIsNameMap(ecus: seq<Value>)
    ensures EcuNames(ecus).Ok? <==> forall i :: 0 <= i < |ecus| ==> HasName(ecus[i])
    ensures EcuNames(ecus).Ok? ==>
              |EcuNames(ecus).value| == |ecus|
              && forall i :: 0 <= i < |ecus| ==> EcuNames(ecus).value[i] == ecus[i].fields["ecu_name"]
    decreases |ecus|
  {
    if ecus != [] {
      EcuNamesIsNameMap(ecus[1..]);
      assert forall i :: 0 < i < |ecus| ==> ecus[i] == ecus[1..][i - 1];
    }
  }

  /** The loop only fails on a fragment, never on the missing id. */
  lemma {:induction false} EcuNamesErrors(ecus: seq<Value>)
    ensures EcuNames(ecus).Err? ==> EcuNames(ecus).error in {FragmentNotSubscriptable, MissingEcuName}
    decreases |ecus|
  {
    if ecus != [] && NameOf(ecus[0]).Ok? {
      EcuNamesErrors(ecus[1..]);
    }
  }

  /** A successful report copies the baseline's id, names the fixed rig,
      says DEPLOYED, stamps the clock's text followed by "Z", and lists the
      `ecu_name` of every fragment in order. */
  lemma DeployReport(baseline: Value, deployedIso: string)
    requires Deploy(baseline, deployedIso).Ok?
    ensures var report := Deploy(baseline, deployedIso).value;
      && baseline.Map? && "baseline_id" in baseline.fields
      && report.baselineId == baseline.fields["baseline_id"]
      && report.rigId == "SYSTEM-RIG-01" && report.status == "DEPLOYED"
      && |report.deployedAt| > 0 && report.deployedAt[|report.deployedAt| - 1] == 'Z'
      && report.deployedAt[..|report.deployedAt| - 1] == deployedIso
      && var ecus := EcusToDeploy(baseline.fields).value;
      |report.ecus| == |ecus|
      && forall i :: 0 <= i < |ecus| ==> HasName(ecus[i]) && report.ecus[i] == ecus[i].fields["ecu_name"]
  {
    EcuNamesIsNameMap(EcusToDeploy(baseline.fields).value);
  }

  /** A baseline whose `ecus` is a list deploys exactly when it has an id
      and every fragment carries an `ecu_name`. */
  lemma DeploySucceedsIff(fields: map<string, Value>, deployedIso: string)
    requires "ecus" in fields ==> fields["ecus"].List?
    ensures Deploy(Map(fields), deployedIso).Ok?
        <==> "baseline_id" in fields
             && forall i :: 0 <= i < |EcusToDeploy(fields).value| ==> HasName(EcusToDeploy(fields).value[i])
  {
    EcuNamesIsNameMap(EcusToDeploy(fields).value);
  }

  /** A missing `ecus` key reads as an empty list: the report lists no ECUs. */
  lemma MissingEcusDeploysNothing(fields: map<string, Value>, deployedIso: string)
    requires "ecus" !in fields && "baseline_id" in fields
    ensures Deploy(Map(fields), deployedIso)
         == Ok(DeploymentReport(fields["baseline_id"], RigId, Deployed, deployedIso + "Z", []))
  {
  }

  /** A fragment without `ecu_name` fails the run, and since the loop runs
      before the id is read, that error wins over a missing `baseline_id`. */
  lemma FragmentErrorBeforeMissingId(fields: map<string, Value>, deployedIso: string, k: nat)
    requires "ecus" in fields && fields["ecus"].List?
    requires k < |fields["ecus"].items| && !HasName(fields["ecus"].items[k])
    ensures Deploy(Map(fields), deployedIso).Err?
    ensures Deploy(Map(fields), deployedIso).error in {FragmentNotSubscriptable, MissingEcuName}
  {
    EcuNamesIsNameMap(fields["ecus"].items);
    EcuNamesErrors(fields["ecus"].items);
  }

  /** The baseline's `state` is never consulted. */
  lemma StateIgnored(fields: map<string, Value>, state: Value, deployedIso: string)
    ensures Deploy(Map(fields["state" := state]), deployedIso) == Deploy(Map(fields - {"state"}), deployedIso)
  {
    var f1, f2 := fields["state" := state], fields - {"state"};
    assert Get(f1, "ecus", List([])) == Get(f2, "ecus", List([]));
    assert ("baseline_id" in f1) == ("baseline_id" in f2);
    if "baseline_id" in f1 {
      assert f1["baseline_id"] == f2["baseline_id"];
    }
  }
}
