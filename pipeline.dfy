/** Properties across the stages: an assembled baseline passes the
    validator when its fragments do, a qualified baseline deploys with its
    ECU names in order, and the deployer accepts baselines the validator
    rejects. */
module Pipeline {
  import opened Values
  import Validator
  import Assembler
  import Deployer

  /** Assembling well-formed fragments with distinct names, in any number
      but zero, gives a baseline that passes every check, in `ASSEMBLED`
      state and with exactly those fragments in order. */
  lemma AssembledBaselineQualifies(ecus: seq<Value>, idClock: Assembler.DateTime, createdIso: string)
    requires Assembler.ValidDateTime(idClock)
    requires |ecus| > 0 && Validator.DistinctNames(ecus)
    requires forall k :: 0 <= k < |ecus| ==> Validator.WellFormedFragment(ecus[k])
    ensures var baseline := Assembler.CreateBaselineManifest(ecus, idClock, createdIso);
      && Validator.Validate(baseline) == Pass
      && baseline.fields["state"] == Str("ASSEMBLED")
      && baseline.fields["ecus"] == List(ecus)
  {
    var baseline := Assembler.CreateBaselineManifest(ecus, idClock, createdIso);
    assert Get(baseline.fields, "ecus", Null) == List(ecus);
    Validator.ValidateSucceedsIff(baseline);
  }

  /** A baseline that passes validation deploys: the report carries its id
      and lists the fragments' names in order, with no name twice. */
  lemma QualifiedBaselineDeploys(baseline: Value, deployedIso: string)
    requires Validator.Validate(baseline) == Pass
    ensures Deployer.Deploy(baseline, deployedIso).Ok?
    ensures var report := Deployer.Deploy(baseline, deployedIso).value;
      var ecus := baseline.fields["ecus"].items;
      && report.baselineId == baseline.fields["baseline_id"]
      && report.status == "DEPLOYED"
      && |report.ecus| == |ecus|
      && (forall i :: 0 <= i < |ecus| ==> report.ecus[i] == Validator.NameOf(ecus[i]))
      && (forall i, j :: 0 <= i < j < |ecus| ==> report.ecus[i] != report.ecus[j])
  {
    Validator.ValidateSucceedsIff(baseline);
    var ecus := baseline.fields["ecus"].items;
    assert Deployer.EcusToDeploy(baseline.fields) == Ok(ecus);
    forall i | 0 <= i < |ecus| ensures Deployer.HasName(ecus[i]) {
      assert Validator.WellFormedFragment(ecus[i]);
    }
    Deployer.DeploySucceedsIff(baseline.fields, deployedIso);
    Deployer.DeployReport(baseline, deployedIso);
  }

  /** The deployer checks neither the state nor the validator's rules: a
      baseline whose two fragments share a name is rejected by validation
      yet still deploys. */
  lemma DeployDoesNotRequireQualification(deployedIso: string)
    ensures var ecu := Map(map["ecu_name" := Str("brake"), "artifact_path" := Str("brake.bin"),
                               "commit" := Str("abc123")]);
      var baseline := Map(map["baseline_id" := Str("b"), "state" := Str("REJECTED"),
                              "ecus" := List([ecu, ecu])]);
      && Validator.Validate(baseline) == Fail(Validator.DuplicateEcu(Str("brake")))
      && Deployer.Deploy(baseline, deployedIso).Ok?
      && Deployer.Deploy(baseline, deployedIso).value.ecus == [Str("brake"), Str("brake")]
  {
    var ecu := Map(map["ecu_name" := Str("brake"), "artifact_path" := Str("brake.bin"),
                       "commit" := Str("abc123")]);
    var ecus := [ecu, ecu];
    assert Validator.NameOf(ecu) == Str("brake");
    assert Validator.CheckFragment(ecu, {}) == None;
    assert ecus[1..] == [ecu];
    assert Validator.CheckFragments(ecus, {}) == Validator.CheckFragments([ecu], {Str("brake")});
    assert ecus[1..][1..] == [];
  }

  /** The brake/engine scenario: both fragments are accepted, the baseline
      holds exactly these two entries in `ASSEMBLED` state, and deploying it
      reports `["brake", "engine"]`. */
  /** The two fragments of the scenario. */
  const Brake: Value := Map(map["ecu_name" := Str("brake"), "artifact_path" := Str("brake.bin"), "commit" := Str("abc123")])
  const Engine: Value := Map(map["ecu_name" := Str("engine"), "artifact_path" := Str("engine.bin"), "commit" := Str("def456")])

  lemma BrakeEngineScenario(idClock: Assembler.DateTime, createdIso: string, deployedIso: string)
    requires Assembler.ValidDateTime(idClock)
    ensures var baseline := Assembler.CreateBaselineManifest([Brake, Engine], idClock, createdIso);
      && Validator.Validate(baseline) == Pass
      && baseline.fields["state"] == Str("ASSEMBLED")
      && |baseline.fields["ecus"].items| == 2
      && Deployer.Deploy(baseline, deployedIso).Ok?
      && Deployer.Deploy(baseline, deployedIso).value.ecus == [Str("brake"), Str("engine")]
  {
    var ecus := [Brake, Engine];
    assert Validator.NameOf(Brake) == Str("brake") && Validator.NameOf(Engine) == Str("engine");
    assert Validator.DistinctNames(ecus);
    AssembledBaselineQualifies(ecus, idClock, createdIso);
    var baseline := Assembler.CreateBaselineManifest(ecus, idClock, createdIso);
    QualifiedBaselineDeploys(baseline, deployedIso);
    var report := Deployer.Deploy(baseline, deployedIso).value;
    assert report.ecus == [Str("brake"), Str("engine")];
  }
}
