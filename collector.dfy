/** The artifact collector: for each configured repository, finds the latest
    successful workflow run, picks the named artifact of that run, downloads
    it and extracts it into a directory named after the repository
    (scripts/fetch-ecu-manifests.py). The remote build system is given as
    its replies. */
module Collector {
  import opened Values

  /** One entry of a run listing's `workflow_runs`; `conclusion` is `None`
      for a JSON null (a run still in progress). */
  datatype WorkflowRun = WorkflowRun(id: int, conclusion: Option<string>)

  /** One entry of a run's `artifacts` listing. */
  datatype Artifact = Artifact(name: string, archiveDownloadUrl: string)

  /** An HTTP reply: its decoded body, or an error status that makes
      `raise_for_status` raise. */
  datatype Reply<T> = Body(body: T) | HttpError(status: int)

  /** A downloaded archive: a zip file, or bytes that `zipfile.ZipFile`
      rejects. What the archive holds is not modelled. */
  datatype Archive = ZipArchive | NotAZip

  /** The replies of the remote build system. A listing body is `None` when
      its JSON object has no `workflow_runs` (or `artifacts`) key. */
  datatype Remote = Remote(
    runs: string -> Reply<Option<seq<WorkflowRun>>>,
    artifacts: (string, int) -> Reply<Option<seq<Artifact>>>,
    archives: string -> Reply<Archive>)

  datatype FetchError =
    | ConfigError                                   // "GITHUB_TOKEN is not set"
    | UpstreamError(status: int)                    // an HTTP error status
    | NoSuccessfulRun(repo: string)                 // "No successful workflow runs found for repo '<repo>'"
    | ArtifactNotFound(artifactName: string, repo: string) // "Artifact '<name>' not found in repo '<repo>'"
    | BadArchive(repo: string)                      // the download is not a zip file

  /** The configured repositories and the artifact each one publishes, in
      the mapping's order. */
  const EcuRepos: seq<(string, string)> := [
    ("cpp-ci-demo", "ecu-calculator-artifact"),
    ("ecu-brake", "ecu-brake-artifact")
  ]

  /** `json.get(key, [])`. */
  function OrEmpty<T>(listed: Option<seq<T>>): seq<T>
  {
    if listed.Some? then listed.value else []
  }

  predicate Succeeded(run: WorkflowRun)
  {
    run.conclusion == Some("success")
  }

  // ---------------------------------------------------------------------
  // Choosing the run and the artifact
  // ---------------------------------------------------------------------

  /** The position of the first successful run, or `|runs|` when none
      succeeded. */
  function FirstSuccess(runs: seq<WorkflowRun>): (k: nat)
    ensures k <= |runs|
    ensures k < |runs| ==> Succeeded(runs[k])
    ensures forall j :: 0 <= j < k ==> !Succeeded(runs[j])
    decreases |runs|
  {
    if runs == [] then 0
    else if Succeeded(runs[0]) then 0
    else 1 + FirstSuccess(runs[1..])
  }

  /** `get_latest_successful_run`: scans the listing in response order and
      returns the id of the first successful run. */
  method GetLatestSuccessfulRun(repo: string, reply: Reply<Option<seq<WorkflowRun>>>)
    returns (r: Result<int, FetchError>)
    ensures reply.HttpError? ==> r == Err(UpstreamError(reply.status))
    ensures reply.Body? ==> var runs := OrEmpty(reply.body);
      && (r.Ok? <==> exists i :: 0 <= i < |runs| && Succeeded(runs[i]))
      && (r.Ok? ==> FirstSuccess(runs) < |runs| && r.value == runs[FirstSuccess(runs)].id)
      && (r.Err? ==> r.error == NoSuccessfulRun(repo))
  {
    if reply.HttpError? {
      return Err(UpstreamError(reply.status));
    }
    var runs := OrEmpty(reply.body);
    var i := 0;
    while i < |runs|
      invariant 0 <= i <= |runs|
      invariant forall j :: 0 <= j < i ==> !Succeeded(runs[j])
    {
      if runs[i].conclusion == Some("success") {
        return Ok(runs[i].id);
      }
      i := i + 1;
    }
    return Err(NoSuccessfulRun(repo));
  }

  /** The position of the first artifact named `name`, or `|artifacts|`
      when there is none. */
  function FirstNamed(artifacts: seq<Artifact>, name: string): (k: nat)
    ensures k <= |artifacts|
    ensures k < |artifacts| ==> artifacts[k].name == name
    ensures forall j :: 0 <= j < k ==> artifacts[j].name != name
    decreases |artifacts|
  {
    if artifacts == [] then 0
    else if artifacts[0].name == name then 0
    else 1 + FirstNamed(artifacts[1..], name)
  }

  /** The artifact choice in `fetch_artifact`: the first artifact, in
      response order, whose name is the one asked for, or `None`. */
  function SelectArtifact(artifacts: seq<Artifact>, name: string): (chosen: Option<Artifact>)
    ensures chosen.None? <==> forall i :: 0 <= i < |artifacts| ==> artifacts[i].name != name
    ensures chosen.Some? ==> FirstNamed(artifacts, name) < |artifacts|
                             && chosen.value == artifacts[FirstNamed(artifacts, name)]
                             && chosen.value.name == name
  {
    var k := FirstNamed(artifacts, name);
    if k < |artifacts| then Some(artifacts[k]) else None
  }

  // ---------------------------------------------------------------------
  // One repository
  // ---------------------------------------------------------------------

  /** What fetching one repository reports, and whether it creates the
      repository's directory on the way. */
  datatype FetchStep = FetchStep(outcome: Outcome<FetchError>, createsDir: bool)

  /** `fetch_artifact` as a function of the remote replies. */
  function Fetch(repo: string, artifactName: string, remote: Remote): FetchStep
  {
    match remote.runs(repo)
    case HttpError(status) => FetchStep(Fail(UpstreamError(status)), false)
    case Body(listed) =>
      var runs := OrEmpty(listed);
      var k := FirstSuccess(runs);
      if k == |runs| then FetchStep(Fail(NoSuccessfulRun(repo)), false)
      else match remote.artifacts(repo, runs[k].id)
        case HttpError(status) => FetchStep(Fail(UpstreamError(status)), false)
        case Body(artifacts) =>
          match SelectArtifact(OrEmpty(artifacts), artifactName)
          case None => FetchStep(Fail(ArtifactNotFound(artifactName, repo)), false)
          case Some(artifact) =>
            match remote.archives(artifact.archiveDownloadUrl)
            case HttpError(status) => FetchStep(Fail(UpstreamError(status)), false)
            case Body(NotAZip) => FetchStep(Fail(BadArchive(repo)), true)
            case Body(ZipArchive) => FetchStep(Pass, true)
  }

  /** The directory is created only once a successful run was found, the
      named artifact was in its listing and its download answered. */
  lemma DirectoryOnlyAfterDownload(repo: string, artifactName: string, remote: Remote)
    ensures Fetch(repo, artifactName, remote).createsDir
        <==> remote.runs(repo).Body?
             && var runs := OrEmpty(remote.runs(repo).body);
             FirstSuccess(runs) < |runs|
             && remote.artifacts(repo, runs[FirstSuccess(runs)].id).Body?
             && var chosen := SelectArtifact(OrEmpty(remote.artifacts(repo, runs[FirstSuccess(runs)].id).body), artifactName);
             chosen.Some? && remote.archives(chosen.value.archiveDownloadUrl).Body?
  {
  }

  /** A repository without a successful run, or whose run lacks the named
      artifact, fails with NotFound and gets no directory; a success always
      has one. */
  lemma NotFoundCreatesNoDirectory(repo: string, artifactName: string, remote: Remote)
    ensures var step := Fetch(repo, artifactName, remote);
      && (step.outcome == Fail(NoSuccessfulRun(repo)) ==> !step.createsDir)
      && (step.outcome == Fail(ArtifactNotFound(artifactName, repo)) ==> !step.createsDir)
      && (step.outcome.Pass? ==> step.createsDir)
  {
  }

  /** A run listing that is missing, empty or without a successful run
      fails naming the repository. */
  lemma NoSuccessfulRunIff(repo: string, artifactName: string, remote: Remote)
    requires remote.runs(repo).Body?
    ensures Fetch(repo, artifactName, remote).outcome == Fail(NoSuccessfulRun(repo))
        <==> forall i :: 0 <= i < |OrEmpty(remote.runs(repo).body)| ==> !Succeeded(OrEmpty(remote.runs(repo).body)[i])
  {
    var runs := OrEmpty(remote.runs(repo).body);
    if FirstSuccess(runs) < |runs| {
      assert Succeeded(runs[FirstSuccess(runs)]);
    }
  }

  // ---------------------------------------------------------------------
  // All repositories
  // ---------------------------------------------------------------------

  /** The outcome of a whole collection run, the directories it creates and
      the repositories it extracts, in order. */
  datatype CollectReport = CollectReport(outcome: Outcome<FetchError>, dirs: set<string>, extracted: seq<string>)

  /** The directory a step leaves behind for repository `name`. */
  function Created(name: string, step: FetchStep): set<string>
  {
    if step.createsDir then {name} else {}
  }

  /** The loop of `main` over repositories `names`, whose fetches take
      `steps`: in order, stopping at the first failure. */
  function Run(names: seq<string>, steps: seq<FetchStep>): CollectReport
    requires |names| == |steps|
    decreases |names|
  {
    if names == [] then CollectReport(Pass, {}, [])
    else if steps[0].outcome.Fail? then CollectReport(steps[0].outcome, Created(names[0], steps[0]), [])
    else
      var rest := Run(names[1..], steps[1..]);
      CollectReport(rest.outcome, Created(names[0], steps[0]) + rest.dirs, [names[0]] + rest.extracted)
  }

  /** The repository names of `repos`, in order. */
  function RepoNames(repos: seq<(string, string)>): (names: seq<string>)
    ensures |names| == |repos|
    ensures forall i :: 0 <= i < |repos| ==> names[i] == repos[i].0
  {
    seq(|repos|, i requires 0 <= i < |repos| => repos[i].0)
  }

  /** The step fetching each repository takes. */
  function FetchSteps(repos: seq<(string, string)>, remote: Remote): seq<FetchStep>
    decreases |repos|
  {
    if repos == [] then [] else [Fetch(repos[0].0, repos[0].1, remote)] + FetchSteps(repos[1..], remote)
  }

  lemma {:induction false} FetchStepsAt(repos: seq<(string, string)>, remote: Remote, i: nat)
    requires i < |repos|
    ensures |FetchSteps(repos, remote)| == |repos|
    ensures FetchSteps(repos, remote)[i] == Fetch(repos[i].0, repos[i].1, remote)
    decreases i
  {
    FetchStepsLength(repos, remote);
    if i > 0 {
      FetchStepsAt(repos[1..], remote, i - 1);
    }
  }

  lemma {:induction false} FetchStepsLength(repos: seq<(string, string)>, remote: Remote)
    ensures |FetchSteps(repos, remote)| == |repos|
    decreases |repos|
  {
    if repos != [] {
      FetchStepsLength(repos[1..], remote);
    }
  }

  /** A collection run over the configured `(repository, artifact)` pairs. */
  function CollectAll(repos: seq<(string, string)>, remote: Remote): CollectReport
  {
    FetchStepsLength(repos, remote);
    Run(RepoNames(repos), FetchSteps(repos, remote))
  }

  function Elems(names: seq<string>): set<string>
  {
    set n | n in names
  }

  /** Every step that succeeds has created its directory. */
  predicate PassCreatesDir(steps: seq<FetchStep>)
  {
    forall j :: 0 <= j < |steps| ==> steps[j].outcome.Pass? ==> steps[j].createsDir
  }

  /** Step `i` is the fetch of repository `i`. */
  lemma FetchStepsSpec(repos: seq<(string, string)>, remote: Remote)
    ensures |FetchSteps(repos, remote)| == |repos|
    ensures forall i :: 0 <= i < |repos| ==> FetchSteps(repos, remote)[i] == Fetch(repos[i].0, repos[i].1, remote)
  {
    FetchStepsLength(repos, remote);
    forall i | 0 <= i < |repos| ensures FetchSteps(repos, remote)[i] == Fetch(repos[i].0, repos[i].1, remote) {
      FetchStepsAt(repos, remote, i);
    }
  }

  /** Every step that succeeds has created its directory. */
  lemma FetchStepsPassCreates(repos: seq<(string, string)>, remote: Remote)
    ensures PassCreatesDir(FetchSteps(repos, remote))
  {
    FetchStepsSpec(repos, remote);
    forall i | 0 <= i < |repos| ensures Fetch(repos[i].0, repos[i].1, remote).outcome.Pass? ==> Fetch(repos[i].0, repos[i].1, remote).createsDir {
      NotFoundCreatesNoDirectory(repos[i].0, repos[i].1, remote);
    }
  }

  /** When every step succeeds, the run succeeds, extracting every
      repository in order and creating exactly their directories. */
  lemma {:induction false} RunPasses(names: seq<string>, steps: seq<FetchStep>)
    requires |names| == |steps| && PassCreatesDir(steps)
    requires forall j :: 0 <= j < |steps| ==> steps[j].outcome == Pass
    ensures Run(names, steps) == CollectReport(Pass, Elems(names), names)
    decreases |names|
  {
    if names != [] {
      var ns, ss := names[1..], steps[1..];
      assert forall j :: 0 <= j < |ss| ==> ss[j] == steps[j + 1];
      RunPasses(ns, ss);
      assert names == [names[0]] + ns;
      assert Elems(names) == {names[0]} + Elems(ns);
    }
  }

  /** When the steps before `k` succeed and step `k` fails, the run ends with
      step `k`'s error, having extracted exactly the repositories before `k`. */
  lemma {:induction false} RunStopsAt(names: seq<string>, steps: seq<FetchStep>, k: nat)
    requires |names| == |steps| && k < |steps| && PassCreatesDir(steps)
    requires forall j :: 0 <= j < k ==> steps[j].outcome == Pass
    requires steps[k].outcome.Fail?
    ensures Run(names, steps)
         == CollectReport(steps[k].outcome, Elems(names[..k]) + Created(names[k], steps[k]), names[..k])
    decreases k
  {
    if k == 0 {
      assert names[..0] == [];
      assert Elems([]) == {};
    } else {
      var ns, ss := names[1..], steps[1..];
      assert forall j :: 0 <= j < |ss| ==> ss[j] == steps[j + 1];
      RunStopsAt(ns, ss, k - 1);
      assert names[..k] == [names[0]] + ns[..k - 1];
      assert Elems(names[..k]) == {names[0]} + Elems(ns[..k - 1]);
    }
  }

  /** A failed run has a first failing step, all steps before it passed. */
  lemma {:induction false} FirstFailedStep(names: seq<string>, steps: seq<FetchStep>) returns (k: nat)
    requires |names| == |steps| && Run(names, steps).outcome.Fail?
    ensures k < |steps| && steps[k].outcome.Fail?
    ensures forall j :: 0 <= j < k ==> steps[j].outcome == Pass
    decreases |names|
  {
    if steps[0].outcome.Fail? {
      k := 0;
    } else {
      var ss := steps[1..];
      var k' := FirstFailedStep(names[1..], ss);
      k := k' + 1;
      forall j | 0 <= j < k ensures steps[j].outcome == Pass {
        if j > 0 { assert steps[j] == ss[j - 1]; }
      }
    }
  }

  /** A successful run passed every step. */
  lemma {:induction false} RunPassed(names: seq<string>, steps: seq<FetchStep>)
    requires |names| == |steps| && Run(names, steps).outcome == Pass
    ensures forall j :: 0 <= j < |steps| ==> steps[j].outcome == Pass
    decreases |names|
  {
    if names != [] {
      var ss := steps[1..];
      RunPassed(names[1..], ss);
      forall j | 0 <= j < |steps| ensures steps[j].outcome == Pass {
        if j > 0 { assert steps[j] == ss[j - 1]; }
      }
    }
  }

  /** A failed run stopped at the first failing repository: every earlier
      one was fetched and extracted, nothing later was touched, and the
      failing one has a directory only if its download answered. */
  lemma CollectStopsAtFirstFailure(repos: seq<(string, string)>, remote: Remote) returns (k: nat)
    requires CollectAll(repos, remote).outcome.Fail?
    ensures k < |repos|
    ensures forall j :: 0 <= j < k ==> Fetch(repos[j].0, repos[j].1, remote).outcome == Pass
    ensures Fetch(repos[k].0, repos[k].1, remote).outcome == CollectAll(repos, remote).outcome
    ensures CollectAll(repos, remote).extracted == RepoNames(repos)[..k]
    ensures CollectAll(repos, remote).dirs
         == Elems(RepoNames(repos)[..k]) + Created(repos[k].0, Fetch(repos[k].0, repos[k].1, remote))
  {
    var names, steps := RepoNames(repos), FetchSteps(repos, remote);
    FetchStepsSpec(repos, remote);
    FetchStepsPassCreates(repos, remote);
    k := FirstFailedStep(names, steps);
    RunStopsAt(names, steps, k);
  }

  /** A run succeeds exactly when every repository's fetch succeeds, and a
      successful run extracted every repository in order and created
      exactly their directories. */
  lemma CollectPassIff(repos: seq<(string, string)>, remote: Remote)
    ensures CollectAll(repos, remote).outcome == Pass
        <==> forall j :: 0 <= j < |repos| ==> Fetch(repos[j].0, repos[j].1, remote).outcome == Pass
    ensures CollectAll(repos, remote).outcome == Pass
        ==> CollectAll(repos, remote).extracted == RepoNames(repos)
            && CollectAll(repos, remote).dirs == Elems(RepoNames(repos))
  {
    var names, steps := RepoNames(repos), FetchSteps(repos, remote);
    FetchStepsSpec(repos, remote);
    FetchStepsPassCreates(repos, remote);
    if Run(names, steps).outcome == Pass {
      RunPassed(names, steps);
    }
    if forall j :: 0 <= j < |steps| ==> steps[j].outcome == Pass {
      RunPasses(names, steps);
    }
  }

  // ---------------------------------------------------------------------
  // The artifacts directory, which the collector changes
  // ---------------------------------------------------------------------

  class ArtifactArea {
    /** The repository directories under `artifacts/`. */
    var dirs: set<string>
    /** The repositories whose archive was extracted, in order. */
    var extracted: seq<string>

    constructor (existing: set<string>)
      ensures dirs == existing && extracted == []
    {
      dirs := existing;
      extracted := [];
    }

    /** `fetch_artifact`: both lookups, the download, then the directory
        and the extraction. */
    method FetchArtifact(repo: string, artifactName: string, remote: Remote) returns (outcome: Outcome<FetchError>)
      modifies this
      ensures outcome == Fetch(repo, artifactName, remote).outcome
      ensures dirs == old(dirs) + (if Fetch(repo, artifactName, remote).createsDir then {repo} else {})
      ensures extracted == old(extracted) + (if outcome.Pass? then [repo] else [])
    {
      var run := GetLatestSuccessfulRun(repo, remote.runs(repo));
      if run.Err? {
        return Fail(run.error);
      }
      var artifactsReply := remote.artifacts(repo, run.value);
      if artifactsReply.HttpError? {
        return Fail(UpstreamError(artifactsReply.status));
      }
      var artifact := SelectArtifact(OrEmpty(artifactsReply.body), artifactName);
      if artifact.None? {
        return Fail(ArtifactNotFound(artifactName, repo));
      }
      var zipReply := remote.archives(artifact.value.archiveDownloadUrl);
      if zipReply.HttpError? {
        return Fail(UpstreamError(zipReply.status));
      }
      dirs := dirs + {repo};
      if zipReply.body.NotAZip? {
        return Fail(BadArchive(repo));
      }
      extracted := extracted + [repo];
      return Pass;
    }

    /** `fetch_artifact` on the `i`-th configured repository, which takes
        step `i` of the collection run. */
    method FetchNth(repos: seq<(string, string)>, remote: Remote, i: nat) returns (outcome: Outcome<FetchError>)
      requires i < |repos|
      modifies this
      ensures |FetchSteps(repos, remote)| == |repos|
      ensures outcome == FetchSteps(repos, remote)[i].outcome
      ensures dirs == old(dirs) + Created(repos[i].0, FetchSteps(repos, remote)[i])
      ensures extracted == old(extracted) + (if outcome.Pass? then [repos[i].0] else [])
    {
      FetchStepsAt(repos, remote, i);
      outcome := FetchArtifact(repos[i].0, repos[i].1, remote);
    }

    /** The loop of `main` over the configured repositories: the first
        failure stops the run. */
    method Collect(repos: seq<(string, string)>, remote: Remote) returns (outcome: Outcome<FetchError>)
      modifies this
      ensures outcome == CollectAll(repos, remote).outcome
      ensures dirs == old(dirs) + CollectAll(repos, remote).dirs
      ensures extracted == old(extracted) + CollectAll(repos, remote).extracted
    {
      ghost var names, steps := RepoNames(repos), FetchSteps(repos, remote);
      FetchStepsLength(repos, remote);
      FetchStepsPassCreates(repos, remote);
      assert names[..0] == [] && Elems([]) == {};
      var i := 0;
      while i < |repos|
        invariant 0 <= i <= |repos|
        invariant forall j :: 0 <= j < i ==> steps[j].outcome == Pass
        invariant dirs == old(dirs) + Elems(names[..i])
        invariant extracted == old(extracted) + names[..i]
      {
        outcome := FetchNth(repos, remote, i);
        if outcome.Fail? {
          RunStopsAt(names, steps, i);
          return;
        }
        assert names[..i + 1] == names[..i] + [names[i]];
        i := i + 1;
      }
      assert names[..i] == names;
      RunPasses(names, steps);
      return Pass;
    }

    /** The whole script: a missing or empty token stops it before any
        repository is looked at; otherwise it collects the configured
        repositories. */
    method FetchEcuManifests(token: Option<string>, remote: Remote) returns (outcome: Outcome<FetchError>)
      modifies this
      ensures (token.None? || token.value == "") ==> outcome == Fail(ConfigError)
      ensures (token.None? || token.value == "") ==> dirs == old(dirs) && extracted == old(extracted)
      ensures token.Some? && token.value != "" ==>
                outcome == CollectAll(EcuRepos, remote).outcome
                && dirs == old(dirs) + CollectAll(EcuRepos, remote).dirs
                && extracted == old(extracted) + CollectAll(EcuRepos, remote).extracted
    {
      if token.None? || token.value == "" {
        return Fail(ConfigError);
      }
      outcome := Collect(EcuRepos, remote);
    }
  }
}
