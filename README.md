# Baseline orchestrator — a Dafny model

The baseline orchestrator is a four-stage pipeline of Python scripts. Together they turn the build outputs of several ECU (electronic control unit) repositories into one deployed software baseline:

1. **Collect** (`scripts/fetch-ecu-manifests.py`). For each configured repository, in order, it:
   - finds the latest successful workflow run;
   - picks the artifact with the configured name from that run;
   - downloads the archive and extracts it into `artifacts/<repo>/`.

   The first failure stops the run. A missing token stops it before any repository is contacted.
2. **Assemble** (`scripts/combine_manifests.py`). It reads `<entry>/ecu-manifest.yaml` for every entry listed in `artifacts/`, in listing order, with all-or-nothing semantics. A stray file in `artifacts/` has no manifest beneath it, so it fails the load. It wraps the fragments in a baseline record with:
   - an identifier `baseline-YYYYMMDD-HHMMSS`;
   - the state `ASSEMBLED`;
   - a creation time stamp.
3. **Validate** (`scripts/sanity_check_baseline.py`). A fail-fast check in a fixed order: the baseline id, the ECU list, then per fragment the name, uniqueness of the name, `artifact_path` and `commit`. The first violation decides the verdict and the exit status.
4. **Deploy** (`scripts/deploy_baseline_mock.py`). A mock deployment that reports every fragment's `ecu_name`, in order, as deployed to the rig `SYSTEM-RIG-01`.

## Modules

The Dafny project has one module per stage, plus a module of shared values:

- **`Values`** (`values.dfy`): `Option`, `Result` and `Outcome`, and a model of loaded YAML documents (`Value`) with Python truthiness, hashability, `dict.get` and substring membership.
- **`Collector`** (`collector.dfy`):
  - the remote build system is a value, `Remote`, that gives its replies;
  - `Fetch` and `CollectAll` are the specification functions;
  - the class `ArtifactArea` holds the state the script changes on disk: the repository directories and the extracted repositories. Its methods are proved against those functions.
- **`Assembler`** (`assembler.dfy`):
  - the load loop as a method;
  - the baseline identifier with a parser and a round trip through it;
  - the baseline record.
- **`Validator`** (`validator.dfy`):
  - the check loop as a method, proved equal to the recursive `Validate`;
  - an independent description of a passing baseline (`QualifiedBaseline`), with both directions proved;
  - "first violation wins" and duplicate detection, stated as if-and-only-if lemmas.
- **`Deployer`** (`deployer.dfy`): the deployment loop as a method proved equal to `Deploy`, with lemmas about the report it builds and when it fails.
- **`Pipeline`** (`pipeline.dfy`): properties that span stages. When at least one well-formed fragment is assembled and no two fragments share a name, the baseline is proved to pass validation and then to deploy, reporting the fragments' names in order. The deployer does not depend on the validator.

### Where the code and its design description differ

The model follows the code in each case.

- **Baseline id.** The design describes a non-empty `baseline_id`. The validator only tests that the key is present (`Validator.BaselineIdPresenceOnly`).
- **Deployment state.** The design describes deployment as limited to qualified baselines. The deployer never reads `state` (`Deployer.StateIgnored`). It deploys a baseline that the validator rejects (`Pipeline.DeployDoesNotRequireQualification`).
- **State changes.** No script writes the states `QUALIFIED` or `REJECTED`. The validator only sets an exit status (`Validator.SanityExitCode`).
- **Repository order.** The assembler takes repositories in directory-listing order, not sorted, so the listing is a parameter.

## Model

| member | source | states |
|---|---|---|
| Validator.CheckFragment | scripts/sanity_check_baseline.py:41-54 | One pass of the fragment loop: the first of these errors, checked in this order, or none. A non-mapping fragment, a missing or falsy `ecu_name`, a name that cannot be hashed into the set, a name already seen, a missing `artifact_path`, a missing `commit`. |
| Validator.CheckFragments | scripts/sanity_check_baseline.py:38-56 | The fragment loop: fragments are checked in order, each against the names of the fragments before it, and the first error ends the loop. |
| Validator.NonMappingVerdict | scripts/sanity_check_baseline.py:30-35 | A document that is not a mapping fails. A string without the substring `baseline_id`, or a list without that element, fails with the missing-id error. Every other non-mapping document fails as not a mapping. |
| Validator.Validate | scripts/sanity_check_baseline.py:26-58 | The verdict of `sanity_checks`: a missing id, then an absent, empty or non-list `ecus`, then the fragment loop. |
| Validator.SanityChecks | scripts/sanity_check_baseline.py:26-58 | The imperative check loop with its growing set of seen names returns exactly the verdict of `Validate`: the same first error, or a pass. |
| Validator.ValidateSucceedsIff | scripts/sanity_check_baseline.py:26-58 | Validation passes if and only if all of these hold: the document is a mapping with a `baseline_id`; `ecus` is a non-empty list; every fragment is a mapping with a truthy, hashable `ecu_name`, an `artifact_path` and a `commit`; no two fragments share a name. |
| Validator.CheckFragmentsPassIff | scripts/sanity_check_baseline.py:38-56 | The per-fragment loop, started from a set of names already seen, passes if and only if every fragment is well formed, its name is not in that set, and all names are distinct. |
| Validator.FirstViolationWins | scripts/sanity_check_baseline.py:40-54 | The loop fails with error `e` if and only if some fragment fails with `e` and every fragment before it passed. |
| Validator.FirstViolation | scripts/sanity_check_baseline.py:40-54 | A failing loop has a first failing position. The prefix before it passes, and the fragment there, checked against the names of that prefix, gives the reported error. |
| Validator.CheckFragmentsErrors | scripts/sanity_check_baseline.py:40-54 | The fragment loop only raises fragment errors, never a missing id or a missing ECU list. |
| Validator.BaselineIdPresenceOnly | scripts/sanity_check_baseline.py:30-31 | A mapping without `baseline_id` fails with that error first. Otherwise the id's value, even an empty or null one, does not change the verdict. |
| Validator.NoEcusIff | scripts/sanity_check_baseline.py:34-36 | With an id present, "No ECUs found" is reported if and only if `ecus` is absent, empty or not a list. |
| Validator.MissingNameReported | scripts/sanity_check_baseline.py:41-43 | The first mapping fragment whose `ecu_name` is missing or falsy, after an accepted prefix, stops validation with the missing-name error. |
| Validator.DuplicateAtSecondOccurrence | scripts/sanity_check_baseline.py:45-46 | A name carried by an earlier accepted fragment is reported as a duplicate at its second occurrence. |
| Validator.DuplicateHasTwoOccurrences | scripts/sanity_check_baseline.py:45-48 | A reported duplicate names an ECU that occurs at two positions, the later one reached with every earlier fragment accepted. |
| Validator.DuplicateIff | scripts/sanity_check_baseline.py:45-48 | Both directions: a duplicate error naming `n` if and only if `n` occurs twice and the second occurrence is reached with every earlier fragment accepted. |
| Validator.FragmentCheckOrder | scripts/sanity_check_baseline.py:45-54 | Within a fragment with a usable name, the checks run in this order: duplicate, then `artifact_path`, then `commit`. Only the presence of those keys matters. |
| Validator.SanityExitCode | scripts/sanity_check_baseline.py:61-69 | The exit status is 0 or 1. It is 0 if and only if the document loaded and is a qualified baseline. |
| Assembler.LoadEcuManifests | scripts/combine_manifests.py:22-47 | A missing directory, an empty listing, and a directory without a manifest each give their own error. Success holds exactly when the listing is non-empty and complete, and then returns the fragments in listing order. A missing manifest is reported for the first incomplete entry. |
| Assembler.Fragments | scripts/combine_manifests.py:28-41 | One fragment per listed repository, in listing order, each the parsed manifest of that entry. |
| Assembler.BaselineId | scripts/combine_manifests.py:52 | The text `baseline-` followed by the instant formatted as `%Y%m%d-%H%M%S`. |
| Assembler.ZeroPadded | scripts/combine_manifests.py:52 | A `strftime` field is exactly `width` characters, all of them decimal digits. |
| Assembler.ZeroPaddedRoundTrip | scripts/combine_manifests.py:52 | Reading a zero-padded field as decimal gives back the number. |
| Assembler.BaselineIdParts | scripts/combine_manifests.py:52 | The identifier is 24 characters: the `baseline-` prefix, eight date digits, a dash, and six time digits. |
| Assembler.BaselineIdRoundTrip | scripts/combine_manifests.py:52 | Every identifier has the `baseline-YYYYMMDD-HHMMSS` shape and parses back to its instant, truncated to the second. |
| Assembler.BaselineIdCollidesWithinOneSecond | scripts/combine_manifests.py:52 | Two identifiers are equal if and only if the two instants fall in the same second. |
| Assembler.CreateBaselineManifest | scripts/combine_manifests.py:50-56 | The record is `Assembled`. It has exactly the keys `baseline_id`, `state`, `created_at` and `ecus`. Its state is `ASSEMBLED` and its `ecus` are the given fragments. Its id parses back to the first clock reading, truncated to the second. `created_at` is the ISO text of the second reading followed by `Z`. |
| Assembler.GenerateBaseline | scripts/combine_manifests.py:66-77 | A baseline is produced if and only if the listing exists, is non-empty and every entry has a manifest. It is then the record built from the loaded fragments. Each failure is reported with the error `load_ecu_manifests` raised. A missing artifacts directory is reported if and only if there is no listing. "No ECU manifests found" is reported if and only if the listing is empty. A missing manifest names the first entry without one. |
| Deployer.EcusToDeploy | scripts/deploy_baseline_mock.py:32 | The items the loop iterates over: `ecus`, or the empty list when it is absent. An empty string or mapping gives no items. A null or integer `ecus` is not iterable. A non-empty string or mapping fails at its first item's subscript. |
| Deployer.EcuNames | scripts/deploy_baseline_mock.py:32-35 | The name loop: each fragment's `ecu_name`, in order. It fails at the first fragment that is not a mapping or has no `ecu_name`. |
| Deployer.Deploy | scripts/deploy_baseline_mock.py:26-45 | `simulate_deployment`: the items, then their names, then the report. `baseline_id` is read only after the loop. |
| Deployer.SimulateDeployment | scripts/deploy_baseline_mock.py:26-45 | The imperative loop that appends to `deployed_ecus` gives exactly the report or the error of `Deploy`. |
| Deployer.EcuNamesIsNameMap | scripts/deploy_baseline_mock.py:32-35 | The name loop succeeds if and only if every fragment is a mapping with `ecu_name`. It then yields one name per fragment, in order. |
| Deployer.EcuNamesErrors | scripts/deploy_baseline_mock.py:32-33 | The name loop fails only with a fragment error. |
| Deployer.DeployReport | scripts/deploy_baseline_mock.py:37-43 | A successful report carries the baseline's id, the rig `SYSTEM-RIG-01`, the status `DEPLOYED`, and a `deployed_at` that is the clock's ISO text followed by `Z`. It lists the fragments' names in order. |
| Deployer.DeploySucceedsIff | scripts/deploy_baseline_mock.py:26-45 | When `ecus` is a list or absent, deployment succeeds if and only if `baseline_id` is present and every fragment has an `ecu_name`. |
| Deployer.MissingEcusDeploysNothing | scripts/deploy_baseline_mock.py:32 | A baseline without `ecus` deploys with an empty ECU list. |
| Deployer.FragmentErrorBeforeMissingId | scripts/deploy_baseline_mock.py:32-38 | A fragment without a name fails deployment with a fragment error, even when the id is also missing, because the loop runs before the id is read. |
| Deployer.StateIgnored | scripts/deploy_baseline_mock.py:26-45 | The outcome of deployment does not depend on the baseline's `state`. |
| Collector.FirstSuccess | scripts/fetch-ecu-manifests.py:43-45 | The position of the first run whose conclusion is `success`, or the length of the listing when there is none. |
| Collector.GetLatestSuccessfulRun | scripts/fetch-ecu-manifests.py:37-47 | An HTTP error is raised. Otherwise the result is a run id if and only if some run succeeded, and it is the first successful run's id. If no run succeeded, the error names the repository. |
| Collector.FirstNamed | scripts/fetch-ecu-manifests.py:62-65 | The position of the first artifact with the wanted name, or the length of the listing when there is none. |
| Collector.SelectArtifact | scripts/fetch-ecu-manifests.py:61-70 | There is no artifact if and only if none has the wanted name. Otherwise the selection is the first artifact so named. |
| Collector.Fetch | scripts/fetch-ecu-manifests.py:50-83 | `fetch_artifact` as a function of the replies. It takes the first successful run, then the first artifact with the wanted name, then the download. The directory is created before the archive is opened, so a download that is not a zip file fails and leaves a directory behind. |
| Collector.DirectoryOnlyAfterDownload | scripts/fetch-ecu-manifests.py:53-78 | The repository directory is created if and only if a successful run was found, its listing held the named artifact, and the download answered. |
| Collector.NotFoundCreatesNoDirectory | scripts/fetch-ecu-manifests.py:67-78 | A missing run or a missing artifact leaves no directory. A successful fetch always has one. |
| Collector.NoSuccessfulRunIff | scripts/fetch-ecu-manifests.py:42-47 | A readable run listing fails with "no successful run" if and only if no run in it succeeded. |
| Collector.CollectStopsAtFirstFailure | scripts/fetch-ecu-manifests.py:90-96 | A failing collection has a first failing repository. Every repository before it was fetched and extracted, nothing after it was touched, and its error is the run's error. |
| Collector.CollectPassIff | scripts/fetch-ecu-manifests.py:90-98 | A collection passes if and only if every repository's fetch passes. A passing collection extracted every repository, in order, and created exactly their directories. |
| Collector.Run | scripts/fetch-ecu-manifests.py:90-96 | The loop of `main` over given steps, in order. It stops at the first failure, which keeps the directory that step made. |
| Collector.CollectAll | scripts/fetch-ecu-manifests.py:90-96 | A collection run: `Run` over the configured repositories, each taking the step `Fetch` gives it. |
| Collector.RunPasses | scripts/fetch-ecu-manifests.py:90-96 | When every step of the loop succeeds, the run passes, extracting every repository in order and creating exactly their directories. |
| Collector.RunStopsAt | scripts/fetch-ecu-manifests.py:90-96 | When the steps before `k` succeed and step `k` fails, the run ends with step `k`'s error. It has extracted exactly the repositories before `k`, and step `k` leaves a directory only if it created one. |
| Collector.FirstFailedStep | scripts/fetch-ecu-manifests.py:90-96 | A failed run has a first failing step, and every step before it passed. |
| Collector.RunPassed | scripts/fetch-ecu-manifests.py:90-98 | A run that passed passed every step. |
| Collector.FetchStepsSpec | scripts/fetch-ecu-manifests.py:91-92 | There is one step per configured repository, and the `i`-th step is the fetch of the `i`-th repository. |
| Collector.FetchStepsPassCreates | scripts/fetch-ecu-manifests.py:77-81 | Every step of a collection run that succeeds has created its repository's directory. |
| Collector.ArtifactArea.FetchArtifact | scripts/fetch-ecu-manifests.py:50-83 | The outcome is that of `Fetch`. The repository's directory is added only when `Fetch` creates it, and the repository is recorded as extracted only on success. |
| Collector.ArtifactArea.FetchNth | scripts/fetch-ecu-manifests.py:91-92 | Fetching the `i`-th configured repository has the outcome of step `i`. It adds that step's directory, and it records the repository as extracted only on success. |
| Collector.ArtifactArea.Collect | scripts/fetch-ecu-manifests.py:87-98 | The loop over the repositories ends with the outcome, directories and extracted list of `CollectAll`. |
| Collector.ArtifactArea.FetchEcuManifests | scripts/fetch-ecu-manifests.py:15-18 | A missing or empty token fails with a configuration error and changes nothing. Otherwise the run collects the two configured repositories, in order. |
| Pipeline.AssembledBaselineQualifies | scripts/combine_manifests.py:50-56 | Assembling at least one well-formed fragment, with distinct names, gives a baseline that passes validation, in `ASSEMBLED` state, with those fragments. |
| Pipeline.QualifiedBaselineDeploys | scripts/deploy_baseline_mock.py:26-45 | A baseline that passes validation deploys. The report carries its id and lists its fragments' names in order, with no name twice. |
| Pipeline.DeployDoesNotRequireQualification | scripts/deploy_baseline_mock.py:26-45 | A `REJECTED` baseline with a duplicated ECU fails validation but still deploys, reporting the name twice. |
| Pipeline.BrakeEngineScenario | scripts/combine_manifests.py:50-56 | Brake and engine fragments give a validated baseline with two entries, which deploys as `["brake", "engine"]`. |

## Left out

- **Network.** HTTP requests, the bearer token header, the API URLs and the owner name are not modelled. The remote system is a value giving each request's reply.
- **Archive contents.** Only whether a download is a zip file is modelled, not what it contains or the files that extraction writes.
- **Base directories.** Creating `artifacts/` and `baseline/` when the scripts start is not modelled.
- **YAML and files.** YAML parsing and dumping, and file reads and writes, are not modelled. A loaded document is a `Value`; a missing file or invalid YAML is `None` in `Validator.SanityExitCode`. Key order in written documents is not modelled, since Dafny maps are unordered.
- **Logging and exit.** Log messages are not modelled; each error is a datatype constructor. `sys.exit` is modelled only as the validator's exit status.
- **Clock.** `datetime.utcnow()` is a parameter. The assembler reads the clock twice, so the identifier and `created_at` come from independent readings. The `isoformat()` text is given as a string.
- **YAML booleans and floats.** These are not in `Value`. Python's `True == 1` when it hashes names is not modelled.
- Assembler.BaselineId: pads the year to four digits, as `%Y` does on most platforms. It does not model glibc, which prints years below 1000 unpadded.
- Validator.Validate: folds several errors into `NotAMapping`. These are the TypeError for a null or integer document, and the AttributeError for a string or list document that contains `baseline_id`.
- Deployer.EcusToDeploy: for a non-empty string or mapping `ecus`, it only models that the first yielded item fails the subscript. It does not model which character or key that item is.
- **Malformed API replies.** These are not modelled: a non-object JSON body, and run or artifact entries without `id`, `conclusion`, `name` or `archive_download_url`. A null conclusion is modelled; a missing listing key reads as an empty listing.
- **Output files.** Writing `baseline/baseline-manifest.yaml` and `deployment/deployment-report.yaml` is not modelled, because it happens after the modelled decisions.
