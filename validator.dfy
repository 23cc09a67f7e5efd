/** The baseline validator: an ordered, fail-fast check over an assembled
    baseline manifest (scripts/sanity_check_baseline.py). */
module Validator {
  import opened Values

  /** Why validation stopped. The first five are the script's own messages;
      the others are the Python exceptions that the script's `main` catches
      and reports the same way. */
  datatype CheckError =
    | MissingBaselineId              // "Missing 'baseline_id'"
    | NoEcus                         // "No ECUs found in baseline"
    | MissingEcuName                 // "ECU missing 'ecu_name'"
    | DuplicateEcu(name: Value)      // "Duplicate ECU found: <name>"
    | MissingArtifactPath(name: Value)
    | MissingCommit(name: Value)
    | NotAMapping                    // the document is not a dict (TypeError / AttributeError)
    | FragmentNotMapping             // `ecu.get` on a fragment that is not a dict
    | UnhashableEcuName              // `ecu_name in seen_ecus` on a list or dict name

  type Verdict = Outcome<CheckError>

  /** Errors that only the per-fragment loop can raise. */
  predicate IsFragmentError(e: CheckError)
  {
    e.MissingEcuName? || e.DuplicateEcu? || e.MissingArtifactPath? || e.MissingCommit?
    || e.FragmentNotMapping? || e.UnhashableEcuName?
  }

  /** `ecu.get("ecu_name")`, with `Null` for a fragment that is not a dict. */
  function NameOf(ecu: Value): Value
  {
    if ecu.Map? then Get(ecu.fields, "ecu_name", Null) else Null
  }

  /** The names of the fragments in `ecus`. */
  function NamesSeen(ecus: seq<Value>): set<Value>
  {
    set j | 0 <= j < |ecus| :: NameOf(ecus[j])
  }

  // ---------------------------------------------------------------------
  // The checks, as the script performs them
  // ---------------------------------------------------------------------

  /** The checks on one fragment, in the script's order, given the names of
      the fragments already accepted. */
  function CheckFragment(ecu: Value, seen: set<Value>): Option<CheckError>
  {
    if !ecu.Map? then Some(FragmentNotMapping)
    else
      var name := NameOf(ecu);
      if !Truthy(name) then Some(MissingEcuName)
      else if !Hashable(name) then Some(UnhashableEcuName)
      else if name in seen then Some(DuplicateEcu(name))
      else if "artifact_path" !in ecu.fields then Some(MissingArtifactPath(name))
      else if "commit" !in ecu.fields then Some(MissingCommit(name))
      else None
  }

  /** The loop over the fragments: the first fragment that fails decides. */
  function CheckFragments(ecus: seq<Value>, seen: set<Value>): Verdict
    decreases |ecus|
  {
    if ecus == [] then Pass
    else match CheckFragment(ecus[0], seen)
      case Some(e) => Fail(e)
      case None => CheckFragments(ecus[1..], seen + {NameOf(ecus[0])})
  }

  /** `sanity_checks` on a document that is not a dict. A string or a list
      still answers the `"baseline_id" not in baseline` test (substring and
      element membership); only then does `.get` fail. */
  function NonMappingVerdict(doc: Value): Verdict
    requires !doc.Map?
  {
    match doc
    case Str(s) =>
      if !ContainsSubstring(s, "baseline_id") then Fail(MissingBaselineId) else Fail(NotAMapping)
    case List(items) =>
      if Str("baseline_id") !in items then Fail(MissingBaselineId) else Fail(NotAMapping)
    case _ => Fail(NotAMapping)
  }

  /** `sanity_checks` as a function of the loaded document. */
  function Validate(doc: Value): Verdict
  {
    match doc
    case Map(fields) =>
      if "baseline_id" !in fields then Fail(MissingBaselineId)
      else
        var ecus := Get(fields, "ecus", Null);
        if !Truthy(ecus) || !ecus.List? then Fail(NoEcus)
        else CheckFragments(ecus.items, {})
    case _ => NonMappingVerdict(doc)
  }

  /** The loop of `sanity_checks`, with its growing `seen_ecus` set. */
  method SanityChecks(baseline: Value) returns (verdict: Verdict)
    ensures verdict == Validate(baseline)
  {
    if !baseline.Map? {
      return NonMappingVerdict(baseline);
    }
    if "baseline_id" !in baseline.fields {
      return Fail(MissingBaselineId);
    }
    var value := Get(baseline.fields, "ecus", Null);
    if !Truthy(value) || !value.List? {
      return Fail(NoEcus);
    }
    var ecus := value.items;
    var seenEcus: set<Value> := {};
    var i := 0;
    while i < |ecus|
      invariant 0 <= i <= |ecus|
      invariant seenEcus == NamesSeen(ecus[..i])
      invariant CheckFragments(ecus, {}) == CheckFragments(ecus[i..], seenEcus)
    {
      var ecu := ecus[i];
      assert ecus[i..][0] == ecu && ecus[i..][1..] == ecus[i + 1..];
      if !ecu.Map? {
        return Fail(FragmentNotMapping);
      }
      var ecuName := Get(ecu.fields, "ecu_name", Null);
      if !Truthy(ecuName) {
        return Fail(MissingEcuName);
      }
      if !Hashable(ecuName) {
        return Fail(UnhashableEcuName);
      }
      if ecuName in seenEcus {
        return Fail(DuplicateEcu(ecuName));
      }
      seenEcus := seenEcus + {ecuName};
      if "artifact_path" !in ecu.fields {
        return Fail(MissingArtifactPath(ecuName));
      }
      if "commit" !in ecu.fields {
        return Fail(MissingCommit(ecuName));
      }
      assert ecus[..i + 1] == ecus[..i] + [ecu];
      NamesSeenSnoc(ecus[..i], ecu);
      i := i + 1;
    }
    return Pass;
  }

  /** `main`'s exit status: 0 when the document loaded and every check
      passed. `None` stands for a missing file or invalid YAML. */
  function SanityExitCode(loaded: Option<Value>): (code: int)
    ensures code == 0 || code == 1
    ensures code == 0 <==> loaded.Some? && QualifiedBaseline(loaded.value)
  {
    match loaded
    case None => 1
    case Some(doc) =>
      ValidateSucceedsIff(doc);
      if Validate(doc) == Pass then 0 else 1
  }

  // ---------------------------------------------------------------------
  // An independent statement of what a passing baseline is
  // ---------------------------------------------------------------------

  /** A fragment that passes every per-fragment check, whatever came before. */
  predicate WellFormedFragment(ecu: Value)
  {
    ecu.Map? && Truthy(NameOf(ecu)) && Hashable(NameOf(ecu))
    && "artifact_path" in ecu.fields && "commit" in ecu.fields
  }

  predicate DistinctNames(ecus: seq<Value>)
  {
    forall i, j :: 0 <= i < j < |ecus| ==> NameOf(ecus[i]) != NameOf(ecus[j])
  }

  /** `baseline_id` is present (any value), `ecus` is a non-empty list, every
      fragment is well formed and no two fragments share an `ecu_name`. */
  predicate QualifiedBaseline(doc: Value)
  {
    doc.Map? && "baseline_id" in doc.fields
    && var ecus := Get(doc.fields, "ecus", Null);
    ecus.List? && |ecus.items| > 0
    && (forall k :: 0 <= k < |ecus.items| ==> WellFormedFragment(ecus.items[k]))
    && DistinctNames(ecus.items)
  }

  // ---------------------------------------------------------------------
  // Lemmas
  // ---------------------------------------------------------------------

  lemma NamesSeenSnoc(ecus: seq<Value>, ecu: Value)
    ensures NamesSeen(ecus + [ecu]) == NamesSeen(ecus) + {NameOf(ecu)}
  {
    var s := ecus + [ecu];
    forall n | n in NamesSeen(s) ensures n in NamesSeen(ecus) + {NameOf(ecu)} {
      var j :| 0 <= j < |s| && NameOf(s[j]) == n;
      if j < |ecus| { assert s[j] == ecus[j]; }
    }
    forall n | n in NamesSeen(ecus) + {NameOf(ecu)} ensures n in NamesSeen(s) {
      if n in NamesSeen(ecus) {
        var j :| 0 <= j < |ecus| && NameOf(ecus[j]) == n;
        assert s[j] == ecus[j];
      } else {
        assert s[|ecus|] == ecu;
      }
    }
  }

  lemma NamesSeenCons(ecus: seq<Value>)
    requires ecus != []
    ensures NamesSeen(ecus) == {NameOf(ecus[0])} + NamesSeen(ecus[1..])
  {
    var t := ecus[1..];
    forall n | n in NamesSeen(ecus) ensures n in {NameOf(ecus[0])} + NamesSeen(t) {
      var j :| 0 <= j < |ecus| && NameOf(ecus[j]) == n;
      if j > 0 { assert t[j - 1] == ecus[j]; }
    }
    forall n | n in NamesSeen(t) ensures n in NamesSeen(ecus) {
      var j :| 0 <= j < |t| && NameOf(t[j]) == n;
      assert ecus[j + 1] == t[j];
    }
  }

  /** Validating `a + b` runs the checks on `a` and, if they all pass,
      continues on `b` with the names of `a` already seen. */
  lemma {:induction false} CheckFragmentsAppend(a: seq<Value>, b: seq<Value>, seen: set<Value>)
    ensures CheckFragments(a + b, seen)
         == if CheckFragments(a, seen) == Pass then CheckFragments(b, seen + NamesSeen(a))
            else CheckFragments(a, seen)
    decreases |a|
  {
    if a == [] {
      assert a + b == b;
      assert NamesSeen(a) == {};
      assert seen + NamesSeen(a) == seen;
    } else {
      assert (a + b)[0] == a[0] && (a + b)[1..] == a[1..] + b;
      if CheckFragment(a[0], seen).None? {
        var seen' := seen + {NameOf(a[0])};
        CheckFragmentsAppend(a[1..], b, seen');
        NamesSeenCons(a);
        assert seen' + NamesSeen(a[1..]) == seen + NamesSeen(a);
      }
    }
  }

  /** Every fragment before position `k` passed, given the names seen so far. */
  lemma {:induction false} PassedPrefixDecides(ecus: seq<Value>, seen: set<Value>, k: nat)
    requires k < |ecus| && CheckFragments(ecus[..k], seen) == Pass
    ensures CheckFragments(ecus, seen)
         == (match CheckFragment(ecus[k], seen + NamesSeen(ecus[..k]))
             case Some(e') => Fail(e')
             case None => CheckFragments(ecus[k + 1..], seen + NamesSeen(ecus[..k]) + {NameOf(ecus[k])}))
  {
    assert ecus == ecus[..k] + ecus[k..];
    CheckFragmentsAppend(ecus[..k], ecus[k..], seen);
    assert ecus[k..][0] == ecus[k] && ecus[k..][1..] == ecus[k + 1..];
  }

  /** The position of the first failing fragment, when the loop fails. */
  lemma {:induction false} FirstViolation(ecus: seq<Value>, seen: set<Value>) returns (k: nat)
    requires CheckFragments(ecus, seen).Fail?
    ensures k < |ecus| && CheckFragments(ecus[..k], seen) == Pass
    ensures CheckFragment(ecus[k], seen + NamesSeen(ecus[..k])) == Some(CheckFragments(ecus, seen).error)
    decreases |ecus|
  {
    match CheckFragment(ecus[0], seen)
    case Some(e0) =>
      k := 0;
      assert ecus[..0] == [] && NamesSeen(ecus[..0]) == {};
      assert seen + NamesSeen(ecus[..0]) == seen;
    case None =>
      var seen' := seen + {NameOf(ecus[0])};
      var rest := ecus[1..];
      var k' := FirstViolation(rest, seen');
      k := k' + 1;
      var pre := ecus[..k];
      assert pre[0] == ecus[0] && pre[1..] == rest[..k'];
      NamesSeenCons(pre);
      assert seen + NamesSeen(pre) == seen' + NamesSeen(rest[..k']);
      assert ecus[k] == rest[k'];
  }

  /** First violation wins: the loop fails with `e` exactly when some
      fragment fails with `e` and every fragment before it passed. */
  lemma FirstViolationWins(ecus: seq<Value>, seen: set<Value>, e: CheckError)
    ensures CheckFragments(ecus, seen) == Fail(e)
        <==> exists k :: 0 <= k < |ecus| && CheckFragments(ecus[..k], seen) == Pass
                         && CheckFragment(ecus[k], seen + NamesSeen(ecus[..k])) == Some(e)
  {
    if CheckFragments(ecus, seen) == Fail(e) {
      var k := FirstViolation(ecus, seen);
    }
    if exists k :: 0 <= k < |ecus| && CheckFragments(ecus[..k], seen) == Pass
                   && CheckFragment(ecus[k], seen + NamesSeen(ecus[..k])) == Some(e) {
      var k :| 0 <= k < |ecus| && CheckFragments(ecus[..k], seen) == Pass
               && CheckFragment(ecus[k], seen + NamesSeen(ecus[..k])) == Some(e);
      PassedPrefixDecides(ecus, seen, k);
    }
  }

  /** The loop only ever raises per-fragment errors. */
  lemma {:induction false} CheckFragmentsErrors(ecus: seq<Value>, seen: set<Value>)
    ensures CheckFragments(ecus, seen).Fail? ==> IsFragmentError(CheckFragments(ecus, seen).error)
    decreases |ecus|
  {
    if ecus != [] && CheckFragment(ecus[0], seen).None? {
      CheckFragmentsErrors(ecus[1..], seen + {NameOf(ecus[0])});
    }
  }

  /** The loop passes exactly when every fragment is well formed, none of
      their names was seen before and the names are pairwise distinct. */
  lemma {:induction false} CheckFragmentsPassIff(ecus: seq<Value>, seen: set<Value>)
    ensures CheckFragments(ecus, seen) == Pass
        <==> (forall k :: 0 <= k < |ecus| ==> WellFormedFragment(ecus[k]) && NameOf(ecus[k]) !in seen)
             && DistinctNames(ecus)
    decreases |ecus|
  {
    if ecus != [] {
      var x, rest := ecus[0], ecus[1..];
      var seen' := seen + {NameOf(x)};
      CheckFragmentsPassIff(rest, seen');
      assert forall k :: 0 < k < |ecus| ==> ecus[k] == rest[k - 1];
      if (forall k :: 0 <= k < |ecus| ==> WellFormedFragment(ecus[k]) && NameOf(ecus[k]) !in seen)
         && DistinctNames(ecus)
      {
        assert WellFormedFragment(ecus[0]) && NameOf(x) !in seen;
        forall k | 0 <= k < |rest| ensures WellFormedFragment(rest[k]) && NameOf(rest[k]) !in seen' {
          assert NameOf(ecus[0]) != NameOf(ecus[k + 1]);
        }
        forall i, j | 0 <= i < j < |rest| ensures NameOf(rest[i]) != NameOf(rest[j]) {
          assert NameOf(ecus[i + 1]) != NameOf(ecus[j + 1]);
        }
      }
      if CheckFragments(ecus, seen) == Pass {
        assert CheckFragment(x, seen).None?;
        forall i, j | 0 <= i < j < |ecus| ensures NameOf(ecus[i]) != NameOf(ecus[j]) {
          if i > 0 {
            assert NameOf(rest[i - 1]) != NameOf(rest[j - 1]);
          } else {
            assert NameOf(rest[j - 1]) !in seen';
          }
        }
      }
    }
  }

  /** Success holds exactly for a qualified baseline. */
  lemma ValidateSucceedsIff(doc: Value)
    ensures Validate(doc) == Pass <==> QualifiedBaseline(doc)
  {
    if doc.Map? && "baseline_id" in doc.fields {
      var ecus := Get(doc.fields, "ecus", Null);
      if ecus.List? && |ecus.items| > 0 {
        CheckFragmentsPassIff(ecus.items, {});
      }
    }
  }

  /** Without a `baseline_id` key a mapping fails before any ECU is looked at;
      with one, its value plays no part (an empty string passes). */
  lemma BaselineIdPresenceOnly(fields: map<string, Value>, id: Value)
    ensures "baseline_id" !in fields ==> Validate(Map(fields)) == Fail(MissingBaselineId)
    ensures "baseline_id" in fields ==> Validate(Map(fields["baseline_id" := id])) == Validate(Map(fields))
  {
    if "baseline_id" in fields {
      assert Get(fields["baseline_id" := id], "ecus", Null) == Get(fields, "ecus", Null);
    }
  }

  /** A mapping with an id fails with "No ECUs found" exactly when `ecus` is
      absent, empty or not a list; never with a duplicate or field error. */
  lemma NoEcusIff(fields: map<string, Value>)
    requires "baseline_id" in fields
    ensures Validate(Map(fields)) == Fail(NoEcus)
        <==> !(Get(fields, "ecus", Null).List? && |Get(fields, "ecus", Null).items| > 0)
  {
    var ecus := Get(fields, "ecus", Null);
    if ecus.List? && |ecus.items| > 0 {
      CheckFragmentsErrors(ecus.items, {});
    }
  }

  /** The first fragment whose `ecu_name` is missing or falsy stops the run
      with "ECU missing 'ecu_name'". */
  lemma MissingNameReported(ecus: seq<Value>, k: nat)
    requires k < |ecus| && CheckFragments(ecus[..k], {}) == Pass
    requires ecus[k].Map? && !Truthy(NameOf(ecus[k]))
    ensures CheckFragments(ecus, {}) == Fail(MissingEcuName)
  {
    PassedPrefixDecides(ecus, {}, k);
  }

  /** A name that an earlier, accepted fragment carries is reported as a
      duplicate at its second occurrence. */
  lemma DuplicateAtSecondOccurrence(ecus: seq<Value>, i: nat, j: nat)
    requires i < j < |ecus| && CheckFragments(ecus[..j], {}) == Pass
    requires ecus[j].Map? && NameOf(ecus[i]) == NameOf(ecus[j])
    ensures CheckFragments(ecus, {}) == Fail(DuplicateEcu(NameOf(ecus[j])))
  {
    var pre := ecus[..j];
    CheckFragmentsPassIff(pre, {});
    assert pre[i] == ecus[i];
    assert WellFormedFragment(pre[i]);
    assert NameOf(ecus[j]) in NamesSeen(pre);
    assert {} + NamesSeen(pre) == NamesSeen(pre);
    PassedPrefixDecides(ecus, {}, j);
  }

  /** A reported duplicate names an ECU that occurs twice, at positions `i`
      and `j`, and every fragment before `j` passed. */
  lemma DuplicateHasTwoOccurrences(ecus: seq<Value>, n: Value) returns (i: nat, j: nat)
    requires CheckFragments(ecus, {}) == Fail(DuplicateEcu(n))
    ensures i < j < |ecus| && CheckFragments(ecus[..j], {}) == Pass
    ensures ecus[j].Map? && NameOf(ecus[i]) == n && NameOf(ecus[j]) == n
  {
    j := FirstViolation(ecus, {});
    var pre := ecus[..j];
    var names := NamesSeen(pre);
    assert {} + names == names;
    assert CheckFragment(ecus[j], names) == Some(DuplicateEcu(n));
    assert n in names;
    i :| 0 <= i < |pre| && NameOf(pre[i]) == n;
    assert pre[i] == ecus[i];
  }

  /** Both directions: validation of the fragments fails with a duplicate
      naming `n` exactly at a second occurrence of `n` reached with every
      earlier fragment accepted. */
  lemma DuplicateIff(ecus: seq<Value>, n: Value)
    ensures CheckFragments(ecus, {}) == Fail(DuplicateEcu(n))
        <==> exists i, j :: 0 <= i < j < |ecus| && CheckFragments(ecus[..j], {}) == Pass
                            && ecus[j].Map? && NameOf(ecus[i]) == n && NameOf(ecus[j]) == n
  {
    if CheckFragments(ecus, {}) == Fail(DuplicateEcu(n)) {
      var i, j := DuplicateHasTwoOccurrences(ecus, n);
    }
    if exists i, j :: 0 <= i < j < |ecus| && CheckFragments(ecus[..j], {}) == Pass
                      && ecus[j].Map? && NameOf(ecus[i]) == n && NameOf(ecus[j]) == n {
      var i, j :| 0 <= i < j < |ecus| && CheckFragments(ecus[..j], {}) == Pass
                  && ecus[j].Map? && NameOf(ecus[i]) == n && NameOf(ecus[j]) == n;
      DuplicateAtSecondOccurrence(ecus, i, j);
    }
  }

  /** Within one fragment: the duplicate check comes before the
      `artifact_path` check, which comes before the `commit` check; only
      the presence of those two keys is required. */
  lemma FragmentCheckOrder(ecu: Value, seen: set<Value>)
    requires ecu.Map? && Truthy(NameOf(ecu)) && Hashable(NameOf(ecu))
    ensures NameOf(ecu) in seen ==> CheckFragment(ecu, seen) == Some(DuplicateEcu(NameOf(ecu)))
    ensures NameOf(ecu) !in seen && "artifact_path" !in ecu.fields
            ==> CheckFragment(ecu, seen) == Some(MissingArtifactPath(NameOf(ecu)))
    ensures NameOf(ecu) !in seen && "artifact_path" in ecu.fields && "commit" !in ecu.fields
            ==> CheckFragment(ecu, seen) == Some(MissingCommit(NameOf(ecu)))
    ensures NameOf(ecu) !in seen && "artifact_path" in ecu.fields && "commit" in ecu.fields
            ==> CheckFragment(ecu, seen) == None
  {
  }
}
