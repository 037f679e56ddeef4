/** The verdict of the forensic oracle (nails-oracle/src/verdict.rs): is a run clean of traces? */
module Verdict {
  import opened Basics
  import opened Texts
  import opened PathScope

  datatype Tool = BtrfsRestore | BulkExtractor | Plaso

  datatype Finding = Finding(tool: Tool, path: string, field: string)

  /** The three scans; a set of findings is walked in one fixed order, each finding once. */
  datatype Scans = Scans(before: set<Finding>, control: set<Finding>, after: seq<Finding>)

  datatype AllowEntry = AllowEntry(path: string, field: Option<string>, cite: string)

  datatype PositiveControl = PositiveControl(name: string, tool: Option<Tool>, path: string, field: Option<string>)

  datatype Canary = Canary(tool: Option<Tool>, path: string, field: Option<string>)

  datatype Policy = Policy(allowlist: seq<AllowEntry>, controls: seq<PositiveControl>, canary: Canary)

  datatype CatalogRow = CatalogRow(risk: string, mitigation: string, channelPaths: seq<string>)

  datatype Catalog = Catalog(rows: map<string, CatalogRow>, anchors: set<string>)

  datatype Failure =
    | UnexplainedResidue(finding: Finding)
    | PositiveControlMissing(name: string)
    | NoPositiveControl
    | CanaryMissing(canaryPath: string)
    | InvalidAllowlistEntry(entry: AllowEntry, reason: Reason)
    | InvalidPositiveControl(control: PositiveControl, reason: Reason)
    | InvalidCanary(canaryPath: string, reason: Reason)

  datatype Explained = Explained(finding: Finding, cite: string, risk: string, mitigation: string)

  datatype ControlResult = ControlResult(name: string, detected: bool)

  datatype Counts = Counts(
    candidate: nat, noiseSubtracted: nat, residue: nat, selfChecks: nat, explained: nat, unexplained: nat)

  datatype Status = Clean | Fail

  datatype Verdict = Verdict(
    status: Status, blind: bool, counts: Counts, failures: seq<Failure>,
    explained: seq<Explained>, positiveControls: seq<ControlResult>, canaryDetected: bool)

  // ---------------------------------------------------------------------- matching

  /** `locator_matches`. */
  predicate LocatorMatches(tool: Option<Tool>, path: string, field: Option<string>, f: Finding, subtree: bool)
  {
    && (tool.Some? ==> tool.value == f.tool)
    && (if subtree then PathCovers(path, f.path) else path == f.path)
    && (field.Some? ==> field.value == f.field)
  }

  datatype Coverage = Subtree | Leaf

  function FieldOr(field: Option<string>): string
  {
    if field.Some? then field.value else ""
  }

  /** `entry_reject_reason`: how far an entry's citation lets it vouch, or why it is rejected. */
  function EntryCoverage(entry: AllowEntry, catalog: Catalog): Result<Coverage, Reason>
  {
    var cite := Trim(entry.cite);
    var isFeature := !IsAbsolute(entry.path);
    var breadth := BreadthReason(entry.path);
    if cite == "" then Failure(EmptyCitation)
    else if isFeature && FieldOr(entry.field) == "" then Failure(FeatureWithoutValue)
    else if breadth.Some? then Failure(breadth.value)
    else if '#' in cite then if cite in catalog.anchors then Success(Leaf) else Failure(UnknownAnchor)
    else if cite !in catalog.rows then Failure(UnknownRow)
    else
      var channels := catalog.rows[cite].channelPaths;
      if isFeature || channels == [] then Success(Leaf)
      else if exists i :: 0 <= i < |channels| && PathCovers(channels[i], entry.path) then Success(Subtree)
      else Failure(OutsideChannel)
  }

  datatype ValidEntry = ValidEntry(entry: AllowEntry, coverage: Coverage)

  predicate EntryCovers(e: ValidEntry, f: Finding)
  {
    LocatorMatches(None, e.entry.path, e.entry.field, f, e.coverage.Subtree?)
  }

  /** Why a planted artifact is not concrete, if it is not. */
  function SelfCheckReason(path: string, field: Option<string>): Option<Reason>
  {
    var breadth := BreadthReason(path);
    if breadth.Some? then breadth else if FieldOr(field) == "" then Some(NoExactValue) else None
  }

  datatype SelfChecks = SelfChecks(controls: seq<PositiveControl>, canary: Option<Canary>)

  predicate ControlMatches(c: PositiveControl, f: Finding)
  {
    LocatorMatches(c.tool, c.path, c.field, f, false)
  }

  predicate CanaryMatches(c: Canary, f: Finding)
  {
    LocatorMatches(c.tool, c.path, c.field, f, false)
  }

  predicate IsSelfCheck(f: Finding, checks: SelfChecks)
  {
    || (checks.canary.Some? && CanaryMatches(checks.canary.value, f))
    || exists i :: 0 <= i < |checks.controls| && ControlMatches(checks.controls[i], f)
  }

  // ------------------------------------------------------------ what the loops compute

  function ValidEntries(entries: seq<AllowEntry>, catalog: Catalog): seq<ValidEntry>
  {
    if entries == [] then []
    else
      var last := entries[|entries| - 1];
      var coverage := EntryCoverage(last, catalog);
      ValidEntries(entries[..|entries| - 1], catalog)
      + if coverage.Success? then [ValidEntry(last, coverage.value)] else []
  }

  function EntryFailures(entries: seq<AllowEntry>, catalog: Catalog): seq<Failure>
  {
    if entries == [] then []
    else
      var last := entries[|entries| - 1];
      var coverage := EntryCoverage(last, catalog);
      EntryFailures(entries[..|entries| - 1], catalog)
      + if coverage.Failure? then [InvalidAllowlistEntry(last, coverage.error)] else []
  }

  /** `validate_allowlist`. */
  method ValidateAllowlist(entries: seq<AllowEntry>, catalog: Catalog)
    returns (valid: seq<ValidEntry>, failures: seq<Failure>)
    ensures valid == ValidEntries(entries, catalog) && failures == EntryFailures(entries, catalog)
  {
    valid, failures := [], [];
    for i := 0 to |entries|
      invariant valid == ValidEntries(entries[..i], catalog) && failures == EntryFailures(entries[..i], catalog)
    {
      assert entries[..i + 1][..i] == entries[..i];
      match EntryCoverage(entries[i], catalog)
      case Success(coverage) => valid := valid + [ValidEntry(entries[i], coverage)];
      case Failure(reason) => failures := failures + [InvalidAllowlistEntry(entries[i], reason)];
    }
    assert entries[..|entries|] == entries;
  }

  function Candidates(after: seq<Finding>, before: set<Finding>): nat
  {
    if after == [] then 0
    else Candidates(after[..|after| - 1], before) + if after[|after| - 1] in before then 0 else 1
  }

  function Residue(after: seq<Finding>, before: set<Finding>, control: set<Finding>): seq<Finding>
  {
    if after == [] then []
    else
      var f := after[|after| - 1];
      Residue(after[..|after| - 1], before, control) + if f in before || f in control then [] else [f]
  }

  lemma {:induction false} ResidueAmongCandidates(after: seq<Finding>, before: set<Finding>, control: set<Finding>)
    ensures |Residue(after, before, control)| <= Candidates(after, before)
  {
    if after != [] {
      ResidueAmongCandidates(after[..|after| - 1], before, control);
    }
  }

  /** `compute_residue`. */
  method ComputeResidue(scans: Scans) returns (residue: seq<Finding>, candidate: nat, noise: nat)
    ensures residue == Residue(scans.after, scans.before, scans.control)
    ensures candidate == Candidates(scans.after, scans.before)
    ensures candidate == noise + |residue|
  {
    residue, candidate := [], 0;
    var after := scans.after;
    for i := 0 to |after|
      invariant residue == Residue(after[..i], scans.before, scans.control)
      invariant candidate == Candidates(after[..i], scans.before)
    {
      assert after[..i + 1][..i] == after[..i];
      var f := after[i];
      if f in scans.before {
        continue;
      }
      candidate := candidate + 1;
      if f !in scans.control {
        residue := residue + [f];
      }
    }
    assert after[..|after|] == after;
    ResidueAmongCandidates(after, scans.before, scans.control);
    noise := candidate - |residue|;
  }

  function GoodControls(controls: seq<PositiveControl>): seq<PositiveControl>
  {
    if controls == [] then []
    else
      var last := controls[|controls| - 1];
      GoodControls(controls[..|controls| - 1]) + if SelfCheckReason(last.path, last.field).None? then [last] else []
  }

  function ControlFailures(controls: seq<PositiveControl>): seq<Failure>
  {
    if controls == [] then []
    else
      var last := controls[|controls| - 1];
      var reason := SelfCheckReason(last.path, last.field);
      ControlFailures(controls[..|controls| - 1])
      + if reason.Some? then [InvalidPositiveControl(last, reason.value)] else []
  }

  function GoodCanary(canary: Canary): Option<Canary>
  {
    if SelfCheckReason(canary.path, canary.field).None? then Some(canary) else None
  }

  function CanaryFailures(canary: Canary): seq<Failure>
  {
    var reason := SelfCheckReason(canary.path, canary.field);
    if reason.Some? then [InvalidCanary(canary.path, reason.value)] else []
  }

  function ChecksOf(policy: Policy): SelfChecks
  {
    SelfChecks(GoodControls(policy.controls), GoodCanary(policy.canary))
  }

  /** `validate_self_checks`. */
  method ValidateSelfChecks(policy: Policy) returns (checks: SelfChecks, failures: seq<Failure>)
    ensures checks == ChecksOf(policy)
    ensures failures == ControlFailures(policy.controls) + CanaryFailures(policy.canary)
  {
    var controls, good := policy.controls, [];
    failures := [];
    for i := 0 to |controls|
      invariant good == GoodControls(controls[..i]) && failures == ControlFailures(controls[..i])
    {
      assert controls[..i + 1][..i] == controls[..i];
      match SelfCheckReason(controls[i].path, controls[i].field)
      case None => good := good + [controls[i]];
      case Some(reason) => failures := failures + [InvalidPositiveControl(controls[i], reason)];
    }
    assert controls[..|controls|] == controls;
    var reason := SelfCheckReason(policy.canary.path, policy.canary.field);
    if reason.Some? {
      failures := failures + [InvalidCanary(policy.canary.path, reason.value)];
      checks := SelfChecks(good, None);
    } else {
      checks := SelfChecks(good, Some(policy.canary));
    }
  }

  /** The first valid entry that covers a finding. */
  function FirstCovering(valid: seq<ValidEntry>, f: Finding): (r: Option<ValidEntry>)
    ensures r.Some? ==> r.value in valid && EntryCovers(r.value, f)
    ensures r.None? ==> forall e :: e in valid ==> !EntryCovers(e, f)
  {
    if valid == [] then None else if EntryCovers(valid[0], f) then Some(valid[0]) else FirstCovering(valid[1..], f)
  }

  /** `explain`: the citation is looked up as written. */
  function Explain(f: Finding, cite: string, catalog: Catalog): Explained
  {
    if cite in catalog.rows then Explained(f, cite, catalog.rows[cite].risk, catalog.rows[cite].mitigation)
    else Explained(f, cite, "", "")
  }

  function ExplainedIn(residue: seq<Finding>, valid: seq<ValidEntry>, checks: SelfChecks, catalog: Catalog)
    : seq<Explained>
  {
    if residue == [] then []
    else
      var f := residue[|residue| - 1];
      var e := FirstCovering(valid, f);
      ExplainedIn(residue[..|residue| - 1], valid, checks, catalog)
      + if !IsSelfCheck(f, checks) && e.Some? then [Explain(f, e.value.entry.cite, catalog)] else []
  }

  function UnexplainedIn(residue: seq<Finding>, valid: seq<ValidEntry>, checks: SelfChecks): seq<Failure>
  {
    if residue == [] then []
    else
      var f := residue[|residue| - 1];
      UnexplainedIn(residue[..|residue| - 1], valid, checks)
      + if !IsSelfCheck(f, checks) && FirstCovering(valid, f).None? then [UnexplainedResidue(f)] else []
  }

  function SelfChecksIn(residue: seq<Finding>, checks: SelfChecks): nat
  {
    if residue == [] then 0
    else SelfChecksIn(residue[..|residue| - 1], checks) + if IsSelfCheck(residue[|residue| - 1], checks) then 1 else 0
  }

  /** `partition_residue`. */
  method PartitionResidue(residue: seq<Finding>, valid: seq<ValidEntry>, checks: SelfChecks, catalog: Catalog)
    returns (explained: seq<Explained>, unexplained: seq<Failure>, selfChecks: nat)
    ensures explained == ExplainedIn(residue, valid, checks, catalog)
    ensures unexplained == UnexplainedIn(residue, valid, checks)
    ensures selfChecks == SelfChecksIn(residue, checks)
    ensures |residue| == selfChecks + |explained| + |unexplained|
  {
    explained, unexplained, selfChecks := [], [], 0;
    for i := 0 to |residue|
      invariant explained == ExplainedIn(residue[..i], valid, checks, catalog)
      invariant unexplained == UnexplainedIn(residue[..i], valid, checks)
      invariant selfChecks == SelfChecksIn(residue[..i], checks)
      invariant i == selfChecks + |explained| + |unexplained|
    {
      assert residue[..i + 1][..i] == residue[..i];
      var f := residue[i];
      if IsSelfCheck(f, checks) {
        selfChecks := selfChecks + 1;
      } else {
        match FirstCovering(valid, f)
        case Some(e) => explained := explained + [Explain(f, e.entry.cite, catalog)];
        case None => unexplained := unexplained + [UnexplainedResidue(f)];
      }
    }
    assert residue[..|residue|] == residue;
  }

  predicate Detected(after: seq<Finding>, c: PositiveControl)
  {
    exists i :: 0 <= i < |after| && ControlMatches(c, after[i])
  }

  predicate CanaryDetected(after: seq<Finding>, c: Canary)
  {
    exists i :: 0 <= i < |after| && CanaryMatches(c, after[i])
  }

  function ControlResults(after: seq<Finding>, controls: seq<PositiveControl>): seq<ControlResult>
  {
    seq(|controls|, i requires 0 <= i < |controls| => ControlResult(controls[i].name, Detected(after, controls[i])))
  }

  function MissingControls(after: seq<Finding>, controls: seq<PositiveControl>): seq<Failure>
  {
    if controls == [] then []
    else
      var last := controls[|controls| - 1];
      MissingControls(after, controls[..|controls| - 1])
      + if Detected(after, last) then [] else [PositiveControlMissing(last.name)]
  }

  /** `check_controls`. */
  method CheckControls(after: seq<Finding>, controls: seq<PositiveControl>)
    returns (results: seq<ControlResult>, failures: seq<Failure>, blind: bool)
    ensures results == ControlResults(after, controls)
    ensures failures == MissingControls(after, controls)
    ensures blind <==> exists i :: 0 <= i < |controls| && !Detected(after, controls[i])
  {
    results, failures, blind := [], [], false;
    for i := 0 to |controls|
      invariant results == ControlResults(after, controls[..i])
      invariant failures == MissingControls(after, controls[..i])
      invariant blind <==> exists j :: 0 <= j < i && !Detected(after, controls[j])
    {
      assert controls[..i + 1][..i] == controls[..i];
      var c := controls[i];
      var detected := Detected(after, c);
      if !detected {
        failures := failures + [PositiveControlMissing(c.name)];
        blind := true;
      }
      results := results + [ControlResult(c.name, detected)];
    }
    assert controls[..|controls|] == controls;
  }

  function MissingCanary(after: seq<Finding>, canary: Option<Canary>): seq<Failure>
  {
    if canary.Some? && !CanaryDetected(after, canary.value) then [CanaryMissing(canary.value.path)] else []
  }

  /** `check_canary`, for a canary that passed validation. */
  method CheckCanary(after: seq<Finding>, canary: Option<Canary>) returns (detected: bool, failures: seq<Failure>)
    ensures detected <==> canary.Some? && CanaryDetected(after, canary.value)
    ensures failures == MissingCanary(after, canary)
  {
    detected := canary.Some? && CanaryDetected(after, canary.value);
    failures := if canary.Some? && !detected then [CanaryMissing(canary.value.path)] else [];
  }

  // ------------------------------------------------------------------------ verdict

  /** Every reason a run is not clean, in the order they are reported. */
  function Failures(scans: Scans, policy: Policy, catalog: Catalog): seq<Failure>
  {
    var checks := ChecksOf(policy);
    var residue := Residue(scans.after, scans.before, scans.control);
    EntryFailures(policy.allowlist, catalog)
    + (ControlFailures(policy.controls) + CanaryFailures(policy.canary))
    + UnexplainedIn(residue, ValidEntries(policy.allowlist, catalog), checks)
    + (if policy.controls == [] then [NoPositiveControl] else [])
    + MissingControls(scans.after, checks.controls)
    + MissingCanary(scans.after, checks.canary)
  }

  function CountsOf(scans: Scans, policy: Policy, catalog: Catalog): Counts
  {
    var checks, valid := ChecksOf(policy), ValidEntries(policy.allowlist, catalog);
    var residue := Residue(scans.after, scans.before, scans.control);
    ResidueAmongCandidates(scans.after, scans.before, scans.control);
    Counts(
      Candidates(scans.after, scans.before),
      Candidates(scans.after, scans.before) - |residue|,
      |residue|,
      SelfChecksIn(residue, checks),
      |ExplainedIn(residue, valid, checks, catalog)|,
      |UnexplainedIn(residue, valid, checks)|)
  }

  /** `verdict`. */
  method Judge(scans: Scans, policy: Policy, catalog: Catalog) returns (v: Verdict)
    ensures v.failures == Failures(scans, policy, catalog)
    ensures v.status.Clean? <==> v.failures == []
    ensures v.counts == CountsOf(scans, policy, catalog)
    ensures v.counts.residue == v.counts.selfChecks + v.counts.explained + v.counts.unexplained
    ensures v.counts.candidate == v.counts.noiseSubtracted + v.counts.residue
    ensures v.blind <==>
      exists i :: 0 <= i < |ChecksOf(policy).controls| && !Detected(scans.after, ChecksOf(policy).controls[i])
    ensures v.positiveControls == ControlResults(scans.after, ChecksOf(policy).controls)
    ensures v.canaryDetected <==> ChecksOf(policy).canary.Some? && CanaryDetected(scans.after, policy.canary)
    ensures v.explained == ExplainedIn(Residue(scans.after, scans.before, scans.control),
                                       ValidEntries(policy.allowlist, catalog), ChecksOf(policy), catalog)
  {
    var valid, failures := ValidateAllowlist(policy.allowlist, catalog);
    var checks, selfCheckFailures := ValidateSelfChecks(policy);
    failures := failures + selfCheckFailures;
    var residue, candidate, noise := ComputeResidue(scans);
    var explained, unexplained, selfChecks := PartitionResidue(residue, valid, checks, catalog);
    var results, controlFailures, blind := CheckControls(scans.after, checks.controls);
    var canaryDetected, canaryFailure := CheckCanary(scans.after, checks.canary);
    failures := failures + unexplained;
    failures := failures + if policy.controls == [] then [NoPositiveControl] else [];
    failures := failures + controlFailures;
    failures := failures + canaryFailure;
    var counts := Counts(candidate, noise, |residue|, selfChecks, |explained|, |unexplained|);
    v := Verdict(if failures == [] then Clean else Fail, blind, counts, failures, explained, results, canaryDetected);
  }
}
