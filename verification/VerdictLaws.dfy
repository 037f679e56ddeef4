/** What a clean verdict means, and what it does not depend on. */
module VerdictLaws {
  import opened Basics
  import opened Texts
  import opened PathScope
  import opened Verdict

  // ---------------------------------------------------------- what the lists hold

  lemma {:induction false} ValidEntriesHold(entries: seq<AllowEntry>, catalog: Catalog, v: ValidEntry)
    ensures v in ValidEntries(entries, catalog)
       <==> v.entry in entries && EntryCoverage(v.entry, catalog) == Success(v.coverage)
  {
    if entries != [] {
      ValidEntriesHold(entries[..|entries| - 1], catalog, v);
      assert entries == entries[..|entries| - 1] + [entries[|entries| - 1]];
    }
  }

  lemma {:induction false} EntryFailuresHold(entries: seq<AllowEntry>, catalog: Catalog, x: Failure)
    ensures x in EntryFailures(entries, catalog)
       <==> && x.InvalidAllowlistEntry? && x.entry in entries
            && EntryCoverage(x.entry, catalog) == Result.Failure(x.reason)
  {
    if entries != [] {
      EntryFailuresHold(entries[..|entries| - 1], catalog, x);
      assert entries == entries[..|entries| - 1] + [entries[|entries| - 1]];
    }
  }

  lemma {:induction false} GoodControlsHold(controls: seq<PositiveControl>, c: PositiveControl)
    ensures c in GoodControls(controls) <==> c in controls && SelfCheckReason(c.path, c.field).None?
  {
    if controls != [] {
      GoodControlsHold(controls[..|controls| - 1], c);
      assert controls == controls[..|controls| - 1] + [controls[|controls| - 1]];
    }
  }

  lemma {:induction false} ControlFailuresHold(controls: seq<PositiveControl>, x: Failure)
    ensures x in ControlFailures(controls) <==>
      && x.InvalidPositiveControl? && x.control in controls
      && SelfCheckReason(x.control.path, x.control.field) == Some(x.reason)
  {
    if controls != [] {
      ControlFailuresHold(controls[..|controls| - 1], x);
      assert controls == controls[..|controls| - 1] + [controls[|controls| - 1]];
    }
  }

  lemma {:induction false} MissingControlsHold(after: seq<Finding>, controls: seq<PositiveControl>, x: Failure)
    ensures x in MissingControls(after, controls) <==>
      x.PositiveControlMissing? && exists c :: c in controls && c.name == x.name && !Detected(after, c)
  {
    if controls != [] {
      MissingControlsHold(after, controls[..|controls| - 1], x);
      assert controls == controls[..|controls| - 1] + [controls[|controls| - 1]];
    }
  }

  lemma {:induction false} ResidueHolds(after: seq<Finding>, before: set<Finding>, control: set<Finding>, f: Finding)
    ensures f in Residue(after, before, control) <==> f in after && f !in before && f !in control
  {
    if after != [] {
      ResidueHolds(after[..|after| - 1], before, control, f);
      assert after == after[..|after| - 1] + [after[|after| - 1]];
    }
  }

  lemma {:induction false} UnexplainedHold(
    residue: seq<Finding>, valid: seq<ValidEntry>, checks: SelfChecks, x: Failure)
    ensures x in UnexplainedIn(residue, valid, checks) <==>
      && x.UnexplainedResidue? && x.finding in residue
      && !IsSelfCheck(x.finding, checks) && FirstCovering(valid, x.finding).None?
  {
    if residue != [] {
      UnexplainedHold(residue[..|residue| - 1], valid, checks, x);
      assert residue == residue[..|residue| - 1] + [residue[|residue| - 1]];
    }
  }

  // ------------------------------------------------------------- what accounts for a finding

  /** A finding is one of the artifacts planted for the scan, in a place that passed validation. */
  ghost predicate Planted(policy: Policy, f: Finding)
  {
    || (SelfCheckReason(policy.canary.path, policy.canary.field).None? && CanaryMatches(policy.canary, f))
    || exists c :: c in policy.controls && SelfCheckReason(c.path, c.field).None? && ControlMatches(c, f)
  }

  /** A finding is covered by an entry of the allowlist that passed validation. */
  ghost predicate Vouched(policy: Policy, catalog: Catalog, f: Finding)
  {
    exists e :: e in policy.allowlist && Vouches(e, catalog, f)
  }

  ghost predicate Vouches(e: AllowEntry, catalog: Catalog, f: Finding)
  {
    var coverage := EntryCoverage(e, catalog);
    coverage.Success? && EntryCovers(ValidEntry(e, coverage.value), f)
  }

  ghost predicate Accounted(scans: Scans, policy: Policy, catalog: Catalog, f: Finding)
  {
    f in scans.before || f in scans.control || Planted(policy, f) || Vouched(policy, catalog, f)
  }

  ghost predicate AllAccounted(scans: Scans, policy: Policy, catalog: Catalog)
  {
    forall f :: f in scans.after ==> Accounted(scans, policy, catalog, f)
  }

  lemma SelfCheckIsPlanted(policy: Policy, f: Finding)
    ensures IsSelfCheck(f, ChecksOf(policy)) <==> Planted(policy, f)
  {
    var checks := ChecksOf(policy);
    if i :| 0 <= i < |checks.controls| && ControlMatches(checks.controls[i], f) {
      GoodControlsHold(policy.controls, checks.controls[i]);
      assert checks.controls[i] in checks.controls;
    }
    if c :| c in policy.controls && SelfCheckReason(c.path, c.field).None? && ControlMatches(c, f) {
      GoodControlsHold(policy.controls, c);
      var i :| 0 <= i < |checks.controls| && checks.controls[i] == c;
    }
  }

  lemma CoveringIsVouched(policy: Policy, catalog: Catalog, f: Finding)
    ensures FirstCovering(ValidEntries(policy.allowlist, catalog), f).Some? <==> Vouched(policy, catalog, f)
  {
    var valid := ValidEntries(policy.allowlist, catalog);
    var r := FirstCovering(valid, f);
    if r.Some? {
      ValidEntriesHold(policy.allowlist, catalog, r.value);
      assert Vouches(r.value.entry, catalog, f);
    }
    if e :| e in policy.allowlist && Vouches(e, catalog, f) {
      ValidEntriesHold(policy.allowlist, catalog, ValidEntry(e, EntryCoverage(e, catalog).value));
    }
  }

  // ------------------------------------------------------------ every failure, exactly

  /** An exact place and an exact, non-empty value. */
  ghost predicate ExactMatch(path: string, field: Option<string>, f: Finding)
  {
    path == f.path && field == Some(f.field) && f.field != ""
  }

  /** No finding of the scan, by the tool asked for, is the planted place and value. */
  ghost predicate Unseen(after: seq<Finding>, tool: Option<Tool>, path: string, field: Option<string>)
  {
    forall f :: f in after && ExactMatch(path, field, f) ==> tool.Some? && tool.value != f.tool
  }

  /** What each failure in a verdict says about the run, in terms of the scans and the policy alone. */
  ghost predicate Deserved(scans: Scans, policy: Policy, catalog: Catalog, x: Failure)
  {
    match x
    case InvalidAllowlistEntry(e, reason) =>
      e in policy.allowlist && EntryCoverage(e, catalog) == Result.Failure(reason)
    case InvalidPositiveControl(c, reason) => c in policy.controls && SelfCheckReason(c.path, c.field) == Some(reason)
    case InvalidCanary(path, reason) =>
      path == policy.canary.path && SelfCheckReason(path, policy.canary.field) == Some(reason)
    case UnexplainedResidue(f) => f in scans.after && !Accounted(scans, policy, catalog, f)
    case NoPositiveControl => policy.controls == []
    case PositiveControlMissing(name) =>
      exists c :: c in policy.controls && c.name == name && MissedControl(scans.after, c)
    case CanaryMissing(path) =>
      && path == policy.canary.path && SelfCheckReason(path, policy.canary.field).None?
      && Unseen(scans.after, policy.canary.tool, path, policy.canary.field)
  }

  /** A control that passed validation and was not found. */
  ghost predicate MissedControl(after: seq<Finding>, c: PositiveControl)
  {
    SelfCheckReason(c.path, c.field).None? && Unseen(after, c.tool, c.path, c.field)
  }

  lemma UnseenMeansUndetected(after: seq<Finding>, c: PositiveControl)
    requires SelfCheckReason(c.path, c.field).None?
    ensures Detected(after, c) <==> !Unseen(after, c.tool, c.path, c.field)
  {
    if !Unseen(after, c.tool, c.path, c.field) {
      var f :| f in after && ExactMatch(c.path, c.field, f) && !(c.tool.Some? && c.tool.value != f.tool);
      var i :| 0 <= i < |after| && after[i] == f;
      assert ControlMatches(c, after[i]);
    }
    if i :| 0 <= i < |after| && ControlMatches(c, after[i]) {
      assert after[i] in after && ExactMatch(c.path, c.field, after[i]);
    }
  }

  lemma CanaryMissingHolds(after: seq<Finding>, canary: Canary, x: Failure)
    ensures x in MissingCanary(after, GoodCanary(canary)) <==>
      && x.CanaryMissing? && x.canaryPath == canary.path && SelfCheckReason(canary.path, canary.field).None?
      && Unseen(after, canary.tool, canary.path, canary.field)
  {
    var asControl := PositiveControl("", canary.tool, canary.path, canary.field);
    assert CanaryDetected(after, canary) <==> Detected(after, asControl) by {
      assert forall f :: CanaryMatches(canary, f) <==> ControlMatches(asControl, f);
    }
    if SelfCheckReason(canary.path, canary.field).None? {
      UnseenMeansUndetected(after, asControl);
    }
  }

  lemma ControlMissingHolds(after: seq<Finding>, controls: seq<PositiveControl>, x: Failure)
    ensures x in MissingControls(after, GoodControls(controls)) <==>
      x.PositiveControlMissing? && exists c :: c in controls && c.name == x.name && MissedControl(after, c)
  {
    MissingControlsHold(after, GoodControls(controls), x);
    forall c ensures c in GoodControls(controls) && !Detected(after, c) <==> c in controls && MissedControl(after, c) {
      GoodControlsHold(controls, c);
      if SelfCheckReason(c.path, c.field).None? {
        UnseenMeansUndetected(after, c);
      }
    }
  }

  lemma UnexplainedHolds(scans: Scans, policy: Policy, catalog: Catalog, x: Failure)
    ensures x in UnexplainedIn(Residue(scans.after, scans.before, scans.control),
                               ValidEntries(policy.allowlist, catalog), ChecksOf(policy))
       <==> x.UnexplainedResidue? && x.finding in scans.after && !Accounted(scans, policy, catalog, x.finding)
  {
    var residue := Residue(scans.after, scans.before, scans.control);
    UnexplainedHold(residue, ValidEntries(policy.allowlist, catalog), ChecksOf(policy), x);
    if x.UnexplainedResidue? {
      ResidueHolds(scans.after, scans.before, scans.control, x.finding);
      SelfCheckIsPlanted(policy, x.finding);
      CoveringIsVouched(policy, catalog, x.finding);
    }
  }

  /** A failure is reported exactly when the run deserves it. */
  lemma FailureExactlyWhen(scans: Scans, policy: Policy, catalog: Catalog, x: Failure)
    ensures x in Failures(scans, policy, catalog) <==> Deserved(scans, policy, catalog, x)
  {
    EntryFailuresHold(policy.allowlist, catalog, x);
    ControlFailuresHold(policy.controls, x);
    UnexplainedHolds(scans, policy, catalog, x);
    ControlMissingHolds(scans.after, policy.controls, x);
    CanaryMissingHolds(scans.after, policy.canary, x);
  }

  // ------------------------------------------------------------------ clean, in full

  /** No finding is unexplained exactly when each is old, noise, planted or vouched for. */
  lemma UnexplainedExactlyWhen(scans: Scans, policy: Policy, catalog: Catalog)
    ensures UnexplainedIn(Residue(scans.after, scans.before, scans.control),
                          ValidEntries(policy.allowlist, catalog), ChecksOf(policy)) == []
       <==> AllAccounted(scans, policy, catalog)
  {
    var list := UnexplainedIn(
      Residue(scans.after, scans.before, scans.control), ValidEntries(policy.allowlist, catalog), ChecksOf(policy));
    if list != [] {
      UnexplainedHolds(scans, policy, catalog, list[0]);
    }
    forall f | f in scans.after && !Accounted(scans, policy, catalog, f) ensures list != [] {
      UnexplainedHolds(scans, policy, catalog, UnexplainedResidue(f));
    }
  }

  ghost predicate PolicyValid(policy: Policy, catalog: Catalog)
  {
    && (forall e :: e in policy.allowlist ==> EntryCoverage(e, catalog).Success?)
    && (forall c :: c in policy.controls ==> SelfCheckReason(c.path, c.field).None?)
    && SelfCheckReason(policy.canary.path, policy.canary.field).None?
  }

  /** The scan has shown that it sees what was planted. */
  ghost predicate ScanSees(scans: Scans, policy: Policy)
  {
    && policy.controls != []
    && (forall c :: c in policy.controls ==> !Unseen(scans.after, c.tool, c.path, c.field))
    && !Unseen(scans.after, policy.canary.tool, policy.canary.path, policy.canary.field)
  }

  /** A run is clean exactly when the policy is valid, the scan sees, and every finding is accounted for. */
  lemma CleanExactlyWhen(scans: Scans, policy: Policy, catalog: Catalog)
    ensures Failures(scans, policy, catalog) == []
       <==> PolicyValid(policy, catalog) && ScanSees(scans, policy) && AllAccounted(scans, policy, catalog)
  {
    var failures := Failures(scans, policy, catalog);
    if failures != [] {
      FailureExactlyWhen(scans, policy, catalog, failures[0]);
      NotClean(scans, policy, catalog, failures[0]);
    }
    if !(PolicyValid(policy, catalog) && ScanSees(scans, policy) && AllAccounted(scans, policy, catalog)) {
      var x := Fault(scans, policy, catalog);
      FailureExactlyWhen(scans, policy, catalog, x);
    }
  }

  lemma NotClean(scans: Scans, policy: Policy, catalog: Catalog, x: Failure)
    requires Deserved(scans, policy, catalog, x)
    ensures !(PolicyValid(policy, catalog) && ScanSees(scans, policy) && AllAccounted(scans, policy, catalog))
  {
  }

  /** Whatever stands in the way of a clean run deserves a failure. */
  lemma Fault(scans: Scans, policy: Policy, catalog: Catalog) returns (x: Failure)
    requires !(PolicyValid(policy, catalog) && ScanSees(scans, policy) && AllAccounted(scans, policy, catalog))
    ensures Deserved(scans, policy, catalog, x)
  {
    var canary := policy.canary;
    var reason := SelfCheckReason(canary.path, canary.field);
    if e :| e in policy.allowlist && EntryCoverage(e, catalog).Failure? {
      x := InvalidAllowlistEntry(e, EntryCoverage(e, catalog).error);
    } else if c :| c in policy.controls && SelfCheckReason(c.path, c.field).Some? {
      x := InvalidPositiveControl(c, SelfCheckReason(c.path, c.field).value);
    } else if reason.Some? {
      x := InvalidCanary(canary.path, reason.value);
    } else if policy.controls == [] {
      x := NoPositiveControl;
    } else if c :| c in policy.controls && Unseen(scans.after, c.tool, c.path, c.field) {
      assert MissedControl(scans.after, c);
      x := PositiveControlMissing(c.name);
    } else if Unseen(scans.after, canary.tool, canary.path, canary.field) {
      x := CanaryMissing(canary.path);
    } else {
      var f :| f in scans.after && !Accounted(scans, policy, catalog, f);
      x := UnexplainedResidue(f);
    }
  }

  // -------------------------------------------------------------- who explains, and how many

  /** Entry `i` is the first of the allowlist that vouches for the finding. */
  ghost predicate VouchesFirst(entries: seq<AllowEntry>, catalog: Catalog, f: Finding, i: nat)
  {
    i < |entries| && Vouches(entries[i], catalog, f) && forall j :: 0 <= j < i ==> !Vouches(entries[j], catalog, f)
  }

  lemma {:induction false} FirstCoveringLast(valid: seq<ValidEntry>, more: seq<ValidEntry>, f: Finding)
    ensures FirstCovering(valid + more, f)
         == if FirstCovering(valid, f).Some? then FirstCovering(valid, f) else FirstCovering(more, f)
  {
    if valid == [] {
      assert valid + more == more;
    } else {
      FirstCoveringLast(valid[1..], more, f);
      assert (valid + more)[1..] == valid[1..] + more;
    }
  }

  /** The answer of the search is the first entry that vouches, if there is one. */
  ghost predicate FindsFirst(entries: seq<AllowEntry>, catalog: Catalog, f: Finding, r: Option<ValidEntry>, i: nat)
  {
    match r
    case None => forall j :: 0 <= j < |entries| ==> !Vouches(entries[j], catalog, f)
    case Some(v) => VouchesFirst(entries, catalog, f, i) && entries[i] == v.entry
  }

  lemma FindsFirstMore(entries: seq<AllowEntry>, catalog: Catalog, f: Finding, r: Option<ValidEntry>, i: nat)
    returns (next: nat)
    requires entries != [] && FindsFirst(entries[..|entries| - 1], catalog, f, r, i)
    ensures var last := entries[|entries| - 1];
      FindsFirst(entries, catalog, f,
        if r.Some? || !Vouches(last, catalog, f) then r
        else Some(ValidEntry(last, EntryCoverage(last, catalog).value)), next)
  {
    var n := |entries| - 1;
    assert forall j :: 0 <= j < n ==> entries[..n][j] == entries[j];
    next := if r.Some? then i else n;
  }

  lemma {:induction false} FirstVouching(entries: seq<AllowEntry>, catalog: Catalog, f: Finding) returns (i: nat)
    ensures FindsFirst(entries, catalog, f, FirstCovering(ValidEntries(entries, catalog), f), i)
  {
    i := 0;
    if entries != [] {
      var n := |entries| - 1;
      var before := FirstVouching(entries[..n], catalog, f);
      var coverage := EntryCoverage(entries[n], catalog);
      var more := if coverage.Success? then [ValidEntry(entries[n], coverage.value)] else [];
      FirstCoveringLast(ValidEntries(entries[..n], catalog), more, f);
      OneCovering(entries[n], catalog, f);
      i := FindsFirstMore(entries, catalog, f, FirstCovering(ValidEntries(entries[..n], catalog), f), before);
    }
  }

  lemma OneCovering(e: AllowEntry, catalog: Catalog, f: Finding)
    ensures var coverage := EntryCoverage(e, catalog);
      FirstCovering(if coverage.Success? then [ValidEntry(e, coverage.value)] else [], f)
        == if Vouches(e, catalog, f) then Some(ValidEntry(e, coverage.value)) else None
  {
  }

  lemma {:induction false} ExplainedHold(
    residue: seq<Finding>, valid: seq<ValidEntry>, checks: SelfChecks, catalog: Catalog, x: Explained)
    ensures x in ExplainedIn(residue, valid, checks, catalog) <==>
      && x.finding in residue && !IsSelfCheck(x.finding, checks) && FirstCovering(valid, x.finding).Some?
      && x == Explain(x.finding, FirstCovering(valid, x.finding).value.entry.cite, catalog)
  {
    if residue != [] {
      ExplainedHold(residue[..|residue| - 1], valid, checks, catalog, x);
      assert residue == residue[..|residue| - 1] + [residue[|residue| - 1]];
    }
  }

  /** A finding is explained exactly when it is new, not planted, and vouched for; by the first entry that does. */
  lemma ExplainedExactly(scans: Scans, policy: Policy, catalog: Catalog, x: Explained)
    ensures x in ExplainedIn(Residue(scans.after, scans.before, scans.control),
                             ValidEntries(policy.allowlist, catalog), ChecksOf(policy), catalog)
       <==> && x.finding in scans.after && x.finding !in scans.before && x.finding !in scans.control
            && !Planted(policy, x.finding)
            && exists i: nat :: VouchesFirst(policy.allowlist, catalog, x.finding, i)
                 && x == Explain(x.finding, policy.allowlist[i].cite, catalog)
  {
    var residue, valid := Residue(scans.after, scans.before, scans.control), ValidEntries(policy.allowlist, catalog);
    ExplainedHold(residue, valid, ChecksOf(policy), catalog, x);
    ResidueHolds(scans.after, scans.before, scans.control, x.finding);
    SelfCheckIsPlanted(policy, x.finding);
    var first := FirstVouching(policy.allowlist, catalog, x.finding);
    if i: nat :| VouchesFirst(policy.allowlist, catalog, x.finding, i) {
      assert FirstCovering(valid, x.finding).Some?;
      assert i == first;
    }
  }

  ghost predicate AllDifferent(findings: seq<Finding>)
  {
    forall i, j :: 0 <= i < j < |findings| ==> findings[i] != findings[j]
  }

  ghost function Items(findings: seq<Finding>): set<Finding>
  {
    set f | f in findings
  }

  lemma OneMoreItem(findings: seq<Finding>, drop: set<Finding>)
    requires findings != [] && AllDifferent(findings)
    ensures var n := |findings| - 1;
      |Items(findings) - drop| == |Items(findings[..n]) - drop| + if findings[n] in drop then 0 else 1
  {
    var n := |findings| - 1;
    var rest, last := Items(findings[..n]), findings[n];
    assert findings == findings[..n] + [last];
    assert last !in rest && Items(findings) == rest + {last};
    assert Items(findings) - drop == if last in drop then rest - drop else (rest - drop) + {last};
  }

  /** The counts of a scan without repetitions are those of the sets. */
  lemma {:induction false} CountsAreSizes(after: seq<Finding>, before: set<Finding>, control: set<Finding>)
    requires AllDifferent(after)
    ensures Candidates(after, before) == |Items(after) - before|
    ensures |Residue(after, before, control)| == |Items(after) - (before + control)|
  {
    if after == [] {
      assert Items(after) == {};
    } else {
      CountsAreSizes(after[..|after| - 1], before, control);
      OneMoreItem(after, before);
      OneMoreItem(after, before + control);
    }
  }

  // ---------------------------------------------------------- what an entry is good for, exactly

  ghost predicate Narrow(path: string)
  {
    BreadthReason(path).None?
  }

  /** A word that is no path: a feature type. */
  ghost predicate IsFeature(path: string)
  {
    path == "" || path[0] != '/'
  }

  /** The citation names something that vouches: a section of the documentation, a row that is bound to no path, or
  for a path a row with a channel that covers it. */
  ghost predicate WellCited(path: string, cite: string, catalog: Catalog)
  {
    if '#' in cite then cite in catalog.anchors
    else
      && cite in catalog.rows
      && (IsFeature(path) || catalog.rows[cite].channelPaths == []
          || exists c :: c in catalog.rows[cite].channelPaths && PathCovers(c, path))
  }

  /** A row bound to channels vouches for what lies below a path as well. */
  ghost predicate VouchesBelow(path: string, cite: string, catalog: Catalog)
  {
    '#' !in cite && cite in catalog.rows && !IsFeature(path) && catalog.rows[cite].channelPaths != []
  }

  /** An entry is valid exactly when it is cited, narrow, names a value if it is a feature, and is well cited. */
  lemma EntryExactly(e: AllowEntry, catalog: Catalog)
    ensures var cite := Trim(e.cite);
      EntryCoverage(e, catalog).Success? <==>
        && cite != "" && Narrow(e.path) && WellCited(e.path, cite, catalog)
        && (IsFeature(e.path) ==> e.field.Some? && e.field.value != "")
    ensures EntryCoverage(e, catalog) == Success(Subtree) <==>
      EntryCoverage(e, catalog).Success? && VouchesBelow(e.path, Trim(e.cite), catalog)
  {
    var cite := Trim(e.cite);
    if '#' !in cite && cite in catalog.rows {
      var channels := catalog.rows[cite].channelPaths;
      if exists c :: c in channels && PathCovers(c, e.path) {
        var c :| c in channels && PathCovers(c, e.path);
        var i :| 0 <= i < |channels| && channels[i] == c;
      }
    }
  }

  /** And it vouches for a finding exactly when it is valid, the finding is at its path, or below it where it vouches
  for that, and has the value it names, if any. */
  lemma VouchesExactly(e: AllowEntry, catalog: Catalog, f: Finding)
    ensures Vouches(e, catalog, f) <==>
      && EntryCoverage(e, catalog).Success? && (e.field.None? || e.field.value == f.field)
      && (e.path == f.path || (VouchesBelow(e.path, Trim(e.cite), catalog) && PathCovers(e.path, f.path)))
  {
    EntryExactly(e, catalog);
  }

  /** A planted check is valid exactly when it is narrow and names a value. */
  lemma SelfCheckExactly(path: string, field: Option<string>)
    ensures SelfCheckReason(path, field).None? <==> Narrow(path) && field.Some? && field.value != ""
  {
  }

  lemma PlantedExactly(policy: Policy, f: Finding)
    ensures Planted(policy, f) <==>
      || (&& Narrow(f.path) && ExactMatch(policy.canary.path, policy.canary.field, f)
          && (policy.canary.tool.Some? ==> policy.canary.tool.value == f.tool))
      || (&& Narrow(f.path)
          && exists c :: c in policy.controls && ExactMatch(c.path, c.field, f)
               && (c.tool.Some? ==> c.tool.value == f.tool))
  {
    forall c | c in policy.controls
      ensures SelfCheckReason(c.path, c.field).None? && ControlMatches(c, f)
         <==> Narrow(f.path) && ExactMatch(c.path, c.field, f) && (c.tool.Some? ==> c.tool.value == f.tool)
    {
    }
  }

  /** What lies within a cited channel is explained: an entry for a path of that channel accounts for every finding at
  or below the path. */
  lemma WithinChannelIsExplained(
    scans: Scans, policy: Policy, catalog: Catalog, entry: AllowEntry, f: Finding,
    channel: seq<string>, locus: seq<string>, place: seq<string>)
    requires AreSegments(channel) && AreSegments(locus) && AreSegments(place)
    requires channel <= locus <= place && |locus| >= 2 && (IsSystemRoot(locus[0]) ==> |locus| >= 3)
    requires entry.path == Absolute(locus) && f.path == Absolute(place)
    requires forall i :: 0 <= i < |entry.path| ==> !IsWildcard(entry.path[i])
    requires entry in policy.allowlist && (entry.field.None? || entry.field.value == f.field)
    requires var cite := Trim(entry.cite);
      '#' !in cite && cite != "" && cite in catalog.rows && Absolute(channel) in catalog.rows[cite].channelPaths
    ensures Vouches(entry, catalog, f) && UnexplainedResidue(f) !in Failures(scans, policy, catalog)
  {
    assert Slashes(0) == "";
    assert Absolute(locus) + "" == Absolute(locus) && Absolute(place) + "" == Absolute(place);
    assert Absolute(channel) + "" == Absolute(channel);
    NarrowExactlyWhen(locus, 0);
    CoversExactlyWhen(channel, 0, locus, 0);
    CoversExactlyWhen(locus, 0, place, 0);
    EntryExactly(entry, catalog);
    VouchesExactly(entry, catalog, f);
    FailureExactlyWhen(scans, policy, catalog, UnexplainedResidue(f));
  }

  // ----------------------------------------------------------------------- soundness

  lemma PlantedIsExact(policy: Policy, f: Finding)
    requires Planted(policy, f)
    ensures Specific(f.path)
    ensures ExactMatch(policy.canary.path, policy.canary.field, f)
         || exists c :: c in policy.controls && ExactMatch(c.path, c.field, f)
  {
  }

  /** The finding is the very place the entry names, or lies under a channel of the row the entry cites. */
  ghost predicate WithinCitation(e: AllowEntry, catalog: Catalog, f: Finding)
  {
    var cite := Trim(e.cite);
    || (e.path == f.path && (cite in catalog.rows || cite in catalog.anchors))
    || (cite in catalog.rows && exists c :: c in catalog.rows[cite].channelPaths && PathCovers(c, f.path))
  }

  lemma VouchedIsWithin(e: AllowEntry, catalog: Catalog, f: Finding)
    requires Vouches(e, catalog, f)
    ensures Specific(f.path) && WithinCitation(e, catalog, f)
    ensures EntryCoverage(e, catalog) == Success(Subtree) ==>
      Trim(e.cite) in catalog.rows && exists c :: c in catalog.rows[Trim(e.cite)].channelPaths && PathCovers(c, f.path)
    ensures e.field.Some? ==> e.field.value == f.field
  {
    CoveredIsSpecific(e.path, f.path);
    if EntryCoverage(e, catalog) == Success(Subtree) {
      var channels := catalog.rows[Trim(e.cite)].channelPaths;
      var i :| 0 <= i < |channels| && PathCovers(channels[i], e.path);
      PathCoversTransitive(channels[i], e.path, f.path);
      assert channels[i] in channels;
    }
  }

  /** A clean verdict tolerates only old findings, noise, exact planted artifacts and what a real citation covers,
  and never a path as broad as a whole top-level or system directory. */
  lemma CleanMeansAccounted(scans: Scans, policy: Policy, catalog: Catalog, f: Finding)
    requires Failures(scans, policy, catalog) == []
    requires f in scans.after && f !in scans.before && f !in scans.control
    ensures Specific(f.path)
    ensures || ExactMatch(policy.canary.path, policy.canary.field, f)
            || (exists c :: c in policy.controls && ExactMatch(c.path, c.field, f))
            || (exists e :: e in policy.allowlist && Vouches(e, catalog, f) && WithinCitation(e, catalog, f))
  {
    CleanExactlyWhen(scans, policy, catalog);
    assert Accounted(scans, policy, catalog, f);
    if Planted(policy, f) {
      PlantedIsExact(policy, f);
    } else {
      var e :| e in policy.allowlist && Vouches(e, catalog, f);
      VouchedIsWithin(e, catalog, f);
    }
  }

  // ------------------------------------------------------------- order and repetition

  /** Two policies that say the same, whatever the order and however often. */
  ghost predicate SamePolicy(a: Policy, b: Policy)
  {
    && (forall e :: e in a.allowlist <==> e in b.allowlist)
    && (forall c :: c in a.controls <==> c in b.controls)
    && a.canary == b.canary
  }

  lemma SameAnswers(a: Policy, b: Policy, catalog: Catalog, f: Finding)
    requires SamePolicy(a, b)
    ensures IsSelfCheck(f, ChecksOf(a)) == IsSelfCheck(f, ChecksOf(b))
    ensures FirstCovering(ValidEntries(a.allowlist, catalog), f).Some?
         == FirstCovering(ValidEntries(b.allowlist, catalog), f).Some?
  {
    SelfCheckIsPlanted(a, f);
    SelfCheckIsPlanted(b, f);
    CoveringIsVouched(a, catalog, f);
    CoveringIsVouched(b, catalog, f);
  }

  lemma {:induction false} SamePartition(residue: seq<Finding>, a: Policy, b: Policy, catalog: Catalog)
    requires SamePolicy(a, b)
    ensures SelfChecksIn(residue, ChecksOf(a)) == SelfChecksIn(residue, ChecksOf(b))
    ensures |ExplainedIn(residue, ValidEntries(a.allowlist, catalog), ChecksOf(a), catalog)|
         == |ExplainedIn(residue, ValidEntries(b.allowlist, catalog), ChecksOf(b), catalog)|
    ensures UnexplainedIn(residue, ValidEntries(a.allowlist, catalog), ChecksOf(a))
         == UnexplainedIn(residue, ValidEntries(b.allowlist, catalog), ChecksOf(b))
  {
    if residue != [] {
      SamePartition(residue[..|residue| - 1], a, b, catalog);
      SameAnswers(a, b, catalog, residue[|residue| - 1]);
    }
  }

  /** Status and counts do not depend on the order of the allowlist or the controls, nor on repetitions. */
  lemma OrderDoesNotMatter(scans: Scans, a: Policy, b: Policy, catalog: Catalog)
    requires SamePolicy(a, b)
    ensures Failures(scans, a, catalog) == [] <==> Failures(scans, b, catalog) == []
    ensures CountsOf(scans, a, catalog) == CountsOf(scans, b, catalog)
  {
    CleanExactlyWhen(scans, a, catalog);
    CleanExactlyWhen(scans, b, catalog);
    SamePartition(Residue(scans.after, scans.before, scans.control), a, b, catalog);
    assert a.controls == [] <==> b.controls == [] by {
      assert a.controls != [] ==> a.controls[0] in b.controls;
      assert b.controls != [] ==> b.controls[0] in a.controls;
    }
    forall f | f in scans.after ensures Accounted(scans, a, catalog, f) <==> Accounted(scans, b, catalog, f) {
    }
  }

  // ---------------------------------------------------------------------- monotonicity

  /** More baseline findings, more noise or more valid exemptions never turn a clean run into a failing one. */
  lemma CleanIsMonotone(scans: Scans, more: Scans, policy: Policy, wider: Policy, catalog: Catalog)
    requires scans.before <= more.before && scans.control <= more.control && scans.after == more.after
    requires wider.controls == policy.controls && wider.canary == policy.canary
    requires forall e :: e in policy.allowlist ==> e in wider.allowlist
    requires forall e :: e in wider.allowlist ==> EntryCoverage(e, catalog).Success?
    requires Failures(scans, policy, catalog) == []
    ensures Failures(more, wider, catalog) == []
  {
    CleanExactlyWhen(scans, policy, catalog);
    CleanExactlyWhen(more, wider, catalog);
    forall f | f in more.after ensures Accounted(more, wider, catalog, f) {
      assert Accounted(scans, policy, catalog, f);
      if Vouched(policy, catalog, f) {
        var e :| e in policy.allowlist && Vouches(e, catalog, f);
        assert e in wider.allowlist;
      }
    }
  }

  // --------------------------------------------------------------------- the explanation

  /** The rows are filed under trimmed ids, and every row says why an examiner cares. */
  ghost predicate TidyCatalog(catalog: Catalog)
  {
    forall id :: id in catalog.rows ==> Trim(id) == id && catalog.rows[id].risk != ""
  }

  /** An exemption for a catalog row is explained in the row's own words exactly when its citation is trimmed. */
  lemma ExplanationExactlyWhenTrimmed(e: AllowEntry, catalog: Catalog, f: Finding)
    requires TidyCatalog(catalog) && EntryCoverage(e, catalog).Success? && Trim(e.cite) in catalog.rows
    ensures Explain(f, e.cite, catalog).risk == catalog.rows[Trim(e.cite)].risk <==> Trim(e.cite) == e.cite
    ensures Trim(e.cite) == e.cite ==>
      var row := catalog.rows[e.cite]; Explain(f, e.cite, catalog) == Explained(f, e.cite, row.risk, row.mitigation)
  {
  }

  /** A citation with a space after it passes validation and loses the explanation. */
  lemma PaddedCitationLosesItsExplanation(row: CatalogRow, f: Finding)
    ensures
      var catalog, entry := Catalog(map["r" := row], {}), AllowEntry("a", Some("b"), "r ");
      && EntryCoverage(entry, catalog) == Success(Leaf)
      && Explain(f, entry.cite, catalog).risk == ""
  {
    assert "r "[..1] == "r";
    assert TrimEnd("r ") == TrimEnd("r") == "r";
    assert Trim("r ") == "r";
  }
}
