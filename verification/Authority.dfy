/** How far the loaded data may be trusted: the claim authority reported to robots. */
module Authority {
  import opened Sequences
  import opened Sorting
  import opened Texts
  import opened Sources
  import opened Loading

  datatype Status = LoadedStatus | FailedStatus | DisabledStatus | OtherStatus

  datatype SourceReport = SourceReport(
    name: Text, repoPath: Text, sourcePath: Text, status: Status,
    valid: nat, errors: nat, skipped: nat, readErrors: nat, visible: nat, tombstones: nat,
    stale: bool, warningCount: nat)

  datatype Level = Complete | Partial | Unknown

  datatype SourceAuthority = SourceAuthority(
    state: Level, claimSafe: bool, proven: bool, totals: Totals, sources: seq<SourceReport>)

  datatype Totals = Totals(
    loaded: nat, failed: nat, disabled: nat, valid: nat, errors: nat, skipped: nat,
    readErrors: nat, visible: nat, tombstones: nat, warningCount: nat)

  const ZERO := Totals(0, 0, 0, 0, 0, 0, 0, 0, 0, 0)

  /** A report that is no reason for doubt. */
  predicate Trustworthy(s: SourceReport) {
    s.status == LoadedStatus && s.errors == 0 && s.readErrors == 0 && !s.stale
  }

  function Add(t: Totals, s: SourceReport): Totals {
    if s.status == DisabledStatus then t.(disabled := t.disabled + 1)
    else Totals(t.loaded + (if s.status == LoadedStatus then 1 else 0),
                t.failed + (if s.status == LoadedStatus then 0 else 1),
                t.disabled, t.valid + s.valid, t.errors + s.errors, t.skipped + s.skipped,
                t.readErrors + s.readErrors, t.visible + s.visible, t.tombstones + s.tombstones,
                t.warningCount + s.warningCount)
  }

  function Summed(sources: seq<SourceReport>): Totals {
    if sources == [] then ZERO else Add(Summed(sources[..|sources| - 1]), sources[|sources| - 1])
  }

  // ----- the totals in terms of the reports themselves

  ghost function CountOf(sources: seq<SourceReport>, p: SourceReport -> bool): nat {
    |set i | 0 <= i < |sources| && p(sources[i])|
  }

  function Sum(values: seq<nat>): nat {
    if values == [] then 0 else Sum(values[..|values| - 1]) + values[|values| - 1]
  }

  /** One field of the sources that are switched on. */
  function FieldOf(sources: seq<SourceReport>, field: SourceReport -> nat): seq<nat> {
    Map(field, Filter((s: SourceReport) => s.status != DisabledStatus, sources))
  }

  /** Each source is counted by its status, and each field is summed over the sources that are not disabled. */
  ghost predicate AddsUp(sources: seq<SourceReport>, t: Totals) {
    && t.loaded == CountOf(sources, (s: SourceReport) => s.status == LoadedStatus)
    && t.disabled == CountOf(sources, (s: SourceReport) => s.status == DisabledStatus)
    && t.failed == CountOf(sources, (s: SourceReport) => s.status == FailedStatus || s.status == OtherStatus)
    && FieldsAddUp(sources, t)
  }

  predicate FieldsAddUp(sources: seq<SourceReport>, t: Totals) {
    && t.valid == Sum(FieldOf(sources, (s: SourceReport) => s.valid))
    && t.errors == Sum(FieldOf(sources, (s: SourceReport) => s.errors))
    && t.skipped == Sum(FieldOf(sources, (s: SourceReport) => s.skipped))
    && t.readErrors == Sum(FieldOf(sources, (s: SourceReport) => s.readErrors))
    && t.visible == Sum(FieldOf(sources, (s: SourceReport) => s.visible))
    && t.tombstones == Sum(FieldOf(sources, (s: SourceReport) => s.tombstones))
    && t.warningCount == Sum(FieldOf(sources, (s: SourceReport) => s.warningCount))
  }

  lemma CountOfPush(sources: seq<SourceReport>, s: SourceReport, p: SourceReport -> bool)
    ensures CountOf(sources + [s], p) == CountOf(sources, p) + (if p(s) then 1 else 0)
  {
    var n, more := |sources|, sources + [s];
    var all, earlier := set i | 0 <= i < |more| && p(more[i]), set i | 0 <= i < n && p(sources[i]);
    assert all == earlier + (if p(s) then {n} else {});
  }

  lemma SumOfField(sources: seq<SourceReport>, s: SourceReport, field: SourceReport -> nat)
    ensures Sum(FieldOf(sources + [s], field))
            == Sum(FieldOf(sources, field)) + (if s.status == DisabledStatus then 0 else field(s))
  {
    var on := (r: SourceReport) => r.status != DisabledStatus;
    FilterPush(on, sources, s);
    var before, after := FieldOf(sources, field), FieldOf(sources + [s], field);
    if s.status == DisabledStatus {
      assert after == before;
    } else {
      assert after == before + [field(s)];
      assert after[..|after| - 1] == before;
    }
  }

  lemma FieldsPush(sources: seq<SourceReport>, s: SourceReport, t: Totals)
    requires FieldsAddUp(sources, t)
    ensures FieldsAddUp(sources + [s], Add(t, s))
  {
    SumOfField(sources, s, (r: SourceReport) => r.valid);
    SumOfField(sources, s, (r: SourceReport) => r.errors);
    SumOfField(sources, s, (r: SourceReport) => r.skipped);
    SumOfField(sources, s, (r: SourceReport) => r.readErrors);
    SumOfField(sources, s, (r: SourceReport) => r.visible);
    SumOfField(sources, s, (r: SourceReport) => r.tombstones);
    SumOfField(sources, s, (r: SourceReport) => r.warningCount);
  }

  lemma CountsPush(sources: seq<SourceReport>, s: SourceReport, t: Totals)
    requires AddsUp(sources, t)
    ensures AddsUp(sources + [s], Add(t, s))
  {
    FieldsPush(sources, s, t);
    CountOfPush(sources, s, (r: SourceReport) => r.status == LoadedStatus);
    CountOfPush(sources, s, (r: SourceReport) => r.status == DisabledStatus);
    CountOfPush(sources, s, (r: SourceReport) => r.status == FailedStatus || r.status == OtherStatus);
  }

  lemma {:induction false} SummedAddsUp(sources: seq<SourceReport>)
    ensures AddsUp(sources, Summed(sources))
  {
    if sources != [] {
      var front, s := sources[..|sources| - 1], sources[|sources| - 1];
      assert sources == front + [s];
      SummedAddsUp(front);
      CountsPush(front, s, Summed(front));
    }
  }

  predicate ByRepoNamePath(a: SourceReport, b: SourceReport) {
    if a.repoPath != b.repoPath then Less(a.repoPath, b.repoPath)
    else if a.name != b.name then Less(a.name, b.name)
    else Less(a.sourcePath, b.sourcePath)
  }

  lemma ReportsAreOrdered()
    ensures WeakOrder(ByRepoNamePath)
  {
    forall a, b | ByRepoNamePath(a, b) ensures !ByRepoNamePath(b, a) {
      LessAsymmetric(a.repoPath, b.repoPath);
      LessAsymmetric(a.name, b.name);
      LessAsymmetric(a.sourcePath, b.sourcePath);
    }
    forall a, b, c | !ByRepoNamePath(a, b) && !ByRepoNamePath(b, c) ensures !ByRepoNamePath(a, c) {
      LessNegative(a.repoPath, b.repoPath, c.repoPath);
      LessNegative(a.name, b.name, c.name);
      LessNegative(a.sourcePath, b.sourcePath, c.sourcePath);
    }
  }

  /** Recognises the reports with the given sorting key. */
  function KeyIs(repoPath: Text, name: Text, sourcePath: Text): SourceReport -> bool {
    (s: SourceReport) => s.repoPath == repoPath && s.name == name && s.sourcePath == sourcePath
  }

  lemma SortKeepsTies(sources: seq<SourceReport>, repoPath: Text, name: Text, sourcePath: Text)
    ensures Filter(KeyIs(repoPath, name, sourcePath), Sort(ByRepoNamePath, sources))
            == Filter(KeyIs(repoPath, name, sourcePath), sources)
  {
    LessIrreflexive(sourcePath);
    SortIsStable(ByRepoNamePath, KeyIs(repoPath, name, sourcePath), sources);
  }

  /** Every source is counted once, as loaded, failed or disabled. */
  lemma {:induction false} EverySourceCounted(sources: seq<SourceReport>)
    ensures var t := Summed(sources); t.loaded + t.failed + t.disabled == |sources|
    ensures Summed(sources).loaded > 0 <==> exists i :: 0 <= i < |sources| && sources[i].status == LoadedStatus
  {
    if sources != [] {
      var front, s := sources[..|sources| - 1], sources[|sources| - 1];
      EverySourceCounted(front);
      if i :| 0 <= i < |front| && front[i].status == LoadedStatus {
        assert sources[i].status == LoadedStatus;
      }
      if i :| 0 <= i < |sources| && sources[i].status == LoadedStatus && i < |front| {
        assert front[i].status == LoadedStatus;
      }
    }
  }

  /** Claims are safe when something loaded and nothing that is switched on gives reason for doubt. */
  ghost predicate ClaimsAreSafe(sources: seq<SourceReport>) {
    && (exists i :: 0 <= i < |sources| && sources[i].status == LoadedStatus)
    && (forall i :: 0 <= i < |sources| ==> sources[i].status == DisabledStatus || Trustworthy(sources[i]))
  }

  lemma SummedPush(sources: seq<SourceReport>, i: nat)
    requires i < |sources|
    ensures Summed(sources[..i + 1]) == Add(Summed(sources[..i]), sources[i])
  {
    assert sources[..i + 1][..i] == sources[..i];
  }

  /** The loop body: counts one report and withdraws the claim if the report is a reason for doubt. */
  method CountReport(source: SourceReport, before: Totals, claimSafeBefore: bool)
    returns (totals: Totals, claimSafe: bool)
    ensures totals == Add(before, source)
    ensures claimSafe <==> claimSafeBefore && (source.status == DisabledStatus || Trustworthy(source))
  {
    totals, claimSafe := before, claimSafeBefore;
    match source.status {
      case DisabledStatus =>
        totals := totals.(disabled := totals.disabled + 1);
        return;
      case LoadedStatus =>
        totals := totals.(loaded := totals.loaded + 1);
      case _ =>
        totals := totals.(failed := totals.failed + 1);
        claimSafe := false;
    }
    totals := totals.(
      valid := totals.valid + source.valid, errors := totals.errors + source.errors,
      skipped := totals.skipped + source.skipped, readErrors := totals.readErrors + source.readErrors,
      visible := totals.visible + source.visible, tombstones := totals.tombstones + source.tombstones,
      warningCount := totals.warningCount + source.warningCount);
    if source.errors > 0 || source.readErrors > 0 || source.stale {
      claimSafe := false;
    }
  }

  /** The claim in terms of the totals: something loaded, nothing failed, no errors of either kind, nothing stale. */
  ghost predicate NoDoubt(sources: seq<SourceReport>, t: Totals) {
    && t.loaded > 0 && t.failed == 0 && t.errors == 0 && t.readErrors == 0
    && forall i :: 0 <= i < |sources| ==> sources[i].status == DisabledStatus || !sources[i].stale
  }

  lemma {:induction false} TrustworthyByTotals(sources: seq<SourceReport>)
    ensures (forall i :: 0 <= i < |sources| ==> sources[i].status == DisabledStatus || Trustworthy(sources[i]))
            <==> (var t := Summed(sources);
                  && t.failed == 0 && t.errors == 0 && t.readErrors == 0
                  && forall i :: 0 <= i < |sources| ==> sources[i].status == DisabledStatus || !sources[i].stale)
  {
    if sources != [] {
      var front, last := sources[..|sources| - 1], sources[|sources| - 1];
      assert sources == front + [last];
      TrustworthyByTotals(front);
    }
  }

  lemma ClaimsByTotals(sources: seq<SourceReport>)
    ensures ClaimsAreSafe(sources) <==> NoDoubt(sources, Summed(sources))
  {
    EverySourceCounted(sources);
    TrustworthyByTotals(sources);
  }

  method SumReports(sources: seq<SourceReport>) returns (totals: Totals, claimSafe: bool)
    ensures totals == Summed(sources)
    ensures claimSafe <==> forall j :: 0 <= j < |sources| ==>
              sources[j].status == DisabledStatus || Trustworthy(sources[j])
  {
    claimSafe := true;
    totals := ZERO;
    for i := 0 to |sources|
      invariant totals == Summed(sources[..i])
      invariant claimSafe <==> forall j :: 0 <= j < i ==> sources[j].status == DisabledStatus || Trustworthy(sources[j])
    {
      SummedPush(sources, i);
      totals, claimSafe := CountReport(sources[i], totals, claimSafe);
    }
    assert sources[..|sources|] == sources;
  }

  /** In order of repository, then name, then path. */
  predicate NotAfter(a: SourceReport, b: SourceReport) {
    && !Less(b.repoPath, a.repoPath)
    && (a.repoPath == b.repoPath ==> !Less(b.name, a.name))
    && (a.repoPath == b.repoPath && a.name == b.name ==> !Less(b.sourcePath, a.sourcePath))
  }

  lemma SortedNotAfter(sources: seq<SourceReport>)
    ensures var sorted := Sort(ByRepoNamePath, sources);
            forall i, j :: 0 <= i < j < |sorted| ==> NotAfter(sorted[i], sorted[j])
  {
    ReportsAreOrdered();
    SortKeepsOrder(ByRepoNamePath, sources);
    var sorted := Sort(ByRepoNamePath, sources);
    forall i, j | 0 <= i < j < |sorted| ensures NotAfter(sorted[i], sorted[j]) {
      var a, b := sorted[i], sorted[j];
      assert !ByRepoNamePath(b, a);
      LessIrreflexive(a.repoPath);
      LessIrreflexive(a.name);
    }
  }

  method NewRobotSourceAuthority(sources: seq<SourceReport>) returns (a: SourceAuthority)
    ensures a.totals == Summed(sources) && AddsUp(sources, a.totals)
    ensures a.claimSafe <==> ClaimsAreSafe(sources)
    ensures a.claimSafe <==> NoDoubt(sources, a.totals)
    ensures a.proven <==> a.claimSafe
    ensures a.state == if a.totals.loaded == 0 then Unknown else if a.claimSafe then Complete else Partial
    ensures multiset(a.sources) == multiset(sources)
    ensures forall i, j :: 0 <= i < j < |a.sources| ==> NotAfter(a.sources[i], a.sources[j])
    ensures forall repoPath, name, sourcePath ::
              Filter(KeyIs(repoPath, name, sourcePath), a.sources)
              == Filter(KeyIs(repoPath, name, sourcePath), sources)
  {
    var totals, claimSafe := SumReports(sources);
    SummedAddsUp(sources);
    EverySourceCounted(sources);
    ClaimsByTotals(sources);
    SortPermutes(ByRepoNamePath, sources);
    SortedNotAfter(sources);
    forall repoPath, name, sourcePath
      ensures Filter(KeyIs(repoPath, name, sourcePath), Sort(ByRepoNamePath, sources))
              == Filter(KeyIs(repoPath, name, sourcePath), sources)
    {
      SortKeepsTies(sources, repoPath, name, sourcePath);
    }
    var state := Complete;
    if totals.loaded == 0 {
      state := Unknown;
      claimSafe := false;
    } else if !claimSafe {
      state := Partial;
    }
    a := SourceAuthority(state, claimSafe, claimSafe, totals, Sort(ByRepoNamePath, sources));
  }

  // ----- the authority of a load with fallback

  function RobotSourceFromLoad(loaded: Loaded): SourceReport {
    var r := loaded.result.report;
    SourceReport(
      [], [], if loaded.result.source.path == [] then r.path else loaded.result.source.path,
      if loaded.error.Some? then FailedStatus else LoadedStatus,
      r.valid, r.errors, r.skipped, r.readErrors, |loaded.result.issues|, |r.tombstoneIds|,
      r.stale, r.warningCount + |r.authorityWarnings|)
  }

  /** Loading one source with fallback permits claims exactly when the overall first choice loaded,
      and loaded without dropped records or read errors. */
  lemma ClaimSafeOnlyForFirstChoice(sources: seq<DataSource>, load: DataSource -> Loaded, s: DataSource)
    requires DistinctPaths(sources) && FirstToLoad(sources, load, s)
    ensures Smart(sources, load).Some?
    ensures var report := RobotSourceFromLoad(Loaded(Smart(sources, load).value, None));
            ClaimsAreSafe([report]) <==>
              && (forall t :: t in sources ==> !Preferred(true, t, s))
              && load(s).result.report.errors == 0 && load(s).result.report.readErrors == 0
  {
    SmartPicksFirstToLoad(sources, load, s);
    var report := RobotSourceFromLoad(Loaded(Smart(sources, load).value, None));
    assert [report][0].status == LoadedStatus;
    assert ClaimsAreSafe([report]) <==> Trustworthy(report) by {
      if ClaimsAreSafe([report]) {
        assert Trustworthy([report][0]);
      }
    }
  }

  /** Some source is the overall first choice, loads, and does so without dropped records or read errors. */
  ghost predicate FirstChoiceIsClean(sources: seq<DataSource>, load: DataSource -> Loaded) {
    exists s :: FirstToLoad(sources, load, s)
                && (forall t :: t in sources ==> !Preferred(true, t, s))
                && load(s).result.report.errors == 0 && load(s).result.report.readErrors == 0
  }

  /** The tolerant load read, without errors, the file of the least preferred source, which was rejected last,
      or there was none to reject. */
  ghost predicate LegacyIsClean(sources: seq<DataSource>, load: DataSource -> Loaded, found: Found) {
    && found.JSONLFile? && found.parse.readError == None && found.parse.errors == 0
    && forall s :: LeastPreferred(sources, s) ==>
         load(s).result.source.path == [] || load(s).result.source.path == found.path
  }

  lemma LastRejectedPath(sources: seq<DataSource>, load: DataSource -> Loaded)
    requires DistinctPaths(sources)
    ensures sources == [] ==> LastTried(sources, load).source.path == []
    ensures sources != [] ==> exists s :: LeastPreferred(sources, s)
    ensures forall s :: LeastPreferred(sources, s) ==> LastTried(sources, load).source == load(s).result.source
  {
    if sources != [] {
      var ordered := SortedBySelectionPreference(sources, true);
      SortedNonEmpty(sources, true);
      forall s ensures LeastPreferred(sources, s) <==> s == ordered[|ordered| - 1] {
        LastIsLeastPreferred(sources, s);
      }
      assert LeastPreferred(sources, ordered[|ordered| - 1]);
    }
  }

  lemma LegacyClaims(sources: seq<DataSource>, load: DataSource -> Loaded, found: Found)
    requires DistinctPaths(sources) && Smart(sources, load) == None
    ensures ClaimsAreSafe([RobotSourceFromLoad(LoadedIssues(sources, load, found))])
            <==> LegacyIsClean(sources, load, found)
  {
    LastRejectedPath(sources, load);
    var report := RobotSourceFromLoad(LoadedIssues(sources, load, found));
    assert [report][0] == report;
    assert ClaimsAreSafe([report]) <==> Trustworthy(report);
  }

  lemma SmartClaims(sources: seq<DataSource>, load: DataSource -> Loaded, found: Found)
    requires DistinctPaths(sources) && Smart(sources, load).Some?
    ensures ClaimsAreSafe([RobotSourceFromLoad(LoadedIssues(sources, load, found))])
            <==> FirstChoiceIsClean(sources, load)
  {
    SmartLoadsIfAnyDoes(sources, load);
    var s :| FirstToLoad(sources, load, s);
    ClaimSafeOnlyForFirstChoice(sources, load, s);
    forall t | FirstToLoad(sources, load, t) ensures t == s {
      FirstToLoadIsUnique(sources, load, s, t);
    }
  }

  lemma NothingLoadsNothingFirst(sources: seq<DataSource>, load: DataSource -> Loaded)
    requires DistinctPaths(sources) && Smart(sources, load) == None
    ensures !FirstChoiceIsClean(sources, load)
  {
    forall s ensures !FirstToLoad(sources, load, s) {
      if FirstToLoad(sources, load, s) {
        SmartPicksFirstToLoad(sources, load, s);
      }
    }
  }

  /** The totals of a single load are those of its own accounting. */
  ghost predicate TotalsOfLoad(loaded: Loaded, t: Totals) {
    var report := loaded.result.report;
    && (if loaded.error == None then t.loaded == 1 && t.failed == 0 else t.loaded == 0 && t.failed == 1)
    && t.disabled == 0
    && t.valid == report.valid && t.errors == report.errors && t.skipped == report.skipped
    && t.readErrors == report.readErrors
    && t.visible == |loaded.result.issues| && t.tombstones == |report.tombstoneIds|
    && t.warningCount == report.warningCount + |report.authorityWarnings|
  }

  lemma SingleLoadAddsUp(loaded: Loaded)
    ensures TotalsOfLoad(loaded, Summed([RobotSourceFromLoad(loaded)]))
  {
    var reports := [RobotSourceFromLoad(loaded)];
    assert reports[..0] == [];
    assert Summed(reports) == Add(ZERO, reports[0]);
  }

  /** Loading, with both fallbacks, reporting and judging in one go. */
  method AuthorityOfLoad(sources: seq<DataSource>, load: DataSource -> Loaded, found: Found)
    returns (a: SourceAuthority)
    requires DistinctPaths(sources)
    ensures a.claimSafe <==>
              || FirstChoiceIsClean(sources, load)
              || ((forall s :: s in sources ==> !Loads(load, s)) && LegacyIsClean(sources, load, found))
    ensures TotalsOfLoad(LoadedIssues(sources, load, found), a.totals)
  {
    var loaded := LoadIssues(sources, load, found);
    a := NewRobotSourceAuthority([RobotSourceFromLoad(loaded)]);
    SingleLoadAddsUp(loaded);
    SmartLoadsIfAnyDoes(sources, load);
    if Smart(sources, load).Some? {
      SmartClaims(sources, load, found);
    } else {
      LegacyClaims(sources, load, found);
      NothingLoadsNothingFirst(sources, load);
    }
  }

  /** A project with one JSONL file that the gate rejects is claim-safe all the same exactly when the file
      was read without errors but holds no issue, only records of other kinds. */
  lemma RejectedYetClaimSafe(s: DataSource, load: DataSource -> Loaded, parse: Parse)
    requires load(s).result.source == s && (Loads(load, s) <==> Acceptable(parse))
    ensures !Loads(load, s) ==>
              (ClaimsAreSafe([RobotSourceFromLoad(LoadedIssues([s], load, JSONLFile(s.path, parse)))])
               <==> parse.readError == None && parse.errors == 0 && parse.valid == 0 && parse.skipped > 0)
  {
    if !Loads(load, s) {
      SortSingle((a, b) => Preferred(true, a, b), s);
      TryFromFinds([s], load, 0, 1);
      LegacyClaims([s], load, JSONLFile(s.path, parse));
    }
  }

  lemma FirstToLoadIsUnique(sources: seq<DataSource>, load: DataSource -> Loaded, s: DataSource, t: DataSource)
    requires DistinctPaths(sources) && FirstToLoad(sources, load, s) && FirstToLoad(sources, load, t)
    ensures s == t
  {
    PreferredTotal(true, s, t);
    var i :| 0 <= i < |sources| && sources[i] == s;
    var j :| 0 <= j < |sources| && sources[j] == t;
  }
}
