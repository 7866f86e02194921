/** Loading issues from the preferred source, falling back through the others. */
module Loading {
  import opened Sequences
  import opened Sorting
  import opened Texts
  import opened Sources

  const MAX_LOAD_REPORT_WARNINGS: nat := 10

  datatype LoadReport = LoadReport(
    path: Text, valid: nat, errors: nat, skipped: nat, warnings: seq<Text>, warningCount: nat,
    readErrors: nat, authorityWarnings: seq<Text>, stale: bool, tombstoneIds: seq<Text>)

  datatype Issue = Issue(id: Text, tombstone: bool)

  datatype LoadResult = LoadResult(issues: seq<Issue>, source: DataSource, report: LoadReport)

  /** A load: its result comes with an error message when it failed. */
  datatype Loaded = Loaded(result: LoadResult, error: Option<Text>)

  // ----- one JSONL file

  /** What parsing one file came to: all its issues, its accounting, every warning, and a read error if any. */
  datatype Parse = Parse(
    issues: seq<Issue>, valid: nat, errors: nat, skipped: nat, warnings: seq<Text>, readError: Option<Text>)

  function ErrorRate(valid: nat, errors: nat): real {
    if valid + errors == 0 then 0.0 else errors as real / (valid + errors) as real
  }

  const MAX_JSONL_ERROR_RATE: real := 0.10

  function TombstoneIds(issues: seq<Issue>): seq<Text> {
    Map((i: Issue) => i.id, Filter((i: Issue) => i.tombstone, issues))
  }

  function FileReport(path: Text, parse: Parse): LoadReport {
    LoadReport(path, parse.valid, parse.errors, parse.skipped,
               if |parse.warnings| > MAX_LOAD_REPORT_WARNINGS
               then parse.warnings[..MAX_LOAD_REPORT_WARNINGS] else parse.warnings,
               |parse.warnings|, 0, [], false, TombstoneIds(parse.issues))
  }

  /** The report has the counts of the parse, the first ten warnings, and the ids of the tombstones: with those of
      the visible issues they are the ids of all issues. */
  ghost predicate KeepsAccounting(parse: Parse, report: LoadReport) {
    && report.valid == parse.valid && report.errors == parse.errors && report.skipped == parse.skipped
    && report.warningCount == |parse.warnings| && report.readErrors == 0
    && report.warnings <= parse.warnings && |report.warnings| <= 10
    && (|report.warnings| < 10 ==> report.warnings == parse.warnings)
    && IdsOf(parse.issues)
       == multiset(report.tombstoneIds) + IdsOf(Filter((i: Issue) => !i.tombstone, parse.issues))
  }

  ghost function IdsOf(issues: seq<Issue>): multiset<Text> {
    multiset(Map((i: Issue) => i.id, issues))
  }

  lemma IdsPush(issues: seq<Issue>, i: Issue)
    ensures IdsOf(issues + [i]) == IdsOf(issues) + multiset{i.id}
  {
    var id := (i: Issue) => i.id;
    assert Map(id, issues + [i]) == Map(id, issues) + [i.id];
  }

  lemma KeptIdsPush(keep: Issue -> bool, issues: seq<Issue>, i: Issue)
    ensures IdsOf(Filter(keep, issues + [i]))
            == IdsOf(Filter(keep, issues)) + (if keep(i) then multiset{i.id} else multiset{})
  {
    FilterPush(keep, issues, i);
    if keep(i) {
      IdsPush(Filter(keep, issues), i);
    } else {
      assert Filter(keep, issues) + [] == Filter(keep, issues);
    }
  }

  lemma {:induction false} IdsSplit(issues: seq<Issue>, some: Issue -> bool, others: Issue -> bool)
    requires forall i :: some(i) <==> !others(i)
    ensures IdsOf(issues) == IdsOf(Filter(some, issues)) + IdsOf(Filter(others, issues))
  {
    if issues != [] {
      var front, last := issues[..|issues| - 1], issues[|issues| - 1];
      assert issues == front + [last];
      IdsSplit(front, some, others);
      IdsPush(front, last);
      KeptIdsPush(some, front, last);
      KeptIdsPush(others, front, last);
    }
  }

  lemma ReportKeepsAccounting(path: Text, parse: Parse)
    ensures KeepsAccounting(parse, FileReport(path, parse))
  {
    IdsSplit(parse.issues, (i: Issue) => i.tombstone, (i: Issue) => !i.tombstone);
  }

  method LoadAndValidateJSONL(source: DataSource, parse: Parse) returns (r: Loaded)
    ensures r.error == None <==> Acceptable(parse)
    ensures r.error == None <==>
              && parse.readError == None && parse.errors * 9 <= parse.valid
              && !(parse.valid == 0 && parse.skipped > 0)
    ensures r.result.source == source && r.result.report == FileReport(source.path, parse)
    ensures KeepsAccounting(parse, r.result.report)
    ensures r.result.issues == if Acceptable(parse) then Filter((i: Issue) => !i.tombstone, parse.issues) else []
  {
    GateIsExact(parse);
    ReportKeepsAccounting(source.path, parse);
    var warnings := CollectWarnings(parse.warnings);
    var report := LoadReport(source.path, parse.valid, parse.errors, parse.skipped, warnings,
                             |parse.warnings|, 0, [], false, TombstoneIds(parse.issues));
    if parse.readError.Some? {
      return Loaded(LoadResult([], source, report), parse.readError);
    }
    if ErrorRate(parse.valid, parse.errors) > MAX_JSONL_ERROR_RATE {
      return Loaded(LoadResult([], source, report), Some(source.path + Ascii(": too many errors")));
    }
    if parse.valid == 0 && parse.errors + parse.skipped > 0 {
      return Loaded(LoadResult([], source, report), Some(source.path + Ascii(": no issue records")));
    }
    var out := VisibleIssues(parse.issues);
    return Loaded(LoadResult(out, source, report), None);
  }

  /** Keeps the first warnings only. */
  method CollectWarnings(messages: seq<Text>) returns (warnings: seq<Text>)
    ensures warnings == if |messages| > MAX_LOAD_REPORT_WARNINGS
                        then messages[..MAX_LOAD_REPORT_WARNINGS] else messages
  {
    warnings := [];
    for i := 0 to |messages|
      invariant warnings == messages[..if i > MAX_LOAD_REPORT_WARNINGS then MAX_LOAD_REPORT_WARNINGS else i]
    {
      if |warnings| < MAX_LOAD_REPORT_WARNINGS {
        warnings := warnings + [messages[i]];
      }
    }
  }

  method VisibleIssues(issues: seq<Issue>) returns (out: seq<Issue>)
    ensures out == Filter((i: Issue) => !i.tombstone, issues)
  {
    out := [];
    var visible := (i: Issue) => !i.tombstone;
    for k := 0 to |issues|
      invariant out == Filter(visible, issues[..k])
    {
      assert issues[..k + 1] == issues[..k] + [issues[k]];
      FilterPush(visible, issues[..k], issues[k]);
      if !issues[k].tombstone {
        out := out + [issues[k]];
      }
    }
    assert issues[..|issues|] == issues;
  }

  /** A file passes when it was read, at most one line in ten is an error, and it is empty or holds an issue. */
  ghost predicate Acceptable(parse: Parse) {
    && parse.readError == None
    && 9 * parse.errors <= parse.valid
    && (parse.valid == 0 ==> parse.skipped == 0)
  }

  /** The gate in its own terms. */
  lemma GateIsExact(parse: Parse)
    ensures Acceptable(parse) <==>
              parse.readError == None
              && !(ErrorRate(parse.valid, parse.errors) > MAX_JSONL_ERROR_RATE)
              && !(parse.valid == 0 && parse.errors + parse.skipped > 0)
  {
    var total := parse.valid + parse.errors;
    if total > 0 {
      RateAbove(parse.errors as real, total as real, MAX_JSONL_ERROR_RATE);
    }
  }

  lemma RateAbove(errors: real, total: real, max: real)
    requires total > 0.0
    ensures errors / total > max <==> errors > max * total
  {
  }

  // ----- fallback over several sources

  function Rejection(source: DataSource, error: Text): Text {
    Ascii("rejected source ") + source.path + Ascii(": ") + error
  }

  /** The messages of the first rejected sources. */
  function Rejections(rejected: seq<DataSource>, load: DataSource -> Loaded): seq<Text>
  {
    if rejected == [] then []
    else
      var earlier := Rejections(rejected[..|rejected| - 1], load);
      var s := rejected[|rejected| - 1];
      if |earlier| < MAX_LOAD_REPORT_WARNINGS && load(s).error.Some?
      then earlier + [Rejection(s, load(s).error.value)] else earlier
  }

  /** Trying the sources from the i-th on, after the earlier ones were rejected. */
  function TryFrom(ordered: seq<DataSource>, load: DataSource -> Loaded, i: nat): Option<LoadResult>
    requires i <= |ordered|
    decreases |ordered| - i
  {
    if i == |ordered| then None
    else if load(ordered[i]).error == None then
      var rejected := Rejections(ordered[..i], load);
      var r := load(ordered[i]).result;
      Some(r.(report := r.report.(authorityWarnings := rejected, stale := |rejected| > 0)))
    else TryFrom(ordered, load, i + 1)
  }

  /** The result of loading, if any source loads. */
  function Smart(sources: seq<DataSource>, load: DataSource -> Loaded): Option<LoadResult> {
    TryFrom(SortedBySelectionPreference(sources, true), load, 0)
  }

  predicate Loads(load: DataSource -> Loaded, s: DataSource) {
    load(s).error == None
  }

  /** s loads, and every source preferred to it does not. */
  ghost predicate FirstToLoad(sources: seq<DataSource>, load: DataSource -> Loaded, s: DataSource) {
    && s in sources && Loads(load, s)
    && forall t :: t in sources && Preferred(true, t, s) ==> !Loads(load, t)
  }

  lemma {:induction false} RejectionsCount(rejected: seq<DataSource>, load: DataSource -> Loaded)
    requires forall i :: 0 <= i < |rejected| ==> !Loads(load, rejected[i])
    ensures |Rejections(rejected, load)|
            == if |rejected| < 10 then |rejected| else 10
    ensures forall i :: 0 <= i < |Rejections(rejected, load)| ==>
              (var error := load(rejected[i]).error;
               error.Some? && Rejections(rejected, load)[i] == Rejection(rejected[i], error.value))
  {
    if rejected != [] {
      RejectionsCount(rejected[..|rejected| - 1], load);
    }
  }

  lemma {:induction false} TryFromFinds(ordered: seq<DataSource>, load: DataSource -> Loaded, i: nat, k: nat)
    requires i <= k <= |ordered| && forall j :: i <= j < k ==> !Loads(load, ordered[j])
    ensures TryFrom(ordered, load, i) == TryFrom(ordered, load, k)
    decreases k - i
  {
    if i < k {
      TryFromFinds(ordered, load, i + 1, k);
    }
  }

  /** w reports why t was rejected. */
  predicate Rejects(load: DataSource -> Loaded, t: DataSource, w: Text) {
    load(t).error.Some? && w == Rejection(t, load(t).error.value)
  }

  /** What loading with fallback returns: the result of the most preferred source that loads, marked stale,
      with the reasons, exactly when a preferred source was rejected. */
  lemma SmartPicksFirstToLoad(sources: seq<DataSource>, load: DataSource -> Loaded, s: DataSource)
    requires DistinctPaths(sources) && FirstToLoad(sources, load, s)
    ensures Smart(sources, load).Some?
    ensures var r, own := Smart(sources, load).value, load(s).result;
            && r == own.(report := own.report.(
                           authorityWarnings := r.report.authorityWarnings, stale := r.report.stale))
            && (r.report.stale <==> exists t :: t in sources && Preferred(true, t, s))
            && (r.report.stale <==> r.report.authorityWarnings != [])
            && |r.report.authorityWarnings| <= MAX_LOAD_REPORT_WARNINGS
            && forall w :: w in r.report.authorityWarnings ==>
                 exists t :: t in sources && Preferred(true, t, s) && Rejects(load, t, w)
  {
    var ordered := SortedBySelectionPreference(sources, true);
    SortedByPreference(sources, true);
    assert s in ordered;
    var k :| 0 <= k < |ordered| && ordered[k] == s;
    forall j | 0 <= j < k ensures ordered[j] in sources && !Loads(load, ordered[j]) {
      assert ordered[j] in ordered;
    }
    TryFromFinds(ordered, load, 0, k);
    RejectionsCount(ordered[..k], load);
    var warnings := Rejections(ordered[..k], load);
    forall w | w in warnings
      ensures exists t :: t in sources && Preferred(true, t, s) && Rejects(load, t, w)
    {
      var j :| 0 <= j < |warnings| && warnings[j] == w;
      assert Rejects(load, ordered[..k][j], w) && ordered[j] in ordered;
    }
    if k > 0 {
      assert ordered[0] in sources && Preferred(true, ordered[0], s);
    } else {
      forall t | t in sources ensures !Preferred(true, t, s) {
        NothingBeforeFirst(ordered, t);
      }
    }
  }

  lemma NothingBeforeFirst(ordered: seq<DataSource>, t: DataSource)
    requires ordered != [] && t in ordered
    requires forall i, j :: 0 <= i < j < |ordered| ==> Preferred(true, ordered[i], ordered[j])
    ensures !Preferred(true, t, ordered[0])
  {
    var i :| 0 <= i < |ordered| && ordered[i] == t;
    PreferredTotal(true, ordered[0], t);
    PreferredTotal(true, t, ordered[0]);
  }

  /** Some source loads exactly when loading with fallback succeeds, and then one of them is first to load. */
  lemma SmartLoadsIfAnyDoes(sources: seq<DataSource>, load: DataSource -> Loaded)
    requires DistinctPaths(sources)
    ensures Smart(sources, load).Some? <==> exists s :: s in sources && Loads(load, s)
    ensures Smart(sources, load).Some? ==> exists s :: FirstToLoad(sources, load, s)
  {
    var ordered := SortedBySelectionPreference(sources, true);
    SortedByPreference(sources, true);
    if k :| 0 <= k < |ordered| && Loads(load, ordered[k]) {
      var first := LeastLoading(ordered, load, k);
      TryFromFinds(ordered, load, 0, first);
      var s := ordered[first];
      forall t | t in sources && Preferred(true, t, s) ensures !Loads(load, t) {
        var i :| 0 <= i < |ordered| && ordered[i] == t;
        PreferredTotal(true, t, s);
        PreferredTotal(true, s, t);
        assert i < first;
      }
      assert s in ordered && FirstToLoad(sources, load, s);
    } else {
      TryFromFinds(ordered, load, 0, |ordered|);
      forall s | s in sources ensures !Loads(load, s) {
        assert s in ordered;
      }
    }
  }

  lemma {:induction false} LeastLoading(ordered: seq<DataSource>, load: DataSource -> Loaded, k: nat)
    returns (first: nat)
    requires k < |ordered| && Loads(load, ordered[k])
    ensures first <= k && Loads(load, ordered[first]) && forall j :: 0 <= j < first ==> !Loads(load, ordered[j])
    decreases k
  {
    if j :| 0 <= j < k && Loads(load, ordered[j]) {
      first := LeastLoading(ordered, load, j);
    } else {
      first := k;
    }
  }

  /** The order in which sources were discovered does not matter. */
  lemma SmartWhateverTheOrder(sources: seq<DataSource>, others: seq<DataSource>, load: DataSource -> Loaded)
    requires DistinctPaths(sources) && DistinctPaths(others) && forall s :: s in sources <==> s in others
    ensures Smart(sources, load) == Smart(others, load)
  {
    SortedWhateverTheOrder(sources, others, true);
  }

  function MarkValid(s: DataSource, load: DataSource -> Loaded): DataSource {
    s.(valid := Loads(load, s))
  }

  /** Loading with fallback agrees with validating every source first and selecting the best by default. */
  lemma SmartAgreesWithSelection(sources: seq<DataSource>, load: DataSource -> Loaded, s: DataSource)
    requires DistinctPaths(sources) && FirstToLoad(sources, load, s)
    ensures var marked := Map((x: DataSource) => MarkValid(x, load), sources);
            BestSource(marked, DEFAULT_SELECTION_OPTIONS).Selected?
            && BestSource(marked, DEFAULT_SELECTION_OPTIONS).best == MarkValid(s, load)
  {
    var mark := (x: DataSource) => MarkValid(x, load);
    var marked := Map(mark, sources);
    assert DistinctPaths(marked);
    var i :| 0 <= i < |sources| && sources[i] == s;
    var m := MarkValid(s, load);
    assert marked[i] == m && m in marked;
    FilterMember((x: DataSource) => x.valid, marked, m);
    SelectionIsBest(marked, DEFAULT_SELECTION_OPTIONS, m);
    var best := BestSource(marked, DEFAULT_SELECTION_OPTIONS).best;
    var j :| 0 <= j < |marked| && marked[j] == best;
    assert best == MarkValid(sources[j], load) && sources[j] in sources;
    assert Preferred(true, best, m) ==> Preferred(true, sources[j], s);
  }

  /** When no source loads: the result of the least preferred one, with the reasons. */
  function LastTried(sources: seq<DataSource>, load: DataSource -> Loaded): LoadResult {
    var ordered := SortedBySelectionPreference(sources, true);
    if ordered == [] then NOTHING_LOADED
    else
      var last := load(ordered[|ordered| - 1]).result;
      last.(report := last.report.(authorityWarnings := Rejections(ordered, load)))
  }

  function SmartError(sources: seq<DataSource>, load: DataSource -> Loaded): Text {
    var ordered := SortedBySelectionPreference(sources, true);
    if ordered == [] then Ascii("no valid sources discovered")
    else
      match load(ordered[|ordered| - 1]).error
      case Some(error) => Ascii("no valid sources discovered: ") + error
      case None => Ascii("no valid sources discovered")
  }

  /** Every other source is preferred to s. */
  ghost predicate LeastPreferred(sources: seq<DataSource>, s: DataSource) {
    s in sources && forall t :: t in sources && t != s ==> Preferred(true, t, s)
  }

  lemma LastIsLeastPreferred(sources: seq<DataSource>, s: DataSource)
    requires DistinctPaths(sources) && sources != []
    ensures var ordered := SortedBySelectionPreference(sources, true);
            ordered != [] && (LeastPreferred(sources, s) <==> s == ordered[|ordered| - 1])
  {
    SortedByPreference(sources, true);
    var ordered := SortedBySelectionPreference(sources, true);
    var last := ordered[|ordered| - 1];
    assert last in ordered;
    forall t | t in sources && t != last ensures Preferred(true, t, last) {
      var i :| 0 <= i < |ordered| && ordered[i] == t;
    }
    PreferredTotal(true, last, s);
  }

  /** When no source loads, the result is that of the least preferred source, with up to ten reasons. */
  lemma LastTriedIsLeastPreferred(sources: seq<DataSource>, load: DataSource -> Loaded)
    requires DistinctPaths(sources) && sources != [] && forall s :: s in sources ==> !Loads(load, s)
    ensures exists s :: LeastPreferred(sources, s)
    ensures forall s :: LeastPreferred(sources, s) ==>
              var last, own := LastTried(sources, load), load(s).result;
              && last == own.(report := own.report.(authorityWarnings := last.report.authorityWarnings))
              && |last.report.authorityWarnings| == if |sources| < 10 then |sources| else 10
  {
    var ordered := SortedBySelectionPreference(sources, true);
    SortedByPreference(sources, true);
    forall s ensures LeastPreferred(sources, s) <==> s == ordered[|ordered| - 1] {
      LastIsLeastPreferred(sources, s);
    }
    forall i | 0 <= i < |ordered| ensures !Loads(load, ordered[i]) {
      assert ordered[i] in ordered;
    }
    assert LeastPreferred(sources, ordered[|ordered| - 1]);
    RejectionsCount(ordered, load);
  }

  method LoadSmart(sources: seq<DataSource>, load: DataSource -> Loaded) returns (r: Loaded)
    ensures r.error == None <==> Smart(sources, load).Some?
    ensures r.error == None ==> r.result == Smart(sources, load).value
    ensures r.error.Some? ==> r.result == LastTried(sources, load) && r.error.value == SmartError(sources, load)
  {
    if |sources| == 0 {
      return Loaded(NOTHING_LOADED, Some(Ascii("no valid sources discovered")));
    }
    var ordered := SortedBySelectionPreference(sources, true);
    SortedNonEmpty(sources, true);
    var lastError := None;
    var lastResult := NOTHING_LOADED;
    var rejected := [];
    for i := 0 to |ordered|
      invariant rejected == Rejections(ordered[..i], load)
      invariant TryFrom(ordered, load, i) == Smart(sources, load)
      invariant i > 0 ==> lastError.Some? && lastError == load(ordered[i - 1]).error
      invariant i > 0 ==> lastResult == load(ordered[i - 1]).result
    {
      assert ordered[..i + 1][..i] == ordered[..i];
      var attempt := load(ordered[i]);
      if attempt.error.Some? {
        lastError := attempt.error;
        lastResult := attempt.result;
        if |rejected| < MAX_LOAD_REPORT_WARNINGS {
          rejected := rejected + [Rejection(ordered[i], attempt.error.value)];
        }
        continue;
      }
      var result := attempt.result;
      result := result.(report := result.report.(authorityWarnings := rejected, stale := |rejected| > 0));
      return Loaded(result, None);
    }
    assert ordered[..|ordered|] == ordered;
    if lastError.Some? {
      lastResult := lastResult.(report := lastResult.report.(authorityWarnings := rejected));
      return Loaded(lastResult, Some(Ascii("no valid sources discovered: ") + lastError.value));
    }
    return Loaded(NOTHING_LOADED, Some(Ascii("no valid sources discovered")));
  }

  // ----- the tolerant load that is tried when no source loads

  /** What looking for a JSONL file came to: an error, or the file and what parsing it came to. */
  datatype Found = NotFound(error: Text) | JSONLFile(path: Text, parse: Parse)

  const PRIORITY_JSONL_LOCAL := 50

  function Legacy(found: Found): Loaded {
    match found
    case NotFound(error) => Loaded(NOTHING_LOADED, Some(error))
    case JSONLFile(path, parse) =>
      Loaded(
        LoadResult(
          Filter((i: Issue) => !i.tombstone, parse.issues),
          DataSource(JSONLLocal, path, PRIORITY_JSONL_LOCAL, 0, false), FileReport(path, parse)),
        parse.readError)
  }

  method LoadLegacyJSONL(found: Found) returns (r: Loaded)
    ensures r == Legacy(found)
  {
    match found {
      case NotFound(error) =>
        return Loaded(NOTHING_LOADED, Some(error));
      case JSONLFile(path, parse) =>
        var warnings := CollectWarnings(parse.warnings);
        var report := LoadReport(path, parse.valid, parse.errors, parse.skipped, warnings,
                                 |parse.warnings|, 0, [], false, TombstoneIds(parse.issues));
        var visible := VisibleIssues(parse.issues);
        return Loaded(
            LoadResult(visible, DataSource(JSONLLocal, path, PRIORITY_JSONL_LOCAL, 0, false), report),
            parse.readError);
    }
  }

  /** The tolerant load is of another file than the one that was rejected last. */
  predicate LoadsAnotherFile(legacy: LoadResult, rejected: LoadResult) {
    legacy.source.path != rejected.source.path && rejected.source.path != []
  }

  /** What is loaded when first all sources and then the tolerant load are tried. */
  function LoadedIssues(sources: seq<DataSource>, load: DataSource -> Loaded, found: Found): Loaded {
    match Smart(sources, load)
    case Some(result) => Loaded(result, None)
    case None =>
      var legacy := Legacy(found);
      if !LoadsAnotherFile(legacy.result, LastTried(sources, load)) then legacy
      else
        var reason := Ascii("source selection failed before fallback: ") + SmartError(sources, load);
        var report := legacy.result.report;
        legacy.(result := legacy.result.(report := report.(
                            stale := true, authorityWarnings := report.authorityWarnings + [reason])))
  }

  method LoadIssues(sources: seq<DataSource>, load: DataSource -> Loaded, found: Found) returns (r: Loaded)
    ensures r == LoadedIssues(sources, load, found)
  {
    var smart := LoadSmart(sources, load);
    if smart.error == None {
      return smart;
    }
    r := LoadLegacyJSONL(found);
    if r.result.source.path != smart.result.source.path && smart.result.source.path != [] {
      var reason := Ascii("source selection failed before fallback: ") + smart.error.value;
      r := r.(result := r.result.(report := r.result.report.(
                stale := true, authorityWarnings := r.result.report.authorityWarnings + [reason])));
    }
  }

  const NOTHING_LOADED :=
    LoadResult([], DataSource(Unsupported, [], 0, 0, false), LoadReport([], 0, 0, 0, [], 0, 0, [], false, []))
}
