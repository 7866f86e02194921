/** Choosing a data source: the preference order, the selection, and loading with fallback. */
module Sources {
  import opened Sequences
  import opened Sorting
  import opened Texts

  datatype SourceType = SQLite | JSONLWorktree | JSONLLocal | Unsupported

  datatype DataSource = DataSource(kind: SourceType, path: Text, priority: int, modTime: int, valid: bool)

  const SLASH: byte := 47

  const PREFERRED_JSONL_NAMES: seq<Text> :=
    [Ascii("issues.jsonl"), Ascii("beads.jsonl"), Ascii("beads.base.jsonl")]

  // ----- the preference order

  function WithoutTrailingSlashes(path: Text): Text {
    if path != [] && path[|path| - 1] == SLASH then WithoutTrailingSlashes(path[..|path| - 1]) else path
  }

  function AfterLastSlash(path: Text): Text {
    if path == [] || path[|path| - 1] == SLASH then []
    else AfterLastSlash(path[..|path| - 1]) + [path[|path| - 1]]
  }

  /** The last element of a path. */
  function BaseName(path: Text): Text {
    if path == [] then Ascii(".")
    else
      var name := AfterLastSlash(WithoutTrailingSlashes(path));
      if name == [] then [SLASH] else name
  }

  function RankFrom(name: Text, i: nat): nat
    requires i <= |PREFERRED_JSONL_NAMES|
    decreases |PREFERRED_JSONL_NAMES| - i
  {
    if i == |PREFERRED_JSONL_NAMES| then 0
    else if name == PREFERRED_JSONL_NAMES[i] then |PREFERRED_JSONL_NAMES| - i
    else RankFrom(name, i + 1)
  }

  function JsonlFilenameAuthorityRank(source: DataSource): nat {
    if source.kind == JSONLLocal || source.kind == JSONLWorktree then RankFrom(BaseName(source.path), 0) else 0
  }

  /** a comes before b. */
  predicate Preferred(preferFreshest: bool, a: DataSource, b: DataSource) {
    if preferFreshest && a.modTime != b.modTime then a.modTime > b.modTime
    else if a.priority != b.priority then a.priority > b.priority
    else if a.modTime != b.modTime then a.modTime > b.modTime
    else if JsonlFilenameAuthorityRank(a) != JsonlFilenameAuthorityRank(b)
    then JsonlFilenameAuthorityRank(a) > JsonlFilenameAuthorityRank(b)
    else Less(a.path, b.path)
  }

  /** The canonical names rank in their listed order, above every other name. */
  lemma RankOfName(name: Text)
    ensures forall i :: 0 <= i < |PREFERRED_JSONL_NAMES| && name == PREFERRED_JSONL_NAMES[i] ==>
              RankFrom(name, 0) == |PREFERRED_JSONL_NAMES| - i
    ensures name !in PREFERRED_JSONL_NAMES ==> RankFrom(name, 0) == 0
  {
  }

  /** The base name of a path is what follows its directory, trailing slashes aside. */
  lemma {:induction false} BaseNameOfPath(directory: Text, name: Text, slashes: nat)
    requires name != [] && SLASH !in name && (directory == [] || directory[|directory| - 1] == SLASH)
    ensures BaseName(directory + name + seq(slashes, _ => SLASH)) == name
    decreases slashes
  {
    var path := directory + name + seq(slashes, _ => SLASH);
    if slashes > 0 {
      BaseNameOfPath(directory, name, slashes - 1);
      assert path[..|path| - 1] == directory + name + seq(slashes - 1, _ => SLASH);
    } else {
      assert path == directory + name;
      assert name[|name| - 1] in name;
      LastElement(directory, name);
    }
  }

  lemma {:induction false} LastElement(directory: Text, name: Text)
    requires SLASH !in name && (directory == [] || directory[|directory| - 1] == SLASH)
    ensures AfterLastSlash(directory + name) == name
    decreases |name|
  {
    if name == [] {
      assert directory + name == directory;
    } else {
      var front := name[..|name| - 1];
      assert name[|name| - 1] in name && forall c :: c in front ==> c in name;
      LastElement(directory, front);
      assert (directory + name)[..|directory + name| - 1] == directory + front;
    }
  }

  function SortedBySelectionPreference(sources: seq<DataSource>, preferFreshest: bool): seq<DataSource> {
    Sort((a, b) => Preferred(preferFreshest, a, b), sources)
  }

  ghost predicate DistinctPaths(sources: seq<DataSource>) {
    forall i, j :: 0 <= i < j < |sources| ==> sources[i].path != sources[j].path
  }

  lemma PreferredTransitive(preferFreshest: bool, a: DataSource, b: DataSource, c: DataSource)
    requires Preferred(preferFreshest, a, b) && Preferred(preferFreshest, b, c)
    ensures Preferred(preferFreshest, a, c)
  {
    if Less(a.path, b.path) && Less(b.path, c.path) {
      LessTransitive(a.path, b.path, c.path);
    }
  }

  lemma PreferredTotal(preferFreshest: bool, a: DataSource, b: DataSource)
    ensures !Preferred(preferFreshest, a, a)
    ensures a.path != b.path ==> Preferred(preferFreshest, a, b) || Preferred(preferFreshest, b, a)
    ensures Preferred(preferFreshest, a, b) ==> !Preferred(preferFreshest, b, a)
  {
    LessIrreflexive(a.path);
    LessTotal(a.path, b.path);
    if Preferred(preferFreshest, a, b) && Preferred(preferFreshest, b, a) {
      PreferredTransitive(preferFreshest, a, b, a);
    }
  }

  /** Sources with distinct paths are strictly ordered by preference. */
  lemma PreferenceIsTotal(sources: seq<DataSource>, preferFreshest: bool)
    requires DistinctPaths(sources)
    ensures StrictTotalOn((a, b) => Preferred(preferFreshest, a, b), Elements(sources))
  {
    var less := (a, b) => Preferred(preferFreshest, a, b);
    forall x, y, z | x in Elements(sources) && y in Elements(sources) && z in Elements(sources)
                     && less(x, y) && less(y, z)
      ensures less(x, z)
    {
      PreferredTransitive(preferFreshest, x, y, z);
    }
    forall x, y | x in Elements(sources) && y in Elements(sources)
      ensures !less(x, x) && (x != y ==> less(x, y) || less(y, x))
    {
      PreferredTotal(preferFreshest, x, y);
      var i :| 0 <= i < |sources| && sources[i] == x;
      var j :| 0 <= j < |sources| && sources[j] == y;
    }
  }

  /** Sorting by preference is a permutation in strict order, and does not depend on the given order. */
  lemma SortedByPreference(sources: seq<DataSource>, preferFreshest: bool)
    requires DistinctPaths(sources)
    ensures var sorted := SortedBySelectionPreference(sources, preferFreshest);
            && |sorted| == |sources| && (forall s :: s in sorted <==> s in sources)
            && forall i, j :: 0 <= i < j < |sorted| ==> Preferred(preferFreshest, sorted[i], sorted[j])
  {
    var less := (a, b) => Preferred(preferFreshest, a, b);
    PreferenceIsTotal(sources, preferFreshest);
    SortSorts(less, sources);
    SortMembers(less, sources);
    var sorted := SortedBySelectionPreference(sources, preferFreshest);
    forall i, j | 0 <= i < j < |sorted| ensures Preferred(preferFreshest, sorted[i], sorted[j]) {
      assert less(sorted[i], sorted[j]);
    }
  }

  lemma SortedWhateverTheOrder(sources: seq<DataSource>, others: seq<DataSource>, preferFreshest: bool)
    requires DistinctPaths(sources) && DistinctPaths(others)
    requires forall s :: s in sources <==> s in others
    ensures SortedBySelectionPreference(sources, preferFreshest) == SortedBySelectionPreference(others, preferFreshest)
  {
    var less := (a, b) => Preferred(preferFreshest, a, b);
    PreferenceIsTotal(sources, preferFreshest);
    PreferenceIsTotal(others, preferFreshest);
    SortSorts(less, sources);
    SortSorts(less, others);
    SortMembers(less, sources);
    SortMembers(less, others);
    SameSize(sources, others);
    assert Elements(Sort(less, sources)) == Elements(sources);
    SortedUnique(less, Sort(less, sources), Sort(less, others));
  }

  lemma SortedNonEmpty(sources: seq<DataSource>, preferFreshest: bool)
    requires sources != []
    ensures SortedBySelectionPreference(sources, preferFreshest) != []
  {
  }

  // ----- selection

  datatype SelectionOptions = SelectionOptions(preferFreshest: bool, minimumValidSources: int, maxAgeDelta: int)

  const DEFAULT_SELECTION_OPTIONS := SelectionOptions(true, 1, 0)

  datatype Selection =
    | Selected(best: DataSource, candidates: seq<DataSource>)
    | NoValidSources
    | TooFewValidSources

  function ValidOnly(sources: seq<DataSource>): seq<DataSource> {
    Filter((s: DataSource) => s.valid, sources)
  }

  /** The newest modification time, at least the zero time. */
  function Newest(sources: seq<DataSource>): int {
    if sources == [] then 0
    else
      var newest := Newest(sources[..|sources| - 1]);
      var t := sources[|sources| - 1].modTime;
      if t > newest then t else newest
  }

  function NotOlderThan(cutoff: int, sources: seq<DataSource>): seq<DataSource> {
    Filter((s: DataSource) => s.modTime >= cutoff, sources)
  }

  function AgeFiltered(sources: seq<DataSource>, maxAgeDelta: int): seq<DataSource> {
    var recent := NotOlderThan(Newest(sources) - maxAgeDelta, sources);
    if maxAgeDelta > 0 && recent != [] then recent else sources
  }

  function BestSource(sources: seq<DataSource>, opts: SelectionOptions): Selection {
    var valid := ValidOnly(sources);
    if valid == [] then NoValidSources
    else if |valid| < opts.minimumValidSources then TooFewValidSources
    else
      SortedNonEmpty(valid, opts.preferFreshest);
      var candidates := AgeFiltered(SortedBySelectionPreference(valid, opts.preferFreshest), opts.maxAgeDelta);
      Selected(candidates[0], candidates)
  }

  lemma {:induction false} FilterKeepsDistinctPaths(keep: DataSource -> bool, sources: seq<DataSource>)
    requires DistinctPaths(sources)
    ensures DistinctPaths(Filter(keep, sources))
  {
    if sources != [] {
      var rest := Filter(keep, sources[1..]);
      FilterKeepsDistinctPaths(keep, sources[1..]);
      forall i | 0 <= i < |rest| ensures rest[i].path != sources[0].path {
        FilterMember(keep, sources[1..], rest[i]);
        assert rest[i] in sources[1..];
        var j :| 0 <= j < |sources[1..]| && sources[1..][j] == rest[i];
      }
    }
  }

  lemma {:induction false} NewestBounds(sources: seq<DataSource>)
    ensures forall i :: 0 <= i < |sources| ==> sources[i].modTime <= Newest(sources)
    ensures Newest(sources) == 0 || exists i :: 0 <= i < |sources| && sources[i].modTime == Newest(sources)
  {
    if sources != [] {
      NewestBounds(sources[..|sources| - 1]);
    }
  }

  /** The valid sources in preference order. */
  lemma ValidSorted(sources: seq<DataSource>, preferFreshest: bool)
    requires DistinctPaths(sources)
    ensures var sorted := SortedBySelectionPreference(ValidOnly(sources), preferFreshest);
            && (forall s :: s in sorted <==> s in sources && s.valid)
            && SortedBy((a, b) => Preferred(preferFreshest, a, b), sorted)
  {
    var keepValid := (x: DataSource) => x.valid;
    var valid := ValidOnly(sources);
    FilterKeepsDistinctPaths(keepValid, sources);
    SortedByPreference(valid, preferFreshest);
    forall s ensures s in valid <==> s in sources && s.valid {
      FilterMember(keepValid, sources, s);
    }
  }

  lemma ValidMembers(sources: seq<DataSource>, preferFreshest: bool)
    requires DistinctPaths(sources)
    ensures ListsValid(sources, SortedBySelectionPreference(ValidOnly(sources), preferFreshest))
  {
    ValidSorted(sources, preferFreshest);
  }

  /** Without an age limit, the selected source is valid and preferred to every other valid one. */
  lemma SelectionIsBest(sources: seq<DataSource>, opts: SelectionOptions, s: DataSource)
    requires DistinctPaths(sources) && BestSource(sources, opts).Selected? && opts.maxAgeDelta <= 0
    requires s in sources && s.valid
    ensures var best := BestSource(sources, opts).best;
            best in sources && best.valid && (s == best || Preferred(opts.preferFreshest, best, s))
  {
    ValidSorted(sources, opts.preferFreshest);
    FirstOfSorted(opts.preferFreshest, SortedBySelectionPreference(ValidOnly(sources), opts.preferFreshest), s);
  }

  /** By default it is the freshest, then the one of highest priority, then the most canonical name. */
  lemma DefaultSelectionIsFreshest(sources: seq<DataSource>, s: DataSource)
    requires DistinctPaths(sources) && s in sources && s.valid
    ensures BestSource(sources, DEFAULT_SELECTION_OPTIONS).Selected?
    ensures var best := BestSource(sources, DEFAULT_SELECTION_OPTIONS).best;
            && best.modTime >= s.modTime
            && (best.modTime == s.modTime ==> best.priority >= s.priority)
            && (best.modTime == s.modTime && best.priority == s.priority ==>
                  JsonlFilenameAuthorityRank(best) >= JsonlFilenameAuthorityRank(s))
            && (best.modTime == s.modTime && best.priority == s.priority ==>
                  JsonlFilenameAuthorityRank(best) == JsonlFilenameAuthorityRank(s) ==> !Less(s.path, best.path))
  {
    FilterMember((x: DataSource) => x.valid, sources, s);
    SelectionIsBest(sources, DEFAULT_SELECTION_OPTIONS, s);
    LessAsymmetric(BestSource(sources, DEFAULT_SELECTION_OPTIONS).best.path, s.path);
  }

  /** Otherwise priority comes first and freshness second. */
  lemma SelectionByPriority(sources: seq<DataSource>, opts: SelectionOptions, s: DataSource)
    requires DistinctPaths(sources) && s in sources && s.valid
    requires BestSource(sources, opts).Selected? && opts.maxAgeDelta <= 0 && !opts.preferFreshest
    ensures var best := BestSource(sources, opts).best;
            best.priority >= s.priority && (best.priority == s.priority ==> best.modTime >= s.modTime)
  {
    SelectionIsBest(sources, opts, s);
  }

  /** The last element of a path, by how the path is put together. */
  ghost predicate Named(path: Text, name: Text) {
    exists directory: Text, slashes: nat :: NamedIn(path, directory, name, slashes)
  }

  predicate NamedIn(path: Text, directory: Text, name: Text, slashes: nat) {
    && name != [] && SLASH !in name
    && (directory == [] || directory[|directory| - 1] == SLASH)
    && path == directory + name + seq(slashes, _ => SLASH)
  }

  /** The current export name comes first, then the older one, then its base, then any other name. */
  predicate MoreCanonical(x: Text, y: Text) {
    var issues, beads, base := Ascii("issues.jsonl"), Ascii("beads.jsonl"), Ascii("beads.base.jsonl");
    || (x == issues && y != issues)
    || (x == beads && y !in {issues, beads})
    || (x == base && y !in {issues, beads, base})
  }

  predicate IsJSONL(s: DataSource) {
    s.kind == JSONLLocal || s.kind == JSONLWorktree
  }

  lemma RankIsCanonical(x: Text, y: Text)
    requires MoreCanonical(x, y)
    ensures RankFrom(x, 0) > RankFrom(y, 0)
  {
    RankOfName(x);
    RankOfName(y);
    assert |Ascii("issues.jsonl")| == 12 && |Ascii("beads.jsonl")| == 11 && |Ascii("beads.base.jsonl")| == 16;
    assert PREFERRED_JSONL_NAMES[0] == Ascii("issues.jsonl") && PREFERRED_JSONL_NAMES[1] == Ascii("beads.jsonl");
    assert PREFERRED_JSONL_NAMES[2] == Ascii("beads.base.jsonl");
  }

  lemma RankOfNamed(s: DataSource, name: Text)
    requires IsJSONL(s) && Named(s.path, name)
    ensures JsonlFilenameAuthorityRank(s) == RankFrom(name, 0)
  {
    var directory: Text, slashes: nat :| NamedIn(s.path, directory, name, slashes);
    BaseNameOfPath(directory, name, slashes);
  }

  /** Of two JSONL files of the same time and priority, the one with the less canonical name is not selected;
      nor is another kind of source when there is such a file with a canonical name. */
  lemma CanonicalNameSelected(
    sources: seq<DataSource>, opts: SelectionOptions, a: DataSource, x: Text, b: DataSource, y: Text)
    requires DistinctPaths(sources) && a in sources && b in sources && a.valid && b.valid
    requires BestSource(sources, opts).Selected? && opts.maxAgeDelta <= 0
    requires a.modTime == b.modTime && a.priority == b.priority
    requires IsJSONL(a) && Named(a.path, x) && (IsJSONL(b) ==> Named(b.path, y)) && MoreCanonical(x, y)
    ensures BestSource(sources, opts).best != b
  {
    RankIsCanonical(x, y);
    RankOfNamed(a, x);
    if IsJSONL(b) {
      RankOfNamed(b, y);
    }
    assert Preferred(opts.preferFreshest, a, b);
    SelectionIsBest(sources, opts, a);
    PreferredTotal(opts.preferFreshest, a, b);
  }

  ghost function ValidPlaces(sources: seq<DataSource>): set<int> {
    set i | 0 <= i < |sources| && sources[i].valid
  }

  /** How the selection ends, by the number of valid sources. */
  lemma SelectionOutcome(sources: seq<DataSource>, opts: SelectionOptions)
    ensures var valid := |ValidPlaces(sources)|;
            && (BestSource(sources, opts) == NoValidSources <==> valid == 0)
            && (BestSource(sources, opts) == TooFewValidSources <==> 0 < valid < opts.minimumValidSources)
  {
    var keepValid := (s: DataSource) => s.valid;
    FilterSize(keepValid, sources);
    assert ValidPlaces(sources) == Places(keepValid, sources);
  }

  /** A valid source is recent when it is at most maxAgeDelta older than every valid source and than the zero time. */
  ghost predicate Recent(sources: seq<DataSource>, maxAgeDelta: int, s: DataSource) {
    && s in sources && s.valid && s.modTime + maxAgeDelta >= 0
    && forall t :: t in sources && t.valid ==> s.modTime + maxAgeDelta >= t.modTime
  }

  ghost predicate AnyRecent(sources: seq<DataSource>, maxAgeDelta: int) {
    exists t :: Recent(sources, maxAgeDelta, t)
  }

  lemma NotOlderIsRecent(sources: seq<DataSource>, sorted: seq<DataSource>, maxAgeDelta: int, t: DataSource)
    requires ListsValid(sources, sorted)
    ensures t in NotOlderThan(Newest(sorted) - maxAgeDelta, sorted) <==> Recent(sources, maxAgeDelta, t)
  {
    var cutoff := Newest(sorted) - maxAgeDelta;
    FilterMember((x: DataSource) => x.modTime >= cutoff, sorted, t);
    RecentIsNotOlder(sources, sorted, maxAgeDelta, t);
  }

  lemma AnyNotOlderIsRecent(sources: seq<DataSource>, sorted: seq<DataSource>, maxAgeDelta: int)
    requires ListsValid(sources, sorted)
    ensures NotOlderThan(Newest(sorted) - maxAgeDelta, sorted) != []
            <==> AnyRecent(sources, maxAgeDelta)
  {
    var recent := NotOlderThan(Newest(sorted) - maxAgeDelta, sorted);
    if recent != [] {
      assert recent[0] in recent;
      NotOlderIsRecent(sources, sorted, maxAgeDelta, recent[0]);
    } else {
      forall t ensures !Recent(sources, maxAgeDelta, t) {
        NotOlderIsRecent(sources, sorted, maxAgeDelta, t);
      }
    }
  }

  /** A valid source, and under an age limit a recent one if there are any. */
  ghost predicate IsCandidate(sources: seq<DataSource>, maxAgeDelta: int, s: DataSource) {
    && s in sources && s.valid
    && (maxAgeDelta > 0 && AnyRecent(sources, maxAgeDelta) ==> Recent(sources, maxAgeDelta, s))
  }

  ghost predicate ListsValid(sources: seq<DataSource>, sorted: seq<DataSource>) {
    forall t :: t in sorted <==> t in sources && t.valid
  }

  lemma AgeFilteredAreCandidates(sources: seq<DataSource>, sorted: seq<DataSource>, maxAgeDelta: int, s: DataSource)
    requires ListsValid(sources, sorted)
    ensures s in AgeFiltered(sorted, maxAgeDelta) <==> IsCandidate(sources, maxAgeDelta, s)
  {
    NotOlderIsRecent(sources, sorted, maxAgeDelta, s);
    AnyNotOlderIsRecent(sources, sorted, maxAgeDelta);
    assert s in sorted <==> s in sources && s.valid;
  }

  lemma CandidatesAreRecent(sources: seq<DataSource>, opts: SelectionOptions, s: DataSource)
    requires DistinctPaths(sources) && BestSource(sources, opts).Selected?
    ensures s in BestSource(sources, opts).candidates <==> IsCandidate(sources, opts.maxAgeDelta, s)
  {
    ValidMembers(sources, opts.preferFreshest);
    var sorted := SortedBySelectionPreference(ValidOnly(sources), opts.preferFreshest);
    AgeFilteredAreCandidates(sources, sorted, opts.maxAgeDelta, s);
  }

  lemma RecentIsNotOlder(sources: seq<DataSource>, sorted: seq<DataSource>, maxAgeDelta: int, t: DataSource)
    requires ListsValid(sources, sorted)
    ensures t in sorted && t.modTime >= Newest(sorted) - maxAgeDelta <==> Recent(sources, maxAgeDelta, t)
  {
    NewestBounds(sorted);
    if Newest(sorted) != 0 {
      var i :| 0 <= i < |sorted| && sorted[i].modTime == Newest(sorted);
      assert sorted[i] in sorted;
    }
    NewestIsNat(sorted);
  }

  lemma {:induction false} NewestIsNat(sources: seq<DataSource>)
    ensures Newest(sources) >= 0
  {
    if sources != [] {
      NewestIsNat(sources[..|sources| - 1]);
    }
  }

  /** With one, it is recent if any valid source is, and preferred to every other recent valid one. */
  lemma SelectionIsBestAmongRecent(sources: seq<DataSource>, opts: SelectionOptions, s: DataSource)
    requires DistinctPaths(sources) && BestSource(sources, opts).Selected? && opts.maxAgeDelta > 0
    requires s in sources && s.valid
    ensures var best := BestSource(sources, opts).best;
            var newest := Newest(SortedBySelectionPreference(ValidOnly(sources), opts.preferFreshest));
            var cutoff := newest - opts.maxAgeDelta;
            && best in sources && best.valid
            && (s.modTime >= cutoff ==>
                  best.modTime >= cutoff && (s == best || Preferred(opts.preferFreshest, best, s)))
  {
    ValidSorted(sources, opts.preferFreshest);
    FirstOfRecent(SortedBySelectionPreference(ValidOnly(sources), opts.preferFreshest), opts, s);
  }

  lemma FirstOfRecent(sorted: seq<DataSource>, opts: SelectionOptions, s: DataSource)
    requires SortedBy((a, b) => Preferred(opts.preferFreshest, a, b), sorted)
    requires s in sorted && opts.maxAgeDelta > 0
    ensures var candidates, cutoff := AgeFiltered(sorted, opts.maxAgeDelta), Newest(sorted) - opts.maxAgeDelta;
            && candidates != [] && candidates[0] in sorted
            && (s.modTime >= cutoff ==>
                  candidates[0].modTime >= cutoff
                  && (s == candidates[0] || Preferred(opts.preferFreshest, candidates[0], s)))
  {
    var cutoff := Newest(sorted) - opts.maxAgeDelta;
    var recently := (x: DataSource) => x.modTime >= cutoff;
    var recent := NotOlderThan(cutoff, sorted);
    FilterSorted((a, b) => Preferred(opts.preferFreshest, a, b), recently, sorted);
    FilterMember(recently, sorted, s);
    FirstOfSorted(opts.preferFreshest, recent, s);
    if recent != [] {
      FilterMember(recently, sorted, recent[0]);
    }
  }

  lemma FirstOfSorted(preferFreshest: bool, sorted: seq<DataSource>, s: DataSource)
    requires SortedBy((a, b) => Preferred(preferFreshest, a, b), sorted)
    ensures sorted != [] ==> sorted[0] in sorted
    ensures s in sorted ==> s == sorted[0] || Preferred(preferFreshest, sorted[0], s)
  {
  }

  /** When freshness comes first, the age limit never changes which source is selected. */
  lemma AgeLimitIsIdleWhenFreshestFirst(sources: seq<DataSource>, opts: SelectionOptions)
    requires DistinctPaths(sources) && opts.preferFreshest
    ensures BestSource(sources, opts).Selected? ==>
              BestSource(sources, opts).best == BestSource(sources, opts.(maxAgeDelta := 0)).best
  {
    if ValidOnly(sources) != [] {
      SortedNonEmpty(ValidOnly(sources), true);
      FilterKeepsDistinctPaths((x: DataSource) => x.valid, sources);
      SortedByPreference(ValidOnly(sources), true);
      FirstStaysFirst(SortedBySelectionPreference(ValidOnly(sources), true), opts.maxAgeDelta);
    }
  }

  lemma FirstStaysFirst(sorted: seq<DataSource>, maxAgeDelta: int)
    requires sorted != []
    requires forall i, j :: 0 <= i < j < |sorted| ==> Preferred(true, sorted[i], sorted[j])
    ensures AgeFiltered(sorted, maxAgeDelta) != [] && AgeFiltered(sorted, maxAgeDelta)[0] == sorted[0]
  {
    var cutoff := Newest(sorted) - maxAgeDelta;
    if sorted[0].modTime < cutoff {
      forall i | 0 <= i < |sorted| ensures sorted[i].modTime < cutoff {
        assert i > 0 ==> Preferred(true, sorted[0], sorted[i]);
      }
      NothingKept((x: DataSource) => x.modTime >= cutoff, sorted);
    }
  }

  lemma {:induction false} NothingKept(keep: DataSource -> bool, sources: seq<DataSource>)
    requires forall i :: 0 <= i < |sources| ==> !keep(sources[i])
    ensures Filter(keep, sources) == []
  {
    if sources != [] {
      NothingKept(keep, sources[1..]);
    }
  }

  method NewestModTime(sources: seq<DataSource>) returns (newest: int)
    ensures newest == Newest(sources)
  {
    newest := 0;
    for i := 0 to |sources|
      invariant newest == Newest(sources[..i])
    {
      assert sources[..i + 1][..i] == sources[..i];
      if sources[i].modTime > newest {
        newest := sources[i].modTime;
      }
    }
    assert sources[..|sources|] == sources;
  }

  method SelectBestSourceDetailed(sources: seq<DataSource>, opts: SelectionOptions) returns (r: Selection)
    ensures r == BestSource(sources, opts)
  {
    var valid := [];
    for i := 0 to |sources|
      invariant valid == ValidOnly(sources[..i])
    {
      assert sources[..i + 1] == sources[..i] + [sources[i]];
      FilterPush((s: DataSource) => s.valid, sources[..i], sources[i]);
      if sources[i].valid {
        valid := valid + [sources[i]];
      }
    }
    assert sources[..|sources|] == sources;
    if |valid| == 0 {
      return NoValidSources;
    }
    if |valid| < opts.minimumValidSources {
      return TooFewValidSources;
    }
    SortedNonEmpty(valid, opts.preferFreshest);
    valid := SortedBySelectionPreference(valid, opts.preferFreshest);
    if opts.maxAgeDelta > 0 && |valid| > 0 {
      var newest := NewestModTime(valid);
      var filtered := KeepRecent(valid, newest - opts.maxAgeDelta);
      if |filtered| > 0 {
        valid := filtered;
      }
    }
    return Selected(valid[0], valid);
  }

  method KeepRecent(sources: seq<DataSource>, cutoff: int) returns (filtered: seq<DataSource>)
    ensures filtered == NotOlderThan(cutoff, sources)
  {
    filtered := [];
    for i := 0 to |sources|
      invariant filtered == NotOlderThan(cutoff, sources[..i])
    {
      assert sources[..i + 1] == sources[..i] + [sources[i]];
      FilterPush((s: DataSource) => s.modTime >= cutoff, sources[..i], sources[i]);
      if sources[i].modTime > cutoff || sources[i].modTime == cutoff {
        filtered := filtered + [sources[i]];
      }
    }
    assert sources[..|sources|] == sources;
  }
}
